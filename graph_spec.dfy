/**
 * The graph store's operations as functions on the layer storage. Each
 * mutating method of `Graph.NeuralGraph` is proved to leave its `layers`
 * equal to one of these functions of the old value; the properties of the
 * store are stated here, as contracts and lemmas.
 */
module GraphSpec {
  import opened Wrappers
  import opened NetTypes

  // ---------------------------------------------------------------------
  // Lookup
  // ---------------------------------------------------------------------

  /** `get_node`: the node at `loc`, or none when either index is out of range. */
  function GetNode(g: Layers, loc: Location): (r: Option<GraphNode>)
    ensures r.None? <==> !ValidLoc(g, loc)
    ensures r.Some? ==> r.value == g[loc.layer][loc.node]
  {
    if loc.layer < |g| && loc.node < |g[loc.layer]| then Some(g[loc.layer][loc.node]) else None
  }

  /** The position of the first connection that targets `to`, as `iter().find` scans. */
  function FindEdgeIndex(conns: seq<GraphEdge>, to: Location): (r: Option<nat>)
    ensures r.None? <==> !HasTarget(conns, to)
    ensures r.Some? ==> r.value < |conns| && conns[r.value].to == to
    ensures r.Some? ==> forall j :: 0 <= j < r.value ==> conns[j].to != to
    decreases |conns|
  {
    if |conns| == 0 then None
    else if conns[0].to == to then Some(0)
    else
      match FindEdgeIndex(conns[1..], to)
      case None =>
        assert forall k :: 1 <= k < |conns| ==> conns[k] == conns[1..][k - 1];
        None
      case Some(i) => Some(i + 1)
  }

  /** `get_edge`: the first edge of `from` that targets `to`. The source indexes `from` directly. */
  function GetEdge(g: Layers, from: Location, to: Location): (r: Option<GraphEdge>)
    requires ValidLoc(g, from)
    ensures r.None? <==> !HasTarget(NodeAt(g, from).connections, to)
    ensures r.Some? ==> r.value.to == to && r.value in NodeAt(g, from).connections
  {
    var conns := NodeAt(g, from).connections;
    match FindEdgeIndex(conns, to)
    case None => None
    case Some(i) => Some(conns[i])
  }

  // ---------------------------------------------------------------------
  // Insertion
  // ---------------------------------------------------------------------

  /** Replace the node at `loc`. */
  function SetNode(g: Layers, loc: Location, node: GraphNode): (r: Layers)
    requires ValidLoc(g, loc)
    ensures |r| == |g| && forall l :: 0 <= l < |g| ==> |r[l]| == |g[l]|
  {
    g[loc.layer := g[loc.layer][loc.node := node]]
  }

  /**
   * `add_node`: append to layer `layerNum`. A layer number past the end is
   * `LayerNotFound(len)`; a layer number equal to the length passes the guard
   * and the source's `unwrap` panics, so callers must avoid it.
   */
  function AddNode(g: Layers, layerNum: nat, node: GraphNode): (r: Result<(Layers, Location), GraphError>)
    requires layerNum != |g|
    ensures r.Err? <==> layerNum > |g|
    ensures r.Err? ==> r.error == LayerNotFound(|g|)
    ensures r.Ok? ==> var (h, loc) := r.value;
      && |h| == |g|
      && h[layerNum] == g[layerNum] + [node]
      && loc == Location(layerNum, |h[layerNum]| - 1)
      && (forall l :: 0 <= l < |g| && l != layerNum ==> h[l] == g[l])
  {
    if layerNum > |g| then Err(LayerNotFound(|g|))
    else
      var layer := g[layerNum] + [node];
      Ok((g[layerNum := layer], Location(layerNum, |layer| - 1)))
  }

  /** The location `add_node` returns holds the node it was given. */
  lemma AddNodeThenGet(g: Layers, layerNum: nat, node: GraphNode)
    requires layerNum < |g|
    ensures AddNode(g, layerNum, node).Ok?
    ensures GetNode(AddNode(g, layerNum, node).value.0, AddNode(g, layerNum, node).value.1) == Some(node)
  {
  }

  /**
   * `add_edge`: `to` is checked before `from`; the first missing endpoint is
   * `NodeNotFound`; an existing (from, to) edge is `ConnectionExists`;
   * otherwise exactly one edge is appended to `from`'s list.
   */
  function AddEdge(g: Layers, from: Location, to: Location, value: Edge): (r: Result<Layers, GraphError>)
    ensures !ValidLoc(g, to) ==> r == Err(NodeNotFound(to))
    ensures ValidLoc(g, to) && !ValidLoc(g, from) ==> r == Err(NodeNotFound(from))
    ensures ValidLoc(g, to) && ValidLoc(g, from) ==>
      (r.Err? <==> HasTarget(NodeAt(g, from).connections, to))
    ensures r.Err? && ValidLoc(g, to) && ValidLoc(g, from) ==> r.error == ConnectionExists(from, to)
    ensures r.Ok? ==> (ValidLoc(g, from) && ValidLoc(g, to) &&
      r.value == SetNode(g, from, GraphNode(NodeAt(g, from).value, NodeAt(g, from).connections + [GraphEdge(to, value)])))
  {
    if GetNode(g, to).None? then Err(NodeNotFound(to))
    else if GetNode(g, from).None? then Err(NodeNotFound(from))
    else
      var node := NodeAt(g, from);
      if FindEdgeIndex(node.connections, to).Some? then Err(ConnectionExists(from, to))
      else Ok(SetNode(g, from, GraphNode(node.value, node.connections + [GraphEdge(to, value)])))
  }

  /** A successful `add_edge` keeps at most one edge per (from, to) pair. */
  lemma AddEdgeKeepsUnique(g: Layers, from: Location, to: Location, value: Edge)
    requires UniqueEdges(g) && AddEdge(g, from, to, value).Ok?
    ensures UniqueEdges(AddEdge(g, from, to, value).value)
  {
    var h: Layers := AddEdge(g, from, to, value).value;
    var old_conns := NodeAt(g, from).connections;
    forall l, n, i, j | 0 <= l < |h| && 0 <= n < |h[l]| && 0 <= i < j < |h[l][n].connections|
      ensures h[l][n].connections[i].to != h[l][n].connections[j].to
    {
      if l == from.layer && n == from.node {
        if j == |old_conns| {
          assert h[l][n].connections[i] == old_conns[i];
        } else {
          assert h[l][n].connections[i].to == g[l][n].connections[i].to;
        }
      } else {
        assert h[l][n] == g[l][n];
      }
    }
  }

  /** A successful `add_edge` of a forward edge keeps every edge forward. */
  lemma AddEdgeKeepsForward(g: Layers, from: Location, to: Location, value: Edge)
    requires ForwardOrdered(g) && from.layer < to.layer && AddEdge(g, from, to, value).Ok?
    ensures ForwardOrdered(AddEdge(g, from, to, value).value)
  {
    var h: Layers := AddEdge(g, from, to, value).value;
    forall l, n, k | 0 <= l < |h| && 0 <= n < |h[l]| && 0 <= k < |h[l][n].connections|
      ensures l < h[l][n].connections[k].to.layer
    {
      if l == from.layer && n == from.node && k < |g[l][n].connections| {
        assert h[l][n].connections[k] == g[l][n].connections[k];
      } else if l != from.layer || n != from.node {
        assert h[l][n] == g[l][n];
      }
    }
  }

  /** A successful `add_edge` targets an existing node, so no edge dangles afterwards. */
  lemma AddEdgeKeepsInRange(g: Layers, from: Location, to: Location, value: Edge)
    requires EdgesInRange(g) && AddEdge(g, from, to, value).Ok?
    ensures EdgesInRange(AddEdge(g, from, to, value).value)
  {
    var h: Layers := AddEdge(g, from, to, value).value;
    forall l, n, k | 0 <= l < |h| && 0 <= n < |h[l]| && 0 <= k < |h[l][n].connections|
      ensures ValidLoc(h, h[l][n].connections[k].to)
    {
      if l == from.layer && n == from.node && k < |g[l][n].connections| {
        assert h[l][n].connections[k] == g[l][n].connections[k];
      } else if l != from.layer || n != from.node {
        assert h[l][n] == g[l][n];
      }
    }
  }

  // ---------------------------------------------------------------------
  // Removal
  // ---------------------------------------------------------------------

  /** `retain(|x| !x.to.eq(to))`: the connections that do not target `to`, in order. */
  function RetainNot(conns: seq<GraphEdge>, to: Location): (r: seq<GraphEdge>)
    ensures |r| <= |conns|
    ensures forall e :: e in r <==> e in conns && e.to != to
    ensures |r| == |conns| <==> !HasTarget(conns, to)
    decreases |conns|
  {
    if |conns| == 0 then []
    else
      var rest := RetainNot(conns[1..], to);
      assert forall k :: 1 <= k < |conns| ==> conns[k] == conns[1..][k - 1];
      if conns[0].to == to then rest else [conns[0]] + rest
  }

  /** Removing the edges to `to` from a list none of whose edges targeted it changes nothing. */
  lemma {:induction false} RetainNotNoTarget(conns: seq<GraphEdge>, to: Location)
    requires !HasTarget(conns, to)
    ensures RetainNot(conns, to) == conns
    decreases |conns|
  {
    if |conns| > 0 {
      assert !HasTarget(conns[1..], to) by {
        assert forall k :: 0 <= k < |conns| - 1 ==> conns[1..][k] == conns[k + 1];
      }
      RetainNotNoTarget(conns[1..], to);
    }
  }

  /** Retaining distributes over concatenation. */
  lemma {:induction false} RetainNotAppend(a: seq<GraphEdge>, b: seq<GraphEdge>, to: Location)
    ensures RetainNot(a + b, to) == RetainNot(a, to) + RetainNot(b, to)
    decreases |a|
  {
    if |a| > 0 {
      assert (a + b)[1..] == a[1..] + b;
      RetainNotAppend(a[1..], b, to);
    } else {
      assert a + b == b;
    }
  }

  /**
   * `remove_edge`: drop every edge of `from` that targets `to`. The flag is the
   * source's `len() == before`: true exactly when nothing was removed.
   */
  function RemoveEdge(g: Layers, from: Location, to: Location): (r: (Layers, bool))
    requires ValidLoc(g, from)
    ensures r.1 <==> !HasTarget(NodeAt(g, from).connections, to)
    ensures r.0 == SetNode(g, from, GraphNode(NodeAt(g, from).value, RetainNot(NodeAt(g, from).connections, to)))
  {
    var node := NodeAt(g, from);
    var kept := RetainNot(node.connections, to);
    (SetNode(g, from, GraphNode(node.value, kept)), |kept| == |node.connections|)
  }

  /** Adding a new edge and then removing it restores the graph: the roll-back of the edge-adding mutation. */
  lemma AddThenRemoveEdge(g: Layers, from: Location, to: Location, value: Edge)
    requires AddEdge(g, from, to, value).Ok?
    ensures ValidLoc(AddEdge(g, from, to, value).value, from)
    ensures RemoveEdge(AddEdge(g, from, to, value).value, from, to) == (g, false)
  {
    var h: Layers := AddEdge(g, from, to, value).value;
    var conns := NodeAt(g, from).connections;
    RetainNotAppend(conns, [GraphEdge(to, value)], to);
    RetainNotNoTarget(conns, to);
    assert RetainNot([GraphEdge(to, value)], to) == [];
    assert NodeAt(h, from).connections == conns + [GraphEdge(to, value)];
    assert NodeAt(h, from).connections[|conns|].to == to;
    assert HasTarget(NodeAt(h, from).connections, to);
    assert RetainNot(conns, to) + [] == conns;
    assert RetainNot(NodeAt(h, from).connections, to) == conns;
    assert h[from.layer][from.node := g[from.layer][from.node]] == g[from.layer];
    assert SetNode(h, from, GraphNode(NodeAt(g, from).value, conns)) == g;
  }

  /** Each node keeps only the edges that do not target `t`. */
  function DropTargetLayer(layer: seq<GraphNode>, t: Location): (r: seq<GraphNode>)
    ensures |r| == |layer|
    ensures forall n :: 0 <= n < |layer| ==>
      r[n] == GraphNode(layer[n].value, RetainNot(layer[n].connections, t))
  {
    seq(|layer|, n requires 0 <= n < |layer| => GraphNode(layer[n].value, RetainNot(layer[n].connections, t)))
  }

  /**
   * `removed_node`: delete the slot, then drop every edge in the graph that
   * targets that location. Edges to later nodes of the same layer keep their
   * old indices.
   */
  function RemovedNode(g: Layers, loc: Location): (r: Layers)
    requires ValidLoc(g, loc)
    ensures |r| == |g|
    ensures |r[loc.layer]| == |g[loc.layer]| - 1
  {
    var h := g[loc.layer := g[loc.layer][..loc.node] + g[loc.layer][loc.node + 1..]];
    seq(|h|, l requires 0 <= l < |h| => DropTargetLayer(h[l], loc))
  }

  /** After `removed_node` no edge targets the removed location, and every edge left was there before. */
  lemma RemovedNodeDropsTarget(g: Layers, loc: Location)
    requires ValidLoc(g, loc)
    ensures var r: Layers := RemovedNode(g, loc);
      forall l, n, k :: 0 <= l < |r| && 0 <= n < |r[l]| && 0 <= k < |r[l][n].connections| ==>
        r[l][n].connections[k].to != loc
    ensures var r: Layers := RemovedNode(g, loc);
      forall l, n :: 0 <= l < |r| && 0 <= n < |r[l]| ==>
        var src := if l == loc.layer && n >= loc.node then n + 1 else n;
        r[l][n].value == g[l][src].value &&
        forall e :: e in r[l][n].connections <==> e in g[l][src].connections && e.to != loc
  {
    var r: Layers := RemovedNode(g, loc);
    forall l, n, k | 0 <= l < |r| && 0 <= n < |r[l]| && 0 <= k < |r[l][n].connections|
      ensures r[l][n].connections[k].to != loc
    {
      assert r[l][n].connections[k] in r[l][n].connections;
    }
  }
}
