/**
 * `NeuralGraph`: the layer storage as an object whose methods edit it in
 * place. Each method's postcondition is the function of the old storage that
 * the value-level modules define and reason about.
 */
module Graph {
  import opened Wrappers
  import opened NetTypes
  import GraphSpec
  import GraphLayers
  import Reach
  import CycleSearch

  /** `has_cycle`'s start: the given location, or (0, 0) by default. */
  function StartOf(startFrom: Option<Location>): Location {
    if startFrom.Some? then startFrom.value else Location(0, 0)
  }

  /** Every existing location: a finite bound on what the search can visit. */
  ghost function AllLocs(g: Layers): (r: set<Location>)
    ensures forall loc :: loc in r <==> ValidLoc(g, loc)
  {
    set l, n | 0 <= l < |g| && 0 <= n < |g[l]| :: Location(l, n)
  }

  /** Visiting one more existing location shrinks what is left to visit. */
  lemma VisitOneMore(g: Layers, visited: set<Location>, loc: Location)
    requires visited <= AllLocs(g) && ValidLoc(g, loc) && loc !in visited
    ensures visited + {loc} <= AllLocs(g)
    ensures |AllLocs(g) - (visited + {loc})| < |AllLocs(g) - visited|
  {
    assert AllLocs(g) - (visited + {loc}) == (AllLocs(g) - visited) - {loc};
  }

  /** The inner loop of `has_cycle`: push the target of each connection, in order. */
  method PushTargets(stack: seq<Location>, conns: seq<GraphEdge>) returns (r: seq<Location>)
    ensures r == stack + Targets(conns)
  {
    r := stack;
    for k := 0 to |conns|
      invariant r == stack + Targets(conns)[..k]
    {
      r := r + [conns[k].to];
    }
    assert Targets(conns)[..|conns|] == Targets(conns);
  }

  class NeuralGraph {
    var layers: Layers

    constructor ()
      ensures layers == []
    {
      layers := [];
    }

    /** `add_layer_to_end`: push an empty layer and return its index. */
    method AddLayerToEnd() returns (idx: nat)
      modifies this
      ensures layers == old(layers) + [[]]
      ensures idx == |layers| - 1
    {
      layers := layers + [[]];
      idx := |layers| - 1;
    }

    /** `add_node`; the source panics when `layerNum` equals the number of layers. */
    method AddNode(layerNum: nat, node: GraphNode) returns (r: Result<Location, GraphError>)
      requires layerNum != |layers|
      modifies this
      ensures var s := GraphSpec.AddNode(old(layers), layerNum, node);
        && (s.Err? ==> r == Err(s.error) && layers == old(layers))
        && (s.Ok? ==> r == Ok(s.value.1) && layers == s.value.0)
    {
      if layerNum > |layers| {
        return Err(LayerNotFound(|layers|));
      }
      layers := layers[layerNum := layers[layerNum] + [node]];
      r := Ok(Location(layerNum, |layers[layerNum]| - 1));
    }

    /** `add_edge`: on failure nothing changes. */
    method AddEdge(from: Location, to: Location, value: Edge) returns (r: Result<(), GraphError>)
      modifies this
      ensures var s := GraphSpec.AddEdge(old(layers), from, to, value);
        && (s.Err? ==> r == Err(s.error) && layers == old(layers))
        && (s.Ok? ==> r == Ok(()) && layers == s.value)
    {
      if GraphSpec.GetNode(layers, to).None? {
        return Err(NodeNotFound(to));
      }
      if GraphSpec.GetNode(layers, from).None? {
        return Err(NodeNotFound(from));
      }
      var node := layers[from.layer][from.node];
      if GraphSpec.FindEdgeIndex(node.connections, to).Some? {
        return Err(ConnectionExists(from, to));
      }
      layers := layers[from.layer := layers[from.layer][from.node := GraphNode(node.value, node.connections + [GraphEdge(to, value)])]];
      r := Ok(());
    }

    /** `remove_edge`; the source indexes `from` directly and panics when it does not exist. */
    method RemoveEdge(from: Location, to: Location) returns (nothingRemoved: bool)
      requires ValidLoc(layers, from)
      modifies this
      ensures (layers, nothingRemoved) == GraphSpec.RemoveEdge(old(layers), from, to)
    {
      var node := layers[from.layer][from.node];
      var before := |node.connections|;
      var kept := GraphSpec.RetainNot(node.connections, to);
      layers := layers[from.layer := layers[from.layer][from.node := GraphNode(node.value, kept)]];
      nothingRemoved := |kept| == before;
    }

    /** `removed_node`: remove the slot, then filter the edges of every layer in turn. */
    method RemovedNode(remove: Location)
      requires ValidLoc(layers, remove)
      modifies this
      ensures layers == GraphSpec.RemovedNode(old(layers), remove)
    {
      layers := layers[remove.layer := layers[remove.layer][..remove.node] + layers[remove.layer][remove.node + 1..]];
      ghost var h := layers;
      for l := 0 to |layers|
        invariant |layers| == |h|
        invariant forall i :: 0 <= i < l ==> layers[i] == GraphSpec.DropTargetLayer(h[i], remove)
        invariant forall i :: l <= i < |h| ==> layers[i] == h[i]
      {
        layers := layers[l := GraphSpec.DropTargetLayer(layers[l], remove)];
      }
    }

    /** One round of `add_layer`'s loop: insert an empty layer at `idx`, then shift every target at or after it. */
    method InsertEmptyLayer(idx: nat)
      requires idx <= |layers|
      modifies this
      ensures layers == GraphLayers.InsertLayers(old(layers), idx, 1)
    {
      ghost var g := layers;
      layers := layers[..idx] + [[]] + layers[idx..];
      ghost var h := layers;
      for l := 0 to |layers|
        invariant |layers| == |h|
        invariant forall i :: 0 <= i < l ==> layers[i] == GraphLayers.MapLayerEdges(h[i], GraphLayers.Shift(idx, 1))
        invariant forall i :: l <= i < |h| ==> layers[i] == h[i]
      {
        layers := layers[l := GraphLayers.MapLayerEdges(layers[l], GraphLayers.Shift(idx, 1))];
      }
      ghost var r := GraphLayers.InsertLayers(g, idx, 1);
      forall i | 0 <= i < |layers| ensures layers[i] == r[i] {
        if i > idx {
          assert h[i] == g[i - 1];
        }
      }
    }

    /**
     * `add_layer`: insert an empty layer at `idx` and shift every edge target
     * at or after `idx`, once, and again while `idx > len - 2`.
     */
    method AddLayer(idx: nat)
      requires |layers| >= 2 && idx <= |layers|
      modifies this
      ensures layers == GraphLayers.AddLayer(old(layers), idx)
    {
      // The source's `first` flag makes its loop a do-while: one round, then more while `idx > len - 2`.
      ghost var g := layers;
      InsertEmptyLayer(idx);
      ghost var rounds := 1;
      while idx > |layers| - 2
        invariant 1 <= rounds <= 2 && |layers| == |g| + rounds
        invariant layers == GraphLayers.InsertLayers(g, idx, rounds)
        invariant rounds == 2 ==> idx == |g|
        decreases 2 - rounds
      {
        InsertEmptyLayer(idx);
        GraphLayers.InsertTwice(g, idx);
        rounds := rounds + 1;
      }
    }

    /** `push_node_at`: append to an existing layer; the same effect as a successful `add_node`. */
    method PushNodeAt(layer: nat, value: Node) returns (loc: Location)
      requires layer < |layers|
      modifies this
      ensures layers == old(layers)[layer := old(layers)[layer] + [NewNode(value)]]
      ensures loc == Location(layer, |layers[layer]| - 1)
      ensures GraphSpec.AddNode(old(layers), layer, NewNode(value)) == Ok((layers, loc))
    {
      layers := layers[layer := layers[layer] + [NewNode(value)]];
      loc := Location(layer, |layers[layer]| - 1);
    }

    /** `create_node_at`: `add_layer`, pad with placeholders, then insert at `loc.node`. */
    method CreateNodeAt(loc: Location, value: Node)
      requires |layers| >= 2 && loc.layer <= |layers|
      modifies this
      ensures layers == GraphLayers.CreateNodeAt(old(layers), loc, value)
    {
      ghost var g := layers;
      AddLayer(loc.layer);
      ghost var h := layers;
      assert layers[loc.layer] == [];
      while loc.node > |layers[loc.layer]|
        invariant |layers| == |h| && loc.layer < |layers|
        invariant layers[loc.layer] == seq(|layers[loc.layer]|, _ => BlankNode)
        invariant |layers[loc.layer]| <= loc.node
        invariant forall l :: 0 <= l < |h| && l != loc.layer ==> layers[l] == h[l]
        decreases loc.node - |layers[loc.layer]|
      {
        layers := layers[loc.layer := layers[loc.layer] + [BlankNode]];
      }
      var layer := layers[loc.layer];
      layers := layers[loc.layer := layer[..loc.node] + [NewNode(value)] + layer[loc.node..]];
    }

    /** The scan of `prune`: every placeholder location, layer by layer, in index order. */
    method ScanBlanks() returns (toDelete: seq<Location>)
      ensures toDelete == GraphLayers.BlankLocs(layers)
    {
      toDelete := [];
      for l := 0 to |layers|
        invariant toDelete == GraphLayers.BlankLocsUpTo(layers, l)
      {
        for n := 0 to |layers[l]|
          invariant toDelete == GraphLayers.BlankLocsUpTo(layers, l) + GraphLayers.BlankIndicesUpTo(layers[l], l, n)
        {
          if layers[l][n].value.Blank? {
            toDelete := toDelete + [Location(l, n)];
          }
        }
      }
    }

    /** One removal of `prune`: delete the slot, then renumber the edges of every layer. */
    method RemoveAndRenumber(loc: Location)
      requires ValidLoc(layers, loc)
      modifies this
      ensures layers == GraphLayers.RemoveAndRenumber(old(layers), loc)
    {
      ghost var g := layers;
      layers := layers[loc.layer := layers[loc.layer][..loc.node] + layers[loc.layer][loc.node + 1..]];
      ghost var h := layers;
      for l := 0 to |layers|
        invariant |layers| == |h|
        invariant forall j :: 0 <= j < l ==> layers[j] == GraphLayers.MapLayerEdges(h[j], GraphLayers.Decrement(loc))
        invariant forall j :: l <= j < |h| ==> layers[j] == h[j]
      {
        layers := layers[l := GraphLayers.MapLayerEdges(layers[l], GraphLayers.Decrement(loc))];
      }
    }

    /**
     * `prune`: record every placeholder location, then remove them one by one.
     * The indices are taken before any removal; the source panics when a
     * recorded index is past the end by the time its turn comes.
     */
    method Prune()
      requires GraphLayers.CanRemoveAll(layers, GraphLayers.BlankLocs(layers))
      modifies this
      ensures layers == GraphLayers.PruneAsWritten(old(layers))
    {
      var toDelete := ScanBlanks();
      ghost var g := layers;
      for i := 0 to |toDelete|
        invariant GraphLayers.CanRemoveAll(layers, toDelete[i..])
        invariant GraphLayers.RemoveAll(layers, toDelete[i..]) == GraphLayers.RemoveAll(g, toDelete)
      {
        assert toDelete[i..][1..] == toDelete[i + 1..];
        RemoveAndRenumber(toDelete[i]);
      }
    }

    /**
     * `has_cycle`: a depth-first search from `startFrom` (default (0, 0)) that
     * reports `true` as soon as it pops a location it has already visited.
     * The source indexes each popped location directly, so every location
     * reachable from the start must exist.
     */
    method HasCycle(startFrom: Option<Location>) returns (r: bool)
      requires |layers| > 0 ==> Reach.ReachableInRange(layers, StartOf(startFrom))
      ensures r <==> |layers| > 0 && !Reach.UniquelyReached(layers, StartOf(startFrom))
    {
      if |layers| == 0 {
        return false;
      }
      var start := StartOf(startFrom);
      var visited: set<Location> := {};
      var stack: seq<Location> := [start];
      ghost var origin: seq<CycleSearch.Slot> := [CycleSearch.Root];
      ghost var source: map<Location, CycleSearch.Slot> := map[];
      CycleSearch.SearchInit(layers, start);
      while |stack| > 0
        invariant CycleSearch.SearchInv(layers, start, visited, stack, origin, source)
        invariant visited <= AllLocs(layers)
        decreases |AllLocs(layers) - visited|
      {
        var loc := stack[|stack| - 1];
        if loc in visited {
          CycleSearch.SearchPopVisited(layers, start, visited, stack, origin, source);
          return true;
        }
        CycleSearch.SearchPopNew(layers, start, visited, stack, origin, source);
        VisitOneMore(layers, visited, loc);
        ghost var slot := origin[|origin| - 1];
        stack := stack[..|stack| - 1];
        origin := origin[..|origin| - 1];
        visited := visited + {loc};
        source := source[loc := slot];
        var conns := layers[loc.layer][loc.node].connections;
        stack := PushTargets(stack, conns);
        origin := origin + CycleSearch.Slots(loc, |conns|);
      }
      CycleSearch.SearchDone(layers, start, visited, origin, source);
      return false;
    }
  }
}
