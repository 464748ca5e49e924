/**
 * Layer insertion with edge renumbering (`add_layer`, `create_node_at`) and
 * placeholder compaction (`prune`), as functions on the layer storage.
 */
module GraphLayers {
  import opened NetTypes

  // ---------------------------------------------------------------------
  // Rewriting every edge target
  // ---------------------------------------------------------------------

  /**
   * The ways the graph operations renumber edge targets: after `add_layer`
   * inserts `d` layers at `idx`, and after one removal of `prune`.
   */
  datatype Renumbering = Shift(idx: nat, d: nat) | Decrement(loc: Location)

  /** The target one edge gets under a renumbering. */
  function Renumber(f: Renumbering, e: GraphEdge): GraphEdge {
    match f
    case Shift(idx, d) => ShiftEdge(e, idx, d)
    case Decrement(loc) => DecrementPast(e, loc)
  }

  /** Every edge of a layer renumbered; node values and edge order stay. */
  function MapLayerEdges(layer: seq<GraphNode>, f: Renumbering): (r: seq<GraphNode>)
    ensures |r| == |layer|
    ensures forall n :: 0 <= n < |layer| ==>
      r[n].value == layer[n].value && |r[n].connections| == |layer[n].connections|
    ensures forall n, k :: 0 <= n < |layer| && 0 <= k < |layer[n].connections| ==>
      r[n].connections[k] == Renumber(f, layer[n].connections[k])
  {
    seq(|layer|, n requires 0 <= n < |layer| =>
      GraphNode(layer[n].value,
        seq(|layer[n].connections|, k requires 0 <= k < |layer[n].connections| => Renumber(f, layer[n].connections[k]))))
  }

  // ---------------------------------------------------------------------
  // add_layer
  // ---------------------------------------------------------------------

  /** The renumbering of one insertion round: a target at layer `idx` or later moves `d` layers down. */
  function ShiftEdge(e: GraphEdge, idx: nat, d: nat): GraphEdge {
    if e.to.layer >= idx then GraphEdge(Location(e.to.layer + d, e.to.node), e.value) else e
  }

  /**
   * `d` empty layers inserted at `idx`, with every edge renumbered by
   * `ShiftEdge`. Layers before `idx` stay in place, later ones move down by `d`.
   */
  function InsertLayers(g: Layers, idx: nat, d: nat): (r: Layers)
    requires idx <= |g|
    ensures |r| == |g| + d
    ensures forall l :: 0 <= l < idx ==> r[l] == MapLayerEdges(g[l], Shift(idx, d))
    ensures forall l :: idx <= l < idx + d ==> r[l] == []
    ensures forall l :: idx <= l < |g| ==> r[l + d] == MapLayerEdges(g[l], Shift(idx, d))
  {
    var h := g[..idx] + seq(d, _ => []) + g[idx..];
    assert forall l :: idx <= l < |g| ==> h[l + d] == g[l];
    seq(|h|, l requires 0 <= l < |h| => MapLayerEdges(h[l], Shift(idx, d)))
  }

  /** Two single insertion rounds at the same index are one round of two. */
  lemma InsertTwice(g: Layers, idx: nat)
    requires idx <= |g|
    ensures InsertLayers(InsertLayers(g, idx, 1), idx, 1) == InsertLayers(g, idx, 2)
  {
    forall l | 0 <= l < |g| + 2
      ensures InsertLayers(InsertLayers(g, idx, 1), idx, 1)[l] == InsertLayers(g, idx, 2)[l]
    {
      InsertTwiceAt(g, idx, l);
    }
    SameLayers(InsertLayers(InsertLayers(g, idx, 1), idx, 1), InsertLayers(g, idx, 2));
  }

  /** Layer storages that agree layer by layer are equal. */
  lemma SameLayers(a: Layers, b: Layers)
    requires |a| == |b| && forall l :: 0 <= l < |a| ==> a[l] == b[l]
    ensures a == b
  {
  }

  /** Any one layer is the same after two rounds of one as after one round of two. */
  lemma InsertTwiceAt(g: Layers, idx: nat, l: nat)
    requires idx <= |g| && l < |g| + 2
    ensures InsertLayers(InsertLayers(g, idx, 1), idx, 1)[l] == InsertLayers(g, idx, 2)[l]
  {
    if l < idx {
      InsertTwiceBefore(g, idx, l);
    } else if l >= idx + 2 {
      InsertTwiceAfter(g, idx, l - 2);
    } else {
      InsertTwiceMiddle(g, idx, l);
    }
  }

  /** Both inserted layers are empty either way. */
  lemma InsertTwiceMiddle(g: Layers, idx: nat, l: nat)
    requires idx <= l < idx + 2 && idx <= |g|
    ensures InsertLayers(InsertLayers(g, idx, 1), idx, 1)[l] == [] == InsertLayers(g, idx, 2)[l]
  {
    var g1: Layers := InsertLayers(g, idx, 1);
    if l == idx + 1 {
      assert g1[idx] == [];
      assert InsertLayers(g1, idx, 1)[idx + 1] == MapLayerEdges(g1[idx], Shift(idx, 1));
    }
  }

  /** A layer before the inserted ones is the same after two rounds of one as after one round of two. */
  lemma InsertTwiceBefore(g: Layers, idx: nat, l: nat)
    requires l < idx <= |g|
    ensures InsertLayers(InsertLayers(g, idx, 1), idx, 1)[l] == InsertLayers(g, idx, 2)[l]
  {
    var g1: Layers := InsertLayers(g, idx, 1);
    assert g1[l] == MapLayerEdges(g[l], Shift(idx, 1));
    ShiftTwice(g[l], idx);
  }

  /** So is a layer after them. */
  lemma InsertTwiceAfter(g: Layers, idx: nat, src: nat)
    requires idx <= src < |g|
    ensures InsertLayers(InsertLayers(g, idx, 1), idx, 1)[src + 2] == InsertLayers(g, idx, 2)[src + 2]
  {
    var g1: Layers := InsertLayers(g, idx, 1);
    assert g1[src + 1] == MapLayerEdges(g[src], Shift(idx, 1));
    assert InsertLayers(g1, idx, 1)[(src + 1) + 1] == MapLayerEdges(g1[src + 1], Shift(idx, 1));
    ShiftTwice(g[src], idx);
  }

  /** Shifting a layer's targets by one twice shifts them by two. */
  lemma ShiftTwice(layer: seq<GraphNode>, idx: nat)
    ensures MapLayerEdges(MapLayerEdges(layer, Shift(idx, 1)), Shift(idx, 1))
         == MapLayerEdges(layer, Shift(idx, 2))
  {
    var a := MapLayerEdges(MapLayerEdges(layer, Shift(idx, 1)), Shift(idx, 1));
    var b := MapLayerEdges(layer, Shift(idx, 2));
    forall n | 0 <= n < |layer| ensures a[n] == b[n] {
      assert a[n].connections == b[n].connections;
    }
  }

  /**
   * `add_layer(idx)`: the loop always inserts once, and repeats while
   * `idx > len - 2`; with `idx <= len` that is a second round exactly when
   * `idx == len`. `len - 2` needs at least two layers and `Vec::insert` needs
   * `idx <= len`: the source panics otherwise.
   */
  function AddLayer(g: Layers, idx: nat): (r: Layers)
    requires |g| >= 2 && idx <= |g|
    ensures r == InsertLayers(g, idx, if idx == |g| then 2 else 1)
  {
    var g1: Layers := InsertLayers(g, idx, 1);
    if idx > |g1| - 2 then
      InsertTwice(g, idx);
      InsertLayers(g1, idx, 1)
    else g1
  }

  /** Where a node of the inserted-into graph came from: its layer before the insertion. */
  function SourceLayer(idx: nat, d: nat, l: nat): nat
    requires l < idx || l >= idx + d
  {
    if l < idx then l else l - d
  }

  /** Each connection after the insertion is the shifted connection of the same node before it. */
  lemma InsertLayersAt(g: Layers, idx: nat, d: nat, l: nat, n: nat)
    requires idx <= |g| && l < |g| + d && (l < idx || l >= idx + d)
    requires n < |InsertLayers(g, idx, d)[l]|
    ensures var src := SourceLayer(idx, d, l);
      var r: Layers := InsertLayers(g, idx, d);
      src < |g| && n < |g[src]| &&
      r[l][n].value == g[src][n].value &&
      |r[l][n].connections| == |g[src][n].connections| &&
      forall k :: 0 <= k < |g[src][n].connections| ==> r[l][n].connections[k] == ShiftEdge(g[src][n].connections[k], idx, d)
  {
    var src := SourceLayer(idx, d, l);
    var r: Layers := InsertLayers(g, idx, d);
    if l >= idx {
      assert r[src + d] == MapLayerEdges(g[src], Shift(idx, d));
    }
  }

  /** Inserting layers keeps every edge forward, in range and unique. */
  lemma InsertLayersKeepsWellFormed(g: Layers, idx: nat, d: nat)
    requires idx <= |g| && WellFormed(g)
    ensures WellFormed(InsertLayers(g, idx, d))
  {
    InsertLayersInRange(g, idx, d);
    InsertLayersForward(g, idx, d);
    InsertLayersUnique(g, idx, d);
  }

  /** A target that existed before the insertion exists, shifted, after it. */
  lemma ShiftedTargetValid(g: Layers, idx: nat, d: nat, e: GraphEdge)
    requires idx <= |g| && ValidLoc(g, e.to)
    ensures ValidLoc(InsertLayers(g, idx, d), ShiftEdge(e, idx, d).to)
  {
    if e.to.layer >= idx {
      assert InsertLayers(g, idx, d)[e.to.layer + d] == MapLayerEdges(g[e.to.layer], Shift(idx, d));
    }
  }

  lemma InsertLayersInRange(g: Layers, idx: nat, d: nat)
    requires idx <= |g| && EdgesInRange(g)
    ensures EdgesInRange(InsertLayers(g, idx, d))
  {
    var r: Layers := InsertLayers(g, idx, d);
    forall l, n, k | 0 <= l < |r| && 0 <= n < |r[l]| && 0 <= k < |r[l][n].connections|
      ensures ValidLoc(r, r[l][n].connections[k].to)
    {
      InsertLayersAt(g, idx, d, l, n);
      var src := SourceLayer(idx, d, l);
      ShiftedTargetValid(g, idx, d, g[src][n].connections[k]);
    }
  }

  lemma InsertLayersForward(g: Layers, idx: nat, d: nat)
    requires idx <= |g| && ForwardOrdered(g)
    ensures ForwardOrdered(InsertLayers(g, idx, d))
  {
    var r: Layers := InsertLayers(g, idx, d);
    forall l, n, k | 0 <= l < |r| && 0 <= n < |r[l]| && 0 <= k < |r[l][n].connections|
      ensures l < r[l][n].connections[k].to.layer
    {
      InsertLayersAt(g, idx, d, l, n);
      var src := SourceLayer(idx, d, l);
      assert src < g[src][n].connections[k].to.layer;
    }
  }

  lemma InsertLayersUnique(g: Layers, idx: nat, d: nat)
    requires idx <= |g| && UniqueEdges(g)
    ensures UniqueEdges(InsertLayers(g, idx, d))
  {
    var r: Layers := InsertLayers(g, idx, d);
    forall l, n, i, j | 0 <= l < |r| && 0 <= n < |r[l]| && 0 <= i < j < |r[l][n].connections|
      ensures r[l][n].connections[i].to != r[l][n].connections[j].to
    {
      InsertLayersAt(g, idx, d, l, n);
      var src := SourceLayer(idx, d, l);
      assert g[src][n].connections[i].to != g[src][n].connections[j].to;
    }
  }

  // ---------------------------------------------------------------------
  // create_node_at
  // ---------------------------------------------------------------------

  /** The padding loop: push blanks while the layer is shorter than `n`. */
  function Pad(layer: seq<GraphNode>, n: nat): (r: seq<GraphNode>)
    ensures |r| == if n > |layer| then n else |layer|
    ensures r[..|layer|] == layer
    ensures forall i :: |layer| <= i < |r| ==> r[i] == BlankNode
  {
    if n > |layer| then layer + seq(n - |layer|, _ => BlankNode) else layer
  }

  /**
   * `create_node_at`: `add_layer(loc.layer)` always inserts a fresh empty
   * layer there, so after padding and inserting, that layer is `loc.node`
   * placeholders followed by the new node, which sits exactly at `loc`.
   */
  function CreateNodeAt(g: Layers, loc: Location, value: Node): (r: Layers)
    requires |g| >= 2 && loc.layer <= |g|
    ensures |r| == |g| + (if loc.layer == |g| then 2 else 1)
    ensures ValidLoc(r, loc) && NodeAt(r, loc) == NewNode(value)
    ensures r[loc.layer] == seq(loc.node, _ => BlankNode) + [NewNode(value)]
    ensures forall l :: 0 <= l < |r| && l != loc.layer ==> r[l] == AddLayer(g, loc.layer)[l]
  {
    var h := AddLayer(g, loc.layer);
    var padded := Pad(h[loc.layer], loc.node);
    assert padded == seq(loc.node, _ => BlankNode);
    h[loc.layer := padded[..loc.node] + [NewNode(value)] + padded[loc.node..]]
  }

  // ---------------------------------------------------------------------
  // prune, as written
  // ---------------------------------------------------------------------

  /** The placeholders among the first `n` nodes of layer `l`, in index order. */
  function BlankIndicesUpTo(layer: seq<GraphNode>, l: nat, n: nat): (r: seq<Location>)
    requires n <= |layer|
    ensures forall loc :: loc in r <==> loc.layer == l && loc.node < n && layer[loc.node].value.Blank?
    ensures forall i, j :: 0 <= i < j < |r| ==> r[i].node < r[j].node
    ensures forall i :: 0 <= i < |r| ==> r[i].layer == l && r[i].node < n
  {
    if n == 0 then []
    else
      var rest := BlankIndicesUpTo(layer, l, n - 1);
      if layer[n - 1].value.Blank? then rest + [Location(l, n - 1)] else rest
  }

  /** The scan of `prune`: every placeholder of the first `l` layers, layer by layer. */
  function BlankLocsUpTo(g: Layers, l: nat): (r: seq<Location>)
    requires l <= |g|
    ensures forall loc :: loc in r <==> loc.layer < l && ValidLoc(g, loc) && NodeAt(g, loc).value.Blank?
  {
    if l == 0 then []
    else BlankLocsUpTo(g, l - 1) + BlankIndicesUpTo(g[l - 1], l - 1, |g[l - 1]|)
  }

  function BlankLocs(g: Layers): seq<Location> {
    BlankLocsUpTo(g, |g|)
  }

  /** The renumbering after one removal: a later node of the same layer moves up by one. */
  function DecrementPast(e: GraphEdge, loc: Location): GraphEdge {
    // The source's `c.to.node == 0` branch (which would drop the edge) sits under
    // `c.to.node > loc.node` and can never be taken, so every edge is kept.
    if e.to.layer == loc.layer && e.to.node > loc.node then GraphEdge(Location(e.to.layer, e.to.node - 1), e.value)
    else e
  }

  /** One removal of `prune`: delete the slot, then renumber every edge with `DecrementPast`. */
  function RemoveAndRenumber(g: Layers, loc: Location): (r: Layers)
    requires ValidLoc(g, loc)
    ensures |r| == |g|
    ensures r[loc.layer] == MapLayerEdges(g[loc.layer][..loc.node] + g[loc.layer][loc.node + 1..], Decrement(loc))
    ensures forall l :: 0 <= l < |g| && l != loc.layer ==> r[l] == MapLayerEdges(g[l], Decrement(loc))
  {
    var h := g[loc.layer := g[loc.layer][..loc.node] + g[loc.layer][loc.node + 1..]];
    seq(|h|, l requires 0 <= l < |h| => MapLayerEdges(h[l], Decrement(loc)))
  }

  /** Every recorded index is still in range when its turn comes (`Vec::remove` panics otherwise). */
  predicate CanRemoveAll(g: Layers, dels: seq<Location>)
    decreases |dels|
  {
    |dels| == 0 || (ValidLoc(g, dels[0]) && CanRemoveAll(RemoveAndRenumber(g, dels[0]), dels[1..]))
  }

  /** The removal loop of `prune`: the recorded locations, in order, with indices taken before any removal. */
  function RemoveAll(g: Layers, dels: seq<Location>): (r: Layers)
    requires CanRemoveAll(g, dels)
    ensures |r| == |g|
    decreases |dels|
  {
    if |dels| == 0 then g else RemoveAll(RemoveAndRenumber(g, dels[0]), dels[1..])
  }

  /** `prune` as the source writes it. */
  function PruneAsWritten(g: Layers): Layers
    requires CanRemoveAll(g, BlankLocs(g))
  {
    RemoveAll(g, BlankLocs(g))
  }

  /** A layer holding one placeholder loses exactly that one node, and the others keep their order. */
  lemma PruneOneBlank(g: Layers, loc: Location)
    requires ValidLoc(g, loc) && NodeAt(g, loc).value.Blank?
    requires forall l, n :: 0 <= l < |g| && 0 <= n < |g[l]| && (l, n) != (loc.layer, loc.node) ==> !g[l][n].value.Blank?
    ensures BlankLocs(g) == [loc]
    ensures CanRemoveAll(g, BlankLocs(g))
    ensures NoBlank(PruneAsWritten(g))
  {
    OneBlankLocs(g, loc);
    RemoveSingle(g, loc);
    RemovedOnlyBlank(g, loc);
  }

  /** A removal list of one location removes exactly that slot. */
  lemma RemoveSingle(g: Layers, loc: Location)
    requires ValidLoc(g, loc)
    ensures CanRemoveAll(g, [loc])
    ensures RemoveAll(g, [loc]) == RemoveAndRenumber(g, loc)
  {
    assert [loc][1..] == [];
  }

  /** Removing the only placeholder leaves none. */
  lemma RemovedOnlyBlank(g: Layers, loc: Location)
    requires ValidLoc(g, loc)
    requires forall l, n :: 0 <= l < |g| && 0 <= n < |g[l]| && (l, n) != (loc.layer, loc.node) ==> !g[l][n].value.Blank?
    ensures NoBlank(RemoveAndRenumber(g, loc))
  {
    var r: Layers := RemoveAndRenumber(g, loc);
    forall l, n | 0 <= l < |r| && 0 <= n < |r[l]| ensures !r[l][n].value.Blank? {
      if l == loc.layer {
        var kept := g[l][..loc.node] + g[l][loc.node + 1..];
        var src := if n < loc.node then n else n + 1;
        assert kept[n] == g[l][src];
        assert r[l][n].value == kept[n].value;
      } else {
        assert r[l][n].value == g[l][n].value;
      }
    }
  }


  /** With one placeholder in the graph, the scan records exactly its location. */
  lemma OneBlankLocs(g: Layers, loc: Location)
    requires ValidLoc(g, loc) && NodeAt(g, loc).value.Blank?
    requires forall l, n :: 0 <= l < |g| && 0 <= n < |g[l]| && (l, n) != (loc.layer, loc.node) ==> !g[l][n].value.Blank?
    ensures BlankLocs(g) == [loc]
  {
    forall k | 0 <= k < |g| ensures LayerScan(g, k) == if loc.layer == k then [loc] else [] {
      OneBlankIndices(g, loc, k, |g[k]|);
    }
    OneBlankLocsUpTo(g, loc, |g|);
  }

  /** What the scan records in layer `k`. */
  function LayerScan(g: Layers, k: nat): seq<Location>
    requires k < |g|
  {
    BlankIndicesUpTo(g[k], k, |g[k]|)
  }

  /** The scan of the first `l` layers, given what each layer's scan records. */
  lemma {:induction false} OneBlankLocsUpTo(g: Layers, loc: Location, l: nat)
    requires l <= |g|
    requires forall k :: 0 <= k < |g| ==> LayerScan(g, k) == if loc.layer == k then [loc] else []
    ensures BlankLocsUpTo(g, l) == if loc.layer < l then [loc] else []
  {
    if l > 0 {
      OneBlankLocsUpTo(g, loc, l - 1);
      OneBlankLocsStep(g, l, loc);
    }
  }

  /** One layer of the scan: the placeholder found before layer `l - 1` or in it, never in both. */
  lemma OneBlankLocsStep(g: Layers, l: nat, loc: Location)
    requires 0 < l <= |g|
    requires BlankLocsUpTo(g, l - 1) == if loc.layer < l - 1 then [loc] else []
    requires LayerScan(g, l - 1) == if loc.layer == l - 1 then [loc] else []
    ensures BlankLocsUpTo(g, l) == if loc.layer < l then [loc] else []
  {
    JoinAtMostOne(BlankLocsUpTo(g, l - 1), LayerScan(g, l - 1), loc, loc.layer < l - 1, loc.layer == l - 1);
  }

  /** At most one of two scans finds the placeholder; joined, they find it exactly when one of them does. */
  lemma JoinAtMostOne(before: seq<Location>, here: seq<Location>, loc: Location, inBefore: bool, inHere: bool)
    requires !(inBefore && inHere)
    requires before == (if inBefore then [loc] else []) && here == (if inHere then [loc] else [])
    ensures before + here == if inBefore || inHere then [loc] else []
  {
    if inBefore {
      assert before + here == [loc] + [];
    } else if inHere {
      assert before + here == [] + [loc];
    } else {
      assert before + here == [] + [];
    }
  }

  lemma {:induction false} OneBlankIndices(g: Layers, loc: Location, l: nat, n: nat)
    requires ValidLoc(g, loc) && NodeAt(g, loc).value.Blank? && l < |g| && n <= |g[l]|
    requires forall l, n :: 0 <= l < |g| && 0 <= n < |g[l]| && (l, n) != (loc.layer, loc.node) ==> !g[l][n].value.Blank?
    ensures BlankIndicesUpTo(g[l], l, n) == if loc.layer == l && loc.node < n then [loc] else []
  {
    if n > 0 {
      OneBlankIndices(g, loc, l, n - 1);
    }
  }

  // ---------------------------------------------------------------------
  // prune, as evidently intended
  // ---------------------------------------------------------------------

  /** The number of placeholders at indices below `n`. */
  function BlanksBelow(layer: seq<GraphNode>, n: nat): (c: nat)
    ensures c <= n
  {
    if n == 0 then 0
    else BlanksBelow(layer, n - 1) + (if n - 1 < |layer| && layer[n - 1].value.Blank? then 1 else 0)
  }

  /** The layer without its placeholders, in order. */
  function KeepNonBlank(layer: seq<GraphNode>): (r: seq<GraphNode>)
    ensures |r| == |layer| - BlanksBelow(layer, |layer|)
    ensures forall i :: 0 <= i < |r| ==> !r[i].value.Blank?
  {
    if |layer| == 0 then []
    else
      var init := layer[..|layer| - 1];
      BlanksBelowPrefix(layer, |layer| - 1);
      if layer[|layer| - 1].value.Blank? then KeepNonBlank(init) else KeepNonBlank(init) + [layer[|layer| - 1]]
  }

  /** Counting below `n` only looks at the first `n` nodes. */
  lemma {:induction false} BlanksBelowPrefix(layer: seq<GraphNode>, n: nat)
    requires n <= |layer|
    ensures forall m :: 0 <= m <= n ==> BlanksBelow(layer[..n], m) == BlanksBelow(layer, m)
  {
    forall m | 0 <= m <= n ensures BlanksBelow(layer[..n], m) == BlanksBelow(layer, m) {
      BlanksBelowPrefixAt(layer, n, m);
    }
  }

  lemma {:induction false} BlanksBelowPrefixAt(layer: seq<GraphNode>, n: nat, m: nat)
    requires m <= n <= |layer|
    ensures BlanksBelow(layer[..n], m) == BlanksBelow(layer, m)
  {
    if m > 0 {
      BlanksBelowPrefixAt(layer, n, m - 1);
    }
  }

  /** An edge target moved up by the number of placeholders removed below it in its layer. */
  function Renumbered(g: Layers, e: GraphEdge): GraphEdge {
    if e.to.layer < |g| then GraphEdge(Location(e.to.layer, e.to.node - BlanksBelow(g[e.to.layer], e.to.node)), e.value)
    else e
  }

  /** An edge aimed at a placeholder of `g`. */
  predicate AtBlank(g: Layers, e: GraphEdge) {
    ValidLoc(g, e.to) && NodeAt(g, e.to).value.Blank?
  }

  /**
   * The connections a node keeps under intended pruning, in order: those aimed
   * at a placeholder are dropped and the others renumbered.
   */
  function CompactEdges(g: Layers, conns: seq<GraphEdge>): (r: seq<GraphEdge>)
    ensures |r| <= |conns|
    decreases |conns|
  {
    if |conns| == 0 then []
    else
      var init := conns[..|conns| - 1];
      var e := conns[|conns| - 1];
      if AtBlank(g, e) then CompactEdges(g, init) else CompactEdges(g, init) + [Renumbered(g, e)]
  }

  /** `x` is a connection of `conns`, not aimed at a placeholder, renumbered. */
  ghost predicate KeptFrom(g: Layers, conns: seq<GraphEdge>, x: GraphEdge) {
    exists j :: 0 <= j < |conns| && !AtBlank(g, conns[j]) && x == Renumbered(g, conns[j])
  }

  /**
   * Exactly the connections not aimed at a placeholder survive compaction:
   * each kept entry is one of them renumbered, and each of them is kept.
   */
  lemma {:induction false} CompactEdgesMeaning(g: Layers, conns: seq<GraphEdge>)
    ensures forall k :: 0 <= k < |CompactEdges(g, conns)| ==> KeptFrom(g, conns, CompactEdges(g, conns)[k])
    ensures forall j :: 0 <= j < |conns| && !AtBlank(g, conns[j]) ==> Renumbered(g, conns[j]) in CompactEdges(g, conns)
    decreases |conns|
  {
    if |conns| > 0 {
      var init := conns[..|conns| - 1];
      var e := conns[|conns| - 1];
      assert forall j :: 0 <= j < |init| ==> init[j] == conns[j];
      CompactEdgesMeaning(g, init);
      var rest := CompactEdges(g, init);
      var r := CompactEdges(g, conns);
      if !AtBlank(g, e) {
        assert r == rest + [Renumbered(g, e)];
        forall k | 0 <= k < |r| ensures KeptFrom(g, conns, r[k]) {
          if k < |rest| {
            assert KeptFrom(g, init, rest[k]);
            var j :| 0 <= j < |init| && !AtBlank(g, init[j]) && rest[k] == Renumbered(g, init[j]);
            assert conns[j] == init[j];
          } else {
            assert r[k] == Renumbered(g, conns[|conns| - 1]);
          }
        }
      } else {
        forall k | 0 <= k < |r| ensures KeptFrom(g, conns, r[k]) {
          assert KeptFrom(g, init, rest[k]);
          var j :| 0 <= j < |init| && !AtBlank(g, init[j]) && rest[k] == Renumbered(g, init[j]);
          assert conns[j] == init[j];
        }
      }
    }
  }

  /** Every node intended pruning keeps comes from the layer. */
  lemma {:induction false} KeepNonBlankFrom(layer: seq<GraphNode>)
    ensures forall i :: 0 <= i < |KeepNonBlank(layer)| ==> KeepNonBlank(layer)[i] in layer
    decreases |layer|
  {
    if |layer| > 0 {
      var init := layer[..|layer| - 1];
      KeepNonBlankFrom(init);
      assert forall x :: x in init ==> x in layer;
    }
  }

  /** A node as intended pruning leaves it: same value, connections compacted. */
  function PrunedNode(g: Layers, node: GraphNode): GraphNode {
    GraphNode(node.value, CompactEdges(g, node.connections))
  }

  /**
   * `prune` as intended: every placeholder removed, every edge aimed at a
   * placeholder dropped, and every other edge target renumbered to match.
   */
  function PruneIntended(g: Layers): (r: Layers)
    ensures |r| == |g|
    ensures NoBlank(r)
    ensures forall l :: 0 <= l < |g| ==> |r[l]| == |g[l]| - BlanksBelow(g[l], |g[l]|)
  {
    seq(|g|, l requires 0 <= l < |g| =>
      var kept := KeepNonBlank(g[l]);
      seq(|kept|, n requires 0 <= n < |kept| => PrunedNode(g, kept[n])))
  }

  /** A surviving node moves to index `n - BlanksBelow(layer, n)`. */
  lemma {:induction false} KeepNonBlankAt(layer: seq<GraphNode>, n: nat)
    requires n < |layer| && !layer[n].value.Blank?
    ensures n - BlanksBelow(layer, n) < |KeepNonBlank(layer)|
    ensures KeepNonBlank(layer)[n - BlanksBelow(layer, n)] == layer[n]
    decreases |layer|
  {
    var init := layer[..|layer| - 1];
    BlanksBelowPrefix(layer, |layer| - 1);
    if n < |layer| - 1 {
      KeepNonBlankAt(init, n);
      assert init[n] == layer[n];
    } else {
      assert |KeepNonBlank(init)| == |init| - BlanksBelow(init, |init|);
    }
  }

  /**
   * Intended `prune` keeps every real node, at the index its renumbered
   * in-edges now point to: an edge that targeted a surviving node targets the
   * same node afterwards.
   */
  lemma PruneIntendedPlacement(g: Layers, loc: Location)
    requires ValidLoc(g, loc) && !NodeAt(g, loc).value.Blank?
    ensures var r: Layers := PruneIntended(g);
      var moved := Renumbered(g, GraphEdge(loc, DefaultEdge)).to;
      moved == Location(loc.layer, loc.node - BlanksBelow(g[loc.layer], loc.node)) &&
      ValidLoc(r, moved) && NodeAt(r, moved).value == NodeAt(g, loc).value &&
      NodeAt(r, moved).connections == CompactEdges(g, NodeAt(g, loc).connections)
  {
    KeepNonBlankAt(g[loc.layer], loc.node);
    var r: Layers := PruneIntended(g);
    var kept := KeepNonBlank(g[loc.layer]);
    var i := loc.node - BlanksBelow(g[loc.layer], loc.node);
    assert r[loc.layer][i] == PrunedNode(g, kept[i]);
  }

  /** Placeholders below `b` outnumber those below `a <= b` by at most `b - a`. */
  lemma {:induction false} BlanksBelowGrowth(layer: seq<GraphNode>, a: nat, b: nat)
    requires a <= b
    ensures BlanksBelow(layer, b) <= BlanksBelow(layer, a) + (b - a)
    decreases b
  {
    if b > a {
      BlanksBelowGrowth(layer, a, b - 1);
    }
  }

  /** Renumbering keeps distinct surviving targets distinct. */
  lemma RenumberedDistinct(g: Layers, x: GraphEdge, y: GraphEdge)
    requires ValidLoc(g, x.to) && ValidLoc(g, y.to) && !AtBlank(g, x) && !AtBlank(g, y) && x.to != y.to
    ensures Renumbered(g, x).to != Renumbered(g, y).to
  {
    if x.to.layer == y.to.layer {
      var layer := g[x.to.layer];
      var lo := if x.to.node < y.to.node then x.to.node else y.to.node;
      var hi := if x.to.node < y.to.node then y.to.node else x.to.node;
      BlanksBelowGrowth(layer, lo + 1, hi);
      assert BlanksBelow(layer, lo + 1) == BlanksBelow(layer, lo);
    }
  }

  /** Compacting a list with distinct, existing targets keeps its targets distinct. */
  lemma {:induction false} CompactEdgesDistinct(g: Layers, conns: seq<GraphEdge>)
    requires forall j :: 0 <= j < |conns| ==> ValidLoc(g, conns[j].to)
    requires forall i, j :: 0 <= i < j < |conns| ==> conns[i].to != conns[j].to
    ensures forall i, j :: 0 <= i < j < |CompactEdges(g, conns)| ==> CompactEdges(g, conns)[i].to != CompactEdges(g, conns)[j].to
    decreases |conns|
  {
    if |conns| > 0 {
      var init := conns[..|conns| - 1];
      var e := conns[|conns| - 1];
      assert forall j :: 0 <= j < |init| ==> init[j] == conns[j];
      CompactEdgesDistinct(g, init);
      CompactEdgesMeaning(g, init);
      var rest := CompactEdges(g, init);
      if !AtBlank(g, e) {
        forall k | 0 <= k < |rest| ensures rest[k].to != Renumbered(g, e).to {
          assert KeptFrom(g, init, rest[k]);
          var j :| 0 <= j < |init| && !AtBlank(g, init[j]) && rest[k] == Renumbered(g, init[j]);
          RenumberedDistinct(g, init[j], e);
        }
        var r := CompactEdges(g, conns);
        assert r == rest + [Renumbered(g, e)];
        forall i, j | 0 <= i < j < |r| ensures r[i].to != r[j].to {
          if j == |rest| {
            assert r[i] == rest[i] && r[j] == Renumbered(g, e);
            assert rest[i].to != Renumbered(g, e).to;
          } else {
            assert r[i] == rest[i] && r[j] == rest[j];
          }
        }
      }
    }
  }

  /** Intended pruning of a well-formed graph is well formed, with no placeholder left. */
  lemma PruneIntendedKeepsWellFormed(g: Layers)
    requires WellFormed(g)
    ensures WellFormed(PruneIntended(g)) && NoBlank(PruneIntended(g))
  {
    var r: Layers := PruneIntended(g);
    forall l, i | 0 <= l < |r| && 0 <= i < |r[l]|
      ensures forall k :: 0 <= k < |r[l][i].connections| ==>
        ValidLoc(r, r[l][i].connections[k].to) && l < r[l][i].connections[k].to.layer
      ensures forall k1, k2 :: 0 <= k1 < k2 < |r[l][i].connections| ==>
        r[l][i].connections[k1].to != r[l][i].connections[k2].to
    {
      var node := KeepNonBlank(g[l])[i];
      KeepNonBlankFrom(g[l]);
      var n :| 0 <= n < |g[l]| && g[l][n] == node;
      var conns := node.connections;
      assert r[l][i].connections == CompactEdges(g, conns);
      CompactEdgesMeaning(g, conns);
      forall k | 0 <= k < |r[l][i].connections|
        ensures ValidLoc(r, r[l][i].connections[k].to) && l < r[l][i].connections[k].to.layer
      {
        assert KeptFrom(g, conns, r[l][i].connections[k]);
        var j :| 0 <= j < |conns| && !AtBlank(g, conns[j]) && r[l][i].connections[k] == Renumbered(g, conns[j]);
        var e := g[l][n].connections[j];
        assert ValidLoc(g, e.to) && l < e.to.layer;
        KeepNonBlankAt(g[e.to.layer], e.to.node);
      }
      CompactEdgesDistinct(g, conns);
    }
  }
}

/** Concrete graphs on which `prune` as written and as intended part ways. */
module PruneFinding {
  import opened NetTypes
  import opened GraphLayers

  const InputNode := GraphNode(Input(Identity("BlankInput", 0), 0.0), [])
  const HiddenNode := GraphNode(Neuron(Identity("BasicNeuron", 1), 0.0), [])
  const OutputNode := GraphNode(Output(Identity("Sigmoid", 2), 0.0), [])

  /** Renumbering a layer without connections changes nothing. */
  lemma MapWithoutEdges(layer: seq<GraphNode>, f: Renumbering)
    requires forall n :: 0 <= n < |layer| ==> layer[n].connections == []
    ensures MapLayerEdges(layer, f) == layer
  {
    var r := MapLayerEdges(layer, f);
    forall n | 0 <= n < |layer| ensures r[n] == layer[n] {
      assert r[n].connections == [];
    }
  }

  /** Without connections, one removal step of `prune` is a plain slot deletion. */
  lemma RemoveWithoutEdges(g: Layers, loc: Location)
    requires ValidLoc(g, loc)
    requires forall l, n :: 0 <= l < |g| && 0 <= n < |g[l]| ==> g[l][n].connections == []
    ensures RemoveAndRenumber(g, loc) == g[loc.layer := g[loc.layer][..loc.node] + g[loc.layer][loc.node + 1..]]
  {
    var r: Layers := RemoveAndRenumber(g, loc);
    forall l | 0 <= l < |g| ensures r[l] == g[loc.layer := g[loc.layer][..loc.node] + g[loc.layer][loc.node + 1..]][l] {
      if l == loc.layer {
        MapWithoutEdges(g[l][..loc.node] + g[l][loc.node + 1..], Decrement(loc));
      } else {
        MapWithoutEdges(g[l], Decrement(loc));
      }
    }
  }

  function Leading(): Layers {
    [[InputNode], [BlankNode, BlankNode, HiddenNode], [OutputNode]]
  }

  function Trailing(): Layers {
    [[InputNode], [HiddenNode, BlankNode, BlankNode], [OutputNode]]
  }

  lemma LeadingScan()
    ensures BlankLocs(Leading()) == [Location(1, 0), Location(1, 1)]
  {
    var g := Leading();
    LeadingMiddle();
    assert BlankIndicesUpTo(g[0], 0, 0) == [];
    assert !g[0][0].value.Blank?;
    assert BlankIndicesUpTo(g[0], 0, 1) == [];
    assert BlankLocsUpTo(g, 1) == [] + BlankIndicesUpTo(g[0], 0, |g[0]|);
    assert BlankLocsUpTo(g, 2) == [] + [Location(1, 0), Location(1, 1)];
    assert BlankIndicesUpTo(g[2], 2, 1) == [];
  }

  /** The middle layer of `Leading()` records its two placeholders. */
  lemma LeadingMiddle()
    ensures BlankIndicesUpTo(Leading()[1], 1, 3) == [Location(1, 0), Location(1, 1)]
  {
    var layer := Leading()[1];
    assert BlankIndicesUpTo(layer, 1, 1) == [Location(1, 0)];
    assert BlankIndicesUpTo(layer, 1, 2) == [Location(1, 0), Location(1, 1)];
  }

  lemma TrailingScan()
    ensures BlankLocs(Trailing()) == [Location(1, 1), Location(1, 2)]
  {
    var g := Trailing();
    assert BlankIndicesUpTo(g[1], 1, 1) == [];
    assert BlankIndicesUpTo(g[1], 1, 2) == [Location(1, 1)];
    assert BlankIndicesUpTo(g[1], 1, 3) == [Location(1, 1), Location(1, 2)];
    assert BlankIndicesUpTo(g[0], 0, 0) == [];
    assert !g[0][0].value.Blank?;
    assert BlankIndicesUpTo(g[0], 0, 1) == [];
    assert BlankLocsUpTo(g, 0) == [];
    assert BlankLocsUpTo(g, 1) == [] + BlankIndicesUpTo(g[0], 0, |g[0]|);
    assert |g[1]| == 3;
    assert BlankLocsUpTo(g, 2) == [] + [Location(1, 1), Location(1, 2)];
    assert BlankIndicesUpTo(g[2], 2, 1) == [];
    assert BlankLocsUpTo(g, 3) == BlankLocsUpTo(g, 2) + [];
  }

  /**
   * Two placeholders ahead of a real node: the second recorded index is stale
   * after the first removal, so the real node is deleted and a placeholder
   * survives.
   */
  lemma StaleIndexDropsRealNode()
    ensures CanRemoveAll(Leading(), BlankLocs(Leading()))
    ensures PruneAsWritten(Leading()) == [[InputNode], [BlankNode], [OutputNode]]
    ensures !NoBlank(PruneAsWritten(Leading()))
  {
    LeadingScan();
    LeadingFirstRemoval();
    var g1: Layers := [[InputNode], [BlankNode, HiddenNode], [OutputNode]];
    var g2: Layers := [[InputNode], [BlankNode], [OutputNode]];
    LeadingSecondRemoval();
    assert [Location(1, 0), Location(1, 1)][1..] == [Location(1, 1)];
    assert CanRemoveAll(g1, [Location(1, 1)]);
    assert RemoveAll(g1, [Location(1, 1)]) == g2;
    assert g2[1][0].value.Blank?;
  }

  /** The first recorded placeholder, `(1, 0)`, goes. */
  lemma LeadingFirstRemoval()
    ensures RemoveAndRenumber(Leading(), Location(1, 0)) == [[InputNode], [BlankNode, HiddenNode], [OutputNode]]
  {
    var g := Leading();
    RemoveWithoutEdges(g, Location(1, 0));
    assert g[1][..0] + g[1][1..] == [BlankNode, HiddenNode];
  }

  /** The second recorded index, `(1, 1)`, now names the real node. */
  lemma LeadingSecondRemoval()
    ensures RemoveAndRenumber([[InputNode], [BlankNode, HiddenNode], [OutputNode]], Location(1, 1)) == [[InputNode], [BlankNode], [OutputNode]]
  {
    var g1: Layers := [[InputNode], [BlankNode, HiddenNode], [OutputNode]];
    RemoveWithoutEdges(g1, Location(1, 1));
    assert g1[1][..1] + g1[1][2..] == [BlankNode];
  }

  /** On the same graph intended pruning keeps the real node and leaves no placeholder. */
  lemma IntendedKeepsRealNode()
    ensures PruneIntended(Leading())[1] == [HiddenNode]
    ensures NoBlank(PruneIntended(Leading()))
  {
    IntendedMiddle(Leading(), HiddenNode);
  }

  /** Intended pruning of a middle layer of two placeholders and a real node without edges keeps that node alone. */
  lemma IntendedMiddle(g: Layers, h: GraphNode)
    requires |g| > 1 && g[1] == [BlankNode, BlankNode, h]
    requires !h.value.Blank? && h.connections == []
    ensures PruneIntended(g)[1] == [h]
  {
    MiddleKept(h);
    IntendedLayer(g, 1, [BlankNode, BlankNode, h], [h]);
  }

  /** Two placeholders ahead of a real node: only the real node is kept. */
  lemma MiddleKept(n: GraphNode)
    requires !n.value.Blank?
    ensures KeepNonBlank([BlankNode, BlankNode, n]) == [n]
  {
    var layer := [BlankNode, BlankNode, n];
    assert layer[..2] == [BlankNode, BlankNode];
    assert [BlankNode, BlankNode][..1] == [BlankNode];
    assert [BlankNode][..0] == [];
  }

  /** A layer whose kept nodes have no connections is exactly those nodes after intended pruning. */
  lemma IntendedLayer(g: Layers, l: nat, layer: seq<GraphNode>, kept: seq<GraphNode>)
    requires l < |g| && g[l] == layer && KeepNonBlank(layer) == kept
    requires forall n :: 0 <= n < |kept| ==> kept[n].connections == []
    ensures PruneIntended(g)[l] == kept
  {
    forall n | 0 <= n < |kept| ensures PrunedNode(g, kept[n]) == kept[n] {
      assert CompactEdges(g, kept[n].connections) == [];
    }
  }

  /** Two trailing placeholders: the second recorded index is out of range by then, and `Vec::remove` panics. */
  lemma StaleIndexOutOfRange()
    ensures !CanRemoveAll(Trailing(), BlankLocs(Trailing()))
  {
    var g := Trailing();
    TrailingScan();
    RemoveWithoutEdges(g, Location(1, 1));
    var g1: Layers := RemoveAndRenumber(g, Location(1, 1));
    assert g[1][..1] + g[1][2..] == [HiddenNode, BlankNode];
    assert g1 == [[InputNode], [HiddenNode, BlankNode], [OutputNode]];
    assert [Location(1, 1), Location(1, 2)][1..] == [Location(1, 2)];
    assert !ValidLoc(g1, Location(1, 2));
  }
}
