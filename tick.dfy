/**
 * `Net::tick` (engine/src/nn/mod.rs) as the worklist method it is: pending
 * inputs keyed by target layer, the least pending layer taken first, its
 * entries summed per target node, outputs saved and neurons propagating
 * along their enabled edges. The method is proved to leave exactly the
 * graph that `TickSpec.Ticked` describes.
 */
module Tick {
  import opened Wrappers
  import opened NetTypes
  import opened TickSpec
  import opened Nets
  import Graph

  /** One pending input: the edge it travels along and the value sent into it. */
  type Entry = (GraphEdge, real)

  /** `next_layer_inputs`: pending entries by the layer of their target. */
  type Worklist = map<nat, seq<Entry>>

  /** The entries pending for layer `k`. */
  function Pending(wl: Worklist, k: nat): seq<Entry> {
    if k in wl then wl[k] else []
  }

  /** What a list of entries delivers to `y`. */
  function Delivered(entries: seq<Entry>, y: Location): Option<real>
    decreases |entries|
  {
    if |entries| == 0 then None
    else Plus(Delivered(entries[..|entries| - 1], y), Carried(entries[|entries| - 1].0, y, entries[|entries| - 1].1))
  }

  /** The target of an edge exists and can take input: an output or a neuron. */
  ghost predicate Fits(g: Layers, c: GraphEdge) {
    ValidLoc(g, c.to) && (NodeAt(g, c.to).value.Output? || NodeAt(g, c.to).value.Neuron?)
  }

  /** Every pending entry travels an enabled edge to a fitting target of the layer it is keyed by. */
  ghost predicate WellKeyed(g: Layers, wl: Worklist) {
    forall k, i :: k in wl && 0 <= i < |wl[k]| ==>
      wl[k][i].0.value.enabled && wl[k][i].0.to.layer == k && Fits(g, wl[k][i].0)
  }

  /** Appending one entry to the list of its target's layer delivers what the edge carries, and nothing elsewhere. */
  lemma PushDelivers(wl: Worklist, c: GraphEdge, v: real, y: Location)
    ensures Delivered(Pending(wl[c.to.layer := Pending(wl, c.to.layer) + [(c, v)]], y.layer), y)
         == Plus(Delivered(Pending(wl, y.layer), y), Carried(c, y, v))
  {
    var s := Pending(wl, c.to.layer);
    if y.layer == c.to.layer {
      assert (s + [(c, v)])[..|s|] == s;
    }
  }

  /** Appending an entry for an enabled edge to a fitting target keeps the worklist well keyed. */
  lemma PushKeyed(g: Layers, wl: Worklist, c: GraphEdge, v: real)
    requires WellKeyed(g, wl) && c.value.enabled && Fits(g, c)
    ensures WellKeyed(g, wl[c.to.layer := Pending(wl, c.to.layer) + [(c, v)]])
  {
  }

  /** One more connection adds what it carries. */
  lemma ConnsNext(conns: seq<GraphEdge>, i: nat, y: Location, v: real)
    requires i < |conns|
    ensures ConnsTo(conns[..i + 1], y, v) == Plus(ConnsTo(conns[..i], y, v), Carried(conns[i], y, v))
  {
    assert conns[..i + 1][..i] == conns[..i] && conns[..i + 1][i] == conns[i];
  }

  /** `get_mut(&c.to.layer)`: append the entry to its layer's list, or insert a new list holding it. */
  method Enqueue(wl: Worklist, c: GraphEdge, v: real) returns (r: Worklist)
    ensures r == wl[c.to.layer := Pending(wl, c.to.layer) + [(c, v)]]
  {
    var entry := (c, v);
    if c.to.layer in wl {
      r := wl[c.to.layer := wl[c.to.layer] + [entry]];
    } else {
      assert Pending(wl, c.to.layer) + [entry] == [entry];
      r := wl[c.to.layer := [entry]];
    }
  }

  /**
   * The inner loop over a sending node's connections: every enabled edge
   * gets an entry carrying `v`, appended to its target layer's list (a new
   * list when the layer has none yet); disabled edges are skipped.
   */
  method PushEdges(ghost g: Layers, wl: Worklist, conns: seq<GraphEdge>, v: real, ghost lo: nat) returns (r: Worklist)
    requires WellKeyed(g, wl)
    requires forall k :: 0 <= k < |conns| && conns[k].value.enabled ==> lo <= conns[k].to.layer && Fits(g, conns[k])
    ensures WellKeyed(g, r)
    ensures forall k :: k in r ==> k in wl || lo <= k < |g|
    ensures forall k :: k in wl && k < lo ==> k in r && r[k] == wl[k]
    ensures forall y: Location :: Delivered(Pending(r, y.layer), y) == Plus(Delivered(Pending(wl, y.layer), y), ConnsTo(conns, y, v))
  {
    r := wl;
    for i := 0 to |conns|
      invariant WellKeyed(g, r)
      invariant forall k :: k in r ==> k in wl || lo <= k < |g|
      invariant forall k :: k in wl && k < lo ==> k in r && r[k] == wl[k]
      invariant forall y: Location :: Delivered(Pending(r, y.layer), y) == Plus(Delivered(Pending(wl, y.layer), y), ConnsTo(conns[..i], y, v))
    {
      var c := conns[i];
      if !c.value.enabled {
        forall y: Location ensures ConnsTo(conns[..i + 1], y, v) == ConnsTo(conns[..i], y, v) {
          ConnsNext(conns, i, y, v);
        }
        continue;
      }
      ghost var before := r;
      r := Enqueue(r, c, v);
      PushKeyed(g, before, c, v);
      forall y: Location ensures Delivered(Pending(r, y.layer), y) == Plus(Delivered(Pending(wl, y.layer), y), ConnsTo(conns[..i + 1], y, v)) {
        ConnsNext(conns, i, y, v);
        PushDelivers(before, c, v, y);
        PlusAssoc(Delivered(Pending(wl, y.layer), y), ConnsTo(conns[..i], y, v), Carried(c, y, v));
      }
    }
    assert conns[..|conns|] == conns;
  }

  /** What the first layer sends: its inputs' values along their edges, nothing from its other nodes. */
  lemma InputSends(g: Layers, n: nat, y: Location)
    requires 0 < |g| && n < |g[0]| && 1 <= y.layer
    ensures LayerSends(g, y, 0, n + 1) == Plus(LayerSends(g, y, 0, n),
      if g[0][n].value.Input? then ConnsTo(g[0][n].connections, y, g[0][n].value.value) else None)
  {
    var x := Location(0, n);
    assert NodeAt(g, x) == g[0][n];
    assert Received(g, x, 0).None?;
    if g[0][n].value.Input? {
      assert NodeSends(g, x, y) == ConnsTo(g[0][n].connections, y, g[0][n].value.value);
    } else {
      assert NodeSends(g, x, y).None?;
    }
  }

  /**
   * The seeding loop: every input of the first layer sends its value along
   * its enabled edges; the other nodes of that layer send nothing.
   */
  method Seed(g: Layers) returns (wl: Worklist)
    requires TickReady(g)
    ensures WellKeyed(g, wl) && forall k :: k in wl ==> 1 <= k < |g|
    ensures forall y: Location :: 1 <= y.layer ==> Delivered(Pending(wl, y.layer), y) == Received(g, y, 1)
  {
    wl := map[];
    var inputLayer := g[0];
    for n := 0 to |inputLayer|
      invariant WellKeyed(g, wl) && forall k :: k in wl ==> 1 <= k < |g|
      invariant forall y: Location :: 1 <= y.layer ==> Delivered(Pending(wl, y.layer), y) == LayerSends(g, y, 0, n)
    {
      var node := inputLayer[n];
      ghost var x := Location(0, n);
      ghost var before := wl;
      if node.value.Input? {
        forall k | 0 <= k < |node.connections| && node.connections[k].value.enabled
          ensures 1 <= node.connections[k].to.layer && Fits(g, node.connections[k])
        {
          assert MaySend(g, Location(0, n));
        }
        wl := PushEdges(g, wl, node.connections, node.value.value, 1);
      }
      forall y: Location | 1 <= y.layer ensures Delivered(Pending(wl, y.layer), y) == LayerSends(g, y, 0, n + 1) {
        InputSends(g, n, y);
      }
    }
  }

  /** `partials.iter().position(|x| x.0 == loc)`: the first index holding `loc`. */
  function Position(partials: seq<(Location, real)>, loc: Location): (r: Option<nat>)
    ensures r.Some? ==> r.value < |partials| && partials[r.value].0 == loc
    ensures r.None? <==> forall i :: 0 <= i < |partials| ==> partials[i].0 != loc
    decreases |partials|
  {
    if |partials| == 0 then None
    else if partials[0].0 == loc then Some(0)
    else match Position(partials[1..], loc)
      case None => None
      case Some(i) => Some(i + 1)
  }

  /** The partial sum held for `loc`, if any. */
  function Lookup(partials: seq<(Location, real)>, loc: Location): Option<real> {
    match Position(partials, loc)
    case None => None
    case Some(i) => Some(partials[i].1)
  }

  /** No location is held twice. */
  predicate DistinctLocs(partials: seq<(Location, real)>) {
    forall i, j :: 0 <= i < j < |partials| ==> partials[i].0 != partials[j].0
  }

  /** In a list without repeated locations, the partial sum of a held location is the one at its index. */
  lemma LookupAt(partials: seq<(Location, real)>, i: nat)
    requires DistinctLocs(partials) && i < |partials|
    ensures Lookup(partials, partials[i].0) == Some(partials[i].1)
  {
  }

  /** `step` of the output or neuron an entry arrives at. */
  function Step(n: Node, e: Edge, input: real): real
    requires n.Output? || n.Neuron?
  {
    match n
    case Output(_, _) => StepValue(e, input)
    case Neuron(_, _) => StepValue(e, input)
  }

  /**
   * Adding `step` to the partial of `loc` (found at `at`, or appended there
   * with 0) adds it to what the list holds for `loc` and to nothing else.
   */
  lemma AddPartial(before: seq<(Location, real)>, mid: seq<(Location, real)>, at: nat, loc: Location, step: real, y: Location)
    requires DistinctLocs(before)
    requires (Position(before, loc).None? && mid == before + [(loc, 0.0)] && at == |before|) ||
             (Position(before, loc) == Some(at) && mid == before)
    ensures Lookup(mid[at := (loc, mid[at].1 + step)], y) == Plus(Lookup(before, y), if y == loc then Some(step) else None)
  {
    AddPartialDistinct(before, mid, at, loc, step);
    var after := mid[at := (loc, mid[at].1 + step)];
    if y == loc {
      LookupAt(after, at);
      if mid == before {
        LookupAt(before, at);
      }
    } else {
      match Position(before, y)
      case Some(q) =>
        LookupAt(before, q);
        LookupAt(after, q);
      case None =>
        assert forall q :: 0 <= q < |after| ==> after[q].0 != y;
    }
  }

  lemma AddPartialDistinct(before: seq<(Location, real)>, mid: seq<(Location, real)>, at: nat, loc: Location, step: real)
    requires DistinctLocs(before)
    requires (Position(before, loc).None? && mid == before + [(loc, 0.0)] && at == |before|) ||
             (Position(before, loc) == Some(at) && mid == before)
    ensures at < |mid| && DistinctLocs(mid[at := (loc, mid[at].1 + step)])
  {
  }

  /** One more entry delivers what its enabled edge carries: its `step` to its target, nothing elsewhere. */
  lemma DeliveredNext(entries: seq<Entry>, i: nat, y: Location)
    requires i < |entries| && entries[i].0.value.enabled
    ensures Delivered(entries[..i + 1], y) ==
      Plus(Delivered(entries[..i], y), if y == entries[i].0.to then Some(StepValue(entries[i].0.value, entries[i].1)) else None)
  {
    var e := entries[i];
    assert entries[..i + 1][..i] == entries[..i] && entries[..i + 1][i] == e;
    assert Delivered(entries[..i + 1], y) == Plus(Delivered(entries[..i], y), Carried(e.0, y, e.1));
  }

  /**
   * The partial sums of one layer: each entry's `step` (`weight * input`)
   * is added to its target's partial, which starts at 0 when the target is
   * first met. Every target is an output or a neuron.
   */
  method Accumulate(g: Layers, entries: seq<Entry>, ghost m: nat) returns (partials: seq<(Location, real)>)
    requires forall i :: 0 <= i < |entries| ==> entries[i].0.value.enabled && entries[i].0.to.layer == m && Fits(g, entries[i].0)
    ensures DistinctLocs(partials) && |partials| <= |entries|
    ensures forall y: Location :: Lookup(partials, y) == Delivered(entries, y)
    ensures forall i :: 0 <= i < |partials| ==> partials[i].0.layer == m && Fits(g, GraphEdge(partials[i].0, DefaultEdge))
  {
    partials := [];
    for i := 0 to |entries|
      invariant DistinctLocs(partials) && |partials| <= i
      invariant forall y: Location :: Lookup(partials, y) == Delivered(entries[..i], y)
      invariant forall p :: 0 <= p < |partials| ==> partials[p].0.layer == m && Fits(g, GraphEdge(partials[p].0, DefaultEdge))
    {
      var (edge, input) := entries[i];
      var node := NodeAt(g, edge.to);
      var pos := Position(partials, edge.to);
      var at: nat;
      ghost var before := partials;
      if pos.None? {
        partials := partials + [(edge.to, 0.0)];
        at := |partials| - 1;
      } else {
        at := pos.value;
      }
      var step := Step(node.value, edge.value, input);
      assert step == StepValue(edge.value, input);
      ghost var mid := partials;
      partials := partials[at := (partials[at].0, partials[at].1 + step)];
      forall y: Location ensures Lookup(partials, y) == Delivered(entries[..i + 1], y) {
        AddPartial(before, mid, at, edge.to, step, y);
        DeliveredNext(entries, i, y);
      }
      AddPartialDistinct(before, mid, at, edge.to, step);
    }
    assert entries[..|entries|] == entries;
  }

  /** The same list, one element longer: the new location now holds its own partial, every other lookup is unchanged. */
  lemma LookupExtend(ps: seq<(Location, real)>, j: nat, y: Location)
    requires DistinctLocs(ps) && j < |ps|
    ensures Lookup(ps[..j + 1], y) == if y == ps[j].0 then Some(ps[j].1) else Lookup(ps[..j], y)
  {
    var longer := ps[..j + 1];
    assert DistinctLocs(longer) && DistinctLocs(ps[..j]);
    if y == ps[j].0 {
      LookupAt(longer, j);
    } else {
      match Position(ps[..j], y)
      case Some(q) =>
        LookupAt(ps[..j], q);
        LookupAt(longer, q);
      case None =>
        assert forall q :: 0 <= q < |longer| ==> longer[q].0 != y;
    }
  }

  /** Layer `m` with the outputs among the partials saved (`finish_and_save`). */
  function SavedLayer(g: Layers, m: nat, ps: seq<(Location, real)>, squash: real -> real): (r: seq<GraphNode>)
    requires m < |g|
    ensures |r| == |g[m]|
    ensures forall n :: 0 <= n < |r| ==> r[n].connections == g[m][n].connections
    ensures forall n :: 0 <= n < |r| && !g[m][n].value.Output? ==> r[n] == g[m][n]
  {
    seq(|g[m]|, n requires 0 <= n < |g[m]| =>
      match Lookup(ps, Location(m, n))
      case None => g[m][n]
      case Some(p) => Saved(g[m][n], p, squash))
  }

  /** What partial `(x, p)` sends to `z` when its node runs: a neuron sends `finish(p) = p + bias` along its edges. */
  function PartialSend(g: Layers, x: Location, p: real, z: Location): Option<real>
    requires ValidLoc(g, x)
  {
    match NodeAt(g, x).value
    case Neuron(_, bias) => ConnsTo(NodeAt(g, x).connections, z, p + bias)
    case _ => None
  }

  /** The signals the partials send to `z`, in list order. */
  function PartialSends(g: Layers, ps: seq<(Location, real)>, z: Location): (r: seq<Option<real>>)
    requires forall i :: 0 <= i < |ps| ==> ValidLoc(g, ps[i].0)
    ensures |r| == |ps|
  {
    seq(|ps|, i requires 0 <= i < |ps| => PartialSend(g, ps[i].0, ps[i].1, z))
  }

  /** A node of a layer above the inputs that received `p` sends to `z` what its partial sends. */
  lemma SendsOfPartial(g: Layers, x: Location, p: real, z: Location)
    requires ValidLoc(g, x) && 1 <= x.layer && Received(g, x, x.layer) == Some(p)
    ensures NodeSends(g, x, z) == PartialSend(g, x, p, z)
  {
    match NodeAt(g, x).value
    case Neuron(_, bias) =>
      assert Sent(g, x) == Some(p + bias);
    case _ =>
      assert Sent(g, x).None?;
  }

  /** A node of a layer above the inputs that received nothing sends nothing. */
  lemma SilentNode(g: Layers, x: Location, z: Location)
    requires ValidLoc(g, x) && 1 <= x.layer && Received(g, x, x.layer).None?
    ensures NodeSends(g, x, z).None?
  {
    assert Sent(g, x).None?;
  }

  /** Saving the next partial of a distinct list changes its own node of the layer, which was still untouched, and no other. */
  lemma SavedNext(g: Layers, m: nat, ps: seq<(Location, real)>, j: nat, squash: real -> real)
    requires m < |g| && DistinctLocs(ps) && j < |ps|
    requires ps[j].0.layer == m && ps[j].0.node < |g[m]|
    ensures SavedLayer(g, m, ps[..j], squash)[ps[j].0.node] == g[m][ps[j].0.node]
    ensures SavedLayer(g, m, ps[..j + 1], squash) ==
      SavedLayer(g, m, ps[..j], squash)[ps[j].0.node := Saved(g[m][ps[j].0.node], ps[j].1, squash)]
  {
    var loc := ps[j].0;
    var before := SavedLayer(g, m, ps[..j], squash);
    var after := SavedLayer(g, m, ps[..j + 1], squash);
    forall q | 0 <= q < j ensures ps[..j][q].0 != loc {
      assert ps[q].0 != ps[j].0;
    }
    assert Lookup(ps[..j], loc).None?;
    forall n | 0 <= n < |g[m]| ensures after[n] == if n == loc.node then Saved(g[m][n], ps[j].1, squash) else before[n] {
      LookupExtend(ps, j, Location(m, n));
    }
  }

  /** The signals of one more partial are those of the shorter list plus its own. */
  lemma PartialSendsNext(g: Layers, ps: seq<(Location, real)>, j: nat, z: Location)
    requires j < |ps| && forall i :: 0 <= i < |ps| ==> ValidLoc(g, ps[i].0)
    ensures Fold(PartialSends(g, ps[..j + 1], z)) == Plus(Fold(PartialSends(g, ps[..j], z)), PartialSend(g, ps[j].0, ps[j].1, z))
  {
    assert PartialSends(g, ps[..j + 1], z)[..j] == PartialSends(g, ps[..j], z);
  }

  /**
   * When the partials hold exactly what every node of layer `m` receives,
   * what they send, in whatever order they were met, is what the layer sends.
   */
  lemma PartialsCoverLayer(g: Layers, ps: seq<(Location, real)>, m: nat, z: Location)
    requires 1 <= m < z.layer && m < |g|
    requires DistinctLocs(ps)
    requires forall i :: 0 <= i < |ps| ==> ps[i].0.layer == m && ps[i].0.node < |g[m]|
    requires forall n :: 0 <= n < |g[m]| ==> Lookup(ps, Location(m, n)) == Received(g, Location(m, n), m)
    ensures Fold(PartialSends(g, ps, z)) == LayerSends(g, z, m, |g[m]|)
  {
    var size := |g[m]|;
    var vals := seq(size, n requires 0 <= n < size => NodeSends(g, Location(m, n), z));
    var idx := seq(|ps|, i requires 0 <= i < |ps| => ps[i].0.node);
    forall i, j | 0 <= i < j < |idx| ensures idx[i] != idx[j] {
      assert ps[i].0 != ps[j].0;
    }
    forall i | 0 <= i < |ps| ensures vals[idx[i]] == PartialSends(g, ps, z)[i] {
      var x := ps[i].0;
      assert x == Location(m, idx[i]);
      LookupAt(ps, i);
      SendsOfPartial(g, x, ps[i].1, z);
    }
    assert Picked(vals, idx) == PartialSends(g, ps, z);
    forall n | 0 <= n < size && n !in idx ensures vals[n].None? {
      var x := Location(m, n);
      forall i | 0 <= i < |ps| ensures ps[i].0 != x {
        assert idx[i] == ps[i].0.node;
      }
      assert Position(ps, x).None?;
      SilentNode(g, x, z);
    }
    FoldAnyOrder(vals, idx);
    LayerSendsFold(g, z, m, size);
    assert vals == seq(size, n requires 0 <= n < size => NodeSends(g, Location(m, n), z));
  }
  /** `finish_and_save` of an output: its value becomes the squashed partial. */
  method SaveFinished(graph: Graph.NeuralGraph, ghost g0: Layers, loc: Location, partial: real, squash: real -> real)
    requires ValidLoc(g0, loc) && NodeAt(g0, loc).value.Output?
    requires |graph.layers| == |g0| && |graph.layers[loc.layer]| == |g0[loc.layer]|
    requires graph.layers[loc.layer][loc.node] == NodeAt(g0, loc)
    modifies graph
    ensures graph.layers ==
      old(graph.layers)[loc.layer := old(graph.layers)[loc.layer][loc.node := Saved(NodeAt(g0, loc), partial, squash)]]
  {
    var node := graph.layers[loc.layer][loc.node];
    graph.layers := graph.layers[loc.layer := graph.layers[loc.layer][loc.node := GraphNode(Output(node.value.ident, squash(partial)), node.connections)]];
  }

  /** A neuron's `finish` (partial plus bias) enqueued along each of its enabled edges. */
  method SendFinished(ghost g0: Layers, node: GraphNode, loc: Location, partial: real, wl: Worklist) returns (r: Worklist)
    requires TickReady(g0) && ValidLoc(g0, loc) && node == NodeAt(g0, loc) && node.value.Neuron?
    requires WellKeyed(g0, wl)
    ensures WellKeyed(g0, r) && forall k :: k in r ==> k in wl || loc.layer < k < |g0|
    ensures forall k :: k in wl && k <= loc.layer ==> k in r && r[k] == wl[k]
    ensures forall z: Location :: (Delivered(Pending(r, z.layer), z) ==
      Plus(Delivered(Pending(wl, z.layer), z), PartialSend(g0, loc, partial, z)))
  {
    var sent := partial + node.value.param;
    forall k | 0 <= k < |node.connections| && node.connections[k].value.enabled
      ensures loc.layer + 1 <= node.connections[k].to.layer && Fits(g0, node.connections[k])
    {
      assert MaySend(g0, loc);
    }
    r := PushEdges(g0, wl, node.connections, sent, loc.layer + 1);
    NeuronSends(g0, loc, partial);
  }

  /**
   * One partial of the layer: an output saves its squashed partial
   * (`finish_and_save`); a neuron sends its `finish` on. Only these two
   * kinds receive.
   */
  method PropagateOne(graph: Graph.NeuralGraph, ghost g0: Layers, loc: Location, partial: real, wl: Worklist, ghost m: nat, squash: real -> real)
    returns (r: Worklist)
    requires TickReady(g0) && loc.layer == m && ValidLoc(g0, loc) && Fits(g0, GraphEdge(loc, DefaultEdge))
    requires |graph.layers| == |g0| && |graph.layers[m]| == |g0[m]|
    requires graph.layers[m][loc.node] == g0[m][loc.node]
    requires WellKeyed(g0, wl)
    modifies graph
    ensures WellKeyed(g0, r) && forall k :: k in r ==> k in wl || m < k < |g0|
    ensures forall k :: k in wl && k <= m ==> k in r && r[k] == wl[k]
    ensures forall z: Location :: (Delivered(Pending(r, z.layer), z) ==
      Plus(Delivered(Pending(wl, z.layer), z), PartialSend(g0, loc, partial, z)))
    ensures graph.layers ==
      old(graph.layers)[m := old(graph.layers)[m][loc.node := Saved(g0[m][loc.node], partial, squash)]]
  {
    var node := graph.layers[loc.layer][loc.node];
    match node.value
    case Output(_, _) =>
      SaveFinished(graph, g0, loc, partial, squash);
      r := wl;
      OutputSendsNothing(g0, loc, partial);
    case Neuron(_, _) =>
      r := SendFinished(g0, node, loc, partial, wl);
      UpdateSame(graph.layers[m], loc.node);
      UpdateSame(graph.layers, m);
  }

  /** Writing back what is already there changes nothing. */
  lemma UpdateSame<T>(s: seq<T>, i: nat)
    requires i < |s|
    ensures s[i := s[i]] == s
  {
  }

  /** An output's partial is saved, not sent. */
  lemma OutputSendsNothing(g: Layers, x: Location, p: real)
    requires ValidLoc(g, x) && NodeAt(g, x).value.Output?
    ensures forall z: Location :: PartialSend(g, x, p, z).None?
  {
  }

  /** A neuron's partial is finished with its bias and sent along its edges. */
  lemma NeuronSends(g: Layers, x: Location, p: real)
    requires ValidLoc(g, x) && NodeAt(g, x).value.Neuron?
    ensures forall z: Location :: PartialSend(g, x, p, z) == ConnsTo(NodeAt(g, x).connections, z, p + NodeAt(g, x).value.param)
  {
  }

  /** The worklist after one more partial delivers what the longer list of partials sends. */
  lemma PropagatedNext(g: Layers, ps: seq<(Location, real)>, j: nat, wl: Worklist, r0: Worklist, r: Worklist)
    requires j < |ps| && forall i :: 0 <= i < |ps| ==> ValidLoc(g, ps[i].0)
    requires forall z: Location :: (Delivered(Pending(r0, z.layer), z) ==
      Plus(Delivered(Pending(wl, z.layer), z), Fold(PartialSends(g, ps[..j], z))))
    requires forall z: Location :: (Delivered(Pending(r, z.layer), z) ==
      Plus(Delivered(Pending(r0, z.layer), z), PartialSend(g, ps[j].0, ps[j].1, z)))
    ensures forall z: Location :: (Delivered(Pending(r, z.layer), z) ==
      Plus(Delivered(Pending(wl, z.layer), z), Fold(PartialSends(g, ps[..j + 1], z))))
  {
    forall z: Location ensures Delivered(Pending(r, z.layer), z) ==
      Plus(Delivered(Pending(wl, z.layer), z), Fold(PartialSends(g, ps[..j + 1], z)))
    {
      PartialSendsNext(g, ps, j, z);
      PlusAssoc(Delivered(Pending(wl, z.layer), z), Fold(PartialSends(g, ps[..j], z)), PartialSend(g, ps[j].0, ps[j].1, z));
    }
  }

  /** The partials loop of one layer, in list order. */
  method Propagate(graph: Graph.NeuralGraph, ghost g0: Layers, partials: seq<(Location, real)>, wl: Worklist, ghost m: nat, squash: real -> real)
    returns (r: Worklist)
    requires TickReady(g0) && m < |g0|
    requires |graph.layers| == |g0| && graph.layers[m] == g0[m]
    requires DistinctLocs(partials)
    requires forall i :: 0 <= i < |partials| ==> partials[i].0.layer == m && Fits(g0, GraphEdge(partials[i].0, DefaultEdge))
    requires forall i :: 0 <= i < |partials| ==> ValidLoc(g0, partials[i].0)
    requires WellKeyed(g0, wl)
    modifies graph
    ensures WellKeyed(g0, r) && forall k :: k in r ==> k in wl || m < k < |g0|
    ensures forall k :: k in wl && k <= m ==> k in r && r[k] == wl[k]
    ensures forall z: Location :: (Delivered(Pending(r, z.layer), z) ==
      Plus(Delivered(Pending(wl, z.layer), z), Fold(PartialSends(g0, partials, z))))
    ensures graph.layers == old(graph.layers)[m := SavedLayer(g0, m, partials, squash)]
  {
    r := wl;
    ghost var start := graph.layers;
    assert SavedLayer(g0, m, partials[..0], squash) == g0[m];
    for j := 0 to |partials|
      invariant WellKeyed(g0, r) && forall k :: k in r ==> k in wl || m < k < |g0|
      invariant forall k :: k in wl && k <= m ==> k in r && r[k] == wl[k]
      invariant forall z: Location :: (Delivered(Pending(r, z.layer), z) ==
        Plus(Delivered(Pending(wl, z.layer), z), Fold(PartialSends(g0, partials[..j], z))))
      invariant graph.layers == start[m := SavedLayer(g0, m, partials[..j], squash)]
    {
      var loc, partial := partials[j].0, partials[j].1;
      SavedNext(g0, m, partials, j, squash);
      ghost var savedBefore := SavedLayer(g0, m, partials[..j], squash);
      ghost var savedAfter := SavedLayer(g0, m, partials[..j + 1], squash);
      assert graph.layers[m] == savedBefore;
      assert graph.layers[m][loc.node] == g0[m][loc.node];
      ghost var r0 := r;
      r := PropagateOne(graph, g0, loc, partial, r, m, squash);
      assert graph.layers[m] == savedAfter;
      assert graph.layers == start[m := savedAfter];
      PropagatedNext(g0, partials, j, wl, r0, r);
    }
    assert partials[..|partials|] == partials;
  }

  /** The least key of a non-empty key set. */
  lemma {:induction false} LeastKey(keys: set<nat>) returns (m: nat)
    requires keys != {}
    ensures m in keys && forall k :: k in keys ==> m <= k
    decreases |keys|
  {
    var x :| x in keys;
    var rest := keys - {x};
    if rest == {} {
      assert keys == {x};
      m := x;
    } else {
      var least := LeastKey(rest);
      m := if x < least then x else least;
      forall k | k in keys ensures m <= k {
        if k != x {
          assert k in rest;
        }
      }
    }
  }

  /** Whether an edge fits depends only on the layer it reaches. */
  lemma FitsSameLayer(g0: Layers, cur: Layers, c: GraphEdge)
    requires |cur| == |g0| && c.to.layer < |g0| && cur[c.to.layer] == g0[c.to.layer]
    ensures Fits(cur, c) == Fits(g0, c)
  {
  }

  /** Layers `lo..m-1` receive nothing while the least pending layer is `m`: the worklist's sums hold from `m` on, and those layers are already as the tick leaves them. */
  lemma SkipQuiet(g0: Layers, cur: Layers, squash: real -> real, wl: Worklist, lo: nat, m: nat)
    requires 1 <= lo <= m < |g0| && m in wl && forall k :: k in wl ==> m <= k
    requires forall y: Location :: ValidLoc(g0, y) && lo <= y.layer ==> Delivered(Pending(wl, y.layer), y) == Received(g0, y, lo)
    requires TickedBelow(g0, cur, squash, lo)
    ensures forall y: Location :: ValidLoc(g0, y) && m <= y.layer ==> Delivered(Pending(wl, y.layer), y) == Received(g0, y, m)
    ensures TickedBelow(g0, cur, squash, m)
  {
    forall x: Location | ValidLoc(g0, x) && lo <= x.layer < m ensures Received(g0, x, lo).None? {
      assert x.layer !in wl;
    }
    forall y: Location | ValidLoc(g0, y) && m <= y.layer ensures Received(g0, y, m) == Received(g0, y, lo) {
      Quiet(g0, y, lo, m);
    }
    forall l, n | 0 <= l < |g0| && 0 <= n < |g0[l]| && lo <= l < m
      ensures TickedNode(g0, Location(l, n), squash) == g0[l][n]
    {
      Quiet(g0, Location(l, n), lo, l);
    }
  }

  /** With nothing pending from `lo` on, the graph is the ticked one. */
  lemma AllQuiet(g0: Layers, cur: Layers, squash: real -> real, wl: Worklist, lo: nat)
    requires |wl| == 0 && SumsFrom(g0, wl, lo)
    requires TickedBelow(g0, cur, squash, lo)
    ensures cur == Ticked(g0, squash)
  {
    forall y: Location | ValidLoc(g0, y) && lo <= y.layer ensures Received(g0, y, lo).None? {
      assert Pending(wl, y.layer) == [];
    }
    var t := Ticked(g0, squash);
    forall l, n | 0 <= l < |g0| && 0 <= n < |g0[l]| && lo <= l ensures TickedNode(g0, Location(l, n), squash) == g0[l][n] {
      Quiet(g0, Location(l, n), lo, l);
    }
    forall l | 0 <= l < |g0| ensures cur[l] == t[l] {
      assert forall n :: 0 <= n < |g0[l]| ==> cur[l][n] == t[l][n];
    }
  }

  /** After layer `m` runs, the sums pending from `m + 1` on are what those nodes receive from every layer below. */
  lemma LayerSums(g0: Layers, wl: Worklist, r: Worklist, partials: seq<(Location, real)>, m: nat, next: nat)
    requires 1 <= m < |g0| && m in wl && next == m + 1
    requires forall y: Location :: ValidLoc(g0, y) && m <= y.layer ==> Delivered(Pending(wl, y.layer), y) == Received(g0, y, m)
    requires DistinctLocs(partials)
    requires forall i :: 0 <= i < |partials| ==> partials[i].0.layer == m && ValidLoc(g0, partials[i].0)
    requires forall y: Location :: Lookup(partials, y) == Delivered(wl[m], y)
    requires forall z: Location :: (Delivered(Pending(r, z.layer), z) ==
      Plus(Delivered(Pending(wl, z.layer), z), Fold(PartialSends(g0, partials, z))))
    ensures forall y: Location :: ValidLoc(g0, y) && next <= y.layer ==> Delivered(Pending(r - {m}, y.layer), y) == Received(g0, y, next)
  {
    forall n | 0 <= n < |g0[m]| ensures Lookup(partials, Location(m, n)) == Received(g0, Location(m, n), m) {
      assert Pending(wl, m) == wl[m];
    }
    forall y: Location | ValidLoc(g0, y) && next <= y.layer
      ensures Delivered(Pending(r - {m}, y.layer), y) == Received(g0, y, next)
    {
      assert Pending(r - {m}, y.layer) == Pending(r, y.layer);
      PartialsCoverLayer(g0, partials, m, y);
      ReceivedNext(g0, y, m);
    }
  }

  /** What a node receives from below layer `m + 1`: what it receives from below `m`, plus what layer `m` sends. */
  lemma ReceivedNext(g: Layers, y: Location, m: nat)
    requires m < y.layer && m < |g|
    ensures Received(g, y, m + 1) == Plus(Received(g, y, m), LayerSends(g, y, m, |g[m]|))
  {
  }

  /** After layer `m` runs, its outputs are saved as the tick leaves them. */
  lemma LayerSaved(g0: Layers, cur: Layers, after: Layers, squash: real -> real, wl: Worklist,
                   partials: seq<(Location, real)>, m: nat, next: nat)
    requires 1 <= m < |g0| && m in wl && next == m + 1
    requires forall y: Location :: ValidLoc(g0, y) && m <= y.layer ==> Delivered(Pending(wl, y.layer), y) == Received(g0, y, m)
    requires TickedBelow(g0, cur, squash, m)
    requires forall y: Location :: Lookup(partials, y) == Delivered(wl[m], y)
    requires after == cur[m := SavedLayer(g0, m, partials, squash)]
    ensures TickedBelow(g0, after, squash, next)
  {
    forall l, n | 0 <= l < |g0| && 0 <= n < |g0[l]|
      ensures after[l][n] == if l < next then TickedNode(g0, Location(l, n), squash) else g0[l][n]
    {
      if l == m {
        assert Pending(wl, m) == wl[m];
        assert after[l][n] == SavedLayer(g0, m, partials, squash)[n];
      }
    }
  }

  /** Before the loop only the input layer counts as done, and a tick leaves it as it is. */
  lemma InputLayerUnchanged(g0: Layers, squash: real -> real)
    ensures TickedBelow(g0, g0, squash, 1)
  {
    forall l, n | 0 <= l < |g0| && 0 <= n < |g0[l]| && l < 1 ensures TickedNode(g0, Location(l, n), squash) == g0[l][n] {
    }
  }

  /**
   * The loop's state from layer `lo` on: every pending entry is well keyed
   * at a layer from `lo` on, and what is pending for each node is what it
   * receives from all the layers below `lo`.
   */
  ghost predicate SumsFrom(g0: Layers, wl: Worklist, lo: nat) {
    && 1 <= lo <= |g0|
    && WellKeyed(g0, wl) && (forall k :: k in wl ==> lo <= k < |g0|)
    && forall y: Location :: ValidLoc(g0, y) && lo <= y.layer ==> Delivered(Pending(wl, y.layer), y) == Received(g0, y, lo)
  }

  /** `shift_remove` of the least key: the keys left are all above it, and still well keyed. */
  lemma DropLeast(g0: Layers, wl: Worklist, r: Worklist, m: nat, next: nat)
    requires next == m + 1 && forall k :: k in wl ==> m <= k
    requires WellKeyed(g0, r) && forall k :: k in r ==> k in wl || m < k < |g0|
    requires forall k :: k in wl ==> k < |g0|
    ensures WellKeyed(g0, r - {m}) && forall k :: k in r - {m} ==> next <= k < |g0|
  {
  }

  /**
   * One turn of the tick loop: `sort_keys`, take the least pending layer,
   * sum its entries, run its partials, `shift_remove` its key. The sums
   * and the saved outputs move past that layer.
   */
  method RunLayer(graph: Graph.NeuralGraph, ghost g0: Layers, wl: Worklist, ghost lo: nat, squash: real -> real)
    returns (r: Worklist, ghost next: nat)
    requires TickReady(g0) && |wl| != 0 && SumsFrom(g0, wl, lo)
    requires TickedBelow(g0, graph.layers, squash, lo)
    modifies graph
    ensures lo < next <= |g0|
    ensures SumsFrom(g0, r, next)
    ensures TickedBelow(g0, graph.layers, squash, next)
  {
    ghost var keys := LeastKey(wl.Keys);
    var layer :| layer in wl && forall k :: k in wl ==> layer <= k;
    next := layer + 1;
    SkipQuiet(g0, graph.layers, squash, wl, lo, layer);
    ghost var cur := graph.layers;
    assert cur[layer] == g0[layer];
    forall i | 0 <= i < |wl[layer]| ensures Fits(cur, wl[layer][i].0) {
      FitsSameLayer(g0, cur, wl[layer][i].0);
    }
    var partials := Accumulate(graph.layers, wl[layer], layer);
    forall i | 0 <= i < |partials| ensures Fits(g0, GraphEdge(partials[i].0, DefaultEdge)) && ValidLoc(g0, partials[i].0) {
      FitsSameLayer(g0, cur, GraphEdge(partials[i].0, DefaultEdge));
    }
    var sent := Propagate(graph, g0, partials, wl, layer, squash);
    LayerSums(g0, wl, sent, partials, layer, next);
    LayerSaved(g0, cur, graph.layers, squash, wl, partials, layer, next);
    DropLeast(g0, wl, sent, layer, next);
    r := sent - {layer};
  }

  /**
   * `Net::tick`: seed the worklist from the input layer, then while it is
   * not empty run its least layer and drop that key. The graph afterwards
   * is exactly `Ticked` of the graph before.
   */
  method Tick(net: Net, squash: real -> real)
    requires TickReady(net.graph.layers)
    modifies net.graph
    ensures net.graph.layers == Ticked(old(net.graph.layers), squash)
  {
    var graph := net.graph;
    ghost var g0 := graph.layers;
    var wl := Seed(graph.layers);
    ghost var lo: nat := 1;
    InputLayerUnchanged(g0, squash);
    while |wl| != 0
      invariant SumsFrom(g0, wl, lo)
      invariant TickedBelow(g0, graph.layers, squash, lo)
      decreases |g0| - lo
    {
      wl, lo := RunLayer(graph, g0, wl, lo, squash);
    }
    AllQuiet(g0, graph.layers, squash, wl, lo);
  }
}
