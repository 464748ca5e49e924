/**
 * What one `Net::tick` (engine/src/nn/mod.rs) computes, stated without the
 * worklist: the inputs of layer 0 send their values, every neuron that
 * receives something sends its partial sum plus its parameter, and every
 * output that receives something saves the squashed partial sum. A missing
 * signal is `None`; signals add. The weights are reals, so the order in
 * which contributions arrive does not matter here.
 */
module TickSpec {
  import opened Wrappers
  import opened NetTypes

  /** Two signals add; `None` is "nothing arrived". */
  function Plus(a: Option<real>, b: Option<real>): (r: Option<real>)
    ensures r.None? <==> a.None? && b.None?
  {
    match a
    case None => b
    case Some(x) =>
      match b
      case None => a
      case Some(y) => Some(x + y)
  }

  lemma PlusComm(a: Option<real>, b: Option<real>)
    ensures Plus(a, b) == Plus(b, a)
  {
  }

  lemma PlusAssoc(a: Option<real>, b: Option<real>, c: Option<real>)
    ensures Plus(Plus(a, b), c) == Plus(a, Plus(b, c))
  {
  }

  /** `step` of an output or a neuron: every implementation multiplies the input by the edge's weight. */
  function StepValue(e: Edge, input: real): real {
    e.weight * input
  }

  /** What one connection carries to `y` when its source sends `v`; a disabled edge carries nothing. */
  function Carried(c: GraphEdge, y: Location, v: real): (r: Option<real>)
    ensures r.Some? <==> c.value.enabled && c.to == y
  {
    if c.value.enabled && c.to == y then Some(StepValue(c.value, v)) else None
  }

  /** What a node's connections carry to `y` when it sends `v`. */
  function ConnsTo(conns: seq<GraphEdge>, y: Location, v: real): Option<real>
    decreases |conns|
  {
    if |conns| == 0 then None
    else Plus(ConnsTo(conns[..|conns| - 1], y, v), Carried(conns[|conns| - 1], y, v))
  }

  /** Whether node `x` may send at all: an input of the first layer, or a neuron. */
  predicate MaySend(g: Layers, x: Location)
    requires ValidLoc(g, x)
  {
    (x.layer == 0 && NodeAt(g, x).value.Input?) || NodeAt(g, x).value.Neuron?
  }

  /**
   * What node `x` sends during a tick: an input of the first layer its
   * value (`as_standard`), a neuron that received the partial sum `p` the
   * value `p + bias` (`finish`); every other node sends nothing.
   */
  function Sent(g: Layers, x: Location): Option<real>
    requires ValidLoc(g, x)
    decreases x.layer, 2, 0
  {
    match NodeAt(g, x).value
    case Input(_, v) => if x.layer == 0 then Some(v) else None
    case Neuron(_, bias) =>
      (match Received(g, x, x.layer)
       case None => None
       case Some(p) => Some(p + bias))
    case _ => None
  }

  /** What `y` receives from the nodes of the layers below `lo`. */
  function Received(g: Layers, y: Location, lo: nat): Option<real>
    requires lo <= y.layer && lo <= |g|
    decreases y.layer, 1, lo
  {
    if lo == 0 then None
    else Plus(Received(g, y, lo - 1), LayerSends(g, y, lo - 1, |g[lo - 1]|))
  }

  /** What `y` receives from the first `n` nodes of layer `j`. */
  function LayerSends(g: Layers, y: Location, j: nat, n: nat): Option<real>
    requires j < y.layer && j < |g| && n <= |g[j]|
    decreases y.layer, 0, n
  {
    if n == 0 then None
    else Plus(LayerSends(g, y, j, n - 1), NodeSends(g, Location(j, n - 1), y))
  }

  /** What node `x` sends to `y` over its own connections. */
  function NodeSends(g: Layers, x: Location, y: Location): Option<real>
    requires ValidLoc(g, x)
    decreases x.layer, 3, 0
  {
    match Sent(g, x)
    case None => None
    case Some(v) => ConnsTo(NodeAt(g, x).connections, y, v)
  }

  /** An output that received `p` saves the squashed value (`finish_and_save`); any other node is left as it is. */
  function Saved(node: GraphNode, p: real, squash: real -> real): (r: GraphNode)
    ensures r.connections == node.connections
    ensures node.value.Output? ==> r.value == Output(node.value.ident, squash(p))
    ensures !node.value.Output? ==> r == node
  {
    match node.value
    case Output(id, _) => GraphNode(Output(id, squash(p)), node.connections)
    case _ => node
  }

  /** Node `x` after the tick. */
  function TickedNode(g: Layers, x: Location, squash: real -> real): GraphNode
    requires ValidLoc(g, x)
  {
    match Received(g, x, x.layer)
    case None => NodeAt(g, x)
    case Some(p) => Saved(NodeAt(g, x), p, squash)
  }

  /**
   * The graph after one tick: the same layers, nodes and connections; an
   * output that received something holds its squashed partial sum, and no
   * other node changes.
   */
  function Ticked(g: Layers, squash: real -> real): (r: Layers)
    ensures |r| == |g|
    ensures forall l :: 0 <= l < |g| ==> |r[l]| == |g[l]|
    ensures forall l, n :: 0 <= l < |g| && 0 <= n < |g[l]| ==>
      r[l][n].connections == g[l][n].connections &&
      (g[l][n].value.Output? ==> r[l][n].value.Output? && r[l][n].value.ident == g[l][n].value.ident) &&
      (!g[l][n].value.Output? ==> r[l][n] == g[l][n])
  {
    seq(|g|, l requires 0 <= l < |g| =>
      seq(|g[l]|, n requires 0 <= n < |g[l]| => TickedNode(g, Location(l, n), squash)))
  }

  /** `cur` is `g` with the outputs of the layers below `lo` already saved. */
  ghost predicate TickedBelow(g: Layers, cur: Layers, squash: real -> real, lo: nat) {
    && |cur| == |g|
    && (forall l :: 0 <= l < |g| ==> |cur[l]| == |g[l]|)
    && (forall l, n :: 0 <= l < |g| && 0 <= n < |g[l]| ==>
          cur[l][n] == if l < lo then TickedNode(g, Location(l, n), squash) else g[l][n])
  }

  /** Every node that may send does so along enabled edges to existing outputs or neurons of strictly later layers. */
  ghost predicate TickReady(g: Layers) {
    && |g| > 0
    && forall l, n, k :: 0 <= l < |g| && 0 <= n < |g[l]| && 0 <= k < |g[l][n].connections| ==>
         var c := g[l][n].connections[k];
         MaySend(g, Location(l, n)) && c.value.enabled ==>
           l < c.to.layer && ValidLoc(g, c.to) && (NodeAt(g, c.to).value.Output? || NodeAt(g, c.to).value.Neuron?)
  }

  // ---------------------------------------------------------------------
  // Lemmas
  // ---------------------------------------------------------------------

  /** A node sends only if it may. */
  lemma SentOnlyIfMay(g: Layers, x: Location)
    requires ValidLoc(g, x) && Sent(g, x).Some?
    ensures MaySend(g, x)
  {
  }

  /** Connections none of which is an enabled edge to `y` carry nothing to it. */
  lemma {:induction false} DisabledCarryNothing(conns: seq<GraphEdge>, y: Location, v: real)
    requires forall k :: 0 <= k < |conns| && conns[k].to == y ==> !conns[k].value.enabled
    ensures ConnsTo(conns, y, v).None?
    decreases |conns|
  {
    if |conns| > 0 {
      DisabledCarryNothing(conns[..|conns| - 1], y, v);
    }
  }

  /** A node with no enabled edge into it from layers below `lo` receives nothing from them. */
  lemma {:induction false} NoEnabledEdgeNoSignal(g: Layers, y: Location, lo: nat)
    requires lo <= y.layer && lo <= |g|
    requires forall l, n, k :: (0 <= l < lo && 0 <= n < |g[l]| && 0 <= k < |g[l][n].connections| &&
      g[l][n].connections[k].to == y) ==> !g[l][n].connections[k].value.enabled
    ensures Received(g, y, lo).None?
    decreases lo
  {
    if lo > 0 {
      NoEnabledEdgeNoSignal(g, y, lo - 1);
      LayerNoEnabledEdge(g, y, lo - 1, |g[lo - 1]|);
    }
  }

  lemma {:induction false} LayerNoEnabledEdge(g: Layers, y: Location, j: nat, n: nat)
    requires j < y.layer && j < |g| && n <= |g[j]|
    requires forall m, k :: (0 <= m < |g[j]| && 0 <= k < |g[j][m].connections| &&
      g[j][m].connections[k].to == y) ==> !g[j][m].connections[k].value.enabled
    ensures LayerSends(g, y, j, n).None?
    decreases n
  {
    if n > 0 {
      LayerNoEnabledEdge(g, y, j, n - 1);
      var x := Location(j, n - 1);
      match Sent(g, x)
      case None =>
      case Some(v) => DisabledCarryNothing(NodeAt(g, x).connections, y, v);
    }
  }

  /** A layer none of whose nodes sends gives nothing. */
  lemma {:induction false} SilentLayer(g: Layers, y: Location, j: nat, n: nat)
    requires j < y.layer && j < |g| && n <= |g[j]|
    requires forall m :: 0 <= m < |g[j]| ==> Sent(g, Location(j, m)).None?
    ensures LayerSends(g, y, j, n).None?
    decreases n
  {
    if n > 0 {
      SilentLayer(g, y, j, n - 1);
    }
  }

  /**
   * When nothing reaches the layers from `lo` up to (excluding) `m` from
   * below `lo`, none of their nodes sends, and whatever lies at layer `m`
   * or later receives from below `m` exactly what it receives from below `lo`.
   */
  lemma {:induction false} Quiet(g: Layers, y: Location, lo: nat, m: nat)
    requires 1 <= lo <= m <= y.layer && m <= |g|
    requires forall x :: ValidLoc(g, x) && lo <= x.layer < m ==> Received(g, x, lo).None?
    ensures Received(g, y, m) == Received(g, y, lo)
    decreases m
  {
    if m > lo {
      Quiet(g, y, lo, m - 1);
      var j := m - 1;
      forall n | 0 <= n < |g[j]| ensures Sent(g, Location(j, n)).None? {
        Quiet(g, Location(j, n), lo, j);
      }
      SilentLayer(g, y, j, |g[j]|);
    }
  }

  /** The sum of a sequence of signals, from the back. */
  function Fold(vals: seq<Option<real>>): Option<real>
    decreases |vals|
  {
    if |vals| == 0 then None else Plus(Fold(vals[..|vals| - 1]), vals[|vals| - 1])
  }

  /** Removing one signal from the sum and adding it back gives the same sum. */
  lemma {:induction false} FoldTakeOut(vals: seq<Option<real>>, p: nat)
    requires p < |vals|
    ensures Fold(vals) == Plus(Fold(vals[p := None]), vals[p])
    decreases |vals|
  {
    var k := |vals| - 1;
    if p < k {
      var init := vals[..k];
      FoldTakeOut(init, p);
      assert vals[p := None][..k] == init[p := None];
      PlusAssoc(Fold(init[p := None]), init[p], vals[k]);
      PlusComm(init[p], vals[k]);
      PlusAssoc(Fold(init[p := None]), vals[k], init[p]);
    } else {
      assert vals[p := None][..k] == vals[..k];
    }
  }

  /** The signals of `vals` at the indices `idx`, in that order. */
  function Picked(vals: seq<Option<real>>, idx: seq<nat>): (r: seq<Option<real>>)
    requires forall i :: 0 <= i < |idx| ==> idx[i] < |vals|
    ensures |r| == |idx|
  {
    seq(|idx|, i requires 0 <= i < |idx| => vals[idx[i]])
  }

  /**
   * Summing the signals in any order of distinct indices that covers every
   * present signal gives the sum in index order.
   */
  lemma {:induction false} FoldAnyOrder(vals: seq<Option<real>>, idx: seq<nat>)
    requires forall i :: 0 <= i < |idx| ==> idx[i] < |vals|
    requires forall i, j :: 0 <= i < j < |idx| ==> idx[i] != idx[j]
    requires forall n :: 0 <= n < |vals| && n !in idx ==> vals[n].None?
    ensures Fold(Picked(vals, idx)) == Fold(vals)
    decreases |idx|
  {
    if |idx| == 0 {
      NoneFold(vals);
    } else {
      var k := |idx| - 1;
      var p := idx[k];
      var rest := idx[..k];
      var vals' := vals[p := None];
      forall n | 0 <= n < |vals'| && n !in rest ensures vals'[n].None? {
        if n != p {
          assert n !in idx;
        }
      }
      FoldAnyOrder(vals', rest);
      assert Picked(vals', rest) == Picked(vals, idx)[..k];
      FoldTakeOut(vals, p);
    }
  }

  /** A sum of absent signals is absent. */
  lemma {:induction false} NoneFold(vals: seq<Option<real>>)
    requires forall n :: 0 <= n < |vals| ==> vals[n].None?
    ensures Fold(vals).None?
    decreases |vals|
  {
    if |vals| > 0 {
      NoneFold(vals[..|vals| - 1]);
    }
  }

  /** A layer's signal to `y` is the sum of its nodes' signals in index order. */
  lemma {:induction false} LayerSendsFold(g: Layers, y: Location, j: nat, n: nat)
    requires j < y.layer && j < |g| && n <= |g[j]|
    ensures LayerSends(g, y, j, n) == Fold(seq(n, m requires 0 <= m < n => NodeSends(g, Location(j, m), y)))
    decreases n
  {
    if n > 0 {
      LayerSendsFold(g, y, j, n - 1);
      var s := seq(n, m requires 0 <= m < n => NodeSends(g, Location(j, m), y));
      assert s[..n - 1] == seq(n - 1, m requires 0 <= m < n - 1 => NodeSends(g, Location(j, m), y));
    }
  }
}
