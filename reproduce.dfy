/**
 * `Crossover::reproduce`, `DefaultIterator::generate` (engine/src/nn/reproduce.rs)
 * and `Net::reproduce` (engine/src/nn/mod.rs) as methods that build the
 * child in place, each proved to leave exactly the child and to return
 * exactly the answer that `ReproduceSpec` describes.
 */
module Reproduce {
  import opened Wrappers
  import opened NetTypes
  import GraphSpec
  import opened Align
  import opened GenSpec
  import opened ReproduceSpec
  import opened Nets
  import Graph

  /**
   * One aligned item of `Crossover::reproduce`: a node item copies the
   * picked parent's node value to its location with `create_node_at`; an
   * edge item adds the edge with the picked parent's payload, and a failing
   * `add_edge` becomes `ChildNetError` with the child unchanged.
   */
  method PlaceItem(pa: Layers, pb: Layers, g: Graph.NeuralGraph, item: AlignedItem, pickA: bool)
    returns (r: Result<(), ReproduceError>)
    requires ItemDefined(pa, pb, g.layers, item, pickA)
    modifies g
    ensures var step := ItemStep(pa, pb, old(g.layers), item, pickA);
      && (step.Err? ==> r == Err(step.error) && g.layers == old(g.layers))
      && (step.Ok? ==> r == Ok(()) && g.layers == step.value)
  {
    var parent := if pickA then pa else pb;
    match item
    case NodeItem(loc) =>
      var n := GraphSpec.GetNode(parent, loc).value;
      g.CreateNodeAt(loc, n.value);
      return Ok(());
    case EdgeItem(from, to) =>
      var e := GraphSpec.GetEdge(parent, from, to).value;
      var added := g.AddEdge(from, to, e.value);
      if added.Err? {
        return Err(ChildNetError(added.error));
      }
      return Ok(());
  }

  /** The item loop of `Crossover::reproduce`: items in list order, each with its coin; the first error returns at once. */
  method PlaceAll(pa: Layers, pb: Layers, g: Graph.NeuralGraph, items: seq<AlignedItem>, coins: seq<bool>)
    returns (r: Result<(), ReproduceError>)
    requires ItemsDefined(pa, pb, g.layers, items, coins)
    modifies g
    ensures (g.layers, r) == PlaceItems(pa, pb, old(g.layers), items, coins)
  {
    var i := 0;
    while i < |items|
      invariant i <= |items| && i <= |coins|
      invariant ItemsDefined(pa, pb, g.layers, items[i..], coins[i..])
      invariant PlaceItems(pa, pb, old(g.layers), items, coins) == PlaceItems(pa, pb, g.layers, items[i..], coins[i..])
    {
      PlaceItemsStep(pa, pb, g.layers, items[i..], coins[i..]);
      assert items[i..][0] == items[i] && items[i..][1..] == items[i + 1..];
      assert coins[i..][0] == coins[i] && coins[i..][1..] == coins[i + 1..];
      var placed := PlaceItem(pa, pb, g, items[i], coins[i]);
      if placed.Err? {
        return placed;
      }
      i := i + 1;
    }
    return Ok(());
  }

  /**
   * `Crossover::reproduce`: place the items of `intersection(a, b)`, then
   * `prune` once; an error returns before `prune`.
   */
  method Crossover(a: Net, b: Net, output: Net, coins: seq<bool>) returns (r: Result<(), ReproduceError>)
    requires output.graph != a.graph && output.graph != b.graph
    requires CrossoverDefined(a.graph.layers, b.graph.layers, output.graph.layers, coins)
    modifies output.graph
    ensures (output.graph.layers, r) == CrossoverResult(a.graph.layers, b.graph.layers, old(output.graph.layers), coins)
  {
    var la, lb := a.graph.layers, b.graph.layers;
    var items := Intersection(la, lb);
    r := PlaceAll(la, lb, output.graph, items, coins);
    match r
    case Err(_) =>
    case Ok(()) =>
      output.graph.Prune();
  }

  /** `DefaultIterator`: a counter that selects every reproducer once, in order. */
  class DefaultIterator {
    var count: nat

    /** `DefaultIterator::new()`. */
    constructor ()
      ensures count == 0
    {
      count := 0;
    }

    /** `generate`: bump the counter; answer the old count, and `done` once the counter reaches `typesLen`. */
    method Generate(typesLen: nat) returns (idx: nat, done: bool)
      modifies this
      ensures count == old(count) + 1
      ensures idx == old(count) && (done <==> count >= typesLen)
    {
      count := count + 1;
      return count - 1, count >= typesLen;
    }
  }

  /** The answers of a fresh `DefaultIterator` to `calls` calls. */
  function DefaultAnswers(typesLen: nat, calls: nat): (r: seq<(nat, bool)>)
    ensures |r| == calls
    decreases calls
  {
    if calls == 0 then [] else DefaultAnswers(typesLen, calls - 1) + [(calls - 1, calls >= typesLen)]
  }

  /**
   * With `n` reproducers, a fresh iterator's first `n` answers select index
   * `k` on call `k` and only the last says `done`: every reproducer runs
   * exactly once, in order, and the driver stops there.
   */
  lemma {:induction false} DefaultRunsEachOnce(n: nat, calls: nat)
    requires calls <= n
    ensures forall k :: 0 <= k < calls ==> DefaultAnswers(n, calls)[k] == (k, k == n - 1)
    decreases calls
  {
    if calls > 0 {
      DefaultRunsEachOnce(n, calls - 1);
      var r := DefaultAnswers(n, calls);
      assert forall k :: 0 <= k < calls - 1 ==> r[k] == DefaultAnswers(n, calls - 1)[k];
    }
  }

  /** `Generate` on a fresh iterator, called `calls` times, gives exactly `DefaultAnswers`. */
  method GenerateFromFresh(typesLen: nat, calls: nat) returns (answers: seq<(nat, bool)>)
    ensures answers == DefaultAnswers(typesLen, calls)
  {
    var it := new DefaultIterator();
    answers := [];
    while |answers| < calls
      invariant |answers| <= calls && it.count == |answers|
      invariant answers == DefaultAnswers(typesLen, |answers|)
      decreases calls - |answers|
    {
      var idx, done := it.Generate(typesLen);
      answers := answers + [(idx, done)];
    }
  }

  /**
   * The loop of `Net::reproduce`: ask the generator, run the reproducer it
   * selects on the child, and stop after the round marked `done`; the first
   * error is returned at once.
   */
  method RunRounds(a: Net, b: Net, child: Net, types: seq<Reproducer>, rounds: seq<Round>)
    returns (r: Result<(), ReproduceError>)
    requires child.graph != a.graph && child.graph != b.graph
    requires Runnable(a.graph.layers, b.graph.layers, child.graph.layers, types, rounds)
    modifies child.graph
    ensures (child.graph.layers, r) == RunReproduce(a.graph.layers, b.graph.layers, old(child.graph.layers), types, rounds)
  {
    var i := 0;
    while true
      invariant i < |rounds|
      invariant Runnable(a.graph.layers, b.graph.layers, child.graph.layers, types, rounds[i..])
      invariant RunReproduce(a.graph.layers, b.graph.layers, old(child.graph.layers), types, rounds)
             == RunReproduce(a.graph.layers, b.graph.layers, child.graph.layers, types, rounds[i..])
      decreases |rounds| - i
    {
      var rd := rounds[i];
      assert rounds[i..][0] == rd && rounds[i..][1..] == rounds[i + 1..];
      match types[rd.idx]
      case CrossoverReproducer =>
        var res := Crossover(a, b, child, rd.coins);
        if res.Err? {
          return Err(res.error);
        }
      if rd.done {
        return Ok(());
      }
      i := i + 1;
    }
  }

  /**
   * `Net::reproduce`: the child starts as `from_preserving_basic(a)` (its
   * error converted by `From`), then the rounds run on it. The generator's
   * answers and each crossover's coins are the rounds.
   */
  method ReproduceNets(a: Net, b: Net, types: seq<Reproducer>, rounds: seq<Round>) returns (r: Result<Net, ReproduceError>)
    requires a.inputLayer < |a.graph.layers| && a.outputLayer < |a.graph.layers|
    requires Runnable(a.graph.layers, b.graph.layers,
                      PreservedBasic(a.graph.layers, a.inputLayer, a.outputLayer), types, rounds)
    ensures var (h, res) := RunReproduce(a.graph.layers, b.graph.layers,
                                         PreservedBasic(a.graph.layers, a.inputLayer, a.outputLayer), types, rounds);
      && (res.Err? ==> r == Err(res.error))
      && (res.Ok? ==>
            && r.Ok? && fresh(r.value) && fresh(r.value.graph) && r.value.graph.layers == h
            && r.value.inputLayer == 0 && r.value.outputLayer == 1)
  {
    var basic := FromPreservingBasic(a);
    match basic
    case Err(e) =>
      return Err(ChildNetError(e));
    case Ok(net) =>
      var res := RunRounds(a, b, net, types, rounds);
      if res.Err? {
        return Err(res.error);
      }
      return Ok(net);
  }
}
