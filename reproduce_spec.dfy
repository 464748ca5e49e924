/**
 * `Crossover::reproduce` and `Net::reproduce` (engine/src/nn/reproduce.rs,
 * engine/src/nn/mod.rs) as functions of the parents' layers, the child's
 * layers and the coin flips. Each aligned item copies a node or an edge of
 * the parent its coin picks into the child; `prune` runs once at the end.
 */
module ReproduceSpec {
  import opened Wrappers
  import opened NetTypes
  import GraphSpec
  import GraphLayers
  import opened Align

  /**
   * `ReproduceError`. The generator's error type has no values, so
   * `GeneratorError` is never built; graph errors arrive through
   * `From<NeuralGraphError>` as `ChildNetError`.
   */
  datatype ReproduceError = GeneratorError | ChildNetError(cause: GraphError)

  /** The reproducers the source defines. */
  datatype Reproducer = CrossoverReproducer

  /** The parent a coin picks: `true` is a (`gen::<f32>() < 0.5`), `false` is b. */
  function Parent(a: Layers, b: Layers, pickA: bool): Layers {
    if pickA then a else b
  }

  /**
   * What the source unwraps holds: a node item's location exists in the
   * picked parent; an edge item's source exists there (`get_edge` indexes
   * it) and has an edge to the target. A node item goes through
   * `create_node_at`, which needs two layers and a layer index at most one past the end.
   */
  predicate ItemDefined(a: Layers, b: Layers, g: Layers, item: AlignedItem, pickA: bool) {
    var p := Parent(a, b, pickA);
    match item
    case NodeItem(loc) => ValidLoc(p, loc) && |g| >= 2 && loc.layer <= |g|
    case EdgeItem(f, t) => ValidLoc(p, f) && GraphSpec.GetEdge(p, f, t).Some?
  }

  /**
   * One aligned item placed in the child `g`: a node item puts a fresh copy
   * of the picked parent's node value exactly at its location; an edge item
   * adds the edge with the picked parent's payload, so that afterwards
   * `get_edge` in the child finds exactly that payload, or fails as `add_edge` does.
   */
  function ItemStep(a: Layers, b: Layers, g: Layers, item: AlignedItem, pickA: bool): (r: Result<Layers, ReproduceError>)
    requires ItemDefined(a, b, g, item, pickA)
    ensures item.NodeItem? ==>
      r.Ok? && ValidLoc(r.value, item.loc) &&
      NodeAt(r.value, item.loc) == NewNode(NodeAt(Parent(a, b, pickA), item.loc).value)
    ensures item.EdgeItem? ==>
      (r.Err? <==> GraphSpec.AddEdge(g, item.from, item.to, DefaultEdge).Err?) &&
      (r.Err? ==> r.error.ChildNetError?) &&
      (r.Ok? ==>
         && ValidLoc(r.value, item.from)
         && GraphSpec.GetEdge(r.value, item.from, item.to) ==
            Some(GraphEdge(item.to, GraphSpec.GetEdge(Parent(a, b, pickA), item.from, item.to).value.value)))
  {
    var p := Parent(a, b, pickA);
    match item
    case NodeItem(loc) => Ok(GraphLayers.CreateNodeAt(g, loc, NodeAt(p, loc).value))
    case EdgeItem(f, t) =>
      var value := GraphSpec.GetEdge(p, f, t).value.value;
      match GraphSpec.AddEdge(g, f, t, value)
      case Err(e) => Err(ChildNetError(e))
      case Ok(h) =>
        AddedEdgeFound(g, f, t, value);
        Ok(h)
  }

  /** After a successful `add_edge`, `get_edge` finds the new edge and its payload. */
  lemma AddedEdgeFound(g: Layers, f: Location, t: Location, value: Edge)
    requires GraphSpec.AddEdge(g, f, t, value).Ok?
    ensures ValidLoc(GraphSpec.AddEdge(g, f, t, value).value, f)
    ensures GraphSpec.GetEdge(GraphSpec.AddEdge(g, f, t, value).value, f, t) == Some(GraphEdge(t, value))
  {
    var h := GraphSpec.AddEdge(g, f, t, value).value;
    var conns := NodeAt(g, f).connections;
    var conns2 := conns + [GraphEdge(t, value)];
    assert NodeAt(h, f).connections == conns2;
    assert !HasTarget(conns, t);
    var i := GraphSpec.FindEdgeIndex(conns2, t);
    assert conns2[|conns|].to == t;
    assert i.Some?;
    assert forall j :: 0 <= j < |conns| ==> conns2[j] == conns[j] && conns[j].to != t;
  }

  /** Every item the run reaches is defined, with a coin for each. */
  predicate ItemsDefined(a: Layers, b: Layers, g: Layers, items: seq<AlignedItem>, coins: seq<bool>)
    decreases |items|
  {
    |items| == 0 ||
    (|coins| > 0 && ItemDefined(a, b, g, items[0], coins[0]) &&
     match ItemStep(a, b, g, items[0], coins[0])
     case Err(_) => true
     case Ok(h) => ItemsDefined(a, b, h, items[1..], coins[1..]))
  }

  /** The item loop: items in list order; the first failing `add_edge` stops it with the child as it stands. */
  function PlaceItems(a: Layers, b: Layers, g: Layers, items: seq<AlignedItem>, coins: seq<bool>)
    : (Layers, Result<(), ReproduceError>)
    requires ItemsDefined(a, b, g, items, coins)
    decreases |items|
  {
    if |items| == 0 then (g, Ok(()))
    else
      match ItemStep(a, b, g, items[0], coins[0])
      case Err(e) => (g, Err(e))
      case Ok(h) => PlaceItems(a, b, h, items[1..], coins[1..])
  }

  /** One turn of the item loop: the first item is defined, and the rest of the run goes on from its result. */
  lemma PlaceItemsStep(a: Layers, b: Layers, g: Layers, items: seq<AlignedItem>, coins: seq<bool>)
    requires ItemsDefined(a, b, g, items, coins) && |items| > 0
    ensures |coins| > 0 && ItemDefined(a, b, g, items[0], coins[0])
    ensures var step := ItemStep(a, b, g, items[0], coins[0]);
      && (step.Err? ==> PlaceItems(a, b, g, items, coins) == (g, Err(step.error)))
      && (step.Ok? ==> ItemsDefined(a, b, step.value, items[1..], coins[1..]))
      && (step.Ok? ==> PlaceItems(a, b, g, items, coins) == PlaceItems(a, b, step.value, items[1..], coins[1..]))
  {
  }

  /** `intersection` does not panic, every item is defined, and `prune` can remove every placeholder. */
  predicate CrossoverDefined(a: Layers, b: Layers, g: Layers, coins: seq<bool>) {
    CanAlign(a, b) &&
    ItemsDefined(a, b, g, Intersection(a, b), coins) &&
    var placed := PlaceItems(a, b, g, Intersection(a, b), coins);
    placed.1.Ok? ==> GraphLayers.CanRemoveAll(placed.0, GraphLayers.BlankLocs(placed.0))
  }

  /** `Crossover::reproduce`: place every aligned item, then `prune` once; an error returns before `prune`. */
  function CrossoverResult(a: Layers, b: Layers, g: Layers, coins: seq<bool>): (Layers, Result<(), ReproduceError>)
    requires CrossoverDefined(a, b, g, coins)
  {
    var placed := PlaceItems(a, b, g, Intersection(a, b), coins);
    if placed.1.Err? then placed else (GraphLayers.PruneAsWritten(placed.0), Ok(()))
  }

  /**
   * An item aligned as incoming is the self pair (x, x). In a parent whose
   * edges all go forward there is no such edge, so the unwrap of `get_edge`
   * panics whichever parent the coin picks.
   */
  lemma SelfPairUndefined(a: Layers, b: Layers, g: Layers, x: Location, pickA: bool)
    requires ForwardOrdered(Parent(a, b, pickA))
    ensures !ItemDefined(a, b, g, EdgeItem(x, x), pickA)
  {
    var p := Parent(a, b, pickA);
    if ValidLoc(p, x) {
      var conns := NodeAt(p, x).connections;
      forall k | 0 <= k < |conns| ensures conns[k].to != x {
        assert x.layer < conns[k].to.layer;
      }
    }
  }

  /**
   * What an incoming item was evidently meant to name: the locations among
   * the first `m` nodes of layer 0 that have an edge to `loc`, in index
   * order. `intersection` collects only the edges' targets, so its incoming
   * set can hold nothing but `loc` itself.
   */
  function IncomingSources(p: Layers, loc: Location, m: nat): (r: seq<Location>)
    requires |p| > 0 && m <= |p[0]|
    ensures forall x :: x in r <==> x.layer == 0 && x.node < m && HasTarget(p[0][x.node].connections, loc)
    decreases m
  {
    if m == 0 then []
    else
      var rest := IncomingSources(p, loc, m - 1);
      if HasTarget(p[0][m - 1].connections, loc) then rest + [Location(0, m - 1)] else rest
  }

  /**
   * The corrected incoming items (source, `loc`) of the parent `a` are all
   * defined when the coin picks `a`: each source exists and `get_edge` finds
   * its edge to `loc`, so the unwrap cannot panic.
   */
  lemma IncomingSourcesDefined(a: Layers, b: Layers, g: Layers, loc: Location)
    requires |a| > 0
    ensures forall x :: x in IncomingSources(a, loc, |a[0]|) ==>
      ItemDefined(a, b, g, EdgeItem(x, loc), true) && GraphSpec.GetEdge(a, x, loc).value.to == loc
  {
    forall x | x in IncomingSources(a, loc, |a[0]|)
      ensures ItemDefined(a, b, g, EdgeItem(x, loc), true) && GraphSpec.GetEdge(a, x, loc).value.to == loc
    {
      assert ValidLoc(a, x) && NodeAt(a, x) == a[0][x.node];
    }
  }

  // ---------------------------------------------------------------------
  // Net::reproduce
  // ---------------------------------------------------------------------

  /** One answer of the generator, `(idx, done)`, with the coins of the reproducer it selects. */
  datatype Round = Round(idx: nat, done: bool, coins: seq<bool>)

  /** The selected reproducer exists and runs defined, and `done` comes before the rounds run out. */
  predicate Runnable(a: Layers, b: Layers, g: Layers, types: seq<Reproducer>, rounds: seq<Round>)
    decreases |rounds|
  {
    && |rounds| > 0
    && rounds[0].idx < |types|
    && CrossoverDefined(a, b, g, rounds[0].coins)
    && var (h, res) := CrossoverResult(a, b, g, rounds[0].coins);
       res.Ok? && !rounds[0].done ==> Runnable(a, b, h, types, rounds[1..])
  }

  /** The child and the result: the first error, or `Ok` after the round marked `done`. */
  function RunReproduce(a: Layers, b: Layers, g: Layers, types: seq<Reproducer>, rounds: seq<Round>)
    : (Layers, Result<(), ReproduceError>)
    requires Runnable(a, b, g, types, rounds)
    decreases |rounds|
  {
    var (h, res) := CrossoverResult(a, b, g, rounds[0].coins);
    if res.Err? then (h, res)
    else if rounds[0].done then (h, Ok(()))
    else RunReproduce(a, b, h, types, rounds[1..])
  }

  /** Every error `Net::reproduce` returns comes from a child graph operation. */
  lemma {:induction false} RunReproduceErrors(a: Layers, b: Layers, g: Layers, types: seq<Reproducer>, rounds: seq<Round>)
    requires Runnable(a, b, g, types, rounds)
    ensures RunReproduce(a, b, g, types, rounds).1.Err? ==> RunReproduce(a, b, g, types, rounds).1.error.ChildNetError?
    decreases |rounds|
  {
    var (h, res) := CrossoverResult(a, b, g, rounds[0].coins);
    PlaceItemsErrors(a, b, g, Intersection(a, b), rounds[0].coins);
    if res.Ok? && !rounds[0].done {
      RunReproduceErrors(a, b, h, types, rounds[1..]);
    }
  }

  /** The item loop only fails with `ChildNetError`. */
  lemma {:induction false} PlaceItemsErrors(a: Layers, b: Layers, g: Layers, items: seq<AlignedItem>, coins: seq<bool>)
    requires ItemsDefined(a, b, g, items, coins)
    ensures PlaceItems(a, b, g, items, coins).1.Err? ==> PlaceItems(a, b, g, items, coins).1.error.ChildNetError?
    decreases |items|
  {
    if |items| > 0 {
      match ItemStep(a, b, g, items[0], coins[0])
      case Err(e) =>
      case Ok(h) => PlaceItemsErrors(a, b, h, items[1..], coins[1..]);
    }
  }
}
