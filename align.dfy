/**
 * `intersection` and `connection_pair_exists` (engine/src/nn/util.rs): the
 * alignment of two nets that crossover consumes. Hash sets are modelled as
 * sequences without repeats, in order of first occurrence; the source's
 * iteration order over a hash set is unspecified, so only membership and the
 * place of each node item before its edge items are stated.
 */
module Align {
  import opened NetTypes

  /** One aligned element: a node location of net a, or a (from, to) pair of locations. */
  datatype AlignedItem = NodeItem(loc: Location) | EdgeItem(from: Location, to: Location)

  // ---------------------------------------------------------------------
  // connection_pair_exists
  // ---------------------------------------------------------------------

  /** `connection_pair_exists`: some recorded pair is `(from, to)` or `(to, from)`. */
  function ConnectionPairExists(pairs: seq<(Location, Location)>, from: Location, to: Location): (r: bool)
    ensures r <==> exists i :: 0 <= i < |pairs| && (pairs[i] == (from, to) || pairs[i] == (to, from))
  {
    if |pairs| == 0 then false
    else
      assert forall i :: 1 <= i < |pairs| ==> pairs[i] == pairs[1..][i - 1];
      pairs[0] == (from, to) || pairs[0] == (to, from) || ConnectionPairExists(pairs[1..], from, to)
  }

  /** The check does not depend on the direction of the pair. */
  lemma {:induction false} ConnectionPairSymmetric(pairs: seq<(Location, Location)>, from: Location, to: Location)
    ensures ConnectionPairExists(pairs, from, to) == ConnectionPairExists(pairs, to, from)
    decreases |pairs|
  {
    if |pairs| > 0 {
      ConnectionPairSymmetric(pairs[1..], from, to);
    }
  }

  // ---------------------------------------------------------------------
  // Sets of locations
  // ---------------------------------------------------------------------

  /** The targets of every edge leaving the first `n` nodes of a layer, node by node. */
  function LayerTargets(layer: seq<GraphNode>, n: nat): (r: seq<Location>)
    requires n <= |layer|
    ensures forall x :: x in r <==> exists m, k :: 0 <= m < n && 0 <= k < |layer[m].connections| && layer[m].connections[k].to == x
  {
    if n == 0 then []
    else
      var init := LayerTargets(layer, n - 1);
      var last := Targets(layer[n - 1].connections);
      init + last
  }

  /** Every target of an edge leaving layer 0: the source's `a_connections` / `b_connections`. */
  function FirstLayerTargets(g: Layers): (r: seq<Location>)
    requires |g| > 0
    ensures forall x :: x in r <==> exists m, k :: 0 <= m < |g[0]| && 0 <= k < |g[0][m].connections| && g[0][m].connections[k].to == x
  {
    LayerTargets(g[0], |g[0]|)
  }

  /** No element occurs twice. */
  predicate Distinct(s: seq<Location>) {
    forall i, j :: 0 <= i < j < |s| ==> s[i] != s[j]
  }

  /** `&set(s) - &set(t)`: each element of `s` that is not in `t`, once. */
  function Difference(s: seq<Location>, t: seq<Location>): (r: seq<Location>)
    ensures forall x :: x in r <==> x in s && x !in t
    ensures Distinct(r)
  {
    if |s| == 0 then []
    else
      var init := s[..|s| - 1];
      var x := s[|s| - 1];
      assert s == init + [x];
      var rest := Difference(init, t);
      if x in t || x in init then rest else rest + [x]
  }

  /** The source's incoming set: the elements of `targets` equal to `loc`. */
  function IncomingAt(targets: seq<Location>, loc: Location): (r: seq<Location>)
    ensures forall x :: x in r <==> x in targets && x == loc
  {
    if loc in targets then [loc] else []
  }

  // ---------------------------------------------------------------------
  // intersection
  // ---------------------------------------------------------------------

  /** Each item is an edge item, and edges are reported as (origin, each element). */
  function OutgoingItems(origin: Location, targets: seq<Location>): (r: seq<AlignedItem>)
    ensures |r| == |targets| && forall i :: 0 <= i < |targets| ==> r[i] == EdgeItem(origin, targets[i])
  {
    seq(|targets|, i requires 0 <= i < |targets| => EdgeItem(origin, targets[i]))
  }

  /** The incoming items: (element, origin) for each element. */
  function IncomingItems(sources: seq<Location>, origin: Location): (r: seq<AlignedItem>)
    ensures |r| == |sources| && forall i :: 0 <= i < |sources| ==> r[i] == EdgeItem(sources[i], origin)
  {
    seq(|sources|, i requires 0 <= i < |sources| => EdgeItem(sources[i], origin))
  }

  /** Every edge item of `r` comes after a node item for its `from` location. */
  predicate NodeFirst(r: seq<AlignedItem>) {
    forall j {:trigger ItemAt(r, j)} :: 0 <= j < |r| && ItemAt(r, j).EdgeItem? ==> NodeItem(ItemAt(r, j).from) in r[..j]
  }

  /**
   * The item at index `j`. `NodeFirst` quantifies over this term rather than
   * over `r[j]`, so that membership facts about item lists do not set off
   * ever more instances of it.
   */
  function ItemAt(r: seq<AlignedItem>, j: nat): AlignedItem
    requires j < |r|
  {
    r[j]
  }

  /** Two runs that each put node items first still do when concatenated. */
  lemma NodeFirstAppend(p: seq<AlignedItem>, q: seq<AlignedItem>)
    requires NodeFirst(p) && NodeFirst(q)
    ensures NodeFirst(p + q)
  {
    var r := p + q;
    forall j | 0 <= j < |r| && ItemAt(r, j).EdgeItem? ensures NodeItem(ItemAt(r, j).from) in r[..j] {
      if j < |p| {
        assert ItemAt(r, j) == ItemAt(p, j);
        assert r[..j] == p[..j];
      } else {
        assert ItemAt(r, j) == ItemAt(q, j - |p|);
        assert r[..j] == p + q[..j - |p|];
      }
    }
  }

  /** The identity of a node that is not a placeholder (`name()` is unreachable on `Node::None`). */
  function IdentOf(n: Node): Identity
    requires !n.Blank?
  {
    n.ident
  }

  /** The nodes `name()` is called on exist and are not placeholders. */
  predicate Comparable(a: Layers, b: Layers, l: nat, ai: nat, bi: nat) {
    l < |a| && l < |b| && ai < |a[l]| && bi < |b[l]| && !a[l][ai].value.Blank? && !b[l][bi].value.Blank?
  }

  /**
   * The items of one matched pair at a's location `here`: a node item when
   * either difference is non-empty, then one edge item per element of the
   * incoming and of the outgoing difference.
   */
  function PairItems(here: Location, incoming: seq<Location>, outgoing: seq<Location>): (r: seq<AlignedItem>)
    requires forall x :: x in incoming ==> x == here
    ensures NodeFirst(r)
    ensures forall loc :: NodeItem(loc) in r <==> loc == here && (|incoming| > 0 || |outgoing| > 0)
    ensures forall f, t :: EdgeItem(f, t) in r <==> f == here && ((t == here && here in incoming) || t in outgoing)
  {
    var edges := IncomingItems(incoming, here) + OutgoingItems(here, outgoing);
    assert forall j :: 0 <= j < |edges| ==> edges[j].EdgeItem? && edges[j].from == here by {
      forall j | 0 <= j < |edges| ensures edges[j].EdgeItem? && edges[j].from == here {
        if j < |incoming| {
          assert incoming[j] in incoming;
        } else {
          assert edges[j] == OutgoingItems(here, outgoing)[j - |incoming|];
        }
      }
    }
    assert forall f, t :: EdgeItem(f, t) in edges <==> f == here && ((t == here && here in incoming) || t in outgoing) by {
      forall f, t | EdgeItem(f, t) in edges ensures f == here && ((t == here && here in incoming) || t in outgoing) {
        var j :| 0 <= j < |edges| && edges[j] == EdgeItem(f, t);
        if j < |incoming| {
          assert incoming[j] in incoming;
        } else {
          assert edges[j] == OutgoingItems(here, outgoing)[j - |incoming|];
        }
      }
      forall t | t in outgoing ensures EdgeItem(here, t) in edges {
        var j :| 0 <= j < |outgoing| && outgoing[j] == t;
        assert edges[|incoming| + j] == EdgeItem(here, t);
      }
      if here in incoming {
        var j :| 0 <= j < |incoming| && incoming[j] == here;
        assert edges[j] == EdgeItem(here, here);
      }
    }
    if |incoming| > 0 || |outgoing| > 0 then
      var r := [NodeItem(here)] + edges;
      assert forall j :: 1 <= j < |r| ==> r[j] == edges[j - 1];
      assert r[0] == NodeItem(here);
      r
    else
      edges
  }

  /**
   * The items of one compared pair (a's node `ai`, b's node `bi`, both in
   * layer `l`): nothing unless their identities are equal; otherwise the
   * pair's items for the differences of the incoming and the outgoing sets.
   */
  function Compare(a: Layers, b: Layers, a0: seq<Location>, b0: seq<Location>, l: nat, ai: nat, bi: nat): (r: seq<AlignedItem>)
    requires Comparable(a, b, l, ai, bi)
    ensures NodeFirst(r)
  {
    if IdentOf(b[l][bi].value) != IdentOf(a[l][ai].value) then []
    else
      var here := Location(l, ai);
      PairItems(here, Difference(IncomingAt(a0, here), IncomingAt(b0, Location(l, bi))),
                Difference(Targets(a[l][ai].connections), Targets(b[l][bi].connections)))
  }

  /**
   * A compared pair reports a's location as a node item exactly when the
   * identities match and a difference is non-empty, and reports exactly the
   * incoming self pair and the outgoing targets of a's node missing from b's.
   */
  lemma CompareMeaning(a: Layers, b: Layers, a0: seq<Location>, b0: seq<Location>, l: nat, ai: nat, bi: nat)
    requires Comparable(a, b, l, ai, bi)
    ensures forall loc :: NodeItem(loc) in Compare(a, b, a0, b0, l, ai, bi) <==>
      && IdentOf(a[l][ai].value) == IdentOf(b[l][bi].value) && loc == Location(l, ai)
      && ((loc in a0 && !(bi == ai && loc in b0)) ||
          (exists d :: d in Targets(a[l][ai].connections) && d !in Targets(b[l][bi].connections)))
    ensures forall f, t :: EdgeItem(f, t) in Compare(a, b, a0, b0, l, ai, bi) <==>
      && IdentOf(a[l][ai].value) == IdentOf(b[l][bi].value) && f == Location(l, ai)
      && ((t == f && f in a0 && !(bi == ai && f in b0)) ||
          (t in Targets(a[l][ai].connections) && t !in Targets(b[l][bi].connections)))
  {
    if IdentOf(b[l][bi].value) == IdentOf(a[l][ai].value) {
      var here := Location(l, ai);
      var incoming := Difference(IncomingAt(a0, here), IncomingAt(b0, Location(l, bi)));
      var outgoing := Difference(Targets(a[l][ai].connections), Targets(b[l][bi].connections));
      if |incoming| > 0 {
        assert incoming[0] in incoming;
      }
      if |outgoing| > 0 {
        assert outgoing[0] in outgoing;
      }
    }
  }

  /** Every name a pairing of layer `l` compares is defined. */
  predicate LayerComparable(a: Layers, b: Layers, l: nat) {
    l < |a| && l < |b| && (|a[l]| > 0 && |b[l]| > 0 ==>
      (forall n :: 0 <= n < |a[l]| ==> !a[l][n].value.Blank?) && (forall n :: 0 <= n < |b[l]| ==> !b[l][n].value.Blank?))
  }

  /** `x` is among the items of the compared pair (l, ai) of a and (l, bi) of b. */
  ghost predicate InPair(a: Layers, b: Layers, a0: seq<Location>, b0: seq<Location>, x: AlignedItem, l: nat, ai: nat, bi: nat) {
    Comparable(a, b, l, ai, bi) && x in Compare(a, b, a0, b0, l, ai, bi)
  }

  /** a's node `ai` compared with the first `m` nodes of b's layer `l`. */
  function NodeAgainst(a: Layers, b: Layers, a0: seq<Location>, b0: seq<Location>, l: nat, ai: nat, m: nat): (r: seq<AlignedItem>)
    requires LayerComparable(a, b, l) && ai < |a[l]| && m <= |b[l]|
    ensures NodeFirst(r)
  {
    if m == 0 then []
    else
      var init := NodeAgainst(a, b, a0, b0, l, ai, m - 1);
      var last := Compare(a, b, a0, b0, l, ai, m - 1);
      NodeFirstAppend(init, last);
      init + last
  }

  lemma NodeAgainstMembers(a: Layers, b: Layers, a0: seq<Location>, b0: seq<Location>, l: nat, ai: nat, m: nat)
    requires LayerComparable(a, b, l) && ai < |a[l]| && m <= |b[l]|
    ensures forall x :: x in NodeAgainst(a, b, a0, b0, l, ai, m) <==> exists bi :: 0 <= bi < m && InPair(a, b, a0, b0, x, l, ai, bi)
  {
    var row := CompareRow(a, b, a0, b0, l, ai, m);
    NodeAgainstFlattened(a, b, a0, b0, l, ai, m);
    FlattenMembers(row);
    forall x ensures x in NodeAgainst(a, b, a0, b0, l, ai, m) <==> exists bi :: 0 <= bi < m && InPair(a, b, a0, b0, x, l, ai, bi) {
      if x in NodeAgainst(a, b, a0, b0, l, ai, m) {
        var bi :| 0 <= bi < |row| && x in row[bi];
        assert InPair(a, b, a0, b0, x, l, ai, bi);
      }
      if exists bi :: 0 <= bi < m && InPair(a, b, a0, b0, x, l, ai, bi) {
        var bi :| 0 <= bi < m && InPair(a, b, a0, b0, x, l, ai, bi);
        assert x in row[bi];
      }
    }
  }

  /** The comparisons of a's node `ai` with the first `m` nodes of b's layer `l`, one list each. */
  function CompareRow(a: Layers, b: Layers, a0: seq<Location>, b0: seq<Location>, l: nat, ai: nat, m: nat): (r: seq<seq<AlignedItem>>)
    requires LayerComparable(a, b, l) && ai < |a[l]| && m <= |b[l]|
    ensures |r| == m && forall bi :: 0 <= bi < m ==> r[bi] == Compare(a, b, a0, b0, l, ai, bi)
  {
    seq(m, bi requires 0 <= bi < m => Compare(a, b, a0, b0, l, ai, bi))
  }

  /** The lists of `parts` one after the other. */
  function Flatten(parts: seq<seq<AlignedItem>>): seq<AlignedItem> {
    if |parts| == 0 then [] else Flatten(parts[..|parts| - 1]) + parts[|parts| - 1]
  }

  /** An item is in the flattened list exactly when it is in one of the parts. */
  lemma {:induction false} FlattenMembers(parts: seq<seq<AlignedItem>>)
    ensures forall x :: x in Flatten(parts) <==> exists i :: 0 <= i < |parts| && x in parts[i]
  {
    if |parts| > 0 {
      var init := parts[..|parts| - 1];
      FlattenMembers(init);
      forall x | x in Flatten(parts) ensures exists i :: 0 <= i < |parts| && x in parts[i] {
        if x !in parts[|parts| - 1] {
          var i :| 0 <= i < |init| && x in init[i];
          assert x in parts[i];
        }
      }
      forall x, i | 0 <= i < |parts| && x in parts[i] ensures x in Flatten(parts) {
        if i < |parts| - 1 {
          assert x in init[i];
        }
      }
    }
  }

  /** `NodeAgainst` is the comparisons of the row, one after the other. */
  lemma {:induction false} NodeAgainstFlattened(a: Layers, b: Layers, a0: seq<Location>, b0: seq<Location>, l: nat, ai: nat, m: nat)
    requires LayerComparable(a, b, l) && ai < |a[l]| && m <= |b[l]|
    ensures NodeAgainst(a, b, a0, b0, l, ai, m) == Flatten(CompareRow(a, b, a0, b0, l, ai, m))
  {
    if m > 0 {
      NodeAgainstFlattened(a, b, a0, b0, l, ai, m - 1);
      var row := CompareRow(a, b, a0, b0, l, ai, m);
      assert row[..m - 1] == CompareRow(a, b, a0, b0, l, ai, m - 1);
    }
  }

  /** The first `m` nodes of a's layer `l`, each compared with every node of b's layer `l`. */
  function LayerAgainst(a: Layers, b: Layers, a0: seq<Location>, b0: seq<Location>, l: nat, m: nat): (r: seq<AlignedItem>)
    requires LayerComparable(a, b, l) && m <= |a[l]|
    ensures NodeFirst(r)
  {
    if m == 0 then []
    else
      var init := LayerAgainst(a, b, a0, b0, l, m - 1);
      var last := NodeAgainst(a, b, a0, b0, l, m - 1, |b[l]|);
      NodeFirstAppend(init, last);
      init + last
  }

  lemma {:induction false} LayerAgainstMembers(a: Layers, b: Layers, a0: seq<Location>, b0: seq<Location>, l: nat, m: nat)
    requires LayerComparable(a, b, l) && m <= |a[l]|
    ensures forall x :: x in LayerAgainst(a, b, a0, b0, l, m) <==>
      exists ai, bi :: 0 <= ai < m && 0 <= bi < |b[l]| && InPair(a, b, a0, b0, x, l, ai, bi)
  {
    if m > 0 {
      LayerAgainstMembers(a, b, a0, b0, l, m - 1);
      NodeAgainstMembers(a, b, a0, b0, l, m - 1, |b[l]|);
      var r := LayerAgainst(a, b, a0, b0, l, m);
      var init := LayerAgainst(a, b, a0, b0, l, m - 1);
      var last := NodeAgainst(a, b, a0, b0, l, m - 1, |b[l]|);
      assert r == init + last;
      forall x | x in r ensures exists ai, bi :: 0 <= ai < m && 0 <= bi < |b[l]| && InPair(a, b, a0, b0, x, l, ai, bi) {
        if x in last {
          var bi :| 0 <= bi < |b[l]| && InPair(a, b, a0, b0, x, l, m - 1, bi);
        } else {
          var ai, bi :| 0 <= ai < m - 1 && 0 <= bi < |b[l]| && InPair(a, b, a0, b0, x, l, ai, bi);
        }
      }
      forall x, ai, bi | 0 <= ai < m && 0 <= bi < |b[l]| && InPair(a, b, a0, b0, x, l, ai, bi) ensures x in r {
        if ai == m - 1 {
          assert x in last;
        } else {
          assert x in init;
        }
      }
    }
  }

  /** The paired layers from 1 up to (excluding) `n`, each with the layer of the same index. */
  function LayersAgainst(a: Layers, b: Layers, a0: seq<Location>, b0: seq<Location>, n: nat): (r: seq<AlignedItem>)
    requires n <= |a| && n <= |b|
    requires forall l :: 1 <= l < n ==> LayerComparable(a, b, l)
    ensures NodeFirst(r)
  {
    if n <= 1 then []
    else
      var init := LayersAgainst(a, b, a0, b0, n - 1);
      var last := LayerAgainst(a, b, a0, b0, n - 1, |a[n - 1]|);
      NodeFirstAppend(init, last);
      init + last
  }

  lemma {:induction false} LayersAgainstMembers(a: Layers, b: Layers, a0: seq<Location>, b0: seq<Location>, n: nat)
    requires n <= |a| && n <= |b|
    requires forall l :: 1 <= l < n ==> LayerComparable(a, b, l)
    ensures forall x :: x in LayersAgainst(a, b, a0, b0, n) <==>
      exists l, ai, bi :: 1 <= l < n && 0 <= ai < |a[l]| && 0 <= bi < |b[l]| && InPair(a, b, a0, b0, x, l, ai, bi)
  {
    if n > 1 {
      LayersAgainstMembers(a, b, a0, b0, n - 1);
      LayerAgainstMembers(a, b, a0, b0, n - 1, |a[n - 1]|);
      var r := LayersAgainst(a, b, a0, b0, n);
      var init := LayersAgainst(a, b, a0, b0, n - 1);
      var last := LayerAgainst(a, b, a0, b0, n - 1, |a[n - 1]|);
      assert r == init + last;
      forall x | x in r
        ensures exists l, ai, bi :: 1 <= l < n && 0 <= ai < |a[l]| && 0 <= bi < |b[l]| && InPair(a, b, a0, b0, x, l, ai, bi)
      {
        if x in last {
          var ai, bi :| 0 <= ai < |a[n - 1]| && 0 <= bi < |b[n - 1]| && InPair(a, b, a0, b0, x, n - 1, ai, bi);
        } else {
          var l, ai, bi :| 1 <= l < n - 1 && 0 <= ai < |a[l]| && 0 <= bi < |b[l]| && InPair(a, b, a0, b0, x, l, ai, bi);
        }
      }
      forall x, l, ai, bi | 1 <= l < n && 0 <= ai < |a[l]| && 0 <= bi < |b[l]| && InPair(a, b, a0, b0, x, l, ai, bi)
        ensures x in r
      {
        if l == n - 1 {
          assert x in last;
        } else {
          assert x in init;
        }
      }
    }
  }

  /** The layers `intersection` pairs: from 1 while both nets have one. */
  function Paired(a: Layers, b: Layers): nat {
    if |a| < |b| then |a| else |b|
  }

  /**
   * What `intersection` needs not to panic: both nets have a first layer
   * (unless it returns early), and every node whose name it asks for is not a placeholder.
   */
  predicate CanAlign(a: Layers, b: Layers) {
    |a| != 2 && |b| != 2 ==>
      |a| > 0 && |b| > 0 && forall l :: 1 <= l < Paired(a, b) ==> LayerComparable(a, b, l)
  }

  /** `intersection(a, b)`: every aligned item, layer by layer, node of a by node of b. */
  function Intersection(a: Layers, b: Layers): (r: seq<AlignedItem>)
    requires CanAlign(a, b)
  {
    if |a| == 2 || |b| == 2 then []
    else LayersAgainst(a, b, FirstLayerTargets(a), FirstLayerTargets(b), Paired(a, b))
  }

  /** Either net having exactly two layers gives no items. */
  lemma TwoLayersAlignNothing(a: Layers, b: Layers)
    requires CanAlign(a, b) && (|a| == 2 || |b| == 2)
    ensures Intersection(a, b) == []
  {
  }

  /** Each edge item of the result comes after a node item for its `from` location. */
  lemma IntersectionNodeFirst(a: Layers, b: Layers)
    requires CanAlign(a, b)
    ensures NodeFirst(Intersection(a, b))
  {
  }

  /** Two nodes are compared when both sit in the same layer, from 1 up to the shorter net's end, and have equal identities. */
  ghost predicate Matched(a: Layers, b: Layers, l: nat, ai: nat, bi: nat) {
    1 <= l < Paired(a, b) && Comparable(a, b, l, ai, bi) && IdentOf(a[l][ai].value) == IdentOf(b[l][bi].value)
  }

  /** The incoming difference of a matched pair is non-empty: a's node is a layer-0 target of a, and b's node is not one at that same location. */
  ghost predicate IncomingDiffers(a: Layers, b: Layers, loc: Location, bi: nat)
    requires |a| > 0 && |b| > 0
  {
    loc in FirstLayerTargets(a) && !(bi == loc.node && loc in FirstLayerTargets(b))
  }

  /** `t` is a target of a's node at `loc` and not of b's node `bi` in the same layer. */
  ghost predicate OutgoingDiffers(a: Layers, b: Layers, loc: Location, bi: nat, t: Location)
    requires ValidLoc(a, loc) && loc.layer < |b| && bi < |b[loc.layer]|
  {
    t in Targets(NodeAt(a, loc).connections) && t !in Targets(b[loc.layer][bi].connections)
  }

  /**
   * A node item names a location of net a whose node matches a node of b in
   * the same layer, and is reported exactly when one of the two set
   * differences is non-empty.
   */
  lemma NodeItemMeaning(a: Layers, b: Layers, loc: Location)
    requires CanAlign(a, b) && |a| != 2 && |b| != 2
    ensures NodeItem(loc) in Intersection(a, b) <==>
      exists bi: nat :: Matched(a, b, loc.layer, loc.node, bi) &&
        (IncomingDiffers(a, b, loc, bi) || exists t :: OutgoingDiffers(a, b, loc, bi, t))
  {
    var a0, b0 := FirstLayerTargets(a), FirstLayerTargets(b);
    LayersAgainstMembers(a, b, a0, b0, Paired(a, b));
    if NodeItem(loc) in Intersection(a, b) {
      var l, ai, bi :| 1 <= l < Paired(a, b) && 0 <= ai < |a[l]| && 0 <= bi < |b[l]| &&
        InPair(a, b, a0, b0, NodeItem(loc), l, ai, bi);
      CompareMeaning(a, b, a0, b0, l, ai, bi);
      assert Matched(a, b, loc.layer, loc.node, bi);
      if !IncomingDiffers(a, b, loc, bi) {
        var d :| d in Targets(a[l][ai].connections) && d !in Targets(b[l][bi].connections);
        assert OutgoingDiffers(a, b, loc, bi, d);
      }
    }
    if exists bi: nat :: Matched(a, b, loc.layer, loc.node, bi) &&
        (IncomingDiffers(a, b, loc, bi) || exists t :: OutgoingDiffers(a, b, loc, bi, t)) {
      var bi: nat :| Matched(a, b, loc.layer, loc.node, bi) &&
        (IncomingDiffers(a, b, loc, bi) || exists t :: OutgoingDiffers(a, b, loc, bi, t));
      CompareMeaning(a, b, a0, b0, loc.layer, loc.node, bi);
      assert InPair(a, b, a0, b0, NodeItem(loc), loc.layer, loc.node, bi);
    }
  }

  /**
   * An edge item (f, t) starts at a location f of net a whose node matches a
   * node of b, and is either the incoming item (f, f), when the incoming
   * difference is non-empty, or an outgoing item whose t is a target of f in
   * a and not of the matched node in b.
   */
  lemma EdgeItemMeaning(a: Layers, b: Layers, f: Location, t: Location)
    requires CanAlign(a, b) && |a| != 2 && |b| != 2
    ensures EdgeItem(f, t) in Intersection(a, b) <==>
      exists bi: nat :: Matched(a, b, f.layer, f.node, bi) &&
        ((t == f && IncomingDiffers(a, b, f, bi)) || OutgoingDiffers(a, b, f, bi, t))
  {
    var a0, b0 := FirstLayerTargets(a), FirstLayerTargets(b);
    LayersAgainstMembers(a, b, a0, b0, Paired(a, b));
    if EdgeItem(f, t) in Intersection(a, b) {
      var l, ai, bi :| 1 <= l < Paired(a, b) && 0 <= ai < |a[l]| && 0 <= bi < |b[l]| &&
        InPair(a, b, a0, b0, EdgeItem(f, t), l, ai, bi);
      CompareMeaning(a, b, a0, b0, l, ai, bi);
      assert Matched(a, b, f.layer, f.node, bi);
    }
    if exists bi: nat :: Matched(a, b, f.layer, f.node, bi) &&
        ((t == f && IncomingDiffers(a, b, f, bi)) || OutgoingDiffers(a, b, f, bi, t)) {
      var bi: nat :| Matched(a, b, f.layer, f.node, bi) &&
        ((t == f && IncomingDiffers(a, b, f, bi)) || OutgoingDiffers(a, b, f, bi, t));
      CompareMeaning(a, b, a0, b0, f.layer, f.node, bi);
      assert InPair(a, b, a0, b0, EdgeItem(f, t), f.layer, f.node, bi);
    }
  }
}
