/**
 * Index sampling on the layer storage (`random_from` and its three wrappers,
 * `random_edge_mut`). Every random draw is an explicit argument whose
 * precondition is the range the source draws it from; an empty range, on
 * which the source's `gen_range` panics, is excluded the same way.
 */
module Sampling {
  import opened Wrappers
  import opened NetTypes

  /**
   * `random_from(from, sub)`: `None` on an empty graph; otherwise a layer drawn
   * from `[from, len - sub)`, `None` if that layer is empty, and otherwise a
   * node drawn from `[0, layer.len - sub)`.
   */
  function RandomFrom(g: Layers, from: nat, sub: nat, layer: nat, node: nat): (r: Option<Location>)
    requires |g| > 0 ==> from <= layer && layer + sub < |g|
    requires |g| > 0 && |g[layer]| > 0 ==> node + sub < |g[layer]|
    ensures r.None? <==> |g| == 0 || |g[layer]| == 0
    ensures r.Some? ==> ValidLoc(g, r.value) && r.value == Location(layer, node)
    ensures r.Some? ==> from <= r.value.layer && r.value.layer + sub < |g| && r.value.node + sub < |g[r.value.layer]|
  {
    if |g| == 0 then None
    else if |g[layer]| == 0 then None
    else Some(Location(layer, node))
  }

  /** `random_input_or_hidden`: any existing node, from any layer. */
  function RandomInputOrHidden(g: Layers, layer: nat, node: nat): (r: Option<Location>)
    requires |g| > 0 ==> layer < |g|
    requires |g| > 0 && |g[layer]| > 0 ==> node < |g[layer]|
    ensures r.None? <==> |g| == 0 || |g[layer]| == 0
    ensures r.Some? ==> ValidLoc(g, r.value) && r.value == Location(layer, node)
  {
    RandomFrom(g, 0, 0, layer, node)
  }

  /**
   * `random_output_or_hidden(greater_than)`: a node from a layer strictly after
   * `greater_than` (layer 0 is excluded when it is absent). The layer range is
   * empty, and the source panics, when `greater_than` is the last layer.
   */
  function RandomOutputOrHidden(g: Layers, greaterThan: Option<nat>, layer: nat, node: nat): (r: Option<Location>)
    requires |g| > 0 ==> (if greaterThan.Some? then greaterThan.value else 0) < layer < |g|
    requires |g| > 0 && |g[layer]| > 0 ==> node < |g[layer]|
    ensures r.None? <==> |g| == 0 || |g[layer]| == 0
    ensures r.Some? ==> ValidLoc(g, r.value) && r.value == Location(layer, node) && r.value.layer > 0
    ensures r.Some? && greaterThan.Some? ==> r.value.layer > greaterThan.value
  {
    RandomFrom(g, (if greaterThan.Some? then greaterThan.value else 0) + 1, 0, layer, node)
  }

  /**
   * `random_hidden`: subtracting one from both ends keeps the draw off the
   * last layer and off the last node of the drawn layer; layer 0 is skipped.
   * A one-node layer makes the node range empty and the source panics.
   */
  function RandomHidden(g: Layers, layer: nat, node: nat): (r: Option<Location>)
    requires |g| > 0 ==> 1 <= layer && layer + 1 < |g|
    requires |g| > 0 && |g[layer]| > 0 ==> node + 1 < |g[layer]|
    ensures r.None? <==> |g| == 0 || |g[layer]| == 0
    ensures r.Some? ==> ValidLoc(g, r.value) && r.value == Location(layer, node)
    ensures r.Some? ==> 0 < r.value.layer < |g| - 1 && r.value.node < |g[r.value.layer]| - 1
  {
    RandomFrom(g, 1, 1, layer, node)
  }

  // ---------------------------------------------------------------------
  // random_edge_mut
  // ---------------------------------------------------------------------

  /** The connections of one node, each paired with the node's location. */
  function Sourced(loc: Location, conns: seq<GraphEdge>): (r: seq<(Location, GraphEdge)>)
    ensures forall x :: x in r <==> x.0 == loc && x.1 in conns
  {
    if |conns| == 0 then [] else [(loc, conns[0])] + Sourced(loc, conns[1..])
  }

  /** The edges leaving the first `n` nodes of layer `l`, node by node. */
  function EdgesOfNodes(layer: seq<GraphNode>, l: nat, n: nat): (r: seq<(Location, GraphEdge)>)
    requires n <= |layer|
    ensures forall x :: x in r <==> x.0.layer == l && x.0.node < n && x.1 in layer[x.0.node].connections
  {
    if n == 0 then [] else EdgesOfNodes(layer, l, n - 1) + Sourced(Location(l, n - 1), layer[n - 1].connections)
  }

  /** The edges leaving the first `l` layers, in the iteration order of `random_edge_mut`. */
  function EdgesUpTo(g: Layers, l: nat): (r: seq<(Location, GraphEdge)>)
    requires l <= |g|
    ensures forall x :: x in r <==> x.0.layer < l && ValidLoc(g, x.0) && x.1 in NodeAt(g, x.0).connections
  {
    if l == 0 then [] else EdgesUpTo(g, l - 1) + EdgesOfNodes(g[l - 1], l - 1, |g[l - 1]|)
  }

  /** Every edge of the graph, with the location it leaves. */
  function AllEdges(g: Layers): (r: seq<(Location, GraphEdge)>)
    ensures forall x :: x in r <==> ValidLoc(g, x.0) && x.1 in NodeAt(g, x.0).connections
  {
    EdgesUpTo(g, |g|)
  }

  /** No node of the graph has an outgoing edge. */
  predicate NoEdges(g: Layers) {
    forall l, n :: 0 <= l < |g| && 0 <= n < |g[l]| ==> |g[l][n].connections| == 0
  }

  /** The iteration of `random_edge_mut` is empty exactly when no node has an outgoing edge. */
  lemma NoEdgesIffEmpty(g: Layers)
    ensures NoEdges(g) <==> |AllEdges(g)| == 0
  {
    if !NoEdges(g) {
      var l, n :| 0 <= l < |g| && 0 <= n < |g[l]| && |g[l][n].connections| != 0;
      assert (Location(l, n), g[l][n].connections[0]) in AllEdges(g);
    }
    if |AllEdges(g)| != 0 {
      assert AllEdges(g)[0] in AllEdges(g);
    }
  }

  /**
   * `random_edge_mut`: a uniformly chosen element of the edge iteration;
   * `None` exactly when the graph has no edge at all.
   */
  function RandomEdge(g: Layers, pick: nat): (r: Option<(Location, GraphEdge)>)
    requires !NoEdges(g) ==> pick < |AllEdges(g)|
    ensures r.None? <==> NoEdges(g)
    ensures r.Some? ==> ValidLoc(g, r.value.0) && r.value.1 in NodeAt(g, r.value.0).connections
  {
    NoEdgesIffEmpty(g);
    if |AllEdges(g)| == 0 then None
    else
      assert AllEdges(g)[pick] in AllEdges(g);
      Some(AllEdges(g)[pick])
  }
}
