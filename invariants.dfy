/**
 * How the store's edits act on the structural invariant: every edge goes
 * forward to an existing node, with at most one edge per (from, to) pair.
 */
module GraphInvariants {
  import opened NetTypes
  import opened GraphSpec
  import GraphLayers

  /** No two connections of one list share a target. */
  predicate DistinctTargets(conns: seq<GraphEdge>) {
    forall i, j :: 0 <= i < j < |conns| ==> conns[i].to != conns[j].to
  }

  /** Dropping the edges to one target keeps the others' targets distinct. */
  lemma {:induction false} RetainNotDistinct(conns: seq<GraphEdge>, to: Location)
    requires DistinctTargets(conns)
    ensures DistinctTargets(RetainNot(conns, to))
    decreases |conns|
  {
    if |conns| > 0 {
      var tail := conns[1..];
      assert DistinctTargets(tail) by {
        forall i, j | 0 <= i < j < |tail| ensures tail[i].to != tail[j].to {
          assert tail[i] == conns[i + 1] && tail[j] == conns[j + 1];
        }
      }
      RetainNotDistinct(tail, to);
      var rest := RetainNot(tail, to);
      if conns[0].to != to {
        forall k | 0 <= k < |rest| ensures rest[k].to != conns[0].to {
          assert rest[k] in tail;
          var j :| 0 <= j < |tail| && tail[j] == rest[k];
          assert conns[j + 1] == tail[j];
        }
        assert RetainNot(conns, to) == [conns[0]] + rest;
      }
    }
  }

  /** `remove_edge` only drops edges, so the invariant survives it. */
  lemma RemoveEdgeKeepsWellFormed(g: Layers, from: Location, to: Location)
    requires ValidLoc(g, from) && WellFormed(g)
    ensures WellFormed(RemoveEdge(g, from, to).0)
  {
    var h: Layers := RemoveEdge(g, from, to).0;
    var conns := NodeAt(g, from).connections;
    assert DistinctTargets(conns);
    RetainNotDistinct(conns, to);
    forall l, n, k | 0 <= l < |h| && 0 <= n < |h[l]| && 0 <= k < |h[l][n].connections|
      ensures ValidLoc(h, h[l][n].connections[k].to) && l < h[l][n].connections[k].to.layer
    {
      if l == from.layer && n == from.node {
        assert h[l][n].connections[k] in conns;
        var j :| 0 <= j < |conns| && conns[j] == h[l][n].connections[k];
        assert ValidLoc(g, g[l][n].connections[j].to);
      } else {
        assert h[l][n] == g[l][n];
        assert ValidLoc(g, g[l][n].connections[k].to);
      }
    }
    forall l, n, i, j | 0 <= l < |h| && 0 <= n < |h[l]| && 0 <= i < j < |h[l][n].connections|
      ensures h[l][n].connections[i].to != h[l][n].connections[j].to
    {
      if l != from.layer || n != from.node {
        assert h[l][n] == g[l][n];
      }
    }
  }

  /** Appending a node without connections (`push_node_at`) keeps the invariant. */
  lemma PushNodeKeepsWellFormed(g: Layers, layer: nat, value: Node)
    requires layer < |g| && WellFormed(g)
    ensures WellFormed(g[layer := g[layer] + [NewNode(value)]])
  {
    var h: Layers := g[layer := g[layer] + [NewNode(value)]];
    forall l, n, k | 0 <= l < |h| && 0 <= n < |h[l]| && 0 <= k < |h[l][n].connections|
      ensures ValidLoc(h, h[l][n].connections[k].to) && l < h[l][n].connections[k].to.layer
    {
      assert h[l][n] == g[l][n];
      assert ValidLoc(g, g[l][n].connections[k].to);
    }
    forall l, n, i, j | 0 <= l < |h| && 0 <= n < |h[l]| && 0 <= i < j < |h[l][n].connections|
      ensures h[l][n].connections[i].to != h[l][n].connections[j].to
    {
      assert h[l][n] == g[l][n];
    }
  }

  /** `add_layer` renumbers consistently, so the invariant survives it. */
  lemma AddLayerKeepsWellFormed(g: Layers, idx: nat)
    requires |g| >= 2 && idx <= |g| && WellFormed(g)
    ensures WellFormed(GraphLayers.AddLayer(g, idx))
  {
    GraphLayers.InsertLayersKeepsWellFormed(g, idx, if idx == |g| then 2 else 1);
  }

  /** A successful `add_edge` of a forward edge keeps the invariant. */
  lemma AddEdgeKeepsWellFormed(g: Layers, from: Location, to: Location, value: Edge)
    requires WellFormed(g) && from.layer < to.layer && AddEdge(g, from, to, value).Ok?
    ensures WellFormed(AddEdge(g, from, to, value).value)
  {
    AddEdgeKeepsUnique(g, from, to, value);
    AddEdgeKeepsForward(g, from, to, value);
    AddEdgeKeepsInRange(g, from, to, value);
  }
}
