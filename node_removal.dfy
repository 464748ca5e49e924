/**
 * `removed_node` deletes a slot and drops the edges aimed at it, but does not
 * renumber edges aimed at the later nodes of the same layer, which all move
 * up by one. Those edges then point at the wrong node or past the end of the
 * layer. This module shows that, and proves that the renumbering `prune`
 * already performs (`DecrementPast`) restores the invariant.
 */
module NodeRemoval {
  import opened NetTypes
  import opened GraphSpec
  import opened GraphLayers
  import opened GraphInvariants

  /** Each node after `removed_node` is the node that sat at `Before` with its edges to `loc` dropped. */
  lemma RemovedNodeAt(g: Layers, loc: Location, l: nat, n: nat)
    requires ValidLoc(g, loc) && l < |g| && n < |RemovedNode(g, loc)[l]|
    ensures Before(loc, l, n) < |g[l]|
    ensures RemovedNode(g, loc)[l][n].connections == RetainNot(g[l][Before(loc, l, n)].connections, loc)
  {
    if l == loc.layer {
      var rest := g[l][..loc.node] + g[l][loc.node + 1..];
      assert rest[n] == g[l][Before(loc, l, n)];
    }
  }

  /** `removed_node` as written keeps every edge forward and keeps the targets of each node distinct. */
  lemma RemovedNodeKeepsOrder(g: Layers, loc: Location)
    requires ValidLoc(g, loc) && ForwardOrdered(g) && UniqueEdges(g)
    ensures ForwardOrdered(RemovedNode(g, loc)) && UniqueEdges(RemovedNode(g, loc))
  {
    var r: Layers := RemovedNode(g, loc);
    forall l, n | 0 <= l < |r| && 0 <= n < |r[l]|
      ensures forall k :: 0 <= k < |r[l][n].connections| ==> l < r[l][n].connections[k].to.layer
      ensures DistinctTargets(r[l][n].connections)
    {
      RemovedNodeAt(g, loc, l, n);
      var conns := g[l][Before(loc, l, n)].connections;
      assert DistinctTargets(conns);
      RetainNotDistinct(conns, loc);
      forall k | 0 <= k < |r[l][n].connections| ensures l < r[l][n].connections[k].to.layer {
        assert r[l][n].connections[k] in conns;
      }
    }
  }

  const Input0 := NewNode(Input(Identity("BlankInput", 0), 0.0))
  const Hidden1 := NewNode(Neuron(Identity("BasicNeuron", 1), 0.0))
  const Hidden2 := NewNode(Neuron(Identity("BasicNeuron", 2), 0.0))
  const Output3 := NewNode(Output(Identity("Sigmoid", 3), 0.0))

  /** An input wired to the second of two hidden nodes, which feeds the output. */
  function TwoHidden(): Layers {
    [ [Input0.(connections := [GraphEdge(Location(1, 1), DefaultEdge)])],
      [Hidden1, Hidden2.(connections := [GraphEdge(Location(2, 0), DefaultEdge)])],
      [Output3] ]
  }

  /**
   * Removing (1, 0), a location the hidden-node sampler can return, leaves the
   * input's edge at (1, 1), which no longer exists.
   */
  lemma RemovedNodeDangles()
    ensures WellFormed(TwoHidden())
    ensures !EdgesInRange(RemovedNode(TwoHidden(), Location(1, 0)))
  {
    var g := TwoHidden();
    var r: Layers := RemovedNode(g, Location(1, 0));
    assert r[1] == DropTargetLayer([Hidden2.(connections := [GraphEdge(Location(2, 0), DefaultEdge)])], Location(1, 0));
    assert |r[1]| == 1;
    assert r[0][0].connections == RetainNot([GraphEdge(Location(1, 1), DefaultEdge)], Location(1, 0));
    assert r[0][0].connections[0].to == Location(1, 1);
  }

  /** Every edge of the graph loses the connections aimed at `loc`; the slots stay. */
  function DropTarget(g: Layers, loc: Location): (r: Layers)
    ensures |r| == |g| && forall l :: 0 <= l < |g| ==> r[l] == DropTargetLayer(g[l], loc)
  {
    seq(|g|, l requires 0 <= l < |g| => DropTargetLayer(g[l], loc))
  }

  /**
   * `removed_node` with the renumbering it evidently needs: delete the slot,
   * drop the edges aimed at it, and move the targets of later nodes of the
   * same layer up by one.
   */
  function RemovedNodeRenumbered(g: Layers, loc: Location): (r: Layers)
    requires ValidLoc(g, loc)
    ensures |r| == |g| && |r[loc.layer]| == |g[loc.layer]| - 1
  {
    RemoveAndRenumber(DropTarget(g, loc), loc)
  }

  /** Dropping the edges to one location keeps the invariant, and none is left aimed at it. */
  lemma DropTargetKeepsWellFormed(g: Layers, loc: Location)
    requires WellFormed(g)
    ensures WellFormed(DropTarget(g, loc))
    ensures forall l, n, k :: 0 <= l < |g| && 0 <= n < |g[l]| && 0 <= k < |DropTarget(g, loc)[l][n].connections| ==>
      DropTarget(g, loc)[l][n].connections[k].to != loc
  {
    var h: Layers := DropTarget(g, loc);
    forall l, n | 0 <= l < |h| && 0 <= n < |h[l]|
      ensures forall k :: 0 <= k < |h[l][n].connections| ==>
        ValidLoc(h, h[l][n].connections[k].to) && l < h[l][n].connections[k].to.layer && h[l][n].connections[k].to != loc
      ensures DistinctTargets(h[l][n].connections)
    {
      var conns := g[l][n].connections;
      assert DistinctTargets(conns);
      RetainNotDistinct(conns, loc);
      forall k | 0 <= k < |h[l][n].connections|
        ensures ValidLoc(h, h[l][n].connections[k].to) && l < h[l][n].connections[k].to.layer && h[l][n].connections[k].to != loc
      {
        assert h[l][n].connections[k] in conns;
        var j :| 0 <= j < |conns| && conns[j] == h[l][n].connections[k];
        assert ValidLoc(g, g[l][n].connections[j].to);
      }
    }
  }

  /** Where node `n` of layer `l` sat before the slot at `loc` was deleted. */
  function Before(loc: Location, l: nat, n: nat): nat {
    if l == loc.layer && n >= loc.node then n + 1 else n
  }

  /** Each connection after the deletion is the renumbered connection of the same node before it. */
  lemma RenumberAt(h: Layers, loc: Location, l: nat, n: nat)
    requires ValidLoc(h, loc) && l < |h| && n < |RemoveAndRenumber(h, loc)[l]|
    ensures var r: Layers := RemoveAndRenumber(h, loc);
      Before(loc, l, n) < |h[l]| &&
      |r[l][n].connections| == |h[l][Before(loc, l, n)].connections| &&
      forall k :: 0 <= k < |r[l][n].connections| ==>
        r[l][n].connections[k] == DecrementPast(h[l][Before(loc, l, n)].connections[k], loc)
  {
    if l == loc.layer {
      var rest := h[l][..loc.node] + h[l][loc.node + 1..];
      assert rest[n] == h[l][Before(loc, l, n)];
    }
  }

  /** Renumbering is one-to-one on every target other than the deleted one. */
  lemma DecrementPastInjective(a: GraphEdge, b: GraphEdge, loc: Location)
    requires a.to != loc && b.to != loc && a.to != b.to
    ensures DecrementPast(a, loc).to != DecrementPast(b, loc).to
  {
  }

  /** Deleting a slot no edge targets, with the renumbering, keeps the invariant. */
  lemma RenumberKeepsWellFormed(h: Layers, loc: Location)
    requires ValidLoc(h, loc) && WellFormed(h)
    requires forall l, n, k :: 0 <= l < |h| && 0 <= n < |h[l]| && 0 <= k < |h[l][n].connections| ==>
      h[l][n].connections[k].to != loc
    ensures WellFormed(RemoveAndRenumber(h, loc))
  {
    var r: Layers := RemoveAndRenumber(h, loc);
    assert forall l :: 0 <= l < |h| && l != loc.layer ==> |r[l]| == |h[l]|;
    forall l, n | 0 <= l < |r| && 0 <= n < |r[l]|
      ensures forall k :: 0 <= k < |r[l][n].connections| ==>
        ValidLoc(r, r[l][n].connections[k].to) && l < r[l][n].connections[k].to.layer
      ensures DistinctTargets(r[l][n].connections)
    {
      RenumberAt(h, loc, l, n);
      var src := Before(loc, l, n);
      var conns := h[l][src].connections;
      forall k | 0 <= k < |r[l][n].connections|
        ensures ValidLoc(r, r[l][n].connections[k].to) && l < r[l][n].connections[k].to.layer
      {
        assert ValidLoc(h, conns[k].to) && conns[k].to != loc && l < conns[k].to.layer;
      }
      forall i, j | 0 <= i < j < |r[l][n].connections|
        ensures r[l][n].connections[i].to != r[l][n].connections[j].to
      {
        DecrementPastInjective(conns[i], conns[j], loc);
      }
    }
  }

  /** The renumbering removal keeps every edge forward, in range and unique. */
  lemma RemovedNodeRenumberedKeepsWellFormed(g: Layers, loc: Location)
    requires ValidLoc(g, loc) && WellFormed(g)
    ensures WellFormed(RemovedNodeRenumbered(g, loc))
  {
    DropTargetKeepsWellFormed(g, loc);
    RenumberKeepsWellFormed(DropTarget(g, loc), loc);
  }
}
