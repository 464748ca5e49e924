/**
 * The graph of the `has_cycle` unit test (engine/src/nn/mod.rs): three
 * inputs, two hidden layers of two placeholder nodes each, two outputs and
 * seven edges, before and after the back edge (3, 0) -> (1, 0) is added.
 */
module CycleExample {
  import opened NetTypes
  import opened Reach

  function In(id: nat): GraphNode { NewNode(Input(Identity("BlankInput", id), 0.0)) }
  function Out(id: nat): GraphNode { NewNode(Output(Identity("Sigmoid", id), 0.0)) }
  function To(l: nat, n: nat): GraphEdge { GraphEdge(Location(l, n), DefaultEdge) }

  /** The test graph, as `create_graph`, two `add_layer` calls, four blanks and seven `add_edge` calls leave it. */
  function Dag(): Layers {
    [ [In(0), In(1).(connections := [To(1, 0)]), In(2).(connections := [To(1, 1)])],
      [BlankNode.(connections := [To(2, 1)]), BlankNode.(connections := [To(2, 0), To(2, 1)])],
      [BlankNode.(connections := [To(3, 0)]), BlankNode.(connections := [To(3, 0)])],
      [Out(3), Out(4)] ]
  }

  /** The same graph after `add_edge((3, 0), (1, 0))`. */
  function WithBackEdge(): Layers {
    Dag()[3 := [Out(3).(connections := [To(1, 0)]), Out(4)]]
  }

  /** From the default start (0, 0) nothing is reachable but the start itself. */
  lemma DefaultStartIsTree()
    ensures ReachableInRange(Dag(), Location(0, 0))
    ensures UniquelyReached(Dag(), Location(0, 0))
  {
    ChainIsTree(Dag(), [Location(0, 0)]);
  }

  /** From (0, 1) the reachable part is the chain (0, 1), (1, 0), (2, 1), (3, 0). */
  lemma ChainFromSecondInput()
    ensures ReachableInRange(Dag(), Location(0, 1))
    ensures UniquelyReached(Dag(), Location(0, 1))
  {
    var g := Dag();
    var c := [Location(0, 1), Location(1, 0), Location(2, 1), Location(3, 0)];
    assert NodeAt(g, c[0]).connections == [To(1, 0)];
    assert NodeAt(g, c[1]).connections == [To(2, 1)];
    assert NodeAt(g, c[2]).connections == [To(3, 0)];
    assert NodeAt(g, c[3]).connections == [];
    ChainIsTree(g, c);
  }

  /** With the back edge every node reachable from (0, 1) still exists. */
  lemma BackEdgeInRange()
    ensures ReachableInRange(WithBackEdge(), Location(0, 1))
  {
    var g := WithBackEdge();
    var c := [Location(0, 1), Location(1, 0), Location(2, 1), Location(3, 0)];
    assert NodeAt(g, c[0]).connections == [To(1, 0)];
    assert NodeAt(g, c[1]).connections == [To(2, 1)];
    assert NodeAt(g, c[2]).connections == [To(3, 0)];
    assert NodeAt(g, c[3]).connections == [To(1, 0)];
    ListedInRange(g, c);
  }

  /** With the back edge, the walk (0, 1), (1, 0), (2, 1), (3, 0), (1, 0) revisits (1, 0). */
  lemma BackEdgeFromSecondInput()
    ensures !UniquelyReached(WithBackEdge(), Location(0, 1))
  {
    var g := WithBackEdge();
    var w := [Location(0, 1), Location(1, 0), Location(2, 1), Location(3, 0), Location(1, 0)];
    assert NodeAt(g, w[0]).connections == [To(1, 0)];
    assert NodeAt(g, w[1]).connections == [To(2, 1)];
    assert NodeAt(g, w[2]).connections == [To(3, 0)];
    assert NodeAt(g, w[3]).connections == [To(1, 0)];
    forall i | 0 <= i < 4 ensures Step(g, w[i], w[i + 1]) {
      assert ValidLoc(g, w[i]) && NodeAt(g, w[i]).connections[0].to == w[i + 1];
    }
    assert IsWalk(g, w);
    RepeatBreaksUniqueness(g, Location(0, 1), w, 1, 4);
  }
}
