/**
 * The edge-split unit test of `engine/src/nn/mutate.rs`: splitting the edge
 * (0, 0) -> (1, 0), which spans one layer, inserts a layer and routes the
 * edge through a new neuron, giving exactly the graph the test builds by hand.
 */
module MutateExample {
  import opened Wrappers
  import opened NetTypes
  import opened GraphSpec
  import GraphLayers
  import opened MutateSpec

  const I0 := NewNode(Input(Identity("BlankInput", 0), 0.0))
  const I1 := NewNode(Input(Identity("BlankInput", 1), 0.0))
  const O2 := NewNode(Output(Identity("Sigmoid", 2), 0.0))
  const O3 := NewNode(Output(Identity("Sigmoid", 3), 0.0))
  /** `BasicNeuron::default()`: id 0, bias 0. */
  const Basic: NeuronNode := Neuron(Identity("BasicNeuron", 0), 0.0)
  /** The payload the test splits with. */
  const Split := Edge(1.3, true)

  function To(l: nat, n: nat, e: Edge): GraphEdge { GraphEdge(Location(l, n), e) }

  /** The graph the test mutates: two inputs, one neuron, two outputs. */
  function BeforeSplit(): Layers {
    [ [I0.(connections := [To(1, 0, DefaultEdge)]), I1.(connections := [To(1, 0, DefaultEdge)])],
      [NewNode(Basic).(connections := [To(2, 0, DefaultEdge), To(2, 1, DefaultEdge)])],
      [O2, O3] ]
  }

  /** The graph the test expects. */
  function AfterSplit(): Layers {
    [ [I0.(connections := [To(1, 0, Split)]), I1.(connections := [To(2, 0, DefaultEdge)])],
      [NewNode(Basic).(connections := [To(2, 0, DefaultEdge)])],
      [NewNode(Basic).(connections := [To(3, 0, DefaultEdge), To(3, 1, DefaultEdge)])],
      [O2, O3] ]
  }

  /** The split edge removed and a layer inserted at 1. */
  function Prepared(): Layers {
    [ [I0, I1.(connections := [To(2, 0, DefaultEdge)])],
      [],
      [NewNode(Basic).(connections := [To(3, 0, DefaultEdge), To(3, 1, DefaultEdge)])],
      [O2, O3] ]
  }

  lemma PreparedIsInserted()
    ensures RunDefined(BeforeSplit(), Location(0, 0), To(1, 0, Split))
    ensures SplitPrepared(BeforeSplit(), Location(0, 0), To(1, 0, Split)) == Prepared()
  {
    var g := BeforeSplit();
    var c := [To(1, 0, DefaultEdge)];
    assert c[0].to == Location(1, 0);
    assert HasTarget(c, Location(1, 0));
    assert RetainNot(c, Location(1, 0)) == [];
    assert NodeAt(g, Location(0, 0)) == GraphNode(I0.value, c);
    var g1: Layers := RemoveEdge(g, Location(0, 0), Location(1, 0)).0;
    assert g1 == SetNode(g, Location(0, 0), GraphNode(I0.value, []));
    assert GraphNode(I0.value, []) == I0;
    var l0 := g[0][0 := I0];
    assert |l0| == 2 && l0[0] == I0 && l0[1] == g[0][1];
    assert l0 == [I0, g[0][1]];
    assert g1 == [[I0, g[0][1]], g[1], g[2]];
    var g2: Layers := GraphLayers.AddLayer(g1, 1);
    var p := Prepared();
    assert |g2| == 4 && g2[1] == [];
    ShiftedLayer(g1[0], p[0]);
    ShiftedLayer(g1[1], p[2]);
    ShiftedLayer(g1[2], p[3]);
    assert g2 == p;
  }

  /** One layer of the test graph renumbered by an insertion at layer 1. */
  lemma ShiftedLayer(layer: seq<GraphNode>, shifted: seq<GraphNode>)
    requires |layer| == |shifted|
    requires forall n :: 0 <= n < |layer| ==>
      shifted[n].value == layer[n].value && |shifted[n].connections| == |layer[n].connections|
    requires forall n, k :: 0 <= n < |layer| && 0 <= k < |layer[n].connections| ==>
      shifted[n].connections[k] == GraphLayers.ShiftEdge(layer[n].connections[k], 1, 1)
    ensures GraphLayers.MapLayerEdges(layer, GraphLayers.Shift(1, 1)) == shifted
  {
    var m := GraphLayers.MapLayerEdges(layer, GraphLayers.Shift(1, 1));
    forall n | 0 <= n < |layer| ensures m[n] == shifted[n] {
      assert m[n].connections == shifted[n].connections;
    }
  }

  /** `AddNeuron::run` on the test graph yields the test's expected graph. */
  lemma SplitMatchesTest()
    ensures RunDefined(BeforeSplit(), Location(0, 0), To(1, 0, Split))
    ensures RunSplit(BeforeSplit(), Location(0, 0), To(1, 0, Split), Basic) == (AfterSplit(), Ok(()))
  {
    PreparedIsInserted();
    var g2 := Prepared();
    var from, newPos, target := Location(0, 0), Location(1, 0), Location(2, 0);
    assert SplitNode(BeforeSplit(), from, To(1, 0, Split)) == newPos;
    assert SplitTarget(from, To(1, 0, Split)) == target;
    var g3: Layers := g2[1 := g2[1] + [NewNode(Basic)]];
    assert g3[1] == [NewNode(Basic)];
    assert ValidLoc(g3, from) && ValidLoc(g3, newPos) && NodeAt(g3, from) == I0;
    assert !HasTarget(I0.connections, newPos);
    var e1 := [To(1, 0, Split)];
    assert I0.connections + e1 == e1;
    var g4: Layers := SetNode(g3, from, I0.(connections := e1));
    assert AddEdge(g3, from, newPos, Split) == Ok(g4);
    var l0 := g3[0][0 := I0.(connections := e1)];
    assert |l0| == 2 && l0[0] == AfterSplit()[0][0] && l0[1] == AfterSplit()[0][1];
    assert g4[0] == AfterSplit()[0];
    assert ValidLoc(g4, target) && NodeAt(g4, newPos) == NewNode(Basic);
    assert !HasTarget(NewNode(Basic).connections, target);
    var e2 := [To(2, 0, DefaultEdge)];
    assert NewNode(Basic).connections + e2 == e2;
    var g5: Layers := SetNode(g4, newPos, NewNode(Basic).(connections := e2));
    assert AddEdge(g4, newPos, target, DefaultEdge) == Ok(g5);
    assert g5[1] == AfterSplit()[1];
    assert g5 == AfterSplit();
  }
}
