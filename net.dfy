/**
 * `Net`: a graph together with the indices of its input and output layers,
 * and the two ways `engine/src/nn/mod.rs` builds one from scratch:
 * `from_preserving_basic` and `gen`. Every operation on a net edits its
 * graph object in place.
 */
module Nets {
  import opened Wrappers
  import opened NetTypes
  import GraphSpec
  import opened Graph
  import opened Align
  import opened GenSpec

  class Net {
    var graph: NeuralGraph
    var inputLayer: nat
    var outputLayer: nat

    constructor (graph: NeuralGraph, inputLayer: nat, outputLayer: nat)
      ensures this.graph == graph && this.inputLayer == inputLayer && this.outputLayer == outputLayer
    {
      this.graph := graph;
      this.inputLayer := inputLayer;
      this.outputLayer := outputLayer;
    }
  }

  /** `for value in values { g.add_node(l, GraphNode::new(value))?; }` on an existing layer `l`. */
  method AddFresh(g: NeuralGraph, l: nat, values: seq<Node>) returns (r: Result<(), GraphError>)
    requires l < |g.layers|
    modifies g
    ensures r.Ok? && g.layers == old(g.layers)[l := old(g.layers)[l] + Fresh(values)]
  {
    var i := 0;
    assert old(g.layers)[l] + Fresh(values[..0]) == old(g.layers)[l];
    while i < |values|
      invariant 0 <= i <= |values|
      invariant g.layers == old(g.layers)[l := old(g.layers)[l] + Fresh(values[..i])]
    {
      ghost var before := g.layers;
      var added := g.AddNode(l, NewNode(values[i]));
      match added
      case Err(e) =>
        return Err(e);
      case Ok(_) =>
        assert Fresh(values[..i + 1]) == Fresh(values[..i]) + [NewNode(values[i])];
        assert before[l] + [NewNode(values[i])] == old(g.layers)[l] + Fresh(values[..i + 1]);
        i := i + 1;
    }
    assert values[..i] == values;
    return Ok(());
  }

  /**
   * `Net::from_preserving_basic`: a new net holding copies of `from`'s input
   * and output layers, without their connections, as layers 0 and 1.
   */
  method FromPreservingBasic(from: Net) returns (r: Result<Net, GraphError>)
    requires from.inputLayer < |from.graph.layers| && from.outputLayer < |from.graph.layers|
    ensures r.Ok? && fresh(r.value) && fresh(r.value.graph)
    ensures r.value.graph.layers == PreservedBasic(from.graph.layers, from.inputLayer, from.outputLayer)
    ensures r.value.inputLayer == 0 && r.value.outputLayer == 1
  {
    var g := new NeuralGraph();
    var _ := g.AddLayerToEnd();
    var inputs := AddFresh(g, 0, Values(from.graph.layers[from.inputLayer]));
    match inputs
    case Err(e) =>
      return Err(e);
    case Ok(_) =>
      assert [] + Fresh(Values(from.graph.layers[from.inputLayer])) == Stripped(from.graph.layers[from.inputLayer]);
      var _ := g.AddLayerToEnd();
      var outputs := AddFresh(g, 1, Values(from.graph.layers[from.outputLayer]));
      match outputs
      case Err(e) =>
        return Err(e);
      case Ok(_) =>
        assert [] + Fresh(Values(from.graph.layers[from.outputLayer])) == Stripped(from.graph.layers[from.outputLayer]);
        var net := new Net(g, 0, 1);
        return Ok(net);
  }

  /** One kept hidden layer of `gen`: a new last layer, then `n` neurons with the ids from `first` on. */
  method AddNeuronLayer(g: NeuralGraph, first: nat, n: nat, bias: nat -> real) returns (r: Result<(), GraphError>)
    modifies g
    ensures r.Ok? && g.layers == old(g.layers) + [NeuronLayer(first, n, bias)]
  {
    var l := g.AddLayerToEnd();
    var t := 0;
    assert NeuronLayer(first, 0, bias) == [];
    while t < n
      invariant 0 <= t <= n
      invariant g.layers == old(g.layers) + [NeuronLayer(first, t, bias)]
      invariant l == |g.layers| - 1
    {
      var added := g.AddNode(l, NewNode(Basic(first + t, bias)));
      match added
      case Err(e) =>
        return Err(e);
      case Ok(_) =>
        assert NeuronLayer(first, t + 1, bias) == NeuronLayer(first, t, bias) + [NewNode(Basic(first + t, bias))];
        t := t + 1;
    }
    return Ok(());
  }

  /**
   * The hidden-layer loop of `gen`: one layer per non-zero size draw, filled
   * with basic neurons numbered on from 0; a zero draw only counts a removed
   * layer. Returns `num_internal_layers - remove_layers`.
   */
  method AddHidden(g: NeuralGraph, sizes: seq<nat>, bias: nat -> real) returns (r: Result<nat, GraphError>)
    modifies g
    ensures r.Ok? && r.value == Kept(sizes) && g.layers == old(g.layers) + Hidden(sizes, bias)
  {
    var numInternal := |sizes|;
    var removeLayers := 0;
    var id := 0;
    var j := 0;
    assert sizes[..0] == [];
    while j < |sizes|
      invariant 0 <= j <= |sizes|
      invariant g.layers == old(g.layers) + Hidden(sizes[..j], bias)
      invariant id == Total(sizes[..j]) && removeLayers + Kept(sizes[..j]) == j
    {
      assert sizes[..j + 1][..j] == sizes[..j];
      var numNodes := sizes[j];
      if numNodes == 0 {
        removeLayers := removeLayers + 1;
      } else {
        var added := AddNeuronLayer(g, id, numNodes, bias);
        match added
        case Err(e) =>
          return Err(e);
        case Ok(_) =>
          id := id + numNodes;
      }
      j := j + 1;
    }
    assert sizes[..j] == sizes;
    return Ok(numInternal - removeLayers);
  }

  /** One accepted try of the connection loop: `add_edge` extends the wiring done so far by that try. */
  method WireTry(g: NeuralGraph, ghost skeleton: Layers, ghost acc: seq<Try>, t: Try) returns (r: Result<(), GraphError>)
    requires Wire(skeleton, acc) == Ok(g.layers)
    modifies g
    ensures var w := Wire(skeleton, acc + [t]);
      && (w.Err? ==> r == Err(w.error))
      && (w.Ok? ==> r == Ok(()) && g.layers == w.value)
  {
    WireLast(skeleton, acc, t, g.layers);
    r := g.AddEdge(Location(t.fromLayer, t.fromNode), Location(t.toLayer, t.toNode), t.value);
  }

  /**
   * The connection loop of `gen`: draw until `numConnections` pairs are
   * accepted; a try is skipped when its layers are not ordered or when its
   * pair was recorded before in either direction; an accepted try is
   * recorded and added with `add_edge(..)?`.
   */
  method Connect(g: NeuralGraph, ghost skeleton: Layers, numConnections: nat, tries: seq<Try>)
    returns (r: Result<(), GraphError>)
    requires g.layers == skeleton && Enough(skeleton, [], tries, numConnections)
    modifies g
    ensures var w := Wire(skeleton, Chosen(skeleton, [], tries, numConnections));
      && (w.Err? ==> r == Err(w.error))
      && (w.Ok? ==> r == Ok(()) && g.layers == w.value)
  {
    var actual := 0;
    var pairs: seq<(Location, Location)> := [];
    var i := 0;
    ghost var acc: seq<Try> := [];
    assert tries[0..] == tries;
    while actual != numConnections
      invariant Connecting(skeleton, tries, numConnections, i, actual, pairs, acc, g.layers)
      decreases |tries| - i
    {
      ConnectingGoesOn(skeleton, tries, numConnections, i, actual, pairs, acc, g.layers);
      var t := tries[i];
      if t.fromLayer < t.toLayer && !ConnectionPairExists(pairs, Location(t.fromLayer, t.fromNode), Location(t.toLayer, t.toNode)) {
        ghost var h := g.layers;
        var added := WireTry(g, skeleton, acc, t);
        match added
        case Err(e) =>
          ConnectingFails(skeleton, tries, numConnections, i, actual, pairs, acc, h);
          return Err(e);
        case Ok(_) =>
          ConnectingAccepts(skeleton, tries, numConnections, i, actual, pairs, acc, h);
          pairs := pairs + [(Location(t.fromLayer, t.fromNode), Location(t.toLayer, t.toNode))];
          acc := acc + [t];
          actual := actual + 1;
      } else {
        ConnectingSkips(skeleton, tries, numConnections, i, actual, pairs, acc, g.layers);
      }
      i := i + 1;
    }
    ConnectingDone(skeleton, tries, numConnections, i, pairs, acc, g.layers);
    return Ok(());
  }

  /**
   * `Net::gen` with its random draws as parameters: `sizes` are the size
   * draws of the hidden layers (fewer than 5, each below 10), `bias` gives
   * the `random()` bias of the neuron with each id, `numConnections` is the
   * draw in `0..4 * (k + 1)` for `k` kept hidden layers, and `tries` are the
   * connection loop's successive draws. The net is the skeleton with the
   * accepted tries wired in, input layer first and output layer last.
   */
  method Gen(inputs: seq<Node>, outputs: seq<Node>, sizes: seq<nat>, bias: nat -> real,
             numConnections: nat, tries: seq<Try>) returns (r: Result<Net, GraphError>)
    requires |sizes| < 5 && forall i :: 0 <= i < |sizes| ==> sizes[i] < 10
    requires numConnections < 4 * (Kept(sizes) + 1)
    requires Enough(Skeleton(inputs, sizes, bias, outputs), [], tries, numConnections)
    ensures var skeleton := Skeleton(inputs, sizes, bias, outputs);
      var w := Wire(skeleton, Chosen(skeleton, [], tries, numConnections));
      && (w.Err? ==> r == Err(w.error))
      && (w.Ok? ==>
            && r.Ok? && fresh(r.value) && fresh(r.value.graph) && r.value.graph.layers == w.value
            && r.value.inputLayer == 0 && r.value.outputLayer == Kept(sizes) + 1)
  {
    var g := new NeuralGraph();
    var inputLayer := g.AddLayerToEnd();
    var ins := AddFresh(g, inputLayer, inputs);
    match ins
    case Err(e) =>
      return Err(e);
    case Ok(_) =>
      assert [] + Fresh(inputs) == Fresh(inputs);
      var hidden := AddHidden(g, sizes, bias);
      match hidden
      case Err(e) =>
        return Err(e);
      case Ok(numInternal) =>
        var outputLayer := g.AddLayerToEnd();
        var outs := AddFresh(g, outputLayer, outputs);
        match outs
        case Err(e) =>
          return Err(e);
        case Ok(_) =>
          assert [] + Fresh(outputs) == Fresh(outputs);
          assert g.layers == Skeleton(inputs, sizes, bias, outputs);
          var connected := Connect(g, g.layers, numConnections, tries);
          match connected
          case Err(e) =>
            return Err(e);
          case Ok(_) =>
            var net := new Net(g, inputLayer, outputLayer);
            return Ok(net);
  }
}
