/**
 * The mutation operators of `engine/src/nn/mutate.rs` as methods that edit a
 * net's graph in place, each proved to leave exactly the graph and to return
 * exactly the answer that the matching function of `MutateSpec` describes.
 */
module Mutate {
  import opened Wrappers
  import opened NetTypes
  import GraphSpec
  import Reach
  import opened Sampling
  import opened MutateSpec
  import opened Nets
  import opened MutateRun

  /**
   * `AddEdge::mutate`: sample a source and a later destination; re-enable an
   * existing edge between them, or add one with the drawn payload and take it
   * back when the search from the source then revisits a location.
   */
  method AddEdge(net: Net, inLayer: nat, inNode: nat, outLayer: nat, outNode: nat, value: Edge)
    returns (r: Result<bool, MutateError>)
    requires AddEdgePicks(net.graph.layers, inLayer, inNode, outLayer, outNode) && EdgesInRange(net.graph.layers)
    modifies net.graph
    ensures (net.graph.layers, r) == AddEdgeMut(old(net.graph.layers), inLayer, inNode, outLayer, outNode, value)
  {
    var g := net.graph;
    var input := RandomInputOrHidden(g.layers, inLayer, inNode);
    if input.None? {
      return Ok(false);
    }
    var output := RandomOutputOrHidden(g.layers, Some(input.value.layer), outLayer, outNode);
    if output.None? {
      return Ok(false);
    }
    if GraphSpec.GetEdge(g.layers, input.value, output.value).Some? {
      g.layers := EnableEdge(g.layers, input.value, output.value);
      return Ok(true);
    }
    ghost var before := g.layers;
    var added := g.AddEdge(input.value, output.value, value);
    match added
    case Err(e) =>
      return Err(AddLinkError(e));
    case Ok(_) =>
      GraphSpec.AddEdgeKeepsInRange(before, input.value, output.value, value);
      Reach.InRangeFromValid(g.layers, input.value);
      var cycle := g.HasCycle(Some(input.value));
      if cycle {
        var _ := g.RemoveEdge(input.value, output.value);
        return Ok(false);
      }
      return Ok(true);
  }

  /** `RemoveEdge::mutate`: remove the sampled edge and return what `remove_edge` reports. */
  method RemoveEdge(net: Net, pick: nat) returns (r: Result<bool, MutateError>)
    requires !NoEdges(net.graph.layers) ==> pick < |AllEdges(net.graph.layers)|
    modifies net.graph
    ensures (net.graph.layers, r) == RemoveEdgeMut(old(net.graph.layers), pick)
  {
    match RandomEdge(net.graph.layers, pick)
    case None =>
      return Ok(false);
    case Some((pos, e)) =>
      var nothingRemoved := net.graph.RemoveEdge(pos, e.to);
      return Ok(nothingRemoved);
  }

  /** `add_layer(from.layer + 1)` when the split edge spans one layer; nothing otherwise. */
  method InsertSplitLayer(g: Graph.NeuralGraph, from: Location, link: GraphEdge)
    requires |g.layers| >= 2 && ValidLoc(g.layers, from)
    requires from.layer + 1 < |g.layers| || link.to.layer == from.layer + 1
    modifies g
    ensures g.layers == LayerInserted(old(g.layers), from, link)
  {
    if link.to.layer == from.layer + 1 {
      g.AddLayer(from.layer + 1);
    }
  }

  /** `AddNeuron::run`'s first steps: remove the split edge, insert a layer when it spanned one layer, and say where its destination now sits. */
  method PrepareSplit(g: Graph.NeuralGraph, from: Location, link: GraphEdge) returns (target: Location)
    requires RunDefined(g.layers, from, link)
    modifies g
    ensures g.layers == SplitPrepared(old(g.layers), from, link) && target == SplitTarget(from, link)
  {
    var _ := g.RemoveEdge(from, link.to);
    InsertSplitLayer(g, from, link);
    var toLayerNew := link.to.layer;
    if link.to.layer == from.layer + 1 {
      toLayerNew := from.layer + 2;
    }
    target := Location(toLayerNew, link.to.node);
  }

  /**
   * `AddNeuron::run`: remove the split edge, insert a layer when it spanned
   * one layer, append the neuron after `from`'s layer and wire `from -> new`
   * with the old payload and `new -> destination` with the default payload.
   */
  method Run(net: Net, from: Location, link: GraphEdge, neuron: NeuronNode) returns (r: Result<(), MutateError>)
    requires RunDefined(net.graph.layers, from, link)
    modifies net.graph
    ensures (net.graph.layers, r) == RunSplit(old(net.graph.layers), from, link, neuron)
  {
    var g := net.graph;
    ghost var g0 := g.layers;
    var target := PrepareSplit(g, from, link);
    ghost var g2 := g.layers;
    var newNodePos := g.PushNodeAt(from.layer + 1, neuron);
    assert newNodePos == SplitNode(g0, from, link);
    ghost var g3 := g.layers;
    var first := g.AddEdge(from, newNodePos, link.value);
    match first
    case Err(e) =>
      return Err(AddNeuronError(e));
    case Ok(()) =>
      var second := g.AddEdge(newNodePos, target, DefaultEdge);
      match second
      case Err(e) =>
        return Err(AddNeuronError(e));
      case Ok(()) =>
        return Ok(());
  }

  /**
   * `AddNeuron::mutate`: split a sampled edge with the neuron the selector
   * picks; a selector answer out of range fails before anything changes.
   */
  method AddNeuron(net: Net, pick: nat, selected: nat, neurons: seq<NeuronNode>) returns (r: Result<bool, MutateError>)
    requires !NoEdges(net.graph.layers) ==> pick < |AllEdges(net.graph.layers)|
    requires !NoEdges(net.graph.layers) && selected < |neurons| ==>
      RunDefined(net.graph.layers, AllEdges(net.graph.layers)[pick].0, AllEdges(net.graph.layers)[pick].1)
    modifies net.graph
    ensures (net.graph.layers, r) == AddNeuronMut(old(net.graph.layers), pick, selected, neurons)
  {
    match RandomEdge(net.graph.layers, pick)
    case None =>
      return Ok(false);
    case Some((from, link)) =>
      if selected >= |neurons| {
        return Err(NeuronSelectorOutOfRange(|neurons|));
      }
      var run := Run(net, from, link, neurons[selected]);
      if run.Err? {
        return Err(run.error);
      }
      return Ok(true);
  }

  /** `RemoveNeuron::mutate`: nothing on a two-layer graph; otherwise `removed_node` on a sampled hidden node. */
  method RemoveNeuron(net: Net, layer: nat, node: nat) returns (r: Result<bool, MutateError>)
    requires HiddenPicks(net.graph.layers, layer, node)
    modifies net.graph
    ensures (net.graph.layers, r) == RemoveNeuronMut(old(net.graph.layers), layer, node)
  {
    if |net.graph.layers| == 2 {
      return Ok(false);
    }
    match RandomHidden(net.graph.layers, layer, node)
    case Some(n) =>
      net.graph.RemovedNode(n);
      return Ok(true);
    case None =>
      return Ok(false);
  }

  /** One round: run the link or neuron mutator the generator picked, with the round's draws. */
  method ApplyRound(net: Net, links: seq<LinkMutator>, neuronMutators: seq<NeuronMutator>,
                    neurons: seq<NeuronNode>, rd: Round) returns (r: Result<bool, MutateError>)
    requires RoundDefined(net.graph.layers, links, neuronMutators, neurons, rd)
    modifies net.graph
    ensures (net.graph.layers, r) == RoundStep(old(net.graph.layers), links, neuronMutators, neurons, rd)
  {
    var d := rd.draws;
    if rd.isLink {
      match links[rd.idx]
      case AddEdgeMutator =>
        r := AddEdge(net, d.layer, d.node, d.toLayer, d.toNode, d.value);
      case RemoveEdgeMutator =>
        r := RemoveEdge(net, d.pick);
    } else {
      match neuronMutators[rd.idx]
      case AddNeuronMutator =>
        r := AddNeuron(net, d.pick, d.selected, neurons);
      case RemoveNeuronMutator =>
        r := RemoveNeuron(net, d.layer, d.node);
    }
  }

  /**
   * `Net::mutate`: keep asking the generator for a mutator and running it
   * until the generator reports `done`; the first error is returned at once.
   */
  method MutateNet(net: Net, links: seq<LinkMutator>, neuronMutators: seq<NeuronMutator>,
                   neurons: seq<NeuronNode>, rounds: seq<Round>) returns (r: Result<(), MutateError>)
    requires Runnable(net.graph.layers, links, neuronMutators, neurons, rounds)
    modifies net.graph
    ensures (net.graph.layers, r) == RunMutations(old(net.graph.layers), links, neuronMutators, neurons, rounds)
  {
    var i := 0;
    while true
      invariant i < |rounds|
      invariant Runnable(net.graph.layers, links, neuronMutators, neurons, rounds[i..])
      invariant RunMutations(old(net.graph.layers), links, neuronMutators, neurons, rounds)
             == RunMutations(net.graph.layers, links, neuronMutators, neurons, rounds[i..])
      decreases |rounds| - i
    {
      var rd := rounds[i];
      assert rounds[i..][0] == rd && rounds[i..][1..] == rounds[i + 1..];
      var res := ApplyRound(net, links, neuronMutators, neurons, rd);
      if res.Err? {
        return Err(res.error);
      }
      if rd.done {
        return Ok(());
      }
      i := i + 1;
    }
  }
}
