/**
 * `Net::mutate`: the generator picks, round after round, a link or a neuron
 * mutator by index and says whether this is the last round; the first error
 * stops the run. The generator's answers and each operator's random draws are
 * given up front as a sequence of rounds.
 */
module MutateRun {
  import opened Wrappers
  import opened NetTypes
  import opened Sampling
  import opened MutateSpec

  /** The link mutators the source defines. */
  datatype LinkMutator = AddEdgeMutator | RemoveEdgeMutator

  /** The neuron mutators the source defines. */
  datatype NeuronMutator = AddNeuronMutator | RemoveNeuronMutator

  /**
   * The draws one operator may make: a source and a destination location and
   * a payload (`AddEdge`), an edge index (`RemoveEdge`, `AddNeuron`), the
   * selector's answer (`AddNeuron`) and a hidden location (`RemoveNeuron`,
   * which reuses `layer` and `node`).
   */
  datatype Draws = Draws(layer: nat, node: nat, toLayer: nat, toNode: nat, value: Edge, pick: nat, selected: nat)

  /** One round: the generator's `(is_link, index, done)` and the operator's draws. */
  datatype Round = Round(isLink: bool, idx: nat, done: bool, draws: Draws)

  /** The chosen mutator exists (the source indexes the slice) and its draws are in range on `g`. */
  ghost predicate RoundDefined(g: Layers, links: seq<LinkMutator>, neuronMutators: seq<NeuronMutator>,
                               neurons: seq<NeuronNode>, rd: Round)
  {
    var d := rd.draws;
    if rd.isLink then
      rd.idx < |links| &&
      match links[rd.idx]
      case AddEdgeMutator => AddEdgePicks(g, d.layer, d.node, d.toLayer, d.toNode) && EdgesInRange(g)
      case RemoveEdgeMutator => !NoEdges(g) ==> d.pick < |AllEdges(g)|
    else
      rd.idx < |neuronMutators| &&
      match neuronMutators[rd.idx]
      case AddNeuronMutator =>
        && (!NoEdges(g) ==> d.pick < |AllEdges(g)|)
        && (!NoEdges(g) && d.selected < |neurons| ==> RunDefined(g, AllEdges(g)[d.pick].0, AllEdges(g)[d.pick].1))
      case RemoveNeuronMutator => HiddenPicks(g, d.layer, d.node)
  }

  /** What the chosen mutator does to `g`. */
  ghost function RoundStep(g: Layers, links: seq<LinkMutator>, neuronMutators: seq<NeuronMutator>,
                           neurons: seq<NeuronNode>, rd: Round): Outcome
    requires RoundDefined(g, links, neuronMutators, neurons, rd)
  {
    var d := rd.draws;
    if rd.isLink then
      match links[rd.idx]
      case AddEdgeMutator => AddEdgeMut(g, d.layer, d.node, d.toLayer, d.toNode, d.value)
      case RemoveEdgeMutator => RemoveEdgeMut(g, d.pick)
    else
      match neuronMutators[rd.idx]
      case AddNeuronMutator => AddNeuronMut(g, d.pick, d.selected, neurons)
      case RemoveNeuronMutator => RemoveNeuronMut(g, d.layer, d.node)
  }

  /**
   * Every round the run reaches is defined, and the generator says `done`
   * before the rounds run out (otherwise the source keeps looping).
   */
  ghost predicate Runnable(g: Layers, links: seq<LinkMutator>, neuronMutators: seq<NeuronMutator>,
                           neurons: seq<NeuronNode>, rounds: seq<Round>)
    decreases |rounds|
  {
    && |rounds| > 0
    && RoundDefined(g, links, neuronMutators, neurons, rounds[0])
    && var (h, res) := RoundStep(g, links, neuronMutators, neurons, rounds[0]);
       res.Ok? && !rounds[0].done ==> Runnable(h, links, neuronMutators, neurons, rounds[1..])
  }

  /** The graph the run leaves and its result: the first error, or `Ok` after the round marked `done`. */
  ghost function RunMutations(g: Layers, links: seq<LinkMutator>, neuronMutators: seq<NeuronMutator>,
                              neurons: seq<NeuronNode>, rounds: seq<Round>): (Layers, Result<(), MutateError>)
    requires Runnable(g, links, neuronMutators, neurons, rounds)
    decreases |rounds|
  {
    var (h, res) := RoundStep(g, links, neuronMutators, neurons, rounds[0]);
    if res.Err? then (h, Err(res.error))
    else if rounds[0].done then (h, Ok(()))
    else RunMutations(h, links, neuronMutators, neurons, rounds[1..])
  }

  /** No round of the run picks `RemoveNeuron`. */
  predicate KeepsNeurons(neuronMutators: seq<NeuronMutator>, rounds: seq<Round>) {
    forall i :: 0 <= i < |rounds| && !rounds[i].isLink && rounds[i].idx < |neuronMutators| ==>
      neuronMutators[rounds[i].idx] != RemoveNeuronMutator
  }

  /** One round other than `RemoveNeuron` keeps the invariant and at least two layers. */
  lemma RoundKeepsWellFormed(g: Layers, links: seq<LinkMutator>, neuronMutators: seq<NeuronMutator>,
                             neurons: seq<NeuronNode>, rd: Round)
    requires RoundDefined(g, links, neuronMutators, neurons, rd) && WellFormed(g) && |g| >= 2
    requires !rd.isLink ==> neuronMutators[rd.idx] != RemoveNeuronMutator
    ensures var r := RoundStep(g, links, neuronMutators, neurons, rd);
      WellFormed(r.0) && |r.0| >= 2
  {
    if rd.isLink && links[rd.idx] == AddEdgeMutator {
      AddEdgeRoundKeepsWellFormed(g, links, neuronMutators, neurons, rd);
    } else if rd.isLink {
      RemoveEdgeRoundKeepsWellFormed(g, links, neuronMutators, neurons, rd);
    } else {
      AddNeuronRoundKeepsWellFormed(g, links, neuronMutators, neurons, rd);
    }
  }

  /** A round that picks `AddEdge` keeps the invariant. */
  lemma AddEdgeRoundKeepsWellFormed(g: Layers, links: seq<LinkMutator>, neuronMutators: seq<NeuronMutator>,
                                    neurons: seq<NeuronNode>, rd: Round)
    requires RoundDefined(g, links, neuronMutators, neurons, rd) && WellFormed(g) && |g| >= 2
    requires rd.isLink && links[rd.idx] == AddEdgeMutator
    ensures var r := RoundStep(g, links, neuronMutators, neurons, rd);
      WellFormed(r.0) && |r.0| >= 2
  {
    var d := rd.draws;
    assert RoundStep(g, links, neuronMutators, neurons, rd) == AddEdgeMut(g, d.layer, d.node, d.toLayer, d.toNode, d.value);
    AddEdgeMutKeepsWellFormed(g, d.layer, d.node, d.toLayer, d.toNode, d.value);
  }

  /** A round that picks `RemoveEdge` keeps the invariant. */
  lemma RemoveEdgeRoundKeepsWellFormed(g: Layers, links: seq<LinkMutator>, neuronMutators: seq<NeuronMutator>,
                                       neurons: seq<NeuronNode>, rd: Round)
    requires RoundDefined(g, links, neuronMutators, neurons, rd) && WellFormed(g) && |g| >= 2
    requires rd.isLink && links[rd.idx] == RemoveEdgeMutator
    ensures var r := RoundStep(g, links, neuronMutators, neurons, rd);
      WellFormed(r.0) && |r.0| >= 2
  {
    assert RoundStep(g, links, neuronMutators, neurons, rd) == RemoveEdgeMut(g, rd.draws.pick);
    RemoveEdgeMutKeepsWellFormed(g, rd.draws.pick);
  }

  /** A round that picks `AddNeuron` keeps the invariant. */
  lemma AddNeuronRoundKeepsWellFormed(g: Layers, links: seq<LinkMutator>, neuronMutators: seq<NeuronMutator>,
                                      neurons: seq<NeuronNode>, rd: Round)
    requires RoundDefined(g, links, neuronMutators, neurons, rd) && WellFormed(g) && |g| >= 2
    requires !rd.isLink && neuronMutators[rd.idx] == AddNeuronMutator
    ensures var r := RoundStep(g, links, neuronMutators, neurons, rd);
      WellFormed(r.0) && |r.0| >= 2
  {
    var d := rd.draws;
    assert RoundStep(g, links, neuronMutators, neurons, rd) == AddNeuronMut(g, d.pick, d.selected, neurons);
    AddNeuronMutKeepsWellFormed(g, d.pick, d.selected, neurons);
  }

  /**
   * A run that never picks `RemoveNeuron` keeps every edge forward, in range
   * and unique, whichever rounds it takes and wherever it stops.
   */
  lemma {:induction false} RunKeepsWellFormed(g: Layers, links: seq<LinkMutator>, neuronMutators: seq<NeuronMutator>,
                                              neurons: seq<NeuronNode>, rounds: seq<Round>)
    requires Runnable(g, links, neuronMutators, neurons, rounds) && WellFormed(g) && |g| >= 2
    requires KeepsNeurons(neuronMutators, rounds)
    ensures WellFormed(RunMutations(g, links, neuronMutators, neurons, rounds).0)
    decreases |rounds|
  {
    RoundKeepsWellFormed(g, links, neuronMutators, neurons, rounds[0]);
    var step := RoundStep(g, links, neuronMutators, neurons, rounds[0]);
    RunMutationsStep(g, links, neuronMutators, neurons, rounds);
    if step.1.Ok? && !rounds[0].done {
      KeepsNeuronsTail(neuronMutators, rounds);
      RunKeepsWellFormed(step.0, links, neuronMutators, neurons, rounds[1..]);
    }
  }

  /** The run is its first round, then either a stop with that round's graph or the rest of the run. */
  lemma RunMutationsStep(g: Layers, links: seq<LinkMutator>, neuronMutators: seq<NeuronMutator>,
                         neurons: seq<NeuronNode>, rounds: seq<Round>)
    requires Runnable(g, links, neuronMutators, neurons, rounds)
    ensures var step := RoundStep(g, links, neuronMutators, neurons, rounds[0]);
      && (step.1.Ok? && !rounds[0].done ==>
            && Runnable(step.0, links, neuronMutators, neurons, rounds[1..])
            && RunMutations(g, links, neuronMutators, neurons, rounds) == RunMutations(step.0, links, neuronMutators, neurons, rounds[1..]))
      && (step.1.Err? || rounds[0].done ==> RunMutations(g, links, neuronMutators, neurons, rounds).0 == step.0)
  {
  }

  /** A run that never picks `RemoveNeuron` still never does after its first round. */
  lemma KeepsNeuronsTail(neuronMutators: seq<NeuronMutator>, rounds: seq<Round>)
    requires KeepsNeurons(neuronMutators, rounds) && |rounds| > 0
    ensures KeepsNeurons(neuronMutators, rounds[1..])
  {
    var rest := rounds[1..];
    forall i | 0 <= i < |rest| && !rest[i].isLink && rest[i].idx < |neuronMutators|
      ensures neuronMutators[rest[i].idx] != RemoveNeuronMutator
    {
      assert rest[i] == rounds[i + 1];
    }
  }
}
