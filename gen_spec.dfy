/**
 * What `Net::gen` and `Net::from_preserving_basic` (engine/src/nn/mod.rs)
 * build, as functions of their inputs and of the random draws they make:
 * the layers of fresh nodes, the hidden layers of numbered basic neurons,
 * and the edges the connection loop accepts.
 */
module GenSpec {
  import opened Wrappers
  import opened NetTypes
  import GraphSpec
  import opened Align

  // ---------------------------------------------------------------------
  // Nodes
  // ---------------------------------------------------------------------

  /** `GraphNode::new(value)` for each value, in order. */
  function Fresh(values: seq<Node>): seq<GraphNode> {
    seq(|values|, i requires 0 <= i < |values| => NewNode(values[i]))
  }

  /** The node values of a layer, in order. */
  function Values(layer: seq<GraphNode>): seq<Node> {
    seq(|layer|, i requires 0 <= i < |layer| => layer[i].value)
  }

  /** A layer copied as `from_preserving_basic` copies it: every node kept, every connection dropped. */
  function Stripped(layer: seq<GraphNode>): (r: seq<GraphNode>)
    ensures |r| == |layer|
    ensures forall n :: 0 <= n < |r| ==> r[n].value == layer[n].value && r[n].connections == []
  {
    Fresh(Values(layer))
  }

  /** No node of `g` has a connection. */
  ghost predicate Edgeless(g: Layers) {
    forall l, n :: 0 <= l < |g| && 0 <= n < |g[l]| ==> g[l][n].connections == []
  }

  /** `from_preserving_basic`: the input and the output layer of `from`, stripped, as layers 0 and 1. */
  function PreservedBasic(from: Layers, inputLayer: nat, outputLayer: nat): (r: Layers)
    requires inputLayer < |from| && outputLayer < |from|
  {
    [Stripped(from[inputLayer]), Stripped(from[outputLayer])]
  }

  /** The copy keeps the two layers' nodes in place and carries no edge, so it is well formed. */
  lemma PreservedBasicIsBare(from: Layers, inputLayer: nat, outputLayer: nat)
    requires inputLayer < |from| && outputLayer < |from|
    ensures var r := PreservedBasic(from, inputLayer, outputLayer);
      && |r| == 2
      && Values(r[0]) == Values(from[inputLayer]) && Values(r[1]) == Values(from[outputLayer])
      && Edgeless(r) && WellFormed(r)
  {
  }

  // ---------------------------------------------------------------------
  // Hidden layers
  // ---------------------------------------------------------------------

  /** `BasicNeuron { bias: random(), id }`; the bias draw for each id is the parameter `bias`. */
  function Basic(id: nat, bias: nat -> real): Node {
    Neuron(Identity("BasicNeuron", id), bias(id))
  }

  /** `n` fresh basic neurons numbered from `first` on. */
  function NeuronLayer(first: nat, n: nat, bias: nat -> real): seq<GraphNode> {
    seq(n, i requires 0 <= i < n => NewNode(Basic(first + i, bias)))
  }

  /** The sum of the drawn layer sizes: the number of neurons numbered so far. */
  function Total(sizes: seq<nat>): nat
    decreases |sizes|
  {
    if |sizes| == 0 then 0 else Total(sizes[..|sizes| - 1]) + sizes[|sizes| - 1]
  }

  /** How many drawn sizes are not zero: `num_internal_layers - remove_layers`. */
  function Kept(sizes: seq<nat>): (k: nat)
    ensures k <= |sizes|
    decreases |sizes|
  {
    if |sizes| == 0 then 0
    else Kept(sizes[..|sizes| - 1]) + (if sizes[|sizes| - 1] == 0 then 0 else 1)
  }

  /**
   * The hidden layers, one per non-zero size draw, in draw order; a zero draw
   * adds no layer. Ids run on across layers. Every hidden layer is non-empty,
   * and every hidden node is an unconnected basic neuron with an id below the total.
   */
  function Hidden(sizes: seq<nat>, bias: nat -> real): (r: Layers)
    ensures |r| == Kept(sizes)
    ensures forall l :: 0 <= l < |r| ==> |r[l]| > 0
    ensures forall l, n :: 0 <= l < |r| && 0 <= n < |r[l]| ==>
      r[l][n].connections == [] && r[l][n].value.Neuron? &&
      r[l][n].value == Basic(r[l][n].value.ident.id, bias) && r[l][n].value.ident.id < Total(sizes)
    decreases |sizes|
  {
    if |sizes| == 0 then []
    else
      var init := sizes[..|sizes| - 1];
      var n := sizes[|sizes| - 1];
      var p := Hidden(init, bias);
      if n == 0 then p
      else
        var last := NeuronLayer(Total(init), n, bias);
        assert forall i :: 0 <= i < n ==> last[i] == NewNode(Basic(Total(init) + i, bias));
        p + [last]
  }

  /** Two different places of the hidden layers never hold the same neuron id. */
  lemma {:induction false} HiddenIdsDistinct(sizes: seq<nat>, bias: nat -> real)
    ensures var r := Hidden(sizes, bias);
      forall l1, n1, l2, n2 ::
        (0 <= l1 < |r| && 0 <= n1 < |r[l1]| && 0 <= l2 < |r| && 0 <= n2 < |r[l2]| && (l1, n1) != (l2, n2)) ==>
        r[l1][n1].value.ident.id != r[l2][n2].value.ident.id
    decreases |sizes|
  {
    if |sizes| > 0 {
      var init := sizes[..|sizes| - 1];
      var n := sizes[|sizes| - 1];
      HiddenIdsDistinct(init, bias);
      var p: Layers := Hidden(init, bias);
      var r: Layers := Hidden(sizes, bias);
      if n > 0 {
        var last := NeuronLayer(Total(init), n, bias);
        assert r == p + [last];
        assert forall i :: 0 <= i < n ==> last[i] == NewNode(Basic(Total(init) + i, bias));
        forall l1, n1, l2, n2 | 0 <= l1 < |r| && 0 <= n1 < |r[l1]| && 0 <= l2 < |r| && 0 <= n2 < |r[l2]| &&
          (l1, n1) != (l2, n2)
          ensures r[l1][n1].value.ident.id != r[l2][n2].value.ident.id
        {
          if l1 < |p| && l2 < |p| {
            assert r[l1][n1] == p[l1][n1] && r[l2][n2] == p[l2][n2];
          } else if l1 < |p| {
            assert r[l1][n1] == p[l1][n1] && r[l2] == last;
          } else if l2 < |p| {
            assert r[l2][n2] == p[l2][n2] && r[l1] == last;
          } else {
            assert r[l1] == last && r[l2] == last;
          }
        }
      } else {
        assert r == p;
      }
    }
  }

  /** The layers `gen` has built when its connection loop starts: inputs, hidden layers, outputs. */
  function Skeleton(inputs: seq<Node>, sizes: seq<nat>, bias: nat -> real, outputs: seq<Node>): (r: Layers)
    ensures |r| == Kept(sizes) + 2
    ensures Edgeless(r)
  {
    [Fresh(inputs)] + Hidden(sizes, bias) + [Fresh(outputs)]
  }

  // ---------------------------------------------------------------------
  // The connection loop
  // ---------------------------------------------------------------------

  /** One pass of the connection loop's draws: two layers, then two nodes and a payload. */
  datatype Try = Try(fromLayer: nat, toLayer: nat, fromNode: nat, toNode: nat, value: Edge)

  function From(t: Try): Location { Location(t.fromLayer, t.fromNode) }

  function To(t: Try): Location { Location(t.toLayer, t.toNode) }

  function PairOf(t: Try): (Location, Location) { (From(t), To(t)) }

  /** The pairs a sequence of accepted tries records, in order. */
  function PairsOf(ts: seq<Try>): (r: seq<(Location, Location)>)
    ensures |r| == |ts| && forall i :: 0 <= i < |ts| ==> r[i] == PairOf(ts[i])
  {
    seq(|ts|, i requires 0 <= i < |ts| => PairOf(ts[i]))
  }

  /**
   * The layer draws lie in `0..=k+1`, the layers of `g`; once they are
   * ordered, the node draws lie in the chosen layers (a draw from an empty
   * layer panics in the source).
   */
  predicate TryFits(g: Layers, t: Try) {
    t.fromLayer < |g| && t.toLayer < |g| &&
    (t.fromLayer < t.toLayer ==> ValidLoc(g, From(t)) && ValidLoc(g, To(t)))
  }

  /** The loop keeps a try whose layers are ordered and whose pair is new in either direction. */
  predicate Accepts(pairs: seq<(Location, Location)>, t: Try) {
    t.fromLayer < t.toLayer && !ConnectionPairExists(pairs, From(t), To(t))
  }

  /** The tries fit and hold `need` accepted ones (otherwise the source keeps drawing). */
  predicate Enough(g: Layers, pairs: seq<(Location, Location)>, tries: seq<Try>, need: nat)
    decreases |tries|
  {
    need == 0 ||
    (|tries| > 0 && TryFits(g, tries[0]) &&
     if Accepts(pairs, tries[0]) then Enough(g, pairs + [PairOf(tries[0])], tries[1..], need - 1)
     else Enough(g, pairs, tries[1..], need))
  }

  /** The tries the loop accepts, in order, until it has `need` of them. */
  function Chosen(g: Layers, pairs: seq<(Location, Location)>, tries: seq<Try>, need: nat): seq<Try>
    requires Enough(g, pairs, tries, need)
    decreases |tries|
  {
    if need == 0 then []
    else if Accepts(pairs, tries[0]) then [tries[0]] + Chosen(g, pairs + [PairOf(tries[0])], tries[1..], need - 1)
    else Chosen(g, pairs, tries[1..], need)
  }

  /**
   * The state of the connection loop after `i` tries with `actual` accepted:
   * the tries left still hold the rest, the accepted ones `acc` followed by
   * the rest are what `Chosen` picks, `pairs` records their pairs, and the
   * graph is the skeleton wired with `acc`.
   */
  ghost predicate Connecting(g: Layers, tries: seq<Try>, need: nat, i: nat, actual: nat,
                             pairs: seq<(Location, Location)>, acc: seq<Try>, h: Layers) {
    && Enough(g, [], tries, need)
    && i <= |tries| && actual <= need
    && Enough(g, pairs, tries[i..], need - actual)
    && Chosen(g, [], tries, need) == acc + Chosen(g, pairs, tries[i..], need - actual)
    && pairs == PairsOf(acc)
    && Wire(g, acc) == Ok(h)
  }

  /** While some connections are missing, a try is left. */
  lemma ConnectingGoesOn(g: Layers, tries: seq<Try>, need: nat, i: nat, actual: nat,
                         pairs: seq<(Location, Location)>, acc: seq<Try>, h: Layers)
    requires Connecting(g, tries, need, i, actual, pairs, acc, h) && actual != need
    ensures i < |tries|
  {
  }

  /** An accepted try whose edge is added moves the loop on by one accepted try. */
  lemma ConnectingAccepts(g: Layers, tries: seq<Try>, need: nat, i: nat, actual: nat,
                          pairs: seq<(Location, Location)>, acc: seq<Try>, h: Layers)
    requires Connecting(g, tries, need, i, actual, pairs, acc, h) && actual != need && i < |tries|
    requires Accepts(pairs, tries[i])
    requires Wire(g, acc + [tries[i]]).Ok?
    ensures Connecting(g, tries, need, i + 1, actual + 1, pairs + [PairOf(tries[i])], acc + [tries[i]],
                       Wire(g, acc + [tries[i]]).value)
  {
    var t := tries[i];
    assert tries[i..][0] == t && tries[i..][1..] == tries[i + 1..];
    assert PairsOf(acc + [t]) == PairsOf(acc) + [PairOf(t)];
    assert acc + ([t] + Chosen(g, pairs + [PairOf(t)], tries[i + 1..], need - actual - 1))
        == (acc + [t]) + Chosen(g, pairs + [PairOf(t)], tries[i + 1..], need - actual - 1);
  }

  /** An accepted try whose edge cannot be added decides the outcome of the whole wiring. */
  lemma ConnectingFails(g: Layers, tries: seq<Try>, need: nat, i: nat, actual: nat,
                        pairs: seq<(Location, Location)>, acc: seq<Try>, h: Layers)
    requires Connecting(g, tries, need, i, actual, pairs, acc, h) && actual != need && i < |tries|
    requires Accepts(pairs, tries[i])
    requires Wire(g, acc + [tries[i]]).Err?
    ensures Wire(g, Chosen(g, [], tries, need)) == Wire(g, acc + [tries[i]])
  {
    var t := tries[i];
    assert tries[i..][0] == t && tries[i..][1..] == tries[i + 1..];
    var rest := Chosen(g, pairs + [PairOf(t)], tries[i + 1..], need - actual - 1);
    assert acc + ([t] + rest) == (acc + [t]) + rest;
    WireStops(g, acc + [t], rest);
  }

  /** A skipped try moves the loop on and changes nothing else. */
  lemma ConnectingSkips(g: Layers, tries: seq<Try>, need: nat, i: nat, actual: nat,
                        pairs: seq<(Location, Location)>, acc: seq<Try>, h: Layers)
    requires Connecting(g, tries, need, i, actual, pairs, acc, h) && actual != need && i < |tries|
    requires !Accepts(pairs, tries[i])
    ensures Connecting(g, tries, need, i + 1, actual, pairs, acc, h)
  {
    assert tries[i..][0] == tries[i] && tries[i..][1..] == tries[i + 1..];
  }

  /** Once `need` tries are accepted, they are all the chosen ones. */
  lemma ConnectingDone(g: Layers, tries: seq<Try>, need: nat, i: nat,
                       pairs: seq<(Location, Location)>, acc: seq<Try>, h: Layers)
    requires Connecting(g, tries, need, i, need, pairs, acc, h)
    ensures Chosen(g, [], tries, need) == acc && Wire(g, acc) == Ok(h)
  {
    assert acc + [] == acc;
  }

  /** Wiring one more try adds its edge to the graph wired so far. */
  lemma WireLast(g: Layers, acc: seq<Try>, t: Try, h: Layers)
    requires Wire(g, acc) == Ok(h)
    ensures Wire(g, acc + [t]) == GraphSpec.AddEdge(h, From(t), To(t), t.value)
  {
    assert (acc + [t])[..|acc|] == acc;
  }

  /** No two recorded pairs join the same two locations, in either direction. */
  ghost predicate NoRepeat(ps: seq<(Location, Location)>) {
    forall i, j :: 0 <= i < j < |ps| ==> ps[i] != ps[j] && ps[i] != (ps[j].1, ps[j].0)
  }

  /** Every accepted try joins an earlier layer to a later one at existing nodes. */
  ghost predicate Placed(g: Layers, ts: seq<Try>) {
    forall i :: 0 <= i < |ts| ==>
      ts[i].fromLayer < ts[i].toLayer && ValidLoc(g, From(ts[i])) && ValidLoc(g, To(ts[i]))
  }

  /**
   * The loop accepts exactly `need` tries, each forward between existing
   * nodes, and the pairs it records never join the same two locations twice.
   */
  lemma {:induction false} ChosenMeaning(g: Layers, pairs: seq<(Location, Location)>, tries: seq<Try>, need: nat)
    requires Enough(g, pairs, tries, need) && NoRepeat(pairs)
    ensures var c := Chosen(g, pairs, tries, need);
      |c| == need && Placed(g, c) && NoRepeat(pairs + PairsOf(c))
    decreases |tries|
  {
    if need > 0 {
      var t := tries[0];
      if Accepts(pairs, t) {
        var p2 := pairs + [PairOf(t)];
        assert NoRepeat(p2) by {
          forall i, j | 0 <= i < j < |p2| ensures p2[i] != p2[j] && p2[i] != (p2[j].1, p2[j].0) {
            if j == |pairs| {
              assert p2[i] == pairs[i] && p2[j] == (From(t), To(t));
            }
          }
        }
        ChosenMeaning(g, p2, tries[1..], need - 1);
        var rest := Chosen(g, p2, tries[1..], need - 1);
        assert pairs + PairsOf([t] + rest) == p2 + PairsOf(rest);
      } else {
        ChosenMeaning(g, pairs, tries[1..], need);
      }
    }
  }

  /** The graph after `add_edge` of each accepted try in turn; the first failure stops it (`?`). */
  function Wire(g: Layers, ts: seq<Try>): Result<Layers, GraphError>
    decreases |ts|
  {
    if |ts| == 0 then Ok(g)
    else
      var t := ts[|ts| - 1];
      match Wire(g, ts[..|ts| - 1])
      case Err(e) => Err(e)
      case Ok(h) => GraphSpec.AddEdge(h, From(t), To(t), t.value)
  }

  /** Once wiring has failed, later tries do not change the outcome. */
  lemma {:induction false} WireStops(g: Layers, a: seq<Try>, b: seq<Try>)
    requires Wire(g, a).Err?
    ensures Wire(g, a + b) == Wire(g, a)
    decreases |b|
  {
    if |b| > 0 {
      var ab := a + b;
      assert ab[..|ab| - 1] == a + b[..|b| - 1];
      WireStops(g, a, b[..|b| - 1]);
    } else {
      assert a + b == a;
    }
  }

  /**
   * Wiring forward tries between existing nodes of an edgeless graph, no two
   * on the same two locations, never fails; it keeps the layer shapes, the
   * result is well formed, and each edge it holds is one of the tries.
   */
  lemma {:induction false} WireMeaning(g: Layers, ts: seq<Try>)
    requires Edgeless(g) && Placed(g, ts) && NoRepeat(PairsOf(ts))
    ensures Wire(g, ts).Ok?
    ensures var h := Wire(g, ts).value;
      && |h| == |g| && (forall l :: 0 <= l < |g| ==> |h[l]| == |g[l]|)
      && WellFormed(h)
      && forall from, to :: ValidLoc(h, from) && HasTarget(NodeAt(h, from).connections, to) ==>
           (from, to) in PairsOf(ts)
    decreases |ts|
  {
    if |ts| > 0 {
      var init := ts[..|ts| - 1];
      var t := ts[|ts| - 1];
      assert PairsOf(init) == PairsOf(ts)[..|ts| - 1];
      WireMeaning(g, init);
      var h := Wire(g, init).value;
      assert (From(t), To(t)) !in PairsOf(init) by {
        forall i | 0 <= i < |init| ensures PairsOf(init)[i] != (From(t), To(t)) {
          assert PairsOf(init)[i] == PairsOf(ts)[i] && PairsOf(ts)[|ts| - 1] == (From(t), To(t));
        }
      }
      assert ValidLoc(h, From(t)) && ValidLoc(h, To(t));
      assert !HasTarget(NodeAt(h, From(t)).connections, To(t));
      GraphSpec.AddEdgeKeepsUnique(h, From(t), To(t), t.value);
      GraphSpec.AddEdgeKeepsForward(h, From(t), To(t), t.value);
      GraphSpec.AddEdgeKeepsInRange(h, From(t), To(t), t.value);
      var h2 := Wire(g, ts).value;
      forall from, to | ValidLoc(h2, from) && HasTarget(NodeAt(h2, from).connections, to)
        ensures (from, to) in PairsOf(ts)
      {
        var conns := NodeAt(h, from).connections;
        if from == From(t) {
          assert NodeAt(h2, from).connections == conns + [GraphEdge(To(t), t.value)];
          var k :| 0 <= k < |conns| + 1 && (conns + [GraphEdge(To(t), t.value)])[k].to == to;
          if k < |conns| {
            assert conns[k].to == to;
            assert (from, to) in PairsOf(init);
          } else {
            assert PairsOf(ts)[|ts| - 1] == (from, to);
          }
        } else {
          assert NodeAt(h2, from) == NodeAt(h, from);
          assert (from, to) in PairsOf(init);
        }
        assert PairsOf(init) <= PairsOf(ts);
      }
    }
  }

  /** `h` has the layers of `g`, with the same node values in the same places. */
  ghost predicate SameNodes(g: Layers, h: Layers) {
    && |h| == |g|
    && (forall l :: 0 <= l < |g| ==> |h[l]| == |g[l]|)
    && (forall l, n :: 0 <= l < |g| && 0 <= n < |g[l]| ==> h[l][n].value == g[l][n].value)
  }

  /** Every try of `ts` is an edge of `h`. */
  ghost predicate HoldsAll(h: Layers, ts: seq<Try>) {
    forall i :: 0 <= i < |ts| ==> ValidLoc(h, From(ts[i])) && HasTarget(NodeAt(h, From(ts[i])).connections, To(ts[i]))
  }

  /** Successful wiring keeps every node value in place and turns every try into an edge. */
  lemma {:induction false} WireContents(g: Layers, ts: seq<Try>)
    requires Wire(g, ts).Ok?
    ensures SameNodes(g, Wire(g, ts).value) && HoldsAll(Wire(g, ts).value, ts)
    decreases |ts|
  {
    if |ts| > 0 {
      var init := ts[..|ts| - 1];
      var t := ts[|ts| - 1];
      WireContents(g, init);
      var h := Wire(g, init).value;
      var h2 := Wire(g, ts).value;
      var f := From(t);
      var conns := NodeAt(h, f).connections;
      assert h2 == h[f.layer := h[f.layer][f.node := GraphNode(NodeAt(h, f).value, conns + [GraphEdge(To(t), t.value)])]];
      forall i | 0 <= i < |ts| ensures ValidLoc(h2, From(ts[i])) && HasTarget(NodeAt(h2, From(ts[i])).connections, To(ts[i])) {
        if i == |ts| - 1 {
          assert NodeAt(h2, f).connections[|conns|].to == To(t);
        } else {
          assert ts[i] == init[i];
          var fi := From(ts[i]);
          var ci := NodeAt(h, fi).connections;
          var k :| 0 <= k < |ci| && ci[k].to == To(ts[i]);
          if fi == f {
            assert NodeAt(h2, fi).connections[k].to == To(ts[i]);
          } else {
            assert NodeAt(h2, fi) == NodeAt(h, fi);
          }
        }
      }
    }
  }

  /** The values of fresh nodes are the values they were made from. */
  lemma ValuesOfFresh(values: seq<Node>)
    ensures Values(Fresh(values)) == values
  {
  }

  /**
   * The nodes of a generated graph: the input nodes in layer 0, the kept
   * hidden layers in between, and the output nodes in the last layer.
   */
  ghost predicate Placement(h: Layers, inputs: seq<Node>, sizes: seq<nat>, bias: nat -> real, outputs: seq<Node>) {
    && |h| == Kept(sizes) + 2
    && Values(h[0]) == inputs && Values(h[|h| - 1]) == outputs
    && forall l :: 1 <= l <= Kept(sizes) ==> Values(h[l]) == Values(Hidden(sizes, bias)[l - 1])
  }

  /** `h` has an edge from `f` to `t` exactly when (f, t) is one of `ps`. */
  ghost predicate EdgesExactly(h: Layers, ps: seq<(Location, Location)>) {
    forall f, t :: ValidLoc(h, f) ==> (HasTarget(NodeAt(h, f).connections, t) <==> (f, t) in ps)
  }

  /** A graph with the skeleton's nodes has `gen`'s placement. */
  lemma SkeletonPlacement(inputs: seq<Node>, sizes: seq<nat>, bias: nat -> real, outputs: seq<Node>, h: Layers)
    requires SameNodes(Skeleton(inputs, sizes, bias, outputs), h)
    ensures Placement(h, inputs, sizes, bias, outputs)
  {
    var skeleton := Skeleton(inputs, sizes, bias, outputs);
    forall l | 0 <= l < |h| ensures Values(h[l]) == Values(skeleton[l]) {
    }
    ValuesOfFresh(inputs);
    ValuesOfFresh(outputs);
    assert skeleton[0] == Fresh(inputs) && skeleton[|h| - 1] == Fresh(outputs);
    forall l | 1 <= l <= Kept(sizes) ensures Values(h[l]) == Values(Hidden(sizes, bias)[l - 1]) {
      assert skeleton[l] == Hidden(sizes, bias)[l - 1];
    }
  }

  /** Wiring such tries gives exactly their pairs as edges. */
  lemma WiredExactly(g: Layers, ts: seq<Try>)
    requires Edgeless(g) && Placed(g, ts) && NoRepeat(PairsOf(ts))
    ensures Wire(g, ts).Ok? && EdgesExactly(Wire(g, ts).value, PairsOf(ts))
  {
    WireMeaning(g, ts);
    WireContents(g, ts);
    var h := Wire(g, ts).value;
    forall f, t | ValidLoc(h, f) && (f, t) in PairsOf(ts)
      ensures HasTarget(NodeAt(h, f).connections, t)
    {
      var i :| 0 <= i < |ts| && PairsOf(ts)[i] == (f, t);
    }
  }

  /**
   * `gen` never fails once its draws are in range: the accepted tries wire
   * into the skeleton without a `ConnectionExists`. The result is well
   * formed, holds the input nodes in layer 0, the hidden neurons in between
   * and the output nodes in the last layer, and has an edge from `f` to `t`
   * exactly when (f, t) is an accepted pair.
   */
  lemma GenNeverFails(inputs: seq<Node>, sizes: seq<nat>, bias: nat -> real, outputs: seq<Node>,
                      tries: seq<Try>, need: nat)
    requires Enough(Skeleton(inputs, sizes, bias, outputs), [], tries, need)
    ensures var skeleton := Skeleton(inputs, sizes, bias, outputs);
      var c := Chosen(skeleton, [], tries, need);
      && |c| == need
      && Wire(skeleton, c).Ok?
      && WellFormed(Wire(skeleton, c).value)
      && Placement(Wire(skeleton, c).value, inputs, sizes, bias, outputs)
      && EdgesExactly(Wire(skeleton, c).value, PairsOf(c))
  {
    var skeleton := Skeleton(inputs, sizes, bias, outputs);
    ChosenMeaning(skeleton, [], tries, need);
    var c := Chosen(skeleton, [], tries, need);
    assert [] + PairsOf(c) == PairsOf(c);
    WireMeaning(skeleton, c);
    WireContents(skeleton, c);
    WiredExactly(skeleton, c);
    SkeletonPlacement(inputs, sizes, bias, outputs, Wire(skeleton, c).value);
  }

  // ---------------------------------------------------------------------
  // When the connection loop cannot end
  // ---------------------------------------------------------------------

  /** One input above one output: the only forward pair is (0, 0) -> (1, 0). */
  ghost predicate OnePairGraph(g: Layers) {
    |g| == 2 && |g[0]| == 1 && |g[1]| == 1
  }

  /** Once that pair is recorded, no further try is accepted. */
  lemma {:induction false} OnlyPairTaken(g: Layers, pairs: seq<(Location, Location)>, tries: seq<Try>, need: nat)
    requires OnePairGraph(g) && ConnectionPairExists(pairs, Location(0, 0), Location(1, 0))
    requires Enough(g, pairs, tries, need)
    ensures need == 0
    decreases |tries|
  {
    if need > 0 {
      var t := tries[0];
      if Accepts(pairs, t) {
        assert false;
      }
      OnlyPairTaken(g, pairs, tries[1..], need);
    }
  }

  /** On such a graph the loop accepts at most one try, whatever is drawn. */
  lemma {:induction false} AtMostOnePair(g: Layers, pairs: seq<(Location, Location)>, tries: seq<Try>, need: nat)
    requires OnePairGraph(g) && Enough(g, pairs, tries, need)
    ensures need <= 1
    decreases |tries|
  {
    if need > 0 {
      var t := tries[0];
      if Accepts(pairs, t) {
        var p2 := pairs + [PairOf(t)];
        assert From(t) == Location(0, 0) && To(t) == Location(1, 0);
        assert p2[|pairs|] == (Location(0, 0), Location(1, 0));
        OnlyPairTaken(g, p2, tries[1..], need - 1);
      } else {
        AtMostOnePair(g, pairs, tries[1..], need);
      }
    }
  }

  /**
   * As written, `gen` with one input, one output and no kept hidden layer may
   * draw 2 or 3 connections (`0..4 * (k + 1)`), but only one forward pair
   * exists: no sequence of draws ever completes the loop, so it never ends.
   */
  lemma TooFewPairsNeverEnough(input: Node, output: Node, bias: nat -> real, tries: seq<Try>, need: nat)
    requires 2 <= need < 4 * (Kept([]) + 1)
    ensures !Enough(Skeleton([input], [], bias, [output]), [], tries, need)
  {
    var g := Skeleton([input], [], bias, [output]);
    assert Hidden([], bias) == [];
    assert g == [Fresh([input]), Fresh([output])];
    if Enough(g, [], tries, need) {
      AtMostOnePair(g, [], tries, need);
    }
  }

  /**
   * As intended, with `need` no larger than the number of distinct forward
   * pairs: the loop ends as soon as the draws have offered `need` forward
   * tries on pairwise distinct location pairs that `pairs` does not hold yet,
   * and it accepts exactly those.
   */
  lemma {:induction false} DistinctTriesSuffice(g: Layers, pairs: seq<(Location, Location)>, ts: seq<Try>)
    requires forall i :: 0 <= i < |ts| ==> TryFits(g, ts[i]) && ts[i].fromLayer < ts[i].toLayer
    requires forall i :: 0 <= i < |ts| ==> !ConnectionPairExists(pairs, From(ts[i]), To(ts[i]))
    requires NoRepeat(PairsOf(ts))
    ensures Enough(g, pairs, ts, |ts|) && Chosen(g, pairs, ts, |ts|) == ts
    decreases |ts|
  {
    if |ts| > 0 {
      var t := ts[0];
      var rest := ts[1..];
      var p2 := pairs + [PairOf(t)];
      assert Accepts(pairs, t);
      forall i | 0 <= i < |rest| ensures !ConnectionPairExists(p2, From(rest[i]), To(rest[i])) {
        assert rest[i] == ts[i + 1];
        assert PairsOf(ts)[0] == PairOf(t) && PairsOf(ts)[i + 1] == PairOf(rest[i]);
      }
      assert NoRepeat(PairsOf(rest)) by {
        forall i, j | 0 <= i < j < |rest|
          ensures PairsOf(rest)[i] != PairsOf(rest)[j] && PairsOf(rest)[i] != (PairsOf(rest)[j].1, PairsOf(rest)[j].0)
        {
          assert PairsOf(rest)[i] == PairsOf(ts)[i + 1] && PairsOf(rest)[j] == PairsOf(ts)[j + 1];
        }
      }
      DistinctTriesSuffice(g, p2, rest);
      assert [t] + rest == ts;
    }
  }
}
