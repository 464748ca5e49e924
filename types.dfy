/** Failure-compatible wrappers shared by every module of the model. */
module Wrappers {
  datatype Option<T> = None | Some(value: T)

  datatype Result<T, E> = Ok(value: T) | Err(error: E)
}

/**
 * The value types of the layered neural graph: locations, edges, nodes and
 * the layer storage `seq<seq<GraphNode>>`, with the structural predicates the
 * rest of the model states its contracts in.
 */
module NetTypes {
  import opened Wrappers

  /** A node address (layer index, node index). The source types both as u16. */
  datatype Location = Location(layer: nat, node: nat)

  /** A connection's payload. The source's f32 weight is a real here. */
  datatype Edge = Edge(weight: real, enabled: bool)

  /** `Edge::default()`: weight 0 and disabled. */
  const DefaultEdge := Edge(0.0, false)

  /** An outgoing connection, owned by the node it leaves. */
  datatype GraphEdge = GraphEdge(to: Location, value: Edge)

  /** The stable gene identity of a node: its implementation type name and its id field. */
  datatype Identity = Identity(kind: string, id: nat)

  /**
   * The node roles. `Blank` is the source's `Node::None` placeholder. Each
   * concrete node carries its identity and one abstract real: the value an
   * input exposes, the value an output saved last, or a hidden neuron's parameter.
   */
  datatype Node =
    | Blank
    | Input(ident: Identity, value: real)
    | Output(ident: Identity, value: real)
    | Neuron(ident: Identity, param: real)

  datatype GraphNode = GraphNode(value: Node, connections: seq<GraphEdge>)

  /** `GraphNode::new(value)`: a node without connections. */
  function NewNode(value: Node): GraphNode {
    GraphNode(value, [])
  }

  /** `GraphNode::blank()`. */
  const BlankNode := GraphNode(Blank, [])

  /** The whole store: `layers: Vec<Vec<GraphNode>>`. */
  type Layers = seq<seq<GraphNode>>

  datatype GraphError =
    | LayerNotFound(lastLayer: nat)
    | NodeNotFound(at: Location)
    | ConnectionExists(from: Location, to: Location)

  predicate ValidLoc(g: Layers, loc: Location) {
    loc.layer < |g| && loc.node < |g[loc.layer]|
  }

  function NodeAt(g: Layers, loc: Location): GraphNode
    requires ValidLoc(g, loc)
  {
    g[loc.layer][loc.node]
  }

  /** Some connection of `conns` targets `to`. */
  predicate HasTarget(conns: seq<GraphEdge>, to: Location) {
    exists k :: 0 <= k < |conns| && conns[k].to == to
  }

  /** The targets of a connection list, in order. */
  function Targets(conns: seq<GraphEdge>): (r: seq<Location>)
    ensures |r| == |conns| && forall k :: 0 <= k < |conns| ==> r[k] == conns[k].to
  {
    seq(|conns|, k requires 0 <= k < |conns| => conns[k].to)
  }

  /** Every edge targets an existing node. */
  ghost predicate EdgesInRange(g: Layers) {
    forall l, n, k :: 0 <= l < |g| && 0 <= n < |g[l]| && 0 <= k < |g[l][n].connections| ==>
      ValidLoc(g, g[l][n].connections[k].to)
  }

  /** Every edge goes from a lower layer to a strictly higher one. */
  ghost predicate ForwardOrdered(g: Layers) {
    forall l, n, k :: 0 <= l < |g| && 0 <= n < |g[l]| && 0 <= k < |g[l][n].connections| ==>
      l < g[l][n].connections[k].to.layer
  }

  /** At most one edge per ordered (from, to) pair. */
  ghost predicate UniqueEdges(g: Layers) {
    forall l, n, i, j :: 0 <= l < |g| && 0 <= n < |g[l]| && 0 <= i < j < |g[l][n].connections| ==>
      g[l][n].connections[i].to != g[l][n].connections[j].to
  }

  /** No `Blank` placeholder is left. */
  ghost predicate NoBlank(g: Layers) {
    forall l, n :: 0 <= l < |g| && 0 <= n < |g[l]| ==> !g[l][n].value.Blank?
  }

  /** The structural invariant of a finished graph. */
  ghost predicate WellFormed(g: Layers) {
    EdgesInRange(g) && ForwardOrdered(g) && UniqueEdges(g)
  }
}
