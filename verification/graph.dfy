/** The graph records shared by the registry, the pools and the scheduler.
    Every pointer to a node or an edge in ninja's C++ code becomes an index
    into an arena owned by the registry: a node id indexes `State.nodes`, an edge id `State.edges`. */
module Graph {
  import opened Wrappers

  type NodeId = nat
  type EdgeId = nat

  /** The dispatch weight of every edge, standing for `Edge::weight()`. */
  type Weights = EdgeId -> int

  /** Per-build classification of a node; `Unknown` until it is examined. */
  datatype Status = Unknown | Dirty | Clean

  /** A build artifact: its path, the edge that produces it (if any) and the
      edges that consume it, in the order they were attached. */
  datatype Node = Node(path: string, inEdge: Option<EdgeId>, outEdges: seq<EdgeId>, status: Status)

  /** A build action. Rule and pool are referred to by their names, the keys
      of the registry's rule and pool tables. */
  datatype Edge = Edge(
    rule: string,
    pool: string,
    inputs: seq<NodeId>,
    outputs: seq<NodeId>,
    outputsReady: bool,
    weight: int)

  /** A named command template; only its name matters to this core. */
  datatype Rule = Rule(name: string)

  /** A node as it is first created: no producer, no consumers. */
  function NewNode(path: string): Node {
    Node(path, None, [], Unknown)
  }

  /** A freshly allocated edge: no inputs, no outputs, outputs not ready. */
  function NewEdge(rule: string, pool: string, weight: int): Edge {
    Edge(rule, pool, [], [], false, weight)
  }
}
