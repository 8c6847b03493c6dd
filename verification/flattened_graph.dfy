/** `flattened_graph<NodePack, EdgePack>` and `edge<A, B>`
    (metaprogram/graph/flattened_graph.hpp): a graph as a pack of nodes and a pack of
    edges.  `get_nodes`, `get_edges`, `get_from_node` and `get_to_node` are the fields. */
module FlattenedGraph {

  datatype FlatGraph<N, E> = FlatGraph(nodes: seq<N>, edges: seq<E>)

  /** An edge keeps the direction it was built with, but A* treats it as undirected. */
  datatype Edge<N> = Edge(from: N, to: N)

  /** The edge touches node `n` at either end (A*'s `edge_filter<KeepNode>`). */
  predicate Touches<N(==)>(e: Edge<N>, n: N) {
    e.from == n || e.to == n
  }
}
