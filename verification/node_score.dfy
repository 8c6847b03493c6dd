/** `node_score<Node, Score>` and its helpers (metaprogram/A_star/node_score.hpp): the
    G- and F-score tables of the type-level A* are packs of node/score pairs. */
module NodeScores {
  import opened SizeT
  import opened Wrappers
  import Pack

  /** `max_score`, the "not reached yet" score. */
  const MAX_SCORE: Size := SIZE_MAX

  datatype NodeScore<N> = NodeScore(node: N, score: Size)

  /** `make_score<Score>::type<Node>`. */
  function MakeScore<N>(score: Size): (f: N -> NodeScore<N>)
  {
    n => NodeScore(n, score)
  }

  /** `update_score<Node, Score>::type<NodeScore>`: replaces the score of Node's entry and
      passes every other entry through. */
  function UpdateScore<N(==,!new)>(n: N, score: Size): (f: NodeScore<N> -> NodeScore<N>)
    ensures forall ns: NodeScore<N> :: f(ns).node == ns.node
    ensures forall ns: NodeScore<N> :: ns.node == n ==> f(ns).score == score
    ensures forall ns: NodeScore<N> :: ns.node != n ==> f(ns) == ns
  {
    (ns: NodeScore<N>) => if n == ns.node then NodeScore(n, score) else ns
  }

  /** `equals_node<Node>::type<NS>`. */
  function EqualsNode<N(==)>(n: N): NodeScore<N> -> bool
  {
    (ns: NodeScore<N>) => ns.node == n
  }

  /** `node_eq<A, B>`. */
  predicate NodeEq<N(==)>(a: NodeScore<N>, b: NodeScore<N>) {
    a.node == b.node
  }

  /** The initial tables of A*: every node scored `max_score` by `make_score`, then the
      start node rescored by `update_score`. */
  function InitialScores<N(==,!new)>(nodes: seq<N>, start: N, score: Size): seq<NodeScore<N>>
  {
    Pack.ExpandOutside(Pack.ExpandOutside(nodes, MakeScore(MAX_SCORE)), UpdateScore(start, score))
  }

  /** The initial table lists the nodes in order, with `score` on every copy of the start
      node and `max_score` everywhere else. */
  lemma InitialScoresEntries<N(!new)>(nodes: seq<N>, start: N, score: Size)
    ensures |InitialScores(nodes, start, score)| == |nodes|
    ensures forall i :: 0 <= i < |nodes| ==>
      InitialScores(nodes, start, score)[i] ==
        NodeScore(nodes[i], if nodes[i] == start then score else MAX_SCORE)
  {
  }

  /** `find<equals_node<Node>>` on a table, i.e. the first entry of the node. */
  function Lookup<N(==)>(table: seq<NodeScore<N>>, n: N): (r: Option<NodeScore<N>>)
    ensures r.None? <==> forall i :: 0 <= i < |table| ==> table[i].node != n
    ensures r.Some? ==> r.value.node == n && r.value in table
    ensures r.Some? ==> exists i :: 0 <= i < |table| && table[i] == r.value
                                    && forall j :: 0 <= j < i ==> table[j].node != n
  {
    Pack.Find(table, EqualsNode(n))
  }

  /** In an initial table every listed node is found, with its initial score. */
  lemma LookupInitial<N(!new)>(nodes: seq<N>, start: N, score: Size, n: N)
    requires n in nodes
    ensures Lookup(InitialScores(nodes, start, score), n)
            == Some(NodeScore(n, if n == start then score else MAX_SCORE))
  {
    InitialScoresEntries(nodes, start, score);
  }
}
