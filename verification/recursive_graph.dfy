/** The recursively defined graph `node<Name, Pos, Children...>`
    (metaprogram/graph/recursive_graph.hpp).  A node type is its name, position and
    child types; two node types are the same type exactly when all three agree. */
module RecursiveGraph {

  /** `vec2i`: the integer position of a node. */
  datatype Vec2i = Vec2i(x: int, y: int)

  /** `node<Name, Pos, Children...>`: `name`, `position`, and `children` as the pack of
      the child types in declaration order. */
  datatype Node = Node(name: string, position: Vec2i, children: seq<Node>)

  /** Number of node occurrences in the tree spanned by `n`. */
  function Size(n: Node): (k: nat)
    ensures k >= 1
  {
    1 + SizeOfAll(n.children)
  }

  function SizeOfAll(cs: seq<Node>): (k: nat)
    ensures forall i :: 0 <= i < |cs| ==> Size(cs[i]) <= k
  {
    if |cs| == 0 then 0 else Size(cs[0]) + SizeOfAll(cs[1..])
  }

  /** `x` is `n` itself or reachable through the child relation. */
  ghost predicate Reachable(n: Node, x: Node)
    decreases n, 1
  {
    x == n || ReachableFromAny(n.children, x)
  }

  ghost predicate ReachableFromAny(cs: seq<Node>, x: Node)
    decreases cs, 0
  {
    exists i :: 0 <= i < |cs| && Reachable(cs[i], x)
  }

  lemma {:induction false} ReachableShrinks(n: Node, x: Node)
    requires Reachable(n, x)
    ensures Size(x) <= Size(n)
    decreases n
  {
    if x != n {
      var i :| 0 <= i < |n.children| && Reachable(n.children[i], x);
      ReachableShrinks(n.children[i], x);
    }
  }

  /** A node is only built from node types defined before it, so following children
      never leads back: no child reaches its parent. */
  lemma ChildRelationAcyclic(n: Node, i: nat)
    requires i < |n.children|
    ensures !Reachable(n.children[i], n)
  {
    if Reachable(n.children[i], n) {
      ReachableShrinks(n.children[i], n);
    }
  }
}
