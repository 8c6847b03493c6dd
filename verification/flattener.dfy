/** `flattener<Node, MakeEdge>` (metaprogram/graph/flattener.hpp): turns a recursively
    defined graph into a flattened one.  Node lists and edge lists are deduplicated with
    `unique`, so a node shared by several parents appears once. */
module Flattener {
  import Pack
  import opened RecursiveGraph
  import opened FlattenedGraph

  type Graph = FlatGraph<Node, Edge<Node>>

  /** `flatten_impl`: a childless node is the graph `[Node]` without edges; otherwise the
      children's node lists, concatenated in child order, followed by the node itself, and
      the children's edge lists followed by one edge from the node to each child. */
  function Flatten(n: Node): (g: Graph)
    ensures Pack.NoDup(g.nodes) && Pack.NoDup(g.edges)
    ensures n in g.nodes
    decreases n, 1
  {
    if |n.children| == 0 then FlatGraph([n], [])
    else FlatGraph(
      Pack.Unique(ChildNodes(n.children) + [n]),
      Pack.Unique(ChildEdges(n.children) + OwnEdges(n)))
  }

  /** `children::expand_outside<bind<Node>::front<MakeEdge>::type>`: one edge from the node
      to each child. */
  function OwnEdges(n: Node): (r: seq<Edge<Node>>)
    ensures forall e :: e in r ==> e.from == n && e.to in n.children
    ensures |r| == |n.children| && forall i :: 0 <= i < |r| ==> r[i] == Edge(n, n.children[i])
  {
    Pack.ExpandOutside(n.children, c => Edge(n, c))
  }

  /** `children::expand_outside<self>::expand_outside<get_nodes>::flatten`. */
  function ChildNodes(cs: seq<Node>): seq<Node>
    decreases cs, 0
  {
    if |cs| == 0 then [] else Flatten(cs[0]).nodes + ChildNodes(cs[1..])
  }

  /** `children::expand_outside<self>::expand_outside<get_edges>::flatten`. */
  function ChildEdges(cs: seq<Node>): seq<Edge<Node>>
    decreases cs, 0
  {
    if |cs| == 0 then [] else Flatten(cs[0]).edges + ChildEdges(cs[1..])
  }

  /** The node list holds exactly the nodes reachable from the root. */
  lemma {:induction false} FlattenNodesAreReachable(n: Node)
    ensures forall x :: x in Flatten(n).nodes <==> Reachable(n, x)
    decreases n, 1
  {
    if |n.children| > 0 {
      ChildNodesAreReachable(n.children);
    }
  }

  lemma {:induction false} ChildNodesAreReachable(cs: seq<Node>)
    ensures forall x :: x in ChildNodes(cs) <==> ReachableFromAny(cs, x)
    decreases cs, 0
  {
    if |cs| > 0 {
      FlattenNodesAreReachable(cs[0]);
      ChildNodesAreReachable(cs[1..]);
      forall x
        ensures ReachableFromAny(cs, x) <==> Reachable(cs[0], x) || ReachableFromAny(cs[1..], x)
      {
        if ReachableFromAny(cs, x) {
          var i :| 0 <= i < |cs| && Reachable(cs[i], x);
          if i > 0 {
            assert cs[1..][i - 1] == cs[i];
          }
        }
        if ReachableFromAny(cs[1..], x) {
          var i :| 0 <= i < |cs[1..]| && Reachable(cs[1..][i], x);
          assert cs[i + 1] == cs[1..][i];
        }
      }
    }
  }

  /** Both ends of every edge are in the node list. */
  lemma {:induction false} EdgesWithinNodes(n: Node)
    ensures forall e :: e in Flatten(n).edges ==> e.from in Flatten(n).nodes && e.to in Flatten(n).nodes
    decreases n, 1
  {
    if |n.children| > 0 {
      ChildEdgesWithinChildNodes(n.children);
      forall e | e in Flatten(n).edges
        ensures e.from in Flatten(n).nodes && e.to in Flatten(n).nodes
      {
        EdgeWithinNodes(n, e);
      }
    }
  }

  /** One edge of a parent's flattened graph: a child's edge or an edge to a child. */
  lemma EdgeWithinNodes(n: Node, e: Edge<Node>)
    requires |n.children| > 0 && e in Flatten(n).edges
    requires forall e :: e in ChildEdges(n.children) ==> e.from in ChildNodes(n.children) && e.to in ChildNodes(n.children)
    ensures e.from in Flatten(n).nodes && e.to in Flatten(n).nodes
  {
    EdgeOrigin(n, e);
    if e in ChildEdges(n.children) {
      ChildNodeKept(n, e.from);
      ChildNodeKept(n, e.to);
    } else {
      OwnEdgeEnds(n, e.to);
    }
  }

  /** An edge of a parent's flattened graph is a child's edge or joins the parent to a
      child. */
  lemma EdgeOrigin(n: Node, e: Edge<Node>)
    requires |n.children| > 0 && e in Flatten(n).edges
    ensures e in ChildEdges(n.children) || (e.from == n && e.to in n.children)
  {
    assert e in ChildEdges(n.children) + OwnEdges(n);
  }

  /** The parent and each child are nodes of the parent's flattened graph. */
  lemma OwnEdgeEnds(n: Node, c: Node)
    requires c in n.children
    ensures n in Flatten(n).nodes && c in Flatten(n).nodes
  {
    var i :| 0 <= i < |n.children| && n.children[i] == c;
    assert c in Flatten(c).nodes;
    ChildNodesContain(n.children, i);
    ChildNodeKept(n, c);
  }

  /** A node of a child's flattened graph survives into the parent's. */
  lemma ChildNodeKept(n: Node, x: Node)
    requires |n.children| > 0 && x in ChildNodes(n.children)
    ensures x in Flatten(n).nodes
  {
    assert x in ChildNodes(n.children) + [n];
  }

  lemma {:induction false} ChildNodesContain(cs: seq<Node>, i: nat)
    requires i < |cs|
    ensures forall x :: x in Flatten(cs[i]).nodes ==> x in ChildNodes(cs)
    decreases i
  {
    if i > 0 {
      ChildNodesContain(cs[1..], i - 1);
    }
  }

  lemma {:induction false} ChildEdgesWithinChildNodes(cs: seq<Node>)
    ensures forall e :: e in ChildEdges(cs) ==> e.from in ChildNodes(cs) && e.to in ChildNodes(cs)
    decreases cs, 0
  {
    if |cs| > 0 {
      EdgesWithinNodes(cs[0]);
      ChildEdgesWithinChildNodes(cs[1..]);
    }
  }
}
