/** `imp::node` and `imp::graph` (imperative/graph.hpp).  The graph owns its nodes through
    `unique_ptr`s and nodes point at their neighbours; here a node is named by its position
    in the graph's node list, which `add_node` never changes once assigned. */
module ImpGraph {
  datatype Vec2 = Vec2(x: int, y: int)

  datatype Node = Node(name: string, position: Vec2, neighbours: seq<nat>)

  datatype Graph = Graph(nodes: seq<Node>)

  /** Every neighbour is a node of the graph. */
  ghost predicate Closed(g: Graph)
  {
    forall i, k :: 0 <= i < |g.nodes| && 0 <= k < |g.nodes[i].neighbours| ==> g.nodes[i].neighbours[k] < |g.nodes|
  }

  /** Undirected with multiplicity: i lists j as often as j lists i. */
  ghost predicate Symmetric(g: Graph)
  {
    forall i, j :: 0 <= i < |g.nodes| && 0 <= j < |g.nodes| ==>
      multiset(g.nodes[i].neighbours)[j] == multiset(g.nodes[j].neighbours)[i]
  }

  /** `add_node`: a new node without neighbours at the end; the result names it. */
  function AddNode(g: Graph, name: string, where: Vec2): (r: (Graph, nat))
    ensures |r.0.nodes| == |g.nodes| + 1 && r.1 == |g.nodes|
    ensures r.0.nodes[r.1] == Node(name, where, [])
    ensures r.0.nodes[..|g.nodes|] == g.nodes
  {
    (Graph(g.nodes + [Node(name, where, [])]), |g.nodes|)
  }

  /** `add_edge`: each end is appended to the other's neighbours, with no check for an edge
      that is already there, so a repeated edge is listed twice and a loop lists its node
      twice. */
  function AddEdge(g: Graph, from: nat, to: nat): (r: Graph)
    requires from < |g.nodes| && to < |g.nodes|
    ensures |r.nodes| == |g.nodes|
    ensures forall i :: 0 <= i < |g.nodes| && i != from && i != to ==> r.nodes[i] == g.nodes[i]
    ensures forall i :: 0 <= i < |g.nodes| ==>
      r.nodes[i].name == g.nodes[i].name && r.nodes[i].position == g.nodes[i].position
    ensures from != to ==> r.nodes[from].neighbours == g.nodes[from].neighbours + [to]
    ensures from != to ==> r.nodes[to].neighbours == g.nodes[to].neighbours + [from]
    ensures from == to ==> r.nodes[from].neighbours == g.nodes[from].neighbours + [from, from]
  {
    var a := g.nodes[from];
    var nodes1 := g.nodes[from := a.(neighbours := a.neighbours + [to])];
    var b := nodes1[to];
    Graph(nodes1[to := b.(neighbours := b.neighbours + [from])])
  }

  /** Adding a node keeps the neighbours inside the graph and the graph undirected. */
  lemma AddNodeKeeps(g: Graph, name: string, where: Vec2)
    requires Closed(g) && Symmetric(g)
    ensures Closed(AddNode(g, name, where).0) && Symmetric(AddNode(g, name, where).0)
  {
    var r := AddNode(g, name, where).0;
    var n := |g.nodes|;
    forall i, j | 0 <= i < |r.nodes| && 0 <= j < |r.nodes|
      ensures multiset(r.nodes[i].neighbours)[j] == multiset(r.nodes[j].neighbours)[i]
    {
      if i < n && j < n {
        assert r.nodes[i] == g.nodes[i] && r.nodes[j] == g.nodes[j];
      } else if i < n {
        assert r.nodes[i] == g.nodes[i];
        assert j !in g.nodes[i].neighbours;
      } else if j < n {
        assert r.nodes[j] == g.nodes[j];
        assert i !in g.nodes[j].neighbours;
      }
    }
    forall i, k | 0 <= i < |r.nodes| && 0 <= k < |r.nodes[i].neighbours| ensures r.nodes[i].neighbours[k] < |r.nodes| {
      if i < n {
        assert r.nodes[i] == g.nodes[i];
      }
    }
  }

  /** What `add_edge` appends to node i's neighbours. */
  function Appended(from: nat, to: nat, i: nat): seq<nat>
  {
    (if i == from then [to] else []) + (if i == to then [from] else [])
  }

  lemma AddEdgeAppends(g: Graph, from: nat, to: nat, i: nat)
    requires from < |g.nodes| && to < |g.nodes| && i < |g.nodes|
    ensures AddEdge(g, from, to).nodes[i].neighbours == g.nodes[i].neighbours + Appended(from, to, i)
  {
  }

  /** Adding an edge keeps the neighbours inside the graph. */
  lemma AddEdgeKeepsClosed(g: Graph, from: nat, to: nat)
    requires Closed(g) && from < |g.nodes| && to < |g.nodes|
    ensures Closed(AddEdge(g, from, to))
  {
    var r := AddEdge(g, from, to);
    forall i, k | 0 <= i < |r.nodes| && 0 <= k < |r.nodes[i].neighbours| ensures r.nodes[i].neighbours[k] < |r.nodes| {
      AddEdgeAppends(g, from, to, i);
      if k < |g.nodes[i].neighbours| {
        assert r.nodes[i].neighbours[k] == g.nodes[i].neighbours[k];
      }
    }
  }

  /** Adding an edge keeps the graph undirected. */
  lemma AddEdgeKeepsSymmetric(g: Graph, from: nat, to: nat)
    requires Symmetric(g) && from < |g.nodes| && to < |g.nodes|
    ensures Symmetric(AddEdge(g, from, to))
  {
    var r := AddEdge(g, from, to);
    forall i, j | 0 <= i < |r.nodes| && 0 <= j < |r.nodes|
      ensures multiset(r.nodes[i].neighbours)[j] == multiset(r.nodes[j].neighbours)[i]
    {
      AddEdgeAppends(g, from, to, i);
      AddEdgeAppends(g, from, to, j);
      assert multiset(g.nodes[i].neighbours)[j] == multiset(g.nodes[j].neighbours)[i];
      AppendedSymmetric(from, to, i, j);
      AppendCount(g.nodes[i].neighbours, Appended(from, to, i), j);
      AppendCount(g.nodes[j].neighbours, Appended(from, to, j), i);
    }
  }

  /** The new edge adds i to j's list as often as it adds j to i's. */
  lemma AppendedSymmetric(from: nat, to: nat, i: nat, j: nat)
    ensures multiset(Appended(from, to, i))[j] == multiset(Appended(from, to, j))[i]
  {
    if i == from && i == to {
    } else if i == from {
    } else if i == to {
    }
  }

  lemma AppendCount(a: seq<nat>, b: seq<nat>, x: nat)
    ensures multiset(a + b)[x] == multiset(a)[x] + multiset(b)[x]
  {
  }
}
