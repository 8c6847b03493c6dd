/** `sf::Node`, `sf::Graph` and `make_graph` (semifunctional/graph.hpp).  A graph is an array of
    nodes; a node names its neighbours by their index in that array, in a `static_vector` of
    capacity 4.  `Node::operator==` compares addresses, and as every node of a graph lives at
    its own array slot, a node is identified here by its index. */
module SfGraph {
  import SV = StaticVector

  const MAX_CONNECTIONS: nat := 4

  datatype Node = Node(name: string, x: int, y: int, neighbours: SV.StaticVector<nat>)

  /** An undirected edge between two node indices (a `std::pair` of indices). */
  datatype Edge = Edge(first: nat, second: nat)

  ghost predicate WellFormed(n: Node)
  {
    SV.Valid(n.neighbours) && n.neighbours.Alloc() == MAX_CONNECTIONS
  }

  function Neighbours(n: Node): seq<nat>
    requires WellFormed(n)
  {
    SV.Contents(n.neighbours)
  }

  /** What one edge adds to node i's neighbours: the other end if the first end is i, and then
      the first end if the second end is i, so a loop on i adds i twice. */
  function EdgeNeighbours(e: Edge, i: nat): seq<nat>
  {
    (if e.first == i then [e.second] else []) + (if e.second == i then [e.first] else [])
  }

  /** Everything the edges add to node i, in edge order. */
  function Incident(edges: seq<Edge>, i: nat): seq<nat>
  {
    if edges == [] then [] else EdgeNeighbours(edges[0], i) + Incident(edges[1..], i)
  }

  /** The body of the loop over the edges for node i: at most two `push_back`s. */
  function AddEdge(n: Node, i: nat, e: Edge): (r: Node)
    requires WellFormed(n) && |Neighbours(n)| + |EdgeNeighbours(e, i)| <= MAX_CONNECTIONS
    ensures WellFormed(r) && r.name == n.name && r.x == n.x && r.y == n.y
    ensures Neighbours(r) == Neighbours(n) + EdgeNeighbours(e, i)
  {
    var n1 := if e.first == i then n.(neighbours := SV.PushBack(n.neighbours, e.second).0) else n;
    var n2 := if e.second == i then n1.(neighbours := SV.PushBack(n1.neighbours, e.first).0) else n1;
    n2
  }

  /** The loop over all edges for node i.  A fifth neighbour would be written past the end of
      the `std::array` behind the `static_vector`, which does not compile, so the node must
      have room for all of them. */
  function AddEdges(n: Node, i: nat, edges: seq<Edge>): (r: Node)
    requires WellFormed(n) && |Neighbours(n)| + |Incident(edges, i)| <= MAX_CONNECTIONS
    ensures WellFormed(r) && r.name == n.name && r.x == n.x && r.y == n.y
    ensures Neighbours(r) == Neighbours(n) + Incident(edges, i)
    decreases |edges|
  {
    if edges == [] then n
    else
      var n' := AddEdge(n, i, edges[0]);
      var r := AddEdges(n', i, edges[1..]);
      ConcatAssoc(Neighbours(n), EdgeNeighbours(edges[0], i), Incident(edges[1..], i));
      r
  }

  lemma ConcatAssoc(a: seq<nat>, b: seq<nat>, c: seq<nat>)
    ensures a + (b + c) == a + b + c
  {
  }

  /** Room for every edge at every node. */
  ghost predicate Fits(nodes: seq<Node>, edges: seq<Edge>)
  {
    forall i :: 0 <= i < |nodes| ==>
      WellFormed(nodes[i]) && |Neighbours(nodes[i])| + |Incident(edges, i)| <= MAX_CONNECTIONS
  }

  /** `make_graph`: node i is a copy of `nodes[i]` with the ends of its edges appended. */
  function MakeGraph(nodes: seq<Node>, edges: seq<Edge>): (r: seq<Node>)
    requires Fits(nodes, edges)
    ensures |r| == |nodes|
    ensures forall i :: 0 <= i < |nodes| ==>
      && WellFormed(r[i])
      && r[i].name == nodes[i].name && r[i].x == nodes[i].x && r[i].y == nodes[i].y
      && Neighbours(r[i]) == Neighbours(nodes[i]) + Incident(edges, i)
  {
    seq(|nodes|, i requires 0 <= i < |nodes| && Fits(nodes, edges) => AddEdges(nodes[i], i, edges))
  }

  /** Some edge joins i and j, in either direction. */
  ghost predicate Joined(edges: seq<Edge>, i: nat, j: nat)
  {
    exists k :: 0 <= k < |edges| && (edges[k] == Edge(i, j) || edges[k] == Edge(j, i))
  }

  /** j is among what the edges add to i exactly when an edge joins them. */
  lemma {:induction false} IncidentIffJoined(edges: seq<Edge>, i: nat, j: nat)
    ensures j in Incident(edges, i) <==> Joined(edges, i, j)
    decreases |edges|
  {
    if edges != [] {
      IncidentIffJoined(edges[1..], i, j);
      if Joined(edges[1..], i, j) {
        var k :| 0 <= k < |edges[1..]| && (edges[1..][k] == Edge(i, j) || edges[1..][k] == Edge(j, i));
        assert edges[k + 1] == edges[1..][k];
      }
      if Joined(edges, i, j) {
        var k :| 0 <= k < |edges| && (edges[k] == Edge(i, j) || edges[k] == Edge(j, i));
        if k > 0 {
          assert edges[1..][k - 1] == edges[k];
        }
      }
    }
  }

  /** The edges make neighbourhood symmetric. */
  lemma IncidentSymmetric(edges: seq<Edge>, i: nat, j: nat)
    ensures j in Incident(edges, i) <==> i in Incident(edges, j)
  {
    IncidentIffJoined(edges, i, j);
    IncidentIffJoined(edges, j, i);
  }

  /** In a graph built from nodes without neighbours, j is a neighbour of i exactly when i is
      a neighbour of j, and exactly when an edge joins them. */
  lemma MakeGraphSymmetric(nodes: seq<Node>, edges: seq<Edge>, i: nat, j: nat)
    requires Fits(nodes, edges) && i < |nodes| && j < |nodes|
    requires forall k :: 0 <= k < |nodes| ==> Neighbours(nodes[k]) == []
    ensures var g := MakeGraph(nodes, edges);
      && (j in Neighbours(g[i]) <==> i in Neighbours(g[j]))
      && (j in Neighbours(g[i]) <==> Joined(edges, i, j))
  {
    IncidentSymmetric(edges, i, j);
    IncidentIffJoined(edges, i, j);
  }

  /** A loop on i is counted twice in i's neighbours. */
  lemma {:induction false} LoopCountsTwice(edges: seq<Edge>, i: nat)
    ensures multiset(Incident(edges + [Edge(i, i)], i)) == multiset(Incident(edges, i)) + multiset{i, i}
    decreases |edges|
  {
    if edges != [] {
      assert (edges + [Edge(i, i)])[1..] == edges[1..] + [Edge(i, i)];
      LoopCountsTwice(edges[1..], i);
    }
  }
}
