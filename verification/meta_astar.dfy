/** The type-level A* (metaprogram/A_star/A_star.hpp): `A_star<Graph, From, To, Heuristic,
    TraversalCost, Discovered, CameFrom, GScore, FScore>::astar_impl`.  The four recursive
    template parameters form the search state; each recursive instantiation is one step.

    Scores are `size_t` and are added with wrap-around.  The score tables only ever grow
    at the back, and `find` returns the earliest entry of a node, so every lookup in them
    sees the initial entry (`ScoreLookupsNeverChange`). */
module MetaAStar {
  import opened Wrappers
  import opened SizeT
  import Pack
  import MetaFunctional
  import opened FlattenedGraph
  import opened NodeScores
  import opened KvPairs

  type Graph<N> = FlatGraph<N, Edge<N>>

  /** The fixed template parameters; `Heuristic` and `TraversalCost` are evaluated through
      floating-point code and are therefore parameters of the model. */
  datatype Problem<!N> = Problem(
    graph: Graph<N>, from: N, to: N,
    heuristic: (N, N) -> Size, cost: Edge<N> -> Size)

  /** The recursive template parameters. */
  datatype State<N> = State(
    discovered: seq<N>,
    cameFrom: seq<KvPair<N, N>>,
    gScore: seq<NodeScore<N>>,
    fScore: seq<NodeScore<N>>)

  /** `astar_impl`'s result type: a path pack, `null_type`, an instantiation that does not
      compile (the fold over an empty F-score pack has no `::node`), or a recursion deeper
      than the fuel the model allows it. */
  datatype Outcome<N> = Path(nodes: seq<N>) | NoPath | IllFormed | OutOfFuel

  // ---------------------------------------------------------------------------
  // initial state
  // ---------------------------------------------------------------------------

  function InitialG<N(==,!new)>(p: Problem<N>): seq<NodeScore<N>> {
    InitialScores(p.graph.nodes, p.from, 0)
  }

  function InitialF<N(==,!new)>(p: Problem<N>): seq<NodeScore<N>> {
    InitialScores(p.graph.nodes, p.from, p.heuristic(p.from, p.to))
  }

  /** The score a graph node has in the initial G-score table. */
  function InitialG0<N(==)>(p: Problem<N>, n: N): Size {
    if n == p.from then 0 else MAX_SCORE
  }

  /** The template's default arguments. */
  function Init<N(==,!new)>(p: Problem<N>): State<N> {
    State([p.from], [], InitialG(p), InitialF(p))
  }

  // ---------------------------------------------------------------------------
  // neighbours
  // ---------------------------------------------------------------------------

  /** `neighbour_filter<A>::type<B>::connecting_edge`: the distinct edges touching both. */
  function ConnectingEdges<N(==,!new)>(g: Graph<N>, a: N, b: N): seq<Edge<N>> {
    Pack.Unique(Pack.Filter(Pack.Filter(g.edges, (e: Edge<N>) => Touches(e, a)),
                            (e: Edge<N>) => Touches(e, b)))
  }

  /** `neighbour_filter<A>::type<B>::value`. */
  predicate IsNeighbour<N(==,!new)>(g: Graph<N>, a: N, b: N) {
    a != b && |ConnectingEdges(g, a, b)| > 0
  }

  /** Reference definition: two distinct nodes joined by an edge, in either direction. */
  ghost predicate Adjacent<N>(g: Graph<N>, a: N, b: N) {
    a != b && exists e :: e in g.edges && Touches(e, a) && Touches(e, b)
  }

  lemma NeighbourIffAdjacent<N(!new)>(g: Graph<N>, a: N, b: N)
    ensures IsNeighbour(g, a, b) <==> Adjacent(g, a, b)
  {
    var pa := (e: Edge<N>) => Touches(e, a);
    var pb := (e: Edge<N>) => Touches(e, b);
    var fa := Pack.Filter(g.edges, pa);
    var fb := Pack.Filter(fa, pb);
    if |ConnectingEdges(g, a, b)| > 0 {
      var e := ConnectingEdges(g, a, b)[0];
      assert e in fb;
      assert e in fa;
    }
    if Adjacent(g, a, b) {
      var e :| e in g.edges && Touches(e, a) && Touches(e, b);
      Pack.FilterKeeps(g.edges, pa, e);
      Pack.FilterKeeps(fa, pb, e);
      assert e in ConnectingEdges(g, a, b);
    }
  }

  /** `connecting_edge<A, B>`: the head of the connecting-edge pack. */
  function ConnectingEdge<N(==,!new)>(g: Graph<N>, a: N, b: N): (e: Edge<N>)
    requires IsNeighbour(g, a, b)
    ensures e in g.edges && Touches(e, a) && Touches(e, b)
  {
    var e := ConnectingEdges(g, a, b)[0];
    assert e in Pack.Filter(Pack.Filter(g.edges, (e: Edge<N>) => Touches(e, a)),
                            (e: Edge<N>) => Touches(e, b));
    e
  }

  /** `Graph::nodes::filter<neighbour_filter<Current>::type>`. */
  function Neighbours<N(==,!new)>(g: Graph<N>, c: N): (ns: seq<N>)
    ensures forall i :: 0 <= i < |ns| ==> ns[i] in g.nodes && ns[i] != c && IsNeighbour(g, c, ns[i])
    ensures AllNeighbours(g, c, ns)
  {
    var ns := Pack.Filter(g.nodes, (k: N) => IsNeighbour(g, c, k));
    AllNeighboursOfEach(g, c, ns);
    ns
  }

  /** Every node of the pack is a neighbour of `c`, stated one node at a time. */
  predicate AllNeighbours<N(==,!new)>(g: Graph<N>, c: N, ns: seq<N>) {
    |ns| == 0 || (IsNeighbour(g, c, ns[0]) && AllNeighbours(g, c, ns[1..]))
  }

  lemma {:induction false} AllNeighboursOfEach<N(!new)>(g: Graph<N>, c: N, ns: seq<N>)
    requires forall i :: 0 <= i < |ns| ==> IsNeighbour(g, c, ns[i])
    ensures AllNeighbours(g, c, ns)
  {
    if |ns| > 0 {
      assert forall i :: 0 <= i < |ns[1..]| ==> ns[1..][i] == ns[i + 1];
      AllNeighboursOfEach(g, c, ns[1..]);
    }
  }

  /** The neighbours are exactly the graph's nodes adjacent to the current one. */
  lemma NeighboursAreAdjacent<N(!new)>(g: Graph<N>, c: N)
    ensures forall n :: n in Neighbours(g, c) <==> n in g.nodes && Adjacent(g, c, n)
  {
    forall n
      ensures n in Neighbours(g, c) <==> n in g.nodes && Adjacent(g, c, n)
    {
      NeighbourIffAdjacent(g, c, n);
      if n in g.nodes && IsNeighbour(g, c, n) {
        Pack.FilterKeeps(g.nodes, (k: N) => IsNeighbour(g, c, k), n);
      }
    }
  }

  // ---------------------------------------------------------------------------
  // one step
  // ---------------------------------------------------------------------------

  /** `fscore_cost_fn`: the entry's score if its node is discovered, `max_score` otherwise. */
  function FScoreCost<N(==)>(discovered: seq<N>): NodeScore<N> -> nat {
    (ns: NodeScore<N>) => if Pack.Contains(discovered, ns.node) then ns.score else MAX_SCORE
  }

  /** `FScore::left_fold<compare_by<fscore_cost_fn>::type>::node`: the node of an entry of
      least cost, the last such entry on a tie; none when the F-score pack is empty. */
  function Current<N(==,!new)>(st: State<N>): (c: Option<N>)
    ensures c.None? <==> |st.fScore| == 0
    ensures c.Some? ==>
      exists i :: 0 <= i < |st.fScore| && st.fScore[i].node == c.value
        && (forall j :: 0 <= j < |st.fScore| ==>
              FScoreCost(st.discovered)(st.fScore[i]) <= FScoreCost(st.discovered)(st.fScore[j]))
        && (forall j :: i < j < |st.fScore| ==>
              FScoreCost(st.discovered)(st.fScore[i]) < FScoreCost(st.discovered)(st.fScore[j]))
  {
    var cmp := MetaFunctional.CompareBy(FScoreCost(st.discovered));
    if |st.fScore| == 0 then None
    else
      Pack.LeftFoldCompareByIsMin(st.fScore, FScoreCost(st.discovered));
      Pack.LeftFoldCompareByIsLast(st.fScore, FScoreCost(st.discovered));
      Some(Pack.LeftFold(st.fScore, cmp).value.node)
  }

  /** `improved_score_filter<NodeScore>`: the score is below the node's entry in the
      G-score pack.  The source does not compile for a node without an entry; every node
      the search asks about has one (`ScoreLookupsNeverChange`), and the model answers
      false for the others. */
  predicate Improved<N(==)>(gScore: seq<NodeScore<N>>, ns: NodeScore<N>) {
    match Lookup(gScore, ns.node)
    case Some(entry) => ns.score < entry.score
    case None => false
  }

  function ImprovedIn<N(==)>(gScore: seq<NodeScore<N>>): NodeScore<N> -> bool {
    (ns: NodeScore<N>) => Improved(gScore, ns)
  }

  /** `improved_score_filter_for_node<Node>`: `improved_score_filter` of the node's own
      first entry. */
  predicate ImprovedForNode<N(==)>(gScore: seq<NodeScore<N>>, n: N) {
    match Lookup(gScore, n)
    case Some(entry) => Improved(gScore, entry)
    case None => false
  }

  /** A node's first entry is never below itself, so the pruning of `CameFrom` never
      removes anything. */
  lemma ImprovedForNodeNeverHolds<N>(gScore: seq<NodeScore<N>>, n: N)
    ensures !ImprovedForNode(gScore, n)
  {
  }

  /** `tentative_gscore<Current>::type` mapped over the neighbours: the current node's
      G-score plus the traversal cost of the connecting edge, in `size_t`. */
  function Tentatives<N(==,!new)>(p: Problem<N>, gc: Size, c: N, ns: seq<N>): (ts: seq<NodeScore<N>>)
    requires AllNeighbours(p.graph, c, ns)
    ensures |ts| == |ns|
    ensures forall i :: 0 <= i < |ns| ==> ts[i].node == ns[i]
  {
    if |ns| == 0 then []
    else [Tentative(p, gc, c, ns[0])] + Tentatives(p, gc, c, ns[1..])
  }

  /** `tentative_gscore<Current>::type<Node>` for one neighbour. */
  function Tentative<N(==,!new)>(p: Problem<N>, gc: Size, c: N, n: N): (t: NodeScore<N>)
    requires IsNeighbour(p.graph, c, n)
    ensures t.node == n
    ensures t.score < gc <==> gc + p.cost(ConnectingEdge(p.graph, c, n)) >= SIZE_MOD
    ensures t.score + (if t.score < gc then SIZE_MOD else 0) == gc + p.cost(ConnectingEdge(p.graph, c, n))
  {
    var cost := p.cost(ConnectingEdge(p.graph, c, n));
    AddIsModular(gc, cost);
    NodeScore(n, Add(gc, cost))
  }

  /** `add_heuristic_score`. */
  function AddHeuristic<N>(p: Problem<N>): NodeScore<N> -> NodeScore<N> {
    (ns: NodeScore<N>) => NodeScore(ns.node, Add(ns.score, p.heuristic(ns.node, p.to)))
  }

  function NodeOf<N>(ns: NodeScore<N>): N {
    ns.node
  }

  function KeyOf<N>(kv: KvPair<N, N>): N {
    kv.key
  }

  /** `bind<Current>::back<kv_pair>::type<Node>`: the pair from Node back to Current. */
  function CameFromPair<N>(c: N): N -> KvPair<N, N> {
    (n: N) => KvPair(n, c)
  }

  /** `new_neighbour_gscores`: the tentative scores that improve on the G-score pack. */
  function ImprovedScores<N(==,!new)>(p: Problem<N>, st: State<N>, c: N): seq<NodeScore<N>>
    requires Lookup(st.gScore, c).Some?
  {
    var nbrs := Neighbours(p.graph, c);
    Pack.Filter(Tentatives(p, Lookup(st.gScore, c).value.score, c, nbrs), ImprovedIn(st.gScore))
  }

  /** `new_discovered`: Discovered without the current node, the changed neighbours
      appended, duplicates removed. */
  function NextDiscovered<N(==,!new)>(discovered: seq<N>, c: N, improved: seq<NodeScore<N>>): seq<N> {
    Pack.Unique(Pack.RemoveType(discovered, c) + Pack.ExpandOutside(improved, NodeOf))
  }

  /** `new_camefrom`: the pairs whose key did not improve, then a pair back to the current
      node from every neighbour. */
  function NextCameFrom<N(==,!new)>(p: Problem<N>, st: State<N>, c: N): seq<KvPair<N, N>> {
    Pack.TfFilter(st.cameFrom, KeyOf, MetaFunctional.Invert((n: N) => ImprovedForNode(st.gScore, n)))
      + Pack.ExpandOutside(Neighbours(p.graph, c), CameFromPair(c))
  }

  /** `new_gscore`. */
  function NextGScore<N(==)>(gScore: seq<NodeScore<N>>, improved: seq<NodeScore<N>>): seq<NodeScore<N>> {
    Pack.RemoveIf(gScore, ImprovedIn(gScore)) + improved
  }

  /** `new_fscore`. */
  function NextFScore<N(==)>(p: Problem<N>, gScore: seq<NodeScore<N>>, fScore: seq<NodeScore<N>>,
                             improved: seq<NodeScore<N>>): seq<NodeScore<N>> {
    Pack.RemoveIf(fScore, ImprovedIn(gScore)) + Pack.ExpandOutside(improved, AddHeuristic(p))
  }

  /** The arguments of the recursive instantiation. */
  function Step<N(==,!new)>(p: Problem<N>, st: State<N>, c: N): (st': State<N>)
    requires Lookup(st.gScore, c).Some?
    ensures Pack.NoDup(st'.discovered) && c !in st'.discovered
  {
    var improved := ImprovedScores(p, st, c);
    ImprovedScoresOfNeighbours(p, st, c);
    NextDiscoveredShape(st.discovered, c, improved);
    State(NextDiscovered(st.discovered, c, improved),
          NextCameFrom(p, st, c),
          NextGScore(st.gScore, improved),
          NextFScore(p, st.gScore, st.fScore, improved))
  }

  // ---------------------------------------------------------------------------
  // the invariant
  // ---------------------------------------------------------------------------

  /** Every entry of the pack names one of `nodes`. */
  ghost predicate OnNodes<N>(s: seq<NodeScore<N>>, nodes: seq<N>) {
    forall i :: 0 <= i < |s| ==> s[i].node in nodes
  }

  /** Entries of graph nodes scored below their initial G-score. */
  ghost predicate Improvements<N>(p: Problem<N>, s: seq<NodeScore<N>>) {
    forall i :: 0 <= i < |s| ==> s[i].node in p.graph.nodes && s[i].score < InitialG0(p, s[i].node)
  }

  /** Every pair joins two neighbouring graph nodes. */
  ghost predicate Links<N>(g: Graph<N>, cameFrom: seq<KvPair<N, N>>) {
    forall i :: 0 <= i < |cameFrom| ==>
      cameFrom[i].key in g.nodes && cameFrom[i].value in g.nodes
      && Adjacent(g, cameFrom[i].value, cameFrom[i].key)
  }

  /** What every recursive instantiation reached from the defaults satisfies: the initial
      tables survive as prefixes, entries behind the initial G-score table are
      improvements, every F-score entry names a graph node, and every `CameFrom` pair
      joins two neighbours. */
  ghost predicate Inv<N(!new)>(p: Problem<N>, st: State<N>) {
    && |InitialG(p)| <= |st.gScore| && st.gScore[..|InitialG(p)|] == InitialG(p)
    && Improvements(p, st.gScore[|InitialG(p)|..])
    && |InitialF(p)| <= |st.fScore| && st.fScore[..|InitialF(p)|] == InitialF(p)
    && OnNodes(st.fScore, p.graph.nodes)
    && Links(p.graph, st.cameFrom)
  }

  lemma InitEstablishesInv<N(!new)>(p: Problem<N>)
    ensures Inv(p, Init(p))
  {
    InitialScoresEntries(p.graph.nodes, p.from, p.heuristic(p.from, p.to));
  }

  /** Every lookup of a graph node in the score tables returns its initial entry: 0 (or
      the start's heuristic) for the start node and `max_score` for every other node. */
  lemma ScoreLookupsNeverChange<N(!new)>(p: Problem<N>, st: State<N>, n: N)
    requires Inv(p, st) && n in p.graph.nodes
    ensures Lookup(st.gScore, n) == Lookup(InitialG(p), n) == Some(NodeScore(n, InitialG0(p, n)))
    ensures Lookup(st.fScore, n) ==
      Some(NodeScore(n, if n == p.from then p.heuristic(p.from, p.to) else MAX_SCORE))
  {
    var g0 := InitialG(p);
    var f0 := InitialF(p);
    LookupInitial(p.graph.nodes, p.from, 0, n);
    LookupInitial(p.graph.nodes, p.from, p.heuristic(p.from, p.to), n);
    Pack.PrefixSplit(st.gScore, g0);
    Pack.PrefixSplit(st.fScore, f0);
    Pack.FindConcat(g0, st.gScore[|g0|..], EqualsNode(n));
    Pack.FindConcat(f0, st.fScore[|f0|..], EqualsNode(n));
  }

  /** The tentative score of a neighbour of any node other than the start is computed
      from `max_score`, so it wraps around to one less than the traversal cost. */
  lemma TentativeFromNonStartWraps<N(!new)>(p: Problem<N>, st: State<N>, c: N, n: N)
    requires Inv(p, st) && c in p.graph.nodes && c != p.from && IsNeighbour(p.graph, c, n)
    requires p.cost(ConnectingEdge(p.graph, c, n)) > 0
    ensures Lookup(st.gScore, c).Some?
    ensures Tentative(p, Lookup(st.gScore, c).value.score, c, n).score
            == p.cost(ConnectingEdge(p.graph, c, n)) - 1
  {
    ScoreLookupsNeverChange(p, st, c);
  }

  /** No entry of the initial tables counts as an improvement, so `remove_if` keeps them. */
  lemma InitialEntriesKept<N(!new)>(p: Problem<N>, st: State<N>)
    requires Inv(p, st)
    ensures Pack.RemoveIf(InitialG(p), ImprovedIn(st.gScore)) == InitialG(p)
    ensures Pack.RemoveIf(InitialF(p), ImprovedIn(st.gScore)) == InitialF(p)
  {
    var g0 := InitialG(p);
    var f0 := InitialF(p);
    var imp := ImprovedIn(st.gScore);
    InitialScoresEntries(p.graph.nodes, p.from, 0);
    InitialScoresEntries(p.graph.nodes, p.from, p.heuristic(p.from, p.to));
    forall i | 0 <= i < |g0|
      ensures !imp(g0[i]) && !imp(f0[i])
    {
      ScoreLookupsNeverChange(p, st, g0[i].node);
    }
    Pack.RemoveIfNoneMatch(g0, imp);
    Pack.RemoveIfNoneMatch(f0, imp);
  }

  /** Every entry behind the initial G-score table is an improvement, so `remove_if`
      drops it. */
  lemma AppendedScoresDropped<N(!new)>(p: Problem<N>, st: State<N>)
    requires Inv(p, st)
    ensures Pack.RemoveIf(st.gScore[|InitialG(p)|..], ImprovedIn(st.gScore)) == []
  {
    var rest := st.gScore[|InitialG(p)|..];
    forall i | 0 <= i < |rest|
      ensures ImprovedIn(st.gScore)(rest[i])
    {
      ScoreLookupsNeverChange(p, st, rest[i].node);
    }
    Pack.RemoveIfAllMatch(rest, ImprovedIn(st.gScore));
  }

  /** Each step drops the G-score improvements of the previous step: the G-score pack is
      always the initial table followed by the latest improvements only. */
  lemma StepGScore<N(!new)>(p: Problem<N>, st: State<N>, c: N)
    requires Inv(p, st) && c in p.graph.nodes
    ensures Lookup(st.gScore, c).Some?
    ensures Step(p, st, c).gScore == InitialG(p) + ImprovedScores(p, st, c)
  {
    ScoreLookupsNeverChange(p, st, c);
    var g0 := InitialG(p);
    var rest := st.gScore[|g0|..];
    var imp := ImprovedIn(st.gScore);
    Pack.PrefixSplit(st.gScore, g0);
    Pack.RemoveIfConcat(g0, rest, imp);
    InitialEntriesKept(p, st);
    AppendedScoresDropped(p, st);
    assert Pack.RemoveIf(st.gScore, imp) == Pack.RemoveIf(g0, imp) + Pack.RemoveIf(rest, imp);
    assert Pack.RemoveIf(g0, imp) + Pack.RemoveIf(rest, imp) == g0 + [];
    assert g0 + [] == g0;
    assert Step(p, st, c).gScore == NextGScore(st.gScore, ImprovedScores(p, st, c));
  }

  /** The improved scores are tentative scores of neighbours of the current node. */
  lemma ImprovedScoresOfNeighbours<N(!new)>(p: Problem<N>, st: State<N>, c: N)
    requires Lookup(st.gScore, c).Some?
    ensures forall i :: 0 <= i < |ImprovedScores(p, st, c)| ==>
      var x := ImprovedScores(p, st, c)[i];
      x.node in p.graph.nodes && x.node != c && Improved(st.gScore, x)
  {
    var improved := ImprovedScores(p, st, c);
    forall i | 0 <= i < |improved|
      ensures improved[i].node in p.graph.nodes && improved[i].node != c && Improved(st.gScore, improved[i])
    {
      ImprovedScoreOfNeighbour(p, st, c, improved, i);
    }
  }

  lemma ImprovedScoreOfNeighbour<N(!new)>(p: Problem<N>, st: State<N>, c: N, improved: seq<NodeScore<N>>, i: nat)
    requires Lookup(st.gScore, c).Some? && improved == ImprovedScores(p, st, c) && i < |improved|
    ensures improved[i].node in p.graph.nodes && improved[i].node != c && Improved(st.gScore, improved[i])
  {
    var nbrs := Neighbours(p.graph, c);
    var t := Tentatives(p, Lookup(st.gScore, c).value.score, c, nbrs);
    assert improved == Pack.Filter(t, ImprovedIn(st.gScore));
    assert improved[i] in t && ImprovedIn(st.gScore)(improved[i]);
    var k :| 0 <= k < |t| && t[k] == improved[i];
    assert t[k].node == nbrs[k];
    assert nbrs[k] in p.graph.nodes && nbrs[k] != c;
  }

  lemma ImprovedScoresAreImprovements<N(!new)>(p: Problem<N>, st: State<N>, c: N)
    requires Inv(p, st) && c in p.graph.nodes
    ensures Lookup(st.gScore, c).Some?
    ensures Improvements(p, ImprovedScores(p, st, c))
    ensures OnNodes(ImprovedScores(p, st, c), p.graph.nodes)
  {
    ScoreLookupsNeverChange(p, st, c);
    ImprovedScoresOfNeighbours(p, st, c);
    var improved := ImprovedScores(p, st, c);
    forall i | 0 <= i < |improved|
      ensures improved[i].score < InitialG0(p, improved[i].node)
    {
      ScoreLookupsNeverChange(p, st, improved[i].node);
    }
  }

  lemma OnNodesSuffix<N>(s: seq<NodeScore<N>>, k: nat, nodes: seq<N>)
    requires OnNodes(s, nodes) && k <= |s|
    ensures OnNodes(s[k..], nodes)
  {
    forall i | 0 <= i < |s[k..]|
      ensures s[k..][i].node in nodes
    {
      assert s[k..][i] == s[k + i];
    }
  }

  lemma OnNodesConcat<N>(a: seq<NodeScore<N>>, b: seq<NodeScore<N>>, nodes: seq<N>)
    requires OnNodes(a, nodes) && OnNodes(b, nodes)
    ensures OnNodes(a + b, nodes)
  {
    forall i | 0 <= i < |a + b|
      ensures (a + b)[i].node in nodes
    {
      if i >= |a| {
        assert (a + b)[i] == b[i - |a|];
      }
    }
  }

  /** `remove_if` keeps a subsequence, so it stays on the same nodes. */
  lemma OnNodesRemoveIf<N(!new)>(s: seq<NodeScore<N>>, imp: NodeScore<N> -> bool, nodes: seq<N>)
    requires OnNodes(s, nodes)
    ensures OnNodes(Pack.RemoveIf(s, imp), nodes)
  {
    Pack.RemoveIfIsFilterInvert(s, imp);
    var r := Pack.RemoveIf(s, imp);
    forall i | 0 <= i < |r|
      ensures r[i].node in nodes
    {
      assert r[i] in s;
    }
  }

  /** Adding the heuristic changes scores, not nodes. */
  lemma OnNodesAddHeuristic<N>(p: Problem<N>, s: seq<NodeScore<N>>, nodes: seq<N>)
    requires OnNodes(s, nodes)
    ensures OnNodes(Pack.ExpandOutside(s, AddHeuristic(p)), nodes)
  {
  }

  /** Removing entries behind a prefix that `remove_if` leaves alone, then appending
      heuristic scores, keeps the prefix and stays on graph nodes. */
  lemma NextFScoreShape<N(!new)>(p: Problem<N>, imp: NodeScore<N> -> bool, fScore: seq<NodeScore<N>>,
                                f0: seq<NodeScore<N>>, improved: seq<NodeScore<N>>)
    requires |f0| <= |fScore| && fScore[..|f0|] == f0
    requires Pack.RemoveIf(f0, imp) == f0
    requires OnNodes(fScore, p.graph.nodes) && OnNodes(improved, p.graph.nodes)
    ensures var r := Pack.RemoveIf(fScore, imp) + Pack.ExpandOutside(improved, AddHeuristic(p));
            |f0| <= |r| && r[..|f0|] == f0 && OnNodes(r, p.graph.nodes)
  {
    var rest := fScore[|f0|..];
    Pack.PrefixSplit(fScore, f0);
    Pack.RemoveIfConcat(f0, rest, imp);
    OnNodesRemoveIf(fScore, imp, p.graph.nodes);
    OnNodesAddHeuristic(p, improved, p.graph.nodes);
    OnNodesConcat(Pack.RemoveIf(fScore, imp), Pack.ExpandOutside(improved, AddHeuristic(p)), p.graph.nodes);
    assert Pack.RemoveIf(fScore, imp) == f0 + Pack.RemoveIf(rest, imp);
    Pack.PrefixKept(Pack.RemoveIf(fScore, imp), f0, Pack.RemoveIf(rest, imp),
                    Pack.ExpandOutside(improved, AddHeuristic(p)));
  }

  /** `r` ends with one entry per improvement, in order: the improved node with its
      tentative score plus the heuristic towards the goal, added in `size_t`. */
  ghost predicate HeuristicTail<N>(p: Problem<N>, r: seq<NodeScore<N>>, improved: seq<NodeScore<N>>) {
    && |improved| <= |r|
    && forall i :: 0 <= i < |improved| ==>
         r[|r| - |improved| + i]
         == NodeScore(improved[i].node, Add(improved[i].score, p.heuristic(improved[i].node, p.to)))
  }

  /** Appending the heuristic scores of the improvements to any pack ends it with them. */
  lemma HeuristicTailAppended<N>(p: Problem<N>, kept: seq<NodeScore<N>>, improved: seq<NodeScore<N>>)
    ensures HeuristicTail(p, kept + Pack.ExpandOutside(improved, AddHeuristic(p)), improved)
  {
    var tail := Pack.ExpandOutside(improved, AddHeuristic(p));
    var r := kept + tail;
    assert |r| - |improved| == |kept|;
    forall i | 0 <= i < |improved|
      ensures r[|r| - |improved| + i]
              == NodeScore(improved[i].node, Add(improved[i].score, p.heuristic(improved[i].node, p.to)))
    {
      assert r[|kept| + i] == tail[i] == AddHeuristic(p)(improved[i]);
    }
  }

  /** `remove_if` behind a prefix it leaves alone only filters the entries past it. */
  lemma NextFScoreParts<N>(imp: NodeScore<N> -> bool, fScore: seq<NodeScore<N>>, f0: seq<NodeScore<N>>)
    requires |f0| <= |fScore| && fScore[..|f0|] == f0
    requires Pack.RemoveIf(f0, imp) == f0
    ensures Pack.RemoveIf(fScore, imp) == f0 + Pack.RemoveIf(fScore[|f0|..], imp)
  {
    Pack.PrefixSplit(fScore, f0);
    Pack.RemoveIfConcat(f0, fScore[|f0|..], imp);
  }

  /** The F-score pack keeps its initial prefix, keeps exactly those older appended
      entries that are not below their node's first G-score entry, and ends with one entry
      per improved neighbour: its tentative score plus the heuristic towards the goal, in
      `size_t`. It names graph nodes only. */
  lemma StepFScore<N(!new)>(p: Problem<N>, st: State<N>, c: N)
    requires Inv(p, st) && c in p.graph.nodes
    ensures Lookup(st.gScore, c).Some?
    ensures |InitialF(p)| <= |Step(p, st, c).fScore|
    ensures Step(p, st, c).fScore[..|InitialF(p)|] == InitialF(p)
    ensures Step(p, st, c).fScore
            == InitialF(p) + Pack.RemoveIf(st.fScore[|InitialF(p)|..], ImprovedIn(st.gScore))
               + Pack.ExpandOutside(ImprovedScores(p, st, c), AddHeuristic(p))
    ensures HeuristicTail(p, Step(p, st, c).fScore, ImprovedScores(p, st, c))
    ensures OnNodes(Step(p, st, c).fScore, p.graph.nodes)
  {
    ScoreLookupsNeverChange(p, st, c);
    InitialEntriesKept(p, st);
    ImprovedScoresAreImprovements(p, st, c);
    NextFScoreShape(p, ImprovedIn(st.gScore), st.fScore, InitialF(p), ImprovedScores(p, st, c));
    var improved := ImprovedScores(p, st, c);
    NextFScoreParts(ImprovedIn(st.gScore), st.fScore, InitialF(p));
    HeuristicTailAppended(p, Pack.RemoveIf(st.fScore, ImprovedIn(st.gScore)), improved);
    var f' := Step(p, st, c).fScore;
    assert f' == NextFScore(p, st.gScore, st.fScore, improved);
    var r := Pack.RemoveIf(st.fScore, ImprovedIn(st.gScore)) + Pack.ExpandOutside(improved, AddHeuristic(p));
    assert f' == r;
  }

  /** `CameFrom` is never pruned: each step appends one pair per neighbour of the current
      node, pointing back to it. */
  lemma StepCameFrom<N(!new)>(p: Problem<N>, st: State<N>, c: N)
    requires Lookup(st.gScore, c).Some?
    ensures Step(p, st, c).cameFrom
            == st.cameFrom + Pack.ExpandOutside(Neighbours(p.graph, c), CameFromPair(c))
  {
    var keep := MetaFunctional.Invert((n: N) => ImprovedForNode(st.gScore, n));
    forall i | 0 <= i < |st.cameFrom|
      ensures keep(KeyOf(st.cameFrom[i]))
    {
      ImprovedForNodeNeverHolds(st.gScore, st.cameFrom[i].key);
    }
    Pack.TfFilterKeepsAll(st.cameFrom, KeyOf, keep);
    assert Step(p, st, c).cameFrom == NextCameFrom(p, st, c);
  }

  lemma LinksConcat<N>(g: Graph<N>, a: seq<KvPair<N, N>>, b: seq<KvPair<N, N>>)
    requires Links(g, a) && Links(g, b)
    ensures Links(g, a + b)
  {
    forall i | 0 <= i < |a + b|
      ensures (a + b)[i] == if i < |a| then a[i] else b[i - |a|]
    {
    }
  }

  /** The pairs a step appends join the current node to its neighbours. */
  lemma NewPairsLink<N(!new)>(g: Graph<N>, c: N)
    requires c in g.nodes
    ensures Links(g, Pack.ExpandOutside(Neighbours(g, c), CameFromPair(c)))
  {
    var nbrs := Neighbours(g, c);
    forall i | 0 <= i < |nbrs|
      ensures Adjacent(g, c, nbrs[i])
    {
      NeighbourIffAdjacent(g, c, nbrs[i]);
    }
  }

  /** `new_discovered` loses the current node, gains the changed nodes, and stays free of
      duplicates. */
  lemma NextDiscoveredShape<N(!new)>(discovered: seq<N>, c: N, improved: seq<NodeScore<N>>)
    requires forall i :: 0 <= i < |improved| ==> improved[i].node != c
    ensures Pack.NoDup(NextDiscovered(discovered, c, improved))
    ensures c !in NextDiscovered(discovered, c, improved)
    ensures forall n :: n in NextDiscovered(discovered, c, improved) <==>
      (n in discovered && n != c) || n in Pack.ExpandOutside(improved, NodeOf)
  {
    var changed := Pack.ExpandOutside(improved, NodeOf);
    var kept := Pack.RemoveType(discovered, c);
    Pack.RemoveTypeMembers(discovered, c);
    assert c !in changed by {
      forall i | 0 <= i < |changed| ensures changed[i] != c {
        assert changed[i] == improved[i].node;
      }
    }
    assert forall n :: n in kept + changed <==> n in kept || n in changed;
    assert NextDiscovered(discovered, c, improved) == Pack.Unique(kept + changed);
  }

  /** The discovered pack loses the current node, gains the improved neighbours, and
      stays free of duplicates. */
  lemma StepDiscovered<N(!new)>(p: Problem<N>, st: State<N>, c: N)
    requires Lookup(st.gScore, c).Some?
    ensures Pack.NoDup(Step(p, st, c).discovered)
    ensures c !in Step(p, st, c).discovered
    ensures forall n :: n in Step(p, st, c).discovered <==>
      (n in st.discovered && n != c) || n in Pack.ExpandOutside(ImprovedScores(p, st, c), NodeOf)
  {
    ImprovedScoresOfNeighbours(p, st, c);
    NextDiscoveredShape(st.discovered, c, ImprovedScores(p, st, c));
    assert Step(p, st, c).discovered == NextDiscovered(st.discovered, c, ImprovedScores(p, st, c));
  }

  lemma StepPreservesInv<N(!new)>(p: Problem<N>, st: State<N>, c: N)
    requires Inv(p, st) && c in p.graph.nodes
    ensures Lookup(st.gScore, c).Some?
    ensures Inv(p, Step(p, st, c))
  {
    ScoreLookupsNeverChange(p, st, c);
    StepGScore(p, st, c);
    StepFScore(p, st, c);
    StepCameFrom(p, st, c);
    ImprovedScoresAreImprovements(p, st, c);
    NewPairsLink(p.graph, c);
    LinksConcat(p.graph, st.cameFrom, Pack.ExpandOutside(Neighbours(p.graph, c), CameFromPair(c)));
    var g0 := InitialG(p);
    var improved := ImprovedScores(p, st, c);
    assert (g0 + improved)[..|g0|] == g0;
    assert (g0 + improved)[|g0|..] == improved;
  }

  // ---------------------------------------------------------------------------
  // path reconstruction and the search
  // ---------------------------------------------------------------------------

  /** Consecutive nodes are adjacent in the graph. */
  ghost predicate Walk<N>(g: Graph<N>, s: seq<N>) {
    forall i :: 0 <= i < |s| - 1 ==> Adjacent(g, s[i], s[i + 1])
  }

  /** `reconstruct_path<Current, Path>`: while Current is not the start and is a key of
      `CameFrom`, prepend it and continue from the value of its first pair (`find_value`;
      ValueOf computes the same value, KvPairs.ValueOfIsFindValue).  A chain that revisits
      a node makes the template recursion endless; the fuel parameter bounds the depth,
      and `None` stands for running out of it. */
  function ReconstructPath<N(==,!new)>(cameFrom: seq<KvPair<N, N>>, from: N, cur: N,
                                       path: seq<N>, fuel: nat): (r: Option<seq<N>>)
    ensures (cur == from || cur !in Keys(cameFrom)) ==> r == Some([cur] + path)
    ensures r.Some? ==> |r.value| > |path| && (r.value[0] == from || r.value[0] !in Keys(cameFrom))
    decreases fuel
  {
    if cur != from && cur in Keys(cameFrom) then
      if fuel == 0 then None
      else ReconstructPath(cameFrom, from, ValueOf(cameFrom, cur),
                           Pack.Prepend(path, [cur]), fuel - 1)
    else Some(Pack.Prepend(path, [cur]))
  }

  /** Prepending a node adjacent to the head extends a walk. */
  lemma WalkPrepend<N>(g: Graph<N>, cur: N, path: seq<N>)
    requires Walk(g, path) && (|path| > 0 ==> Adjacent(g, cur, path[0]))
    ensures Walk(g, [cur] + path)
  {
    var next := [cur] + path;
    forall i | 0 <= i < |next| - 1
      ensures Adjacent(g, next[i], next[i + 1])
    {
      if i > 0 {
        assert next[i] == path[i - 1] && next[i + 1] == path[i];
      }
    }
  }

  /** Every node of the sequence is a graph node. */
  ghost predicate AllIn<N>(s: seq<N>, nodes: seq<N>) {
    forall x :: x in s ==> x in nodes
  }

  /** Following the pair of a key leads to a graph node adjacent to it. */
  lemma FollowLink<N(!new)>(g: Graph<N>, cameFrom: seq<KvPair<N, N>>, cur: N)
    requires Links(g, cameFrom) && cur in Keys(cameFrom)
    ensures ValueOf(cameFrom, cur) in g.nodes
    ensures Adjacent(g, ValueOf(cameFrom, cur), cur)
  {
    ValueOfIsFindValue(cameFrom, cur);
    var kv := FindValue(cameFrom, cur).value;
    var j :| 0 <= j < |cameFrom| && cameFrom[j] == kv && cameFrom[j].key == cur;
  }

  /** One unfolding of `reconstruct_path` at a key other than the start. */
  lemma ReconstructPathUnfold<N(!new)>(cameFrom: seq<KvPair<N, N>>, from: N, cur: N,
                                       path: seq<N>, fuel: nat, r: seq<N>)
    requires cur != from && cur in Keys(cameFrom)
    requires ReconstructPath(cameFrom, from, cur, path, fuel) == Some(r)
    ensures fuel > 0
    ensures ReconstructPath(cameFrom, from, ValueOf(cameFrom, cur),
                            [cur] + path, fuel - 1) == Some(r)
  {
    assert Pack.Prepend(path, [cur]) == [cur] + path;
  }

  /** `reconstruct_path` at the start or at a node without a pair ends the path. */
  lemma ReconstructPathStop<N(!new)>(cameFrom: seq<KvPair<N, N>>, from: N, cur: N,
                                     path: seq<N>, fuel: nat, r: seq<N>)
    requires cur == from || cur !in Keys(cameFrom)
    requires ReconstructPath(cameFrom, from, cur, path, fuel) == Some(r)
    ensures r == [cur] + path
  {
    assert Pack.Prepend(path, [cur]) == [cur] + path;
  }

  /** A reconstructed path extends the given suffix at the front and starts at the start
      node or at a node without a pair; with an empty suffix it ends at the node the
      reconstruction began from. */
  lemma {:induction false} ReconstructPathShape<N(!new)>(cameFrom: seq<KvPair<N, N>>, from: N,
                                                        cur: N, path: seq<N>, fuel: nat,
                                                        r: seq<N>)
    requires ReconstructPath(cameFrom, from, cur, path, fuel) == Some(r)
    ensures |r| > |path| && r[|r| - |path|..] == path
    ensures r[0] == from || r[0] !in Keys(cameFrom)
    ensures |path| == 0 ==> r[|r| - 1] == cur
    decreases fuel
  {
    if cur != from && cur in Keys(cameFrom) {
      ReconstructPathUnfold(cameFrom, from, cur, path, fuel, r);
      var v := ValueOf(cameFrom, cur);
      ReconstructPathShape(cameFrom, from, v, [cur] + path, fuel - 1, r);
      assert r[|r| - |path|..] == ([cur] + path)[1..];
      if |path| == 0 {
        assert r[|r| - 1] == ([cur] + path)[0];
      }
    } else {
      ReconstructPathStop(cameFrom, from, cur, path, fuel, r);
    }
  }

  /** The reconstructed path only holds graph nodes when every pair joins graph nodes. */
  lemma {:induction false} ReconstructPathInGraph<N(!new)>(g: Graph<N>, cameFrom: seq<KvPair<N, N>>,
                                                          from: N, cur: N, path: seq<N>, fuel: nat,
                                                          r: seq<N>)
    requires Links(g, cameFrom)
    requires cur in g.nodes && AllIn(path, g.nodes)
    requires ReconstructPath(cameFrom, from, cur, path, fuel) == Some(r)
    ensures AllIn(r, g.nodes)
    decreases fuel
  {
    if cur != from && cur in Keys(cameFrom) {
      ReconstructPathUnfold(cameFrom, from, cur, path, fuel, r);
      FollowLink(g, cameFrom, cur);
      ReconstructPathInGraph(g, cameFrom, from, ValueOf(cameFrom, cur),
                             [cur] + path, fuel - 1, r);
    } else {
      ReconstructPathStop(cameFrom, from, cur, path, fuel, r);
    }
  }

  /** The reconstructed path is a walk through the graph when every pair joins
      neighbouring nodes. */
  lemma {:induction false} ReconstructPathIsWalk<N(!new)>(g: Graph<N>, cameFrom: seq<KvPair<N, N>>,
                                                         from: N, cur: N, path: seq<N>, fuel: nat,
                                                         r: seq<N>)
    requires Links(g, cameFrom)
    requires Walk(g, path) && (|path| > 0 ==> Adjacent(g, cur, path[0]))
    requires ReconstructPath(cameFrom, from, cur, path, fuel) == Some(r)
    ensures Walk(g, r)
    decreases fuel
  {
    WalkPrepend(g, cur, path);
    if cur != from && cur in Keys(cameFrom) {
      ReconstructPathUnfold(cameFrom, from, cur, path, fuel, r);
      FollowLink(g, cameFrom, cur);
      ReconstructPathIsWalk(g, cameFrom, from, ValueOf(cameFrom, cur),
                            [cur] + path, fuel - 1, r);
    } else {
      ReconstructPathStop(cameFrom, from, cur, path, fuel, r);
    }
  }

  /** `astar_impl`: `null_type` once nothing is discovered; otherwise pick the current
      node, reconstruct the path if it is the destination, or recurse on the next state.
      The fuel bounds the recursion depth, which the template instantiation leaves to the
      compiler's limit. */
  function AStarImpl<N(==,!new)>(p: Problem<N>, st: State<N>, fuel: nat): (r: Outcome<N>)
    requires Inv(p, st)
    ensures Sound(p, r)
    ensures |st.discovered| == 0 ==> r == NoPath
    ensures |st.discovered| > 0 && Current(st) == Some(p.to) ==>
      r == Finish(ReconstructPath(st.cameFrom, p.from, p.to, [], |st.cameFrom| + 1))
    decreases fuel
  {
    if |st.discovered| == 0 then NoPath
    else
      match Current(st)
      case None =>
        assert |InitialF(p)| == 0;
        assert |p.graph.nodes| == 0;
        assert Sound(p, IllFormed);
        IllFormed
      case Some(c) =>
        assert c in p.graph.nodes;
        if c == p.to then
          match ReconstructPath(st.cameFrom, p.from, c, [], |st.cameFrom| + 1)
          case Some(path) =>
            FoundPath(p.graph, st.cameFrom, p.from, c, |st.cameFrom| + 1, path);
            assert Sound(p, Path(path));
            Path(path)
          case None => OutOfFuel
        else if fuel == 0 then OutOfFuel
        else
          StepPreservesInv(p, st, c);
          var next := AStarImpl(p, Step(p, st, c), fuel - 1);
          assert Sound(p, next);
          next
  }

  /** The outcome for the path rebuilt at the goal: the path, or out of fuel. */
  function Finish<N>(path: Option<seq<N>>): Outcome<N> {
    if path.Some? then Path(path.value) else OutOfFuel
  }

  /** What every outcome of the search satisfies: a path is a non-empty walk through graph
      nodes ending at the goal, and only a graph without nodes makes the instantiation
      ill-formed. */
  ghost predicate Sound<N>(p: Problem<N>, r: Outcome<N>) {
    && (r.Path? ==> |r.nodes| > 0 && r.nodes[|r.nodes| - 1] == p.to
                    && Walk(p.graph, r.nodes) && AllIn(r.nodes, p.graph.nodes))
    && (r.IllFormed? ==> |p.graph.nodes| == 0)
  }

  /** The path rebuilt from the goal is a non-empty walk through graph nodes ending at the
      goal. */
  lemma FoundPath<N(!new)>(g: Graph<N>, cameFrom: seq<KvPair<N, N>>, from: N, goal: N, fuel: nat,
                           path: seq<N>)
    requires Links(g, cameFrom) && goal in g.nodes
    requires ReconstructPath(cameFrom, from, goal, [], fuel) == Some(path)
    ensures |path| > 0 && path[|path| - 1] == goal
    ensures Walk(g, path) && AllIn(path, g.nodes)
  {
    ReconstructPathShape(cameFrom, from, goal, [], fuel, path);
    ReconstructPathInGraph(g, cameFrom, from, goal, [], fuel, path);
    ReconstructPathIsWalk(g, cameFrom, from, goal, [], fuel, path);
  }

  /** `A_star<Graph, From, To, Heuristic, TraversalCost>::type`. */
  function AStar<N(==,!new)>(p: Problem<N>, fuel: nat): (r: Outcome<N>)
    ensures r.Path? ==> |r.nodes| > 0 && r.nodes[|r.nodes| - 1] == p.to
    ensures r.Path? ==> Walk(p.graph, r.nodes) && AllIn(r.nodes, p.graph.nodes)
    ensures r.IllFormed? <==> |p.graph.nodes| == 0
  {
    InitEstablishesInv(p);
    AStarImpl(p, Init(p), fuel)
  }

  /** In the initial state the start node is the current node whenever its heuristic
      score is below `max_score`: every other entry costs `max_score`. */
  lemma InitialCurrentIsStart<N(!new)>(p: Problem<N>)
    requires p.from in p.graph.nodes
    requires p.heuristic(p.from, p.to) < MAX_SCORE
    ensures Current(Init(p)) == Some(p.from)
  {
    var st := Init(p);
    var h := p.heuristic(p.from, p.to);
    InitialScoresEntries(p.graph.nodes, p.from, h);
    var cost := FScoreCost(st.discovered);
    var k :| 0 <= k < |p.graph.nodes| && p.graph.nodes[k] == p.from;
    assert st.fScore[k] == NodeScore(p.from, h);
    assert cost(st.fScore[k]) == h;
    var c := Current(st).value;
    var i :| 0 <= i < |st.fScore| && st.fScore[i].node == c
             && cost(st.fScore[i]) <= cost(st.fScore[k]);
    assert cost(st.fScore[i]) < MAX_SCORE;
    assert Pack.Contains([p.from], c);
    assert c == p.from;
  }

  /** Searching from a node to itself yields the one-node path, provided its heuristic
      score is below `max_score`. */
  lemma SearchFromGoal<N(!new)>(p: Problem<N>, fuel: nat)
    requires p.from == p.to && p.from in p.graph.nodes
    requires p.heuristic(p.from, p.to) < MAX_SCORE
    ensures AStar(p, fuel) == Path([p.from])
  {
    InitialCurrentIsStart(p);
    InitEstablishesInv(p);
    var none: seq<KvPair<N, N>> := [];
    assert Pack.Prepend([], [p.from]) == [p.from];
    assert ReconstructPath(none, p.from, p.from, [], 1) == Some([p.from]);
    assert AStarImpl(p, Init(p), fuel) == Path([p.from]);
  }
}
