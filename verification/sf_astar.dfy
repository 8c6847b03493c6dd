/** The compile-time A* search over an `sf::Graph` (semifunctional/A_star.hpp).  The search
    state is four arrays indexed like the graph: the predecessor of each node on its best known
    path, whether it is in the open set, and its f- and g-scores.  The recursion of
    `A_star_impl` runs on a fuel budget, and path reconstruction is bounded by the node count. */
module SfAStar {
  import opened Wrappers
  import opened Search
  import G = SfGraph

  /** Every node is well formed and names only nodes of the graph as neighbours. */
  ghost predicate ValidGraph(graph: seq<G.Node>)
  {
    forall i :: 0 <= i < |graph| ==>
      G.WellFormed(graph[i]) && forall k :: 0 <= k < |G.Neighbours(graph[i])| ==> G.Neighbours(graph[i])[k] < |graph|
  }

  datatype State = State(cameFrom: seq<Option<nat>>, discovered: seq<bool>, fscore: seq<Score>, gscore: seq<Score>)

  /** `Indexer::operator()`: `std::find` with the address comparison of `Node::operator==`
      over the graph's slots, and the distance to the match (the end when there is none). */
  method Indexer(count: nat, node: nat) returns (index: nat)
    ensures index == if node < count then node else count
  {
    index := 0;
    while index < count && index != node
      invariant index <= count
      invariant index <= node
    {
      index := index + 1;
    }
  }

  /** A predecessor link of node i: it points along an edge from a node that is the start or
      itself has a predecessor. */
  ghost predicate Link(graph: seq<G.Node>, from: nat, st: State, i: nat)
    requires ValidGraph(graph) && |st.cameFrom| == |graph| && i < |graph| && st.cameFrom[i].Some?
  {
    var p := st.cameFrom[i].value;
    p < |graph| && i in G.Neighbours(graph[p]) && (p == from || st.cameFrom[p].Some?)
  }

  /** What the search keeps true between recursive calls. */
  ghost predicate Inv(graph: seq<G.Node>, from: nat, st: State)
  {
    && ValidGraph(graph)
    && |st.cameFrom| == |graph| && |st.discovered| == |graph|
    && |st.fscore| == |graph| && |st.gscore| == |graph|
    && from < |graph|
    && st.gscore[from] == Fin(0) && st.cameFrom[from].None?
    && (forall i :: 0 <= i < |graph| && st.discovered[i] ==>
          st.fscore[i].Fin? && st.gscore[i].Fin? && (i == from || st.cameFrom[i].Some?))
    && (forall i :: 0 <= i < |graph| && st.cameFrom[i].Some? ==> st.cameFrom[i].value < |graph|)
    && (forall i {:trigger Link(graph, from, st, i)} :: 0 <= i < |graph| && st.cameFrom[i].Some? ==> Link(graph, from, st, i))
  }

  /** A walk from `from` to `to` along neighbour links that fits in a `Path<Nodes>`. */
  ghost predicate IsPath(graph: seq<G.Node>, from: nat, to: nat, path: seq<nat>)
    requires ValidGraph(graph)
  {
    |path| <= |graph| && IsWalk(graph, from, to, path)
  }

  /** A walk from `from` to `to` along neighbour links, of any length. */
  ghost predicate IsWalk(graph: seq<G.Node>, from: nat, to: nat, path: seq<nat>)
    requires ValidGraph(graph)
  {
    && 0 < |path|
    && path[0] == from && path[|path| - 1] == to
    && (forall k :: 0 <= k < |path| ==> path[k] < |graph|)
    && (forall k :: 0 <= k < |path| - 1 ==> path[k + 1] in G.Neighbours(graph[path[k]]))
  }

  /** `A_star`'s set-up: every array filled with its default, then the start's scores set and
      the start opened. */
  function Init(graph: seq<G.Node>, from: nat, to: nat, h: (G.Node, G.Node) -> nat): (st: State)
    requires ValidGraph(graph) && from < |graph| && to < |graph|
    ensures Inv(graph, from, st)
    ensures forall i :: 0 <= i < |graph| ==> (st.discovered[i] <==> i == from)
    ensures forall i :: 0 <= i < |graph| ==> st.cameFrom[i].None?
    ensures st.fscore[from] == Fin(h(graph[from], graph[to]))
  {
    var n := |graph|;
    State(
      seq(n, _ => None),
      seq(n, _ => false)[from := true],
      seq(n, _ => Inf)[from := Fin(h(graph[from], graph[to]))],
      seq(n, _ => Inf)[from := Fin(0)])
  }

  /** The selection loop: the open node with the strictly lowest f-score, the first such one
      when several tie.  An open node always exists here and has a finite f-score, so the
      selected pointer is never null. */
  method Select(st: State) returns (next: nat)
    requires |st.fscore| == |st.discovered|
    requires exists i :: 0 <= i < |st.discovered| && st.discovered[i]
    requires forall i :: 0 <= i < |st.discovered| && st.discovered[i] ==> st.fscore[i].Fin?
    ensures next < |st.discovered| && st.discovered[next]
    ensures forall i :: 0 <= i < |st.discovered| && st.discovered[i] ==> !Less(st.fscore[i], st.fscore[next])
    ensures forall i :: 0 <= i < next && st.discovered[i] ==> Less(st.fscore[next], st.fscore[i])
  {
    var best: Option<nat> := None;
    var bestScore := Inf;
    var i := 0;
    while i < |st.discovered|
      invariant i <= |st.discovered|
      invariant best.None? ==> bestScore == Inf && forall j :: 0 <= j < i ==> !st.discovered[j]
      invariant best.Some? ==> best.value < i && st.discovered[best.value] && st.fscore[best.value] == bestScore
      invariant forall j :: 0 <= j < i && st.discovered[j] ==> !Less(st.fscore[j], bestScore)
      invariant best.Some? ==> forall j :: 0 <= j < best.value && st.discovered[j] ==> Less(bestScore, st.fscore[j])
    {
      if st.discovered[i] && Less(st.fscore[i], bestScore) {
        best := Some(i);
        bestScore := st.fscore[i];
      }
      i := i + 1;
    }
    next := best.value;
  }

  /** `k` is the node the selection loop of `A_star_impl` settles on: open, of least f-score
      among the open nodes, and strictly below every open node before it. */
  predicate Selected(st: State, k: nat)
    requires |st.fscore| == |st.discovered|
  {
    && k < |st.discovered| && st.discovered[k]
    && (forall i :: 0 <= i < |st.discovered| && st.discovered[i] ==> !Less(st.fscore[i], st.fscore[k]))
    && (forall i :: 0 <= i < k && st.discovered[i] ==> Less(st.fscore[k], st.fscore[i]))
  }

  /** At most one node is selected. */
  lemma SelectedUnique(st: State, a: nat, b: nat)
    requires |st.fscore| == |st.discovered|
    requires Selected(st, a) && Selected(st, b)
    ensures a == b
  {
  }

  /** Once `next` is selected, no other node is. */
  lemma SelectedOnly(st: State, next: nat, k: nat)
    requires |st.fscore| == |st.discovered| && Selected(st, next)
    ensures Selected(st, k) ==> k == next
  {
    if Selected(st, k) {
      SelectedUnique(st, next, k);
    }
  }

  /** The outcome for the reconstructed goal path: found, or out of fuel. */
  function Finish(path: Option<seq<nat>>): Outcome {
    if path.Some? then Found(path.value) else OutOfFuel
  }

  /** `reconstruct_path`: the path to the predecessor of `current`, or the empty path when it
      has none (the `>> lam(...) >> Else { Path{} }` chain), with `current` pushed on the end.
      The depth of the recursion is bounded by `fuel`. */
  function ReconstructPath(cameFrom: seq<Option<nat>>, current: nat, fuel: nat): (r: Option<seq<nat>>)
    requires current < |cameFrom|
    requires forall i :: 0 <= i < |cameFrom| && cameFrom[i].Some? ==> cameFrom[i].value < |cameFrom|
    ensures r.Some? ==> 0 < |r.value| <= fuel + 1 && r.value[|r.value| - 1] == current
    ensures r.Some? ==> forall k :: 0 <= k < |r.value| ==> r.value[k] < |cameFrom|
    ensures r.Some? ==> cameFrom[r.value[0]].None?
    ensures r.Some? ==> forall k :: 0 < k < |r.value| ==> cameFrom[r.value[k]] == Some(r.value[k - 1])
    ensures cameFrom[current].None? ==> r == Some([current])
    decreases fuel
  {
    match cameFrom[current]
    case None => Some([current])
    case Some(prev) =>
      if fuel == 0 then None
      else match ReconstructPath(cameFrom, prev, fuel - 1)
        case None => None
        case Some(path) => Some(path + [current])
  }

  /** The chain `reconstruct_path` reads off the came-from table: it ends at `current`, starts
      at a node without a predecessor, and each node's predecessor is the node before it. */
  ghost predicate Chain(cameFrom: seq<Option<nat>>, current: nat, path: seq<nat>)
  {
    && |path| > 0 && path[|path| - 1] == current
    && (forall k :: 0 <= k < |path| ==> path[k] < |cameFrom|)
    && cameFrom[path[0]].None?
    && forall k :: 0 < k < |path| ==> cameFrom[path[k]] == Some(path[k - 1])
  }

  /** Rebuilding gives up only when no chain fits in the fuel: every chain to `current` has
      more than `fuel + 1` nodes (or the links loop and there is none). */
  lemma {:induction false} ReconstructPathFailsOnlyOnLongChains(cameFrom: seq<Option<nat>>, current: nat,
                                                                 fuel: nat, p: seq<nat>)
    requires current < |cameFrom|
    requires forall i :: 0 <= i < |cameFrom| && cameFrom[i].Some? ==> cameFrom[i].value < |cameFrom|
    requires ReconstructPath(cameFrom, current, fuel).None? && Chain(cameFrom, current, p)
    ensures |p| > fuel + 1
    decreases fuel
  {
    assert cameFrom[current].Some?;
    assert |p| > 1;
    if fuel > 0 {
      var q := p[..|p| - 1];
      assert cameFrom[p[|p| - 1]] == Some(p[|p| - 2]);
      assert Chain(cameFrom, p[|p| - 2], q);
      ReconstructPathFailsOnlyOnLongChains(cameFrom, p[|p| - 2], fuel - 1, q);
    }
  }

  /** A reconstructed path walks the predecessor links from the start to `current`: every link
      it follows is an edge, and the node it stops at, having no predecessor, is the start. */
  lemma {:induction false} ReconstructPathIsWalk(graph: seq<G.Node>, from: nat, st: State, current: nat, fuel: nat,
                              path: seq<nat>)
    requires Inv(graph, from, st) && current < |graph|
    requires current == from || st.cameFrom[current].Some?
    requires ReconstructPath(st.cameFrom, current, fuel) == Some(path)
    ensures |path| <= fuel + 1 && IsWalk(graph, from, current, path)
  {
    if |path| > 1 {
      assert Link(graph, from, st, path[1]);
    }
    forall k | 0 <= k < |path| - 1 ensures path[k + 1] in G.Neighbours(graph[path[k]]) {
      assert Link(graph, from, st, path[k + 1]);
    }
  }

  /** The path rebuilt once the goal is closed: a walk from the start when the links are short
      enough, and the goal alone when it has no predecessor. */
  lemma {:induction false} GoalPath(graph: seq<G.Node>, from: nat, st: State, to: nat)
    requires Inv(graph, from, st) && to < |graph| && (to == from || st.cameFrom[to].Some?)
    ensures var path := ReconstructPath(st.cameFrom, to, |graph| - 1);
      && (path.Some? ==> IsPath(graph, from, to, path.value))
      && (st.cameFrom[to].None? ==> path == Some([to]))
  {
    match ReconstructPath(st.cameFrom, to, |graph| - 1)
    case Some(path) => ReconstructPathIsWalk(graph, from, st, to, |graph| - 1, path);
    case None =>
  }

  /** One pass of the neighbour loop for neighbour `index` of `next`: a cheaper way to it
      re-targets its predecessor, rescores it and opens it. */
  function Relax(graph: seq<G.Node>, to: nat, h: (G.Node, G.Node) -> nat, d: (G.Node, G.Node) -> nat,
                 st: State, next: nat, index: nat): (st': State)
    requires |st.cameFrom| == |graph| && |st.discovered| == |graph|
    requires |st.fscore| == |graph| && |st.gscore| == |graph|
    requires next < |graph| && index < |graph| && to < |graph|
    ensures |st'.cameFrom| == |graph| && |st'.discovered| == |graph|
    ensures |st'.fscore| == |graph| && |st'.gscore| == |graph|
    ensures forall i :: 0 <= i < |graph| && i != index ==>
      st'.cameFrom[i] == st.cameFrom[i] && st'.discovered[i] == st.discovered[i]
      && st'.fscore[i] == st.fscore[i] && st'.gscore[i] == st.gscore[i]
    ensures Less(Plus(st.gscore[next], Fin(d(graph[index], graph[to]))), st.gscore[index])
      <==> st'.gscore[index] != st.gscore[index]
    ensures st'.gscore[index] != st.gscore[index] ==>
      && Less(st'.gscore[index], st.gscore[index])
      && st'.gscore[index] == Plus(st.gscore[next], Fin(d(graph[index], graph[to])))
      && st'.cameFrom[index] == Some(next) && st'.discovered[index]
      && st'.fscore[index] == Plus(st'.gscore[index], Fin(h(graph[index], graph[to])))
    ensures st'.gscore[index] == st.gscore[index] ==> st' == st
  {
    var tentative := Plus(st.gscore[next], Fin(d(graph[index], graph[to])));
    LessIsStrictTotalOrder(tentative, st.gscore[index], tentative);
    if Less(tentative, st.gscore[index]) then
      State(st.cameFrom[index := Some(next)], st.discovered[index := true],
            st.fscore[index := Plus(tentative, Fin(h(graph[index], graph[to])))], st.gscore[index := tentative])
    else st
  }

  /** Relaxing a neighbour of an expanded node keeps the invariant and leaves that node's
      g-score finite and its predecessor status as it was. */
  lemma RelaxKeepsInv(graph: seq<G.Node>, from: nat, to: nat, h: (G.Node, G.Node) -> nat, d: (G.Node, G.Node) -> nat,
                      st: State, next: nat, index: nat)
    requires Inv(graph, from, st) && next < |graph| && to < |graph|
    requires index in G.Neighbours(graph[next])
    requires st.gscore[next].Fin? && (next == from || st.cameFrom[next].Some?)
    ensures index < |graph|
    ensures var st' := Relax(graph, to, h, d, st, next, index);
      Inv(graph, from, st') && st'.gscore[next].Fin? && (next == from || st'.cameFrom[next].Some?)
  {
    var ns := G.Neighbours(graph[next]);
    var k :| 0 <= k < |ns| && ns[k] == index;
    var st' := Relax(graph, to, h, d, st, next, index);
    if st' != st {
      assert index != from;
      forall i | 0 <= i < |graph| && st'.cameFrom[i].Some? ensures Link(graph, from, st', i) {
        if i != index {
          assert Link(graph, from, st, i);
        }
      }
    }
  }

  /** The neighbour loop of `A_star_impl` over the filled slots of `next.neighbours`. */
  method RelaxAll(graph: seq<G.Node>, from: nat, to: nat, h: (G.Node, G.Node) -> nat, d: (G.Node, G.Node) -> nat,
                  st: State, next: nat) returns (st': State)
    requires Inv(graph, from, st) && next < |graph| && to < |graph|
    requires st.gscore[next].Fin? && (next == from || st.cameFrom[next].Some?)
    ensures Inv(graph, from, st')
  {
    var ns := G.Neighbours(graph[next]);
    st' := st;
    var k := 0;
    while k < |ns|
      invariant k <= |ns|
      invariant Inv(graph, from, st')
      invariant st'.gscore[next].Fin? && (next == from || st'.cameFrom[next].Some?)
    {
      RelaxKeepsInv(graph, from, to, h, d, st', next, ns[k]);
      st' := Relax(graph, to, h, d, st', next, ns[k]);
      k := k + 1;
    }
  }

  /** Closing a node keeps the invariant. */
  lemma CloseKeepsInv(graph: seq<G.Node>, from: nat, st: State, i: nat)
    requires Inv(graph, from, st) && i < |graph|
    ensures Inv(graph, from, st.(discovered := st.discovered[i := false]))
  {
    var st1 := st.(discovered := st.discovered[i := false]);
    forall j | 0 <= j < |graph| && st1.cameFrom[j].Some? ensures Link(graph, from, st1, j) {
      assert Link(graph, from, st, j);
    }
  }

  /** `A_star_impl`: stop when nothing is open; otherwise close the open node with the lowest
      f-score, return its path if it is the goal, and else relax its neighbours and recurse. */
  method AStarImpl(graph: seq<G.Node>, from: nat, to: nat, h: (G.Node, G.Node) -> nat, d: (G.Node, G.Node) -> nat,
                   st: State, fuel: nat) returns (r: Outcome)
    requires Inv(graph, from, st) && to < |graph|
    ensures r.Found? ==> IsPath(graph, from, to, r.path)
    ensures fuel > 0 && (forall i :: 0 <= i < |graph| ==> (st.discovered[i] <==> i == to)) && st.cameFrom[to].None?
      ==> r == Found([to])
    ensures (forall i :: 0 <= i < |graph| ==> !st.discovered[i]) ==> r == NoPath
    ensures fuel > 0 && Selected(st, to) ==> r.Found? || r.OutOfFuel?
    ensures fuel > 0 && Selected(st, to) && r.Found? ==> Chain(st.cameFrom, to, r.path)
    ensures fuel > 0 && Selected(st, to) && r.OutOfFuel? ==> forall p :: Chain(st.cameFrom, to, p) ==> |p| > |graph|
    decreases fuel
  {
    if forall i :: 0 <= i < |st.discovered| ==> !st.discovered[i] {
      assert !st.discovered[to];
      return NoPath;
    }
    if fuel == 0 {
      return OutOfFuel;
    }
    var next := Select(st);
    SelectedOnly(st, next, to);
    var index := Indexer(|graph|, next);
    assert index == next;
    var st1 := st.(discovered := st.discovered[index := false]);
    CloseKeepsInv(graph, from, st, index);
    if next == to {
      GoalPath(graph, from, st1, to);
      var path := ReconstructPath(st1.cameFrom, to, |graph| - 1);
      if path.None? {
        forall p | Chain(st.cameFrom, to, p) ensures |p| > |graph| {
          ReconstructPathFailsOnlyOnLongChains(st.cameFrom, to, |graph| - 1, p);
        }
      }
      return Finish(path);
    }
    var st2 := RelaxAll(graph, from, to, h, d, st1, next);
    r := AStarImpl(graph, from, to, h, d, st2, fuel - 1);
  }

  /** `A_star`: a search from `from` to `to` yields, if anything, a walk between them along
      the graph's edges, and finds the one-node path at once when they are the same node. */
  method AStar(graph: seq<G.Node>, from: nat, to: nat, h: (G.Node, G.Node) -> nat, d: (G.Node, G.Node) -> nat,
               fuel: nat) returns (r: Outcome)
    requires ValidGraph(graph) && from < |graph| && to < |graph|
    ensures r.Found? ==> IsPath(graph, from, to, r.path)
    ensures from == to && fuel > 0 ==> r == Found([from])
  {
    var st := Init(graph, from, to, h);
    r := AStarImpl(graph, from, to, h, d, st, fuel);
  }
}
