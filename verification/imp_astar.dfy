/** The run-time A* search over an `imp::graph` (imperative/A_star.hpp).  `came_from` is a map
    from node to predecessor, the g- and f-scores are kept for every node, and the open set is a
    `std::multiset` of nodes ordered by their current f-score, held here as a sequence in
    iteration order.  The main loop runs on a step budget. */
module ImpAStar {
  import opened Wrappers
  import opened Search
  import IG = ImpGraph
  import OL = OrderedList
  import Pack

  datatype State = State(cameFrom: map<nat, nat>, fscore: seq<Score>, gscore: seq<Score>, open: seq<nat>)

  ghost predicate Below(s: seq<nat>, n: nat)
  {
    forall k :: 0 <= k < |s| ==> s[k] < n
  }

  /** The open set in the order `score_comparator` keeps it: f-scores never decrease. */
  ghost predicate Ordered(open: seq<nat>, f: seq<Score>)
    requires Below(open, |f|)
  {
    forall i, j :: 0 <= i < j < |open| ==> !Less(f[open[j]], f[open[i]])
  }

  /** Where `multiset::insert` puts a node: after every node whose score is not above its own
      (the upper bound of its equivalence range). */
  function UpperBound(open: seq<nat>, f: seq<Score>, x: nat): (p: nat)
    requires Below(open, |f|) && x < |f|
    ensures p <= |open|
    ensures forall j :: 0 <= j < p ==> !Less(f[x], f[open[j]])
    ensures p < |open| ==> Less(f[x], f[open[p]])
  {
    if open == [] || Less(f[x], f[open[0]]) then 0 else 1 + UpperBound(open[1..], f, x)
  }

  /** `discovered.insert(x)`. */
  function Insert(open: seq<nat>, f: seq<Score>, x: nat): (r: seq<nat>)
    requires Below(open, |f|) && x < |f|
    ensures Below(r, |f|)
    ensures multiset(r) == multiset(open) + multiset{x}
    ensures Ordered(open, f) ==> Ordered(r, f)
  {
    InsertFacts(open, f, x);
    OL.InsertAt(open, UpperBound(open, f, x), x)
  }

  lemma InsertFacts(open: seq<nat>, f: seq<Score>, x: nat)
    requires Below(open, |f|) && x < |f|
    ensures var r := OL.InsertAt(open, UpperBound(open, f, x), x);
      && Below(r, |f|)
      && multiset(r) == multiset(open) + multiset{x}
      && (Ordered(open, f) ==> Ordered(r, f))
  {
    var p := UpperBound(open, f, x);
    var r := OL.InsertAt(open, p, x);
    OL.MultisetInsert(open, p, x);
    forall k | 0 <= k < |r| ensures r[k] < |f| {
      assert r[k] == if k < p then open[k] else if k == p then x else open[k - 1];
    }
    if Ordered(open, f) {
      InsertOrdered(open, f, x, p);
    }
  }

  lemma InsertOrdered(open: seq<nat>, f: seq<Score>, x: nat, p: nat)
    requires Below(open, |f|) && x < |f| && Ordered(open, f) && p == UpperBound(open, f, x)
    ensures Below(OL.InsertAt(open, p, x), |f|) && Ordered(OL.InsertAt(open, p, x), f)
  {
    var r := OL.InsertAt(open, p, x);
    forall k | 0 <= k < |r| ensures r[k] == if k < p then open[k] else if k == p then x else open[k - 1] {
    }
    forall i, j | 0 <= i < j < |r| ensures !Less(f[r[j]], f[r[i]]) {
      if i == p {
        assert !Less(f[open[j - 1]], f[open[p]]) || j - 1 == p;
        LessIsStrictTotalOrder(f[open[j - 1]], f[open[p]], f[x]);
        LessIsStrictTotalOrder(f[x], f[open[p]], f[open[j - 1]]);
      }
    }
  }

  /** `discovered.extract(discovered.begin())`: the first node has the lowest f-score. */
  lemma FirstIsLowest(open: seq<nat>, f: seq<Score>)
    requires Below(open, |f|) && Ordered(open, f) && open != []
    ensures forall k :: 0 <= k < |open| ==> !Less(f[open[k]], f[open[0]])
  {
    forall k | 0 < k < |open| ensures !Less(f[open[k]], f[open[0]]) {
    }
  }

  /** `discovered.erase(x)` as written: `multiset::erase` by key removes every node the
      comparator cannot tell apart from x, that is every node with x's f-score. */
  function EraseAsWritten(open: seq<nat>, f: seq<Score>, x: nat): (r: seq<nat>)
    requires Below(open, |f|) && x < |f|
    ensures forall y :: y in r <==> y in open && (Less(f[y], f[x]) || Less(f[x], f[y]))
  {
    if open == [] then []
    else
      (if !Less(f[open[0]], f[x]) && !Less(f[x], f[open[0]]) then [] else [open[0]])
        + EraseAsWritten(open[1..], f, x)
  }

  /** Two open nodes with the same f-score: erasing the first also loses the second. */
  lemma EraseAsWrittenLosesEqualScores()
    ensures EraseAsWritten([1, 2], [Fin(0), Fin(5), Fin(5)], 1) == []
    ensures Erase([1, 2], 1) == [2]
  {
    assert EraseAsWritten([2], [Fin(0), Fin(5), Fin(5)], 1) == [];
    assert [1, 2][1..] == [2];
    assert Erase([2], 1) == [2];
  }

  /** The as-written erase takes x itself out and keeps only open nodes. */
  lemma EraseAsWrittenDropsX(open: seq<nat>, f: seq<Score>, x: nat)
    requires Below(open, |f|) && x < |f|
    ensures x !in EraseAsWritten(open, f, x)
    ensures forall y :: y in EraseAsWritten(open, f, x) ==> y in open
    ensures Below(EraseAsWritten(open, f, x), |f|)
  {
    LessIsStrictTotalOrder(f[x], f[x], f[x]);
    var r := EraseAsWritten(open, f, x);
    forall k | 0 <= k < |r| ensures r[k] < |f| {
      assert r[k] in r;
    }
  }

  /** The as-written erase keeps the open set ordered. */
  lemma {:induction false} EraseAsWrittenOrdered(open: seq<nat>, f: seq<Score>, x: nat)
    requires Below(open, |f|) && Ordered(open, f) && x < |f|
    ensures Below(EraseAsWritten(open, f, x), |f|) && Ordered(EraseAsWritten(open, f, x), f)
    decreases |open|
  {
    EraseAsWrittenDropsX(open, f, x);
    if open != [] {
      var rest := open[1..];
      OrderedTail(open, f);
      EraseAsWrittenOrdered(rest, f, x);
      var e := EraseAsWritten(rest, f, x);
      if Less(f[open[0]], f[x]) || Less(f[x], f[open[0]]) {
        assert EraseAsWritten(open, f, x) == [open[0]] + e;
        EraseAsWrittenDropsX(rest, f, x);
        ConsOrdered(open[0], e, rest, f);
      }
    }
  }

  /** The tail of an ordered open set is ordered and no lower than its head. */
  lemma OrderedTail(open: seq<nat>, f: seq<Score>)
    requires Below(open, |f|) && Ordered(open, f) && open != []
    ensures Below(open[1..], |f|) && Ordered(open[1..], f)
    ensures forall k :: 0 <= k < |open[1..]| ==> !Less(f[open[1..][k]], f[open[0]])
  {
    var rest := open[1..];
    forall i, j | 0 <= i < j < |rest| ensures !Less(f[rest[j]], f[rest[i]]) {
      assert rest[i] == open[i + 1] && rest[j] == open[j + 1];
    }
    forall k | 0 <= k < |rest| ensures !Less(f[rest[k]], f[open[0]]) {
      assert rest[k] == open[k + 1];
    }
  }

  /** A head no higher than anything in `rest` can go in front of an ordered selection of
      `rest`. */
  lemma ConsOrdered(y: nat, e: seq<nat>, rest: seq<nat>, f: seq<Score>)
    requires y < |f| && Below(e, |f|) && Below(rest, |f|) && Ordered(e, f)
    requires forall z :: z in e ==> z in rest
    requires forall k :: 0 <= k < |rest| ==> !Less(f[rest[k]], f[y])
    ensures Below([y] + e, |f|) && Ordered([y] + e, f)
  {
    var r := [y] + e;
    forall k | 0 <= k < |e| ensures !Less(f[e[k]], f[y]) {
      assert e[k] in rest;
      var m :| 0 <= m < |rest| && rest[m] == e[k];
    }
    forall i, j | 0 <= i < j < |r| ensures !Less(f[r[j]], f[r[i]]) {
      assert r[j] == e[j - 1];
      if i > 0 {
        assert r[i] == e[i - 1];
      }
    }
  }

  /** The as-written erase keeps the open set free of repeats. */
  lemma {:induction false} EraseAsWrittenDistinct(open: seq<nat>, f: seq<Score>, x: nat)
    requires Below(open, |f|) && x < |f| && OL.Distinct(open)
    ensures OL.Distinct(EraseAsWritten(open, f, x))
    decreases |open|
  {
    if open != [] {
      var rest := open[1..];
      assert Below(rest, |f|) && OL.Distinct(rest) by {
        forall i, j | 0 <= i < j < |rest| ensures rest[i] != rest[j] {
          assert rest[i] == open[i + 1] && rest[j] == open[j + 1];
        }
      }
      EraseAsWrittenDistinct(rest, f, x);
      var e := EraseAsWritten(rest, f, x);
      if Less(f[open[0]], f[x]) || Less(f[x], f[open[0]]) {
        assert open[0] !in rest by {
          forall k | 0 <= k < |rest| ensures rest[k] != open[0] {
            assert rest[k] == open[k + 1];
          }
        }
        var r := EraseAsWritten(open, f, x);
        assert r == [open[0]] + e;
        forall i, j | 0 <= i < j < |r| ensures r[i] != r[j] {
          assert r[j] == e[j - 1] && r[j] in rest;
          if i > 0 {
            assert r[i] == e[i - 1];
          }
        }
      }
    }
  }

  /** What the as-written erase keeps, the intended erase keeps too. */
  lemma EraseAsWrittenWithinErase(open: seq<nat>, f: seq<Score>, x: nat)
    requires Below(open, |f|) && x < |f|
    ensures forall y :: y in EraseAsWritten(open, f, x) ==> y in Erase(open, x)
  {
    LessIsStrictTotalOrder(f[x], f[x], f[x]);
  }

  /** `discovered.erase(x)` as intended: only x leaves the open set. */
  function Erase(open: seq<nat>, x: nat): (r: seq<nat>)
    ensures x !in r
    ensures forall y :: y != x ==> (y in r <==> y in open)
    ensures multiset(r) == multiset(open)[x := 0]
  {
    if open == [] then []
    else
      var rest := Erase(open[1..], x);
      assert open == [open[0]] + open[1..];
      (if open[0] == x then [] else [open[0]]) + rest
  }

  /** Removing nodes keeps the open set ordered. */
  lemma {:induction false} EraseOrdered(open: seq<nat>, f: seq<Score>, x: nat)
    requires Below(open, |f|) && Ordered(open, f)
    ensures Below(Erase(open, x), |f|) && Ordered(Erase(open, x), f)
    decreases |open|
  {
    if open != [] {
      var rest := open[1..];
      assert Below(rest, |f|) && Ordered(rest, f) by {
        forall i, j | 0 <= i < j < |rest| ensures !Less(f[rest[j]], f[rest[i]]) {
          assert rest[i] == open[i + 1] && rest[j] == open[j + 1];
        }
      }
      EraseOrdered(rest, f, x);
      var e := Erase(rest, x);
      var r := Erase(open, x);
      if open[0] != x {
        assert r == [open[0]] + e;
        forall k | 0 <= k < |e| ensures !Less(f[e[k]], f[open[0]]) {
          assert e[k] in rest;
          var m :| 0 <= m < |rest| && rest[m] == e[k];
          assert rest[m] == open[m + 1];
        }
        forall i, j | 0 <= i < j < |r| ensures !Less(f[r[j]], f[r[i]]) {
          assert r[j] == e[j - 1];
          if i > 0 {
            assert r[i] == e[i - 1];
          }
        }
      }
    }
  }

  /** A predecessor link of node x: along an edge, from the start or a node that itself has a
      predecessor. */
  ghost predicate Link(graph: IG.Graph, from: nat, cameFrom: map<nat, nat>, x: nat)
    requires x in cameFrom
  {
    var p := cameFrom[x];
    x < |graph.nodes| && p < |graph.nodes| && x in graph.nodes[p].neighbours && (p == from || p in cameFrom)
  }

  /** What the main loop keeps true. */
  ghost predicate Inv(graph: IG.Graph, from: nat, st: State)
  {
    && IG.Closed(graph)
    && |st.fscore| == |graph.nodes| && |st.gscore| == |graph.nodes|
    && from < |graph.nodes|
    && st.gscore[from] == Fin(0) && from !in st.cameFrom
    && Below(st.open, |graph.nodes|)
    && Ordered(st.open, st.fscore)
    && (forall k :: 0 <= k < |st.open| ==>
          st.gscore[st.open[k]].Fin? && (st.open[k] == from || st.open[k] in st.cameFrom))
    && (forall x {:trigger Link(graph, from, st.cameFrom, x)} :: x in st.cameFrom ==> Link(graph, from, st.cameFrom, x))
  }

  /** A walk from `from` to `to` along neighbour links. */
  ghost predicate IsPath(graph: IG.Graph, from: nat, to: nat, path: seq<nat>)
  {
    && 0 < |path|
    && path[0] == from && path[|path| - 1] == to
    && (forall k :: 0 <= k < |path| ==> path[k] < |graph.nodes|)
    && (forall k :: 0 <= k < |path| - 1 ==> path[k + 1] in graph.nodes[path[k]].neighbours)
  }

  /** The set-up before the main loop: every score infinite, then the start's scores set and
      the start opened. */
  function Init(graph: IG.Graph, from: nat, to: nat, h: (IG.Node, IG.Node) -> nat): (st: State)
    requires IG.Closed(graph) && from < |graph.nodes| && to < |graph.nodes|
    ensures Inv(graph, from, st)
    ensures st.open == [from] && st.cameFrom == map[]
    ensures st.fscore[from] == Fin(h(graph.nodes[from], graph.nodes[to]))
  {
    var n := |graph.nodes|;
    State(map[], seq(n, _ => Inf)[from := Fin(h(graph.nodes[from], graph.nodes[to]))], seq(n, _ => Inf)[from := Fin(0)], [from])
  }

  /** The state after `neighbour` improves to g-score `t` by way of `current`: its
      predecessor and g-score are replaced, its f-score is recomputed, and it is inserted into
      `rest`, the open set it was erased from. */
  function Improve(graph: IG.Graph, to: nat, h: (IG.Node, IG.Node) -> nat, st: State, current: nat,
                   neighbour: nat, t: Score, rest: seq<nat>): State
    requires |st.fscore| == |graph.nodes| && |st.gscore| == |graph.nodes|
    requires neighbour < |graph.nodes| && to < |graph.nodes|
    requires Below(rest, |graph.nodes|)
  {
    var f := st.fscore[neighbour := Plus(t, Fin(h(graph.nodes[neighbour], graph.nodes[to])))];
    State(st.cameFrom[neighbour := current], f, st.gscore[neighbour := t], Insert(rest, f, neighbour))
  }

  /** The tentative g-score of `neighbour` through `current`. */
  function Tentative(graph: IG.Graph, d: (IG.Node, IG.Node) -> nat, st: State, current: nat, neighbour: nat): Score
    requires |st.gscore| == |graph.nodes| && current < |graph.nodes| && neighbour < |graph.nodes|
  {
    Plus(st.gscore[current], Fin(d(graph.nodes[current], graph.nodes[neighbour])))
  }

  /** One pass of the neighbour loop, as written: a cheaper way to `neighbour` re-targets its
      predecessor, `discovered.erase(neighbour)` removes every open node with the neighbour's
      old f-score, and the rescored neighbour is inserted again.  Only the neighbour's
      scores and link change; the open set loses nodes and gains at most the neighbour. */
  function Relax(graph: IG.Graph, to: nat, h: (IG.Node, IG.Node) -> nat, d: (IG.Node, IG.Node) -> nat,
                 st: State, current: nat, neighbour: nat): (st': State)
    requires |st.fscore| == |graph.nodes| && |st.gscore| == |graph.nodes|
    requires current < |graph.nodes| && neighbour < |graph.nodes| && to < |graph.nodes|
    requires Below(st.open, |graph.nodes|)
    ensures |st'.fscore| == |graph.nodes| && |st'.gscore| == |graph.nodes|
    ensures forall y :: 0 <= y < |graph.nodes| && y != neighbour ==>
      st'.gscore[y] == st.gscore[y] && st'.fscore[y] == st.fscore[y]
    ensures forall y :: y != neighbour ==> (y in st'.cameFrom <==> y in st.cameFrom)
    ensures !Less(st.gscore[neighbour], st'.gscore[neighbour])
    ensures Less(Tentative(graph, d, st, current, neighbour), st.gscore[neighbour]) <==>
      st'.gscore[neighbour] != st.gscore[neighbour]
    ensures st'.gscore[neighbour] != st.gscore[neighbour] ==>
      neighbour in st'.open && neighbour in st'.cameFrom && st'.cameFrom[neighbour] == current
    ensures forall y :: y in st'.open ==> y == neighbour || y in st.open
    ensures Less(Tentative(graph, d, st, current, neighbour), st.gscore[neighbour]) ==>
      && st'.gscore[neighbour] == Tentative(graph, d, st, current, neighbour)
      && st'.fscore[neighbour]
         == Plus(Tentative(graph, d, st, current, neighbour), Fin(h(graph.nodes[neighbour], graph.nodes[to])))
      && forall y :: y in st.open && y != neighbour ==>
           (y in st'.open <==> Less(st.fscore[y], st.fscore[neighbour]) || Less(st.fscore[neighbour], st.fscore[y]))
    ensures !Less(Tentative(graph, d, st, current, neighbour), st.gscore[neighbour]) ==> st' == st
  {
    var t := Tentative(graph, d, st, current, neighbour);
    if Less(t, st.gscore[neighbour]) then
      var open := EraseAsWritten(st.open, st.fscore, neighbour);
      assert Below(open, |graph.nodes|) by {
        forall k | 0 <= k < |open| ensures open[k] < |graph.nodes| {
          assert open[k] in open;
        }
      }
      var r := Improve(graph, to, h, st, current, neighbour, t, open);
      assert neighbour in multiset(r.open);
      ImproveFrame(open, r.fscore, neighbour);
      r
    else st
  }

  /** The relaxation with the intended erase: only the neighbour itself leaves the open set
      before it is inserted again. */
  function RelaxCorrected(graph: IG.Graph, to: nat, h: (IG.Node, IG.Node) -> nat, d: (IG.Node, IG.Node) -> nat,
                          st: State, current: nat, neighbour: nat): (st': State)
    requires |st.fscore| == |graph.nodes| && |st.gscore| == |graph.nodes|
    requires current < |graph.nodes| && neighbour < |graph.nodes| && to < |graph.nodes|
    requires Below(st.open, |graph.nodes|)
    ensures forall y :: y in st.open ==> y in st'.open
  {
    var t := Tentative(graph, d, st, current, neighbour);
    if Less(t, st.gscore[neighbour]) then
      var open := Erase(st.open, neighbour);
      assert Below(open, |graph.nodes|) by {
        forall k | 0 <= k < |open| ensures open[k] < |graph.nodes| {
          assert open[k] in st.open;
        }
      }
      var r := Improve(graph, to, h, st, current, neighbour, t, open);
      assert multiset(r.open) == multiset(open) + multiset{neighbour};
      assert forall y :: y in st.open ==> y in r.open by {
        forall y | y in st.open ensures y in r.open {
          if y != neighbour {
            assert y in open;
            assert y in multiset(r.open);
          }
        }
      }
      r
    else st
  }

  /** Inserting x into what the erase left holds x and otherwise only what was left. */
  lemma ImproveFrame(rest: seq<nat>, f: seq<Score>, x: nat)
    requires Below(rest, |f|) && x < |f|
    ensures x in Insert(rest, f, x)
    ensures forall y :: y in Insert(rest, f, x) ==> y == x || y in rest
  {
    var r := Insert(rest, f, x);
    assert x in multiset(r);
    forall y | y in r ensures y == x || y in rest {
      assert y in multiset(r);
    }
  }

  /** The as-written relaxation keeps no node open that the intended one would not: it only
      loses the other nodes that share the neighbour's f-score. */
  lemma {:induction false} RelaxWithinCorrected(graph: IG.Graph, to: nat, h: (IG.Node, IG.Node) -> nat, d: (IG.Node, IG.Node) -> nat,
                             st: State, current: nat, neighbour: nat)
    requires |st.fscore| == |graph.nodes| && |st.gscore| == |graph.nodes|
    requires current < |graph.nodes| && neighbour < |graph.nodes| && to < |graph.nodes|
    requires Below(st.open, |graph.nodes|)
    ensures var w, c := Relax(graph, to, h, d, st, current, neighbour),
                        RelaxCorrected(graph, to, h, d, st, current, neighbour);
      && w.cameFrom == c.cameFrom && w.fscore == c.fscore && w.gscore == c.gscore
      && forall y :: y in w.open ==> y in c.open
  {
    var t := Tentative(graph, d, st, current, neighbour);
    if Less(t, st.gscore[neighbour]) {
      var we := EraseAsWritten(st.open, st.fscore, neighbour);
      var ce := Erase(st.open, neighbour);
      EraseAsWrittenWithinErase(st.open, st.fscore, neighbour);
      assert Below(we, |graph.nodes|) by {
        forall k | 0 <= k < |we| ensures we[k] < |graph.nodes| {
          assert we[k] in we;
        }
      }
      assert Below(ce, |graph.nodes|) by {
        forall k | 0 <= k < |ce| ensures ce[k] < |graph.nodes| {
          assert ce[k] in st.open;
        }
      }
      var w := Improve(graph, to, h, st, current, neighbour, t, we);
      var c := Improve(graph, to, h, st, current, neighbour, t, ce);
      ImproveFrame(we, w.fscore, neighbour);
      ImproveFrame(ce, c.fscore, neighbour);
      assert multiset(c.open) == multiset(ce) + multiset{neighbour};
      forall y | y in w.open ensures y in c.open {
        assert y in multiset(c.open);
      }
    }
  }

  /** Relaxing one neighbour, as written, keeps the invariant: the erase leaves an ordered
      set of open nodes without the neighbour. */
  lemma RelaxKeepsInv(graph: IG.Graph, from: nat, to: nat, h: (IG.Node, IG.Node) -> nat, d: (IG.Node, IG.Node) -> nat,
                      st: State, current: nat, neighbour: nat)
    requires Inv(graph, from, st) && current < |graph.nodes| && to < |graph.nodes|
    requires neighbour in graph.nodes[current].neighbours
    requires st.gscore[current].Fin? && (current == from || current in st.cameFrom)
    ensures neighbour < |graph.nodes|
    ensures var st' := Relax(graph, to, h, d, st, current, neighbour);
      Inv(graph, from, st') && st'.gscore[current].Fin? && (current == from || current in st'.cameFrom)
  {
    var ns := graph.nodes[current].neighbours;
    var k :| 0 <= k < |ns| && ns[k] == neighbour;
    var t := Tentative(graph, d, st, current, neighbour);
    if Less(t, st.gscore[neighbour]) {
      assert neighbour != from && t.Fin?;
      var e := EraseAsWritten(st.open, st.fscore, neighbour);
      EraseAsWrittenDropsX(st.open, st.fscore, neighbour);
      EraseAsWrittenOrdered(st.open, st.fscore, neighbour);
      ImprovedKeepsInv(graph, from, to, h, st, current, neighbour, t, e);
    }
  }

  /** Relaxing one neighbour with the intended erase keeps the invariant too. */
  lemma RelaxCorrectedKeepsInv(graph: IG.Graph, from: nat, to: nat, h: (IG.Node, IG.Node) -> nat,
                               d: (IG.Node, IG.Node) -> nat, st: State, current: nat, neighbour: nat)
    requires Inv(graph, from, st) && current < |graph.nodes| && to < |graph.nodes|
    requires neighbour in graph.nodes[current].neighbours
    requires st.gscore[current].Fin? && (current == from || current in st.cameFrom)
    ensures neighbour < |graph.nodes|
    ensures Inv(graph, from, RelaxCorrected(graph, to, h, d, st, current, neighbour))
  {
    var ns := graph.nodes[current].neighbours;
    var k :| 0 <= k < |ns| && ns[k] == neighbour;
    var t := Tentative(graph, d, st, current, neighbour);
    if Less(t, st.gscore[neighbour]) {
      assert neighbour != from && t.Fin?;
      var e := Erase(st.open, neighbour);
      EraseOrdered(st.open, st.fscore, neighbour);
      ImprovedKeepsInv(graph, from, to, h, st, current, neighbour, t, e);
    }
  }

  /** Improving a neighbour of an expandable node and inserting it into an ordered remainder
      of the open set without it keeps the invariant. */
  lemma ImprovedKeepsInv(graph: IG.Graph, from: nat, to: nat, h: (IG.Node, IG.Node) -> nat, st: State,
                         current: nat, neighbour: nat, t: Score, e: seq<nat>)
    requires Inv(graph, from, st) && current < |graph.nodes| && neighbour < |graph.nodes| && to < |graph.nodes|
    requires neighbour != from
    requires neighbour in graph.nodes[current].neighbours && (current == from || current in st.cameFrom)
    requires t.Fin?
    requires Below(e, |graph.nodes|) && Ordered(e, st.fscore) && neighbour !in e
    requires forall y :: y in e ==> y in st.open
    ensures Inv(graph, from, Improve(graph, to, h, st, current, neighbour, t, e))
  {
    var st' := Improve(graph, to, h, st, current, neighbour, t, e);
    ReopenKeepsOrder(st.open, e, st.fscore, st'.fscore, neighbour);
    OpenNodesReady(st.open, st'.open, st.gscore, st.cameFrom, from, neighbour, t, current);
    RelinkKeepsLinks(graph, from, st.cameFrom, st'.cameFrom, current, neighbour);
  }

  /** After a relaxation every open node still has a finite g-score and is the start or has
      a predecessor: the relaxed node got both, and the others kept theirs. */
  lemma OpenNodesReady(open: seq<nat>, open': seq<nat>, g: seq<Score>, cf: map<nat, nat>, from: nat,
                       x: nat, t: Score, c: nat)
    requires Below(open, |g|) && Below(open', |g|) && x < |g| && t.Fin?
    requires forall k :: 0 <= k < |open| ==> g[open[k]].Fin? && (open[k] == from || open[k] in cf)
    requires forall m :: 0 <= m < |open'| ==> open'[m] == x || exists i :: 0 <= i < |open| && open[i] == open'[m]
    ensures forall m :: 0 <= m < |open'| ==>
      g[x := t][open'[m]].Fin? && (open'[m] == from || open'[m] in cf[x := c])
  {
    forall m | 0 <= m < |open'|
      ensures g[x := t][open'[m]].Fin? && (open'[m] == from || open'[m] in cf[x := c])
    {
      if open'[m] != x {
        var i :| 0 <= i < |open| && open[i] == open'[m];
      }
    }
  }

  /** Putting a node back, with its new f-score, into an ordered remainder of the open set
      that lacks it keeps the set ordered, and leaves only nodes open before plus that one. */
  lemma ReopenKeepsOrder(open: seq<nat>, e: seq<nat>, f0: seq<Score>, f: seq<Score>, x: nat)
    requires Below(e, |f0|) && Ordered(e, f0) && x < |f0| && x !in e
    requires forall y :: y in e ==> y in open
    requires |f| == |f0| && forall y :: 0 <= y < |f| && y != x ==> f[y] == f0[y]
    ensures var r := Insert(e, f, x);
      && Below(r, |f|) && Ordered(r, f)
      && forall m :: 0 <= m < |r| ==> r[m] == x || exists i :: 0 <= i < |open| && open[i] == r[m]
  {
    assert Ordered(e, f) by {
      forall i, j | 0 <= i < j < |e| ensures !Less(f[e[j]], f[e[i]]) {
        assert e[i] in e && e[j] in e;
      }
    }
    var r := Insert(e, f, x);
    forall m | 0 <= m < |r| ensures r[m] == x || exists i :: 0 <= i < |open| && open[i] == r[m] {
      assert r[m] in multiset(e) + multiset{x};
      if r[m] != x {
        assert r[m] in e;
        assert r[m] in open;
      }
    }
  }

  /** Pointing a node other than the start at a linked neighbour keeps every link valid. */
  lemma RelinkKeepsLinks(graph: IG.Graph, from: nat, cf: map<nat, nat>, cf': map<nat, nat>, current: nat, neighbour: nat)
    requires forall x {:trigger Link(graph, from, cf, x)} :: x in cf ==> Link(graph, from, cf, x)
    requires cf' == cf[neighbour := current] && neighbour != from
    requires current < |graph.nodes| && neighbour < |graph.nodes|
    requires neighbour in graph.nodes[current].neighbours && (current == from || current in cf)
    ensures forall x {:trigger Link(graph, from, cf', x)} :: x in cf' ==> Link(graph, from, cf', x)
  {
    forall x | x in cf' ensures Link(graph, from, cf', x) {
      if x != neighbour {
        assert Link(graph, from, cf, x);
      }
    }
  }

  /** Removing a node keeps the open set free of repeats. */
  lemma {:induction false} EraseDistinct(open: seq<nat>, x: nat)
    requires OL.Distinct(open)
    ensures OL.Distinct(Erase(open, x))
    decreases |open|
  {
    if open != [] {
      var rest := open[1..];
      assert OL.Distinct(rest) by {
        forall i, j | 0 <= i < j < |rest| ensures rest[i] != rest[j] {
          assert rest[i] == open[i + 1] && rest[j] == open[j + 1];
        }
      }
      EraseDistinct(rest, x);
      var e := Erase(rest, x);
      if open[0] != x {
        assert open[0] !in rest by {
          forall k | 0 <= k < |rest| ensures rest[k] != open[0] {
            assert rest[k] == open[k + 1];
          }
        }
        var r := Erase(open, x);
        assert r == [open[0]] + e;
        forall i, j | 0 <= i < j < |r| ensures r[i] != r[j] {
          assert r[j] == e[j - 1] && r[j] in rest;
          if i > 0 {
            assert r[i] == e[i - 1];
          }
        }
      }
    }
  }

  /** Each relaxation takes the neighbour out before putting it back in, so no node is ever in
      the open set twice. */
  lemma RelaxKeepsDistinct(graph: IG.Graph, to: nat, h: (IG.Node, IG.Node) -> nat, d: (IG.Node, IG.Node) -> nat,
                           st: State, current: nat, neighbour: nat)
    requires |st.fscore| == |graph.nodes| && |st.gscore| == |graph.nodes|
    requires current < |graph.nodes| && neighbour < |graph.nodes| && to < |graph.nodes|
    requires Below(st.open, |graph.nodes|) && OL.Distinct(st.open)
    ensures OL.Distinct(Relax(graph, to, h, d, st, current, neighbour).open)
  {
    var t := Tentative(graph, d, st, current, neighbour);
    if Less(t, st.gscore[neighbour]) {
      var open := EraseAsWritten(st.open, st.fscore, neighbour);
      EraseAsWrittenDistinct(st.open, st.fscore, neighbour);
      LessIsStrictTotalOrder(st.fscore[neighbour], st.fscore[neighbour], st.fscore[neighbour]);
      assert neighbour !in open;
      var f := st.fscore[neighbour := Plus(t, Fin(h(graph.nodes[neighbour], graph.nodes[to])))];
      assert Below(open, |f|) by {
        forall k | 0 <= k < |open| ensures open[k] < |f| {
          assert open[k] in open;
        }
      }
      OL.InsertDistinctFresh(open, UpperBound(open, f, neighbour), neighbour);
    }
  }

  /** The same for the relaxation with the intended erase. */
  lemma RelaxCorrectedKeepsDistinct(graph: IG.Graph, to: nat, h: (IG.Node, IG.Node) -> nat,
                                    d: (IG.Node, IG.Node) -> nat, st: State, current: nat, neighbour: nat)
    requires |st.fscore| == |graph.nodes| && |st.gscore| == |graph.nodes|
    requires current < |graph.nodes| && neighbour < |graph.nodes| && to < |graph.nodes|
    requires Below(st.open, |graph.nodes|) && OL.Distinct(st.open)
    ensures OL.Distinct(RelaxCorrected(graph, to, h, d, st, current, neighbour).open)
  {
    var t := Tentative(graph, d, st, current, neighbour);
    if Less(t, st.gscore[neighbour]) {
      var open := Erase(st.open, neighbour);
      EraseDistinct(st.open, neighbour);
      var f := st.fscore[neighbour := Plus(t, Fin(h(graph.nodes[neighbour], graph.nodes[to])))];
      assert Below(open, |f|) by {
        forall k | 0 <= k < |open| ensures open[k] < |f| {
          assert open[k] in st.open;
        }
      }
      OL.InsertDistinctFresh(open, UpperBound(open, f, neighbour), neighbour);
    }
  }

  /** The neighbour loop over `current->neighbours`. */
  method RelaxAll(graph: IG.Graph, from: nat, to: nat, h: (IG.Node, IG.Node) -> nat, d: (IG.Node, IG.Node) -> nat,
                  st: State, current: nat) returns (st': State)
    requires Inv(graph, from, st) && current < |graph.nodes| && to < |graph.nodes|
    requires st.gscore[current].Fin? && (current == from || current in st.cameFrom)
    ensures Inv(graph, from, st')
  {
    var ns := graph.nodes[current].neighbours;
    st' := st;
    var k := 0;
    while k < |ns|
      invariant k <= |ns|
      invariant Inv(graph, from, st')
      invariant st'.gscore[current].Fin? && (current == from || current in st'.cameFrom)
    {
      RelaxKeepsInv(graph, from, to, h, d, st', current, ns[k]);
      st' := Relax(graph, to, h, d, st', current, ns[k]);
      k := k + 1;
    }
  }

  /** The chain `reconstruct_path` reads off: it ends at `current`, starts at a node without
      a predecessor, and each node's predecessor is the node before it. */
  ghost predicate Chain(cameFrom: map<nat, nat>, current: nat, path: seq<nat>)
  {
    && |path| > 0 && path[|path| - 1] == current && path[0] !in cameFrom
    && forall k :: 0 < k < |path| ==> path[k] in cameFrom && cameFrom[path[k]] == path[k - 1]
  }

  /** The predecessor links determine the chain: there is at most one. */
  lemma ChainUnique(cameFrom: map<nat, nat>, current: nat, p: seq<nat>, q: seq<nat>)
    requires Chain(cameFrom, current, p) && Chain(cameFrom, current, q)
    ensures p == q
  {
    if |p| < |q| {
      ChainSuffixAgrees(cameFrom, current, p, q, |p| - 1);
      assert false;
    } else if |q| < |p| {
      ChainSuffixAgrees(cameFrom, current, p, q, |q| - 1);
      assert false;
    }
    forall k | 0 <= k < |p| ensures p[k] == q[k] {
      ChainSuffixAgrees(cameFrom, current, p, q, |p| - 1 - k);
    }
  }

  /** Two chains to the same node agree at j places from their ends. */
  lemma {:induction false} ChainSuffixAgrees(cameFrom: map<nat, nat>, current: nat, p: seq<nat>, q: seq<nat>, j: nat)
    requires Chain(cameFrom, current, p) && Chain(cameFrom, current, q)
    requires j < |p| && j < |q|
    ensures p[|p| - 1 - j] == q[|q| - 1 - j]
  {
    if j > 0 {
      ChainSuffixAgrees(cameFrom, current, p, q, j - 1);
      var a, b := |p| - j, |q| - j;
      assert p[a] == q[b];
      assert cameFrom[p[a]] == p[a - 1] && cameFrom[q[b]] == q[b - 1];
    }
  }

  /** A chain never repeats a node: two equal nodes would have equal predecessors all the
      way back to the start, which has none. */
  lemma {:induction false} ChainNoRepeat(cameFrom: map<nat, nat>, current: nat, p: seq<nat>, i: nat, j: nat)
    requires Chain(cameFrom, current, p) && i < j < |p|
    ensures p[i] != p[j]
    decreases i
  {
    if i > 0 {
      ChainNoRepeat(cameFrom, current, p, i - 1, j - 1);
      assert cameFrom[p[i]] == p[i - 1] && cameFrom[p[j]] == p[j - 1];
    }
  }

  /** The nodes a sequence holds. */
  ghost function Members(s: seq<nat>): set<nat> {
    set x | x in s
  }

  /** A duplicate-free sequence has as many members as elements. */
  lemma {:induction false} DistinctCard(s: seq<nat>)
    requires OL.Distinct(s)
    ensures |Members(s)| == |s|
  {
    if s != [] {
      var rest := s[1..];
      assert OL.Distinct(rest) by {
        forall i, j | 0 <= i < j < |rest| ensures rest[i] != rest[j] {
          assert rest[i] == s[i + 1] && rest[j] == s[j + 1];
        }
      }
      DistinctCard(rest);
      var a := Members(rest);
      assert s[0] !in a by {
        forall k | 0 <= k < |rest| ensures rest[k] != s[0] {
          assert rest[k] == s[k + 1];
        }
      }
      assert Members(s) == a + {s[0]} by {
        assert s == [s[0]] + rest;
      }
      assert |a + {s[0]}| == |a| + 1;
    }
  }

  /** A subset is no larger than its superset. */
  lemma SubsetCard(a: set<nat>, b: set<nat>)
    requires a <= b
    ensures |a| <= |b|
  {
    assert b == a + (b - a);
  }

  /** The nodes of a chain after the first are distinct keys of `came_from`. */
  lemma ChainTail(cameFrom: map<nat, nat>, current: nat, p: seq<nat>)
    requires Chain(cameFrom, current, p)
    ensures OL.Distinct(p[1..]) && Members(p[1..]) <= cameFrom.Keys
  {
    var tail := p[1..];
    forall i, j | 0 <= i < j < |tail| ensures tail[i] != tail[j] {
      ChainNoRepeat(cameFrom, current, p, i + 1, j + 1);
    }
    forall x | x in Members(tail) ensures x in cameFrom {
      var k :| 0 <= k < |tail| && tail[k] == x;
      assert p[k + 1] == x;
    }
  }

  /** A chain has at most one node more than `came_from` has entries. */
  lemma ChainShort(cameFrom: map<nat, nat>, current: nat, p: seq<nat>)
    requires Chain(cameFrom, current, p)
    ensures |p| <= |cameFrom| + 1
  {
    ChainTail(cameFrom, current, p);
    DistinctCard(p[1..]);
    SubsetCard(Members(p[1..]), cameFrom.Keys);
  }

  /** Walking back from `current` along a chain: while the node reached so far has a
      predecessor, the chain is longer still and continues with that predecessor. */
  lemma ChainStep(cameFrom: map<nat, nat>, current: nat, chain: seq<nat>, walked: seq<nat>)
    requires Chain(cameFrom, current, chain) && 0 < |walked| <= |chain|
    requires forall k :: 0 <= k < |walked| ==> walked[k] == chain[|chain| - 1 - k]
    requires walked[|walked| - 1] in cameFrom
    ensures |walked| < |chain| && cameFrom[walked[|walked| - 1]] == chain[|chain| - 1 - |walked|]
  {
    assert walked[|walked| - 1] == chain[|chain| - |walked|];
  }

  /** `reconstruct_path`: follows `came_from` from `current` until a node without a
      predecessor, then reverses.  The walk is cut off after as many steps as `came_from` has
      entries, which a chain without repeats never needs. */
  method ReconstructPath(cameFrom: map<nat, nat>, current: nat) returns (r: Option<seq<nat>>)
    ensures current !in cameFrom ==> r == Some([current])
    ensures r.Some? ==> Chain(cameFrom, current, r.value)
    ensures (exists p :: Chain(cameFrom, current, p)) ==> r.Some?
  {
    ghost var chain: seq<nat> := [current];
    ghost var known := exists p :: Chain(cameFrom, current, p);
    if known {
      chain :| Chain(cameFrom, current, chain);
      ChainShort(cameFrom, current, chain);
    }
    var result := [current];
    var cur := current;
    var budget: nat := |cameFrom|;
    while cur in cameFrom
      invariant |result| > 0 && result[0] == current && result[|result| - 1] == cur
      invariant current !in cameFrom ==> result == [current]
      invariant forall k :: 0 <= k < |result| - 1 ==> result[k] in cameFrom && cameFrom[result[k]] == result[k + 1]
      invariant budget + |result| == |cameFrom| + 1
      invariant known ==> |result| <= |chain| && forall k :: 0 <= k < |result| ==> result[k] == chain[|chain| - 1 - k]
      decreases budget
    {
      if known {
        ChainStep(cameFrom, current, chain, result);
      }
      if budget == 0 {
        return None;
      }
      cur := cameFrom[cur];
      result := result + [cur];
      budget := budget - 1;
    }
    var path := Pack.Reverse(result);
    assert current !in cameFrom ==> path == [current] by {
      if current !in cameFrom {
        assert |path| == 1 && path[0] == result[0];
      }
    }
    forall k | 0 < k < |path| ensures path[k] in cameFrom && cameFrom[path[k]] == path[k - 1] {
      assert path[k] == result[|result| - 1 - k] && path[k - 1] == result[|result| - k];
    }
    r := Some(path);
  }

  /** A path read off the predecessor links of a node that is the start or has a predecessor
      starts at the start and walks the graph's edges. */
  lemma ReconstructedIsPath(graph: IG.Graph, from: nat, st: State, to: nat, path: seq<nat>)
    requires Inv(graph, from, st) && to < |graph.nodes| && (to == from || to in st.cameFrom)
    requires Chain(st.cameFrom, to, path)
    ensures IsPath(graph, from, to, path)
  {
    forall k | 0 <= k < |path| - 1 ensures path[k] < |graph.nodes| && path[k + 1] in graph.nodes[path[k]].neighbours {
      assert Link(graph, from, st.cameFrom, path[k + 1]);
    }
    if |path| > 1 {
      assert Link(graph, from, st.cameFrom, path[1]);
    }
  }

  /** The main loop of `A_star` from state `st`: no path once the open set is empty;
      otherwise the first open node is extracted, and if it is the goal the result is the
      chain of predecessors back from it, else its neighbours are relaxed and the loop goes
      on.  `fuel` bounds the iterations. */
  method MainLoop(graph: IG.Graph, from: nat, to: nat, h: (IG.Node, IG.Node) -> nat, d: (IG.Node, IG.Node) -> nat,
                st: State, fuel: nat) returns (r: Outcome)
    requires Inv(graph, from, st) && to < |graph.nodes|
    ensures r.Found? ==> IsPath(graph, from, to, r.path)
    ensures st.open == [] ==> r == NoPath
    ensures st.open != [] && st.open[0] == to && fuel > 0 ==>
      !r.NoPath? && (r.Found? ==> Chain(st.cameFrom, to, r.path))
    ensures st.open != [] && st.open[0] == to && fuel > 0 && r.OutOfFuel? ==>
      forall p :: !Chain(st.cameFrom, to, p)
    ensures st.open != [] && st.open[0] == to && fuel > 0 && to !in st.cameFrom ==> r == Found([to])
    decreases fuel
  {
    if st.open == [] {
      return NoPath;
    }
    if fuel == 0 {
      return OutOfFuel;
    }
    var current := st.open[0];
    var st1 := st.(open := st.open[1..]);
    if current == to {
      var path := ReconstructPath(st1.cameFrom, current);
      if path.None? {
        return OutOfFuel;
      }
      ReconstructedIsPath(graph, from, st1, to, path.value);
      return Found(path.value);
    }
    var st2 := RelaxAll(graph, from, to, h, d, st1, current);
    r := MainLoop(graph, from, to, h, d, st2, fuel - 1);
  }

  /** `A_star`: the search from the initial state.  A returned path is a walk between the two
      nodes along the graph's edges, and a search from a node to itself returns that node. */
  method AStar(graph: IG.Graph, from: nat, to: nat, h: (IG.Node, IG.Node) -> nat, d: (IG.Node, IG.Node) -> nat,
               fuel: nat) returns (r: Outcome)
    requires IG.Closed(graph) && from < |graph.nodes| && to < |graph.nodes|
    ensures r.Found? ==> IsPath(graph, from, to, r.path)
    ensures from == to && fuel > 0 ==> r == Found([from])
  {
    var st := Init(graph, from, to, h);
    r := MainLoop(graph, from, to, h, d, st, fuel);
  }
}
