/** The persistent list algebra `meta::pack<Ts...>` (metaprogram/pack/pack.hpp and
    metaprogram/pack/pack_helpers.hpp).  A pack of types is a sequence of values, two
    types are the same type when the values are equal, `null_type` is `None`, and a
    template predicate `Pred<T>::value` is a function value `T -> bool`. */
module Pack {
  import opened Wrappers
  import opened SizeT
  import MetaFunctional

  predicate NoDup<T(==)>(s: seq<T>) {
    forall i, j :: 0 <= i < j < |s| ==> s[i] != s[j]
  }

  // ---------------------------------------------------------------------------
  // splitter: head / tail
  // ---------------------------------------------------------------------------

  /** `splitter<Pack, Ts...>::head`: the first type, `null_type` for the empty pack. */
  function Head<T>(s: seq<T>): (h: Option<T>)
    ensures h.None? <==> |s| == 0
  {
    if |s| == 0 then None else Some(s[0])
  }

  /** `splitter<Pack, Ts...>::tail`: everything after the head; empty for the empty pack. */
  function Tail<T>(s: seq<T>): (t: seq<T>)
    ensures |s| == 0 ==> t == []
    ensures |s| > 0 ==> |t| == |s| - 1
  {
    if |s| == 0 then [] else s[1..]
  }

  /** Splitting a non-empty pack and prepending the head to the tail gives it back. */
  lemma SplitReconstructs<T>(s: seq<T>)
    requires |s| > 0
    ensures Head(s) == Some(s[0])
    ensures [Head(s).value] + Tail(s) == s
    ensures forall i :: 0 <= i < |Tail(s)| ==> Tail(s)[i] == s[i + 1]
  {
  }

  // ---------------------------------------------------------------------------
  // concatenation and mapping
  // ---------------------------------------------------------------------------

  /** A pack that starts with `a` is `a` followed by the rest. */
  lemma PrefixSplit<T>(s: seq<T>, a: seq<T>)
    requires |a| <= |s| && s[..|a|] == a
    ensures s == a + s[|a|..]
  {
  }

  /** Appending behind a pack that starts with `a` keeps `a` in front. */
  lemma PrefixKept<T>(s: seq<T>, a: seq<T>, b: seq<T>, t: seq<T>)
    requires s == a + b
    ensures |a| <= |s + t| && (s + t)[..|a|] == a
  {
    assert s + t == a + (b + t);
  }

  /** `append<Xs...>` and `append_pack<Pack>` (which expands the pack into `append`). */
  function Append<T>(s: seq<T>, xs: seq<T>): (r: seq<T>)
    ensures |r| == |s| + |xs|
    ensures r[..|s|] == s && r[|s|..] == xs
  {
    s + xs
  }

  /** `prepend<Xs...>` and `prepend_pack<Pack>`. */
  function Prepend<T>(s: seq<T>, xs: seq<T>): (r: seq<T>)
    ensures |r| == |xs| + |s|
    ensures r[..|xs|] == xs && r[|xs|..] == s
  {
    xs + s
  }

  /** `expand_outside<P>`: wrap every element, keeping length and order. */
  function ExpandOutside<T, U>(s: seq<T>, f: T -> U): (r: seq<U>)
    ensures |r| == |s|
    ensures forall i :: 0 <= i < |s| ==> r[i] == f(s[i])
  {
    if |s| == 0 then [] else [f(s[0])] + ExpandOutside(s[1..], f)
  }

  // ---------------------------------------------------------------------------
  // membership
  // ---------------------------------------------------------------------------

  /** `contains<T>`: false on the empty pack, otherwise a head test and a recursive call. */
  function Contains<T(==)>(s: seq<T>, x: T): (r: bool)
    ensures r <==> x in s
  {
    if |s| == 0 then false
    else if s[0] == x then true
    else Contains(s[1..], x)
  }

  /** `contains_any<Pack>`, recursing as the evident intent (see ContainsAnyAsWritten). */
  function ContainsAny<T(==)>(s: seq<T>, p: seq<T>): (r: bool)
    ensures r <==> exists i :: 0 <= i < |p| && p[i] in s
    ensures |s| == 0 || |p| == 0 ==> !r
  {
    if |s| == 0 || |p| == 0 then false
    else if Contains(s, p[0]) then true
    else ContainsAny(s, p[1..])
  }

  /** `contains_all<Pack>`, recursing as the evident intent (see ContainsAllAsWritten). */
  function ContainsAll<T(==)>(s: seq<T>, p: seq<T>): (r: bool)
    ensures r <==> forall i :: 0 <= i < |p| ==> p[i] in s
    ensures |p| == 0 ==> r
  {
    if |p| == 0 then true
    else if !Contains(s, p[0]) then false
    else ContainsAll(s, p[1..])
  }

  /** `contains_any_impl` as written: its recursive step calls the variable template
      `contains_any<tail>()` as if it were a function, which does not compile once that
      step is instantiated.  `None` stands for that ill-formed instantiation. */
  function ContainsAnyAsWritten<T(==)>(s: seq<T>, p: seq<T>): (r: Option<bool>)
    ensures r.None? <==> |s| > 0 && |p| > 0 && p[0] !in s
    ensures r.Some? ==> r.value == ContainsAny(s, p)
  {
    if |s| == 0 || |p| == 0 then Some(false)
    else if Contains(s, p[0]) then Some(true)
    else None
  }

  /** `contains_all_impl` as written: the same ill-formed recursive call. */
  function ContainsAllAsWritten<T(==)>(s: seq<T>, p: seq<T>): (r: Option<bool>)
    ensures r.None? <==> |p| > 0 && p[0] in s
    ensures r.Some? ==> r.value == ContainsAll(s, p)
  {
    if |p| == 0 then Some(true)
    else if !Contains(s, p[0]) then Some(false)
    else None
  }

  /** Inputs on which the written recursion is reached although the answer is defined. */
  lemma ContainsRecursionIllFormed()
    ensures ContainsAny([0], [1, 0]) && ContainsAnyAsWritten([0], [1, 0]) == None
    ensures ContainsAll([0, 1], [0, 1]) && ContainsAllAsWritten([0, 1], [0, 1]) == None
  {
  }

  // ---------------------------------------------------------------------------
  // positional access
  // ---------------------------------------------------------------------------

  /** `pop_front<N>`: drop N elements from the front; empty once N reaches the size. */
  function PopFront<T>(s: seq<T>, n: nat): (r: seq<T>)
    ensures n >= |s| ==> r == []
    ensures n < |s| ==> r == s[n..]
  {
    if n >= |s| then []
    else if n == 0 then s
    else PopFront(Tail(s), n - 1)
  }

  /** `pop_back<N>`: drop N elements from the back; empty once N reaches the size. */
  function PopBack<T>(s: seq<T>, n: nat): (r: seq<T>)
    ensures n >= |s| ==> r == []
    ensures n < |s| ==> r == s[..|s| - n]
  {
    if n >= |s| then []
    else if n == 0 then s
    else Append([s[0]], PopBack(Tail(s), n))
  }

  /** `get<N>`: the head of `pop_front<N>`. */
  function Get<T>(s: seq<T>, n: nat): (r: Option<T>)
    ensures n < |s| ==> r == Some(s[n])
    ensures n >= |s| ==> r == None
  {
    Head(PopFront(s, n))
  }

  /** `last`: `get<size - 1>`, or `get<0>` of the empty pack. */
  function Last<T>(s: seq<T>): (r: Option<T>)
    ensures |s| == 0 ==> r == None
    ensures |s| > 0 ==> r == Some(s[|s| - 1])
  {
    Get(s, if |s| == 0 then 0 else |s| - 1)
  }

  /** `remove_at<N>` as written: `pop_back<size - N>` joined with `pop_front<N + 1>`, both
      counts computed in `size_t`. */
  function RemoveAtAsWritten<T>(s: seq<T>, n: Size): (r: seq<T>)
    requires |s| < SIZE_MOD
    ensures |s| < SIZE_MAX ==> exists k, j :: 0 <= k <= j <= |s| && r == s[..k] + s[j..]
  {
    var m, q := Sub(|s|, n), Add(n, 1);
    var k := if m < |s| then |s| - m else 0;
    var j := if q < |s| then q else |s|;
    assert PopBack(s, m) == s[..k] && PopFront(s, q) == s[j..];
    assert |s| < SIZE_MAX ==> k <= j;
    PopBack(s, m) + PopFront(s, q)
  }

  /** The element at N is removed when N < size, nothing at N == size, but for
      size < N < SIZE_MAX the subtraction wraps and the whole pack disappears. */
  lemma RemoveAtAsWrittenCases<T>(s: seq<T>, n: Size)
    requires |s| < SIZE_MOD
    ensures n < |s| ==> RemoveAtAsWritten(s, n) == s[..n] + s[n + 1..]
    ensures n == |s| < SIZE_MAX ==> RemoveAtAsWritten(s, n) == s
    ensures |s| < n < SIZE_MAX ==> RemoveAtAsWritten(s, n) == []
  {
  }

  /** The smallest input on which the comment "no elements are removed" fails. */
  lemma RemoveAtPastEndEmpties()
    ensures RemoveAtAsWritten([7], 2) == []
  {
    RemoveAtAsWrittenCases([7], 2);
  }

  /** `remove_at<N>` as documented: the subtraction saturates at zero, so an index past
      the end removes nothing. */
  function RemoveAt<T>(s: seq<T>, n: nat): (r: seq<T>)
    ensures n < |s| ==> r == s[..n] + s[n + 1..]
    ensures n >= |s| ==> r == s
  {
    PopBack(s, if n <= |s| then |s| - n else 0) + PopFront(s, n + 1)
  }

  // ---------------------------------------------------------------------------
  // filtering and removal
  // ---------------------------------------------------------------------------

  /** `filter<Pred>`: the elements for which Pred holds, in order. */
  function Filter<T>(s: seq<T>, p: T -> bool): (r: seq<T>)
    ensures |r| <= |s|
    ensures forall i :: 0 <= i < |r| ==> p(r[i])
    ensures forall i :: 0 <= i < |r| ==> r[i] in s
  {
    if |s| == 0 then []
    else Append(if p(s[0]) then [s[0]] else [], Filter(Tail(s), p))
  }

  /** Filtering distributes over concatenation: the kept elements keep their order. */
  lemma {:induction false} FilterConcat<T>(a: seq<T>, b: seq<T>, p: T -> bool)
    ensures Filter(a + b, p) == Filter(a, p) + Filter(b, p)
  {
    if |a| > 0 {
      assert (a + b)[0] == a[0] && (a + b)[1..] == a[1..] + b;
      FilterStep(a + b, p);
      FilterStep(a, p);
      FilterConcat(a[1..], b, p);
    } else {
      assert a + b == b;
    }
  }

  /** One step of `filter_impl`: the head if it passes, then the filtered tail. */
  lemma FilterStep<T>(s: seq<T>, p: T -> bool)
    requires |s| > 0
    ensures p(s[0]) ==> Filter(s, p) == [s[0]] + Filter(s[1..], p)
    ensures !p(s[0]) ==> Filter(s, p) == Filter(s[1..], p)
  {
    assert [] + Filter(s[1..], p) == Filter(s[1..], p);
  }

  /** An element of the pack satisfying Pred is kept. */
  lemma {:induction false} FilterKeeps<T>(s: seq<T>, p: T -> bool, x: T)
    requires x in s && p(x)
    ensures x in Filter(s, p)
  {
    if s[0] != x {
      FilterKeeps(Tail(s), p, x);
    }
  }

  /** With an always-true predicate, filter is the identity. */
  lemma {:induction false} FilterAllTrue<T>(s: seq<T>, p: T -> bool)
    requires forall i :: 0 <= i < |s| ==> p(s[i])
    ensures Filter(s, p) == s
  {
    if |s| > 0 {
      FilterAllTrue(Tail(s), p);
    }
  }

  /** `remove_if<Pred>`: drops the elements for which Pred holds. */
  function RemoveIf<T>(s: seq<T>, p: T -> bool): (r: seq<T>)
    ensures |r| <= |s|
    ensures forall i :: 0 <= i < |r| ==> !p(r[i])
  {
    if |s| == 0 then []
    else if p(s[0]) then RemoveIf(Tail(s), p)
    else Append([s[0]], RemoveIf(Tail(s), p))
  }

  /** `remove_if<Pred>` is `filter` with the inverted predicate. */
  lemma {:induction false} RemoveIfIsFilterInvert<T(!new)>(s: seq<T>, p: T -> bool)
    ensures RemoveIf(s, p) == Filter(s, MetaFunctional.Invert(p))
  {
    if |s| > 0 {
      RemoveIfIsFilterInvert(Tail(s), p);
    }
  }

  /** `filter<Pred>` and `remove_if<Pred>` split a pack: together they hold every element
      exactly as often as the pack does. */
  lemma {:induction false} FilterRemoveIfPartition<T>(s: seq<T>, p: T -> bool)
    ensures multiset(Filter(s, p)) + multiset(RemoveIf(s, p)) == multiset(s)
  {
    if |s| > 0 {
      FilterRemoveIfPartition(s[1..], p);
      PartitionStep(s, p);
    }
  }

  lemma PartitionStep<T>(s: seq<T>, p: T -> bool)
    requires |s| > 0
    requires multiset(Filter(s[1..], p)) + multiset(RemoveIf(s[1..], p)) == multiset(s[1..])
    ensures multiset(Filter(s, p)) + multiset(RemoveIf(s, p)) == multiset(s)
  {
    FilterStep(s, p);
    RemoveIfStep(s, p);
    ConsSplit(s, Filter(s[1..], p), RemoveIf(s[1..], p), Filter(s, p), RemoveIf(s, p));
  }

  /** Placing the head in either part of a split of the tail splits the whole. */
  lemma ConsSplit<T>(s: seq<T>, f: seq<T>, r: seq<T>, f': seq<T>, r': seq<T>)
    requires |s| > 0 && multiset(f) + multiset(r) == multiset(s[1..])
    requires (f' == [s[0]] + f && r' == r) || (f' == f && r' == [s[0]] + r)
    ensures multiset(f') + multiset(r') == multiset(s)
  {
    assert s == [s[0]] + s[1..];
    MultisetCons(s[0], f, r, s[1..]);
  }

  /** Adding one element to either part of a split adds it to the whole. */
  lemma MultisetCons<T>(x: T, f: seq<T>, r: seq<T>, t: seq<T>)
    requires multiset(f) + multiset(r) == multiset(t)
    ensures multiset([x] + f) + multiset(r) == multiset([x] + t)
    ensures multiset(f) + multiset([x] + r) == multiset([x] + t)
  {
  }

  /** One step of `remove_if_impl`: the head unless it matches, then the rest. */
  lemma RemoveIfStep<T>(s: seq<T>, p: T -> bool)
    requires |s| > 0
    ensures p(s[0]) ==> RemoveIf(s, p) == RemoveIf(s[1..], p)
    ensures !p(s[0]) ==> RemoveIf(s, p) == [s[0]] + RemoveIf(s[1..], p)
  {
  }

  /** Removal distributes over concatenation. */
  lemma {:induction false} RemoveIfConcat<T>(a: seq<T>, b: seq<T>, p: T -> bool)
    ensures RemoveIf(a + b, p) == RemoveIf(a, p) + RemoveIf(b, p)
  {
    if |a| > 0 {
      assert Tail(a + b) == Tail(a) + b;
      RemoveIfConcat(Tail(a), b, p);
    } else {
      assert a + b == b;
    }
  }

  /** Nothing matching, nothing removed. */
  lemma {:induction false} RemoveIfNoneMatch<T>(s: seq<T>, p: T -> bool)
    requires forall i :: 0 <= i < |s| ==> !p(s[i])
    ensures RemoveIf(s, p) == s
  {
    if |s| > 0 {
      RemoveIfNoneMatch(Tail(s), p);
    }
  }

  /** Everything matching, everything removed. */
  lemma {:induction false} RemoveIfAllMatch<T>(s: seq<T>, p: T -> bool)
    requires forall i :: 0 <= i < |s| ==> p(s[i])
    ensures RemoveIf(s, p) == []
  {
    if |s| > 0 {
      RemoveIfAllMatch(Tail(s), p);
    }
  }

  /** `tf_filter_binder<Pred, TF>::type<T>`: Pred applied to the transformed element. */
  function TfBinder<T, U>(p: U -> bool, tf: T -> U): (q: T -> bool)
  {
    x => p(tf(x))
  }

  /** `tf_filter<TF, Pred>`: filter on `Pred<TF<T>>`, keeping the untransformed elements. */
  function TfFilter<T, U>(s: seq<T>, tf: T -> U, p: U -> bool): (r: seq<T>)
    ensures forall i :: 0 <= i < |r| ==> p(tf(r[i])) && r[i] in s
  {
    Filter(s, TfBinder(p, tf))
  }

  /** When Pred holds on every transformed element, `tf_filter` keeps the whole pack. */
  lemma TfFilterKeepsAll<T, U>(s: seq<T>, tf: T -> U, p: U -> bool)
    requires forall i :: 0 <= i < |s| ==> p(tf(s[i]))
    ensures TfFilter(s, tf, p) == s
  {
    FilterAllTrue(s, TfBinder(p, tf));
  }

  /** `remove_type<T>`: `filter` with the inverted "same type as T" predicate. */
  function RemoveType<T(==,!new)>(s: seq<T>, x: T): (r: seq<T>)
    ensures x !in r
    ensures forall y :: y in r ==> y in s
  {
    Filter(s, MetaFunctional.Invert(y => y == x))
  }

  /** `remove_type<T>` removes every occurrence of T and nothing else. */
  lemma {:induction false} RemoveTypeCounts<T(!new)>(s: seq<T>, x: T)
    ensures multiset(RemoveType(s, x)) == multiset(s)[x := 0]
  {
    if |s| > 0 {
      RemoveTypeCounts(Tail(s), x);
      var q := MetaFunctional.Invert(y => y == x);
      FilterStep(s, q);
      DropCounts(s, x, RemoveType(Tail(s), x), RemoveType(s, x));
    }
  }

  /** Dropping or keeping the head, according to whether it is x, extends a removal of
      x from the tail to a removal of x from the whole. */
  lemma DropCounts<T>(s: seq<T>, x: T, r: seq<T>, r': seq<T>)
    requires |s| > 0 && multiset(r) == multiset(s[1..])[x := 0]
    requires s[0] == x ==> r' == r
    requires s[0] != x ==> r' == [s[0]] + r
    ensures multiset(r') == multiset(s)[x := 0]
  {
    assert s == [s[0]] + s[1..];
    assert multiset(s) == multiset{s[0]} + multiset(s[1..]);
  }

  /** After `remove_type<T>` exactly the other members are left. */
  lemma RemoveTypeMembers<T(!new)>(s: seq<T>, x: T)
    ensures forall y :: y in RemoveType(s, x) <==> y in s && y != x
  {
    RemoveTypeCounts(s, x);
    forall y | y in s && y != x
      ensures y in RemoveType(s, x)
    {
      assert multiset(RemoveType(s, x))[y] == multiset(s)[y];
    }
  }

  /** `remove_first_type<T>`: only the earliest occurrence is removed; the identity when
      T is absent. */
  function RemoveFirst<T(==)>(s: seq<T>, x: T): (r: seq<T>)
    ensures x !in s ==> r == s
    ensures x in s ==> |r| == |s| - 1 && multiset(r) == multiset(s) - multiset{x}
  {
    if |s| == 0 then s
    else
      assert s == [s[0]] + Tail(s);
      if s[0] == x then Tail(s)
      else Append([s[0]], RemoveFirst(Tail(s), x))
  }

  /** The element removed by `remove_first_type<T>` is the one at T's first index. */
  lemma {:induction false} RemoveFirstAtFirstIndex<T>(s: seq<T>, x: T, i: nat)
    requires i < |s| && s[i] == x && x !in s[..i]
    ensures RemoveFirst(s, x) == s[..i] + s[i + 1..]
  {
    if i == 0 {
      assert s[..0] + s[1..] == s[1..];
    } else {
      assert s[0] != x by { assert s[0] == s[..i][0]; }
      var t := Tail(s);
      assert t[..i - 1] == s[1..i];
      RemoveFirstAtFirstIndex(t, x, i - 1);
      assert RemoveFirst(s, x) == [s[0]] + (t[..i - 1] + t[i..]);
      SplitAround(s, i);
    }
  }

  lemma SplitAround<T>(s: seq<T>, i: nat)
    requires 0 < i < |s|
    ensures [s[0]] + (s[1..][..i - 1] + s[1..][i..]) == s[..i] + s[i + 1..]
  {
    assert [s[0]] + s[1..][..i - 1] == s[..i];
    assert s[1..][i..] == s[i + 1..];
  }

  /** `find<Pred>`: the head of `filter<Pred>`, so the first match or `null_type`. */
  function Find<T>(s: seq<T>, p: T -> bool): (r: Option<T>)
    ensures r.None? <==> forall i :: 0 <= i < |s| ==> !p(s[i])
    ensures r.Some? ==> exists i :: 0 <= i < |s| && s[i] == r.value && p(s[i])
                                    && forall j :: 0 <= j < i ==> !p(s[j])
  {
    FilterHead(s, p);
    Head(Filter(s, p))
  }

  /** The filtered pack is empty exactly when nothing matches, and otherwise starts with
      the earliest match. */
  lemma {:induction false} FilterHead<T>(s: seq<T>, p: T -> bool)
    ensures |Filter(s, p)| == 0 <==> forall i :: 0 <= i < |s| ==> !p(s[i])
    ensures |Filter(s, p)| > 0 ==>
      exists i :: 0 <= i < |s| && s[i] == Filter(s, p)[0] && p(s[i])
                  && forall j :: 0 <= j < i ==> !p(s[j])
  {
    if |s| > 0 {
      FilterHead(Tail(s), p);
      if !p(s[0]) && |Filter(Tail(s), p)| > 0 {
        var i :| 0 <= i < |Tail(s)| && Tail(s)[i] == Filter(Tail(s), p)[0] && p(Tail(s)[i])
                 && forall j :: 0 <= j < i ==> !p(Tail(s)[j]);
        assert s[i + 1] == Filter(s, p)[0];
        NoMatchBefore(s, Tail(s), p, i + 1);
      }
      if !p(s[0]) && |Filter(Tail(s), p)| == 0 {
        NoMatchBefore(s, Tail(s), p, |s|);
      }
    }
  }

  /** A non-matching head followed by a tail without a match before k - 1 has no match
      before k. */
  lemma NoMatchBefore<T>(s: seq<T>, t: seq<T>, p: T -> bool, k: nat)
    requires 0 < k <= |s| && t == s[1..] && !p(s[0])
    requires forall j :: 0 <= j < k - 1 ==> !p(t[j])
    ensures forall j :: 0 <= j < k ==> !p(s[j])
  {
    forall j | 0 <= j < k
      ensures !p(s[j])
    {
      if j > 0 {
        assert s[j] == t[j - 1];
      }
    }
  }

  /** A match in the front part hides every later one; without one the search goes on
      into the back part. */
  lemma FindConcat<T>(a: seq<T>, b: seq<T>, p: T -> bool)
    ensures Find(a + b, p) == if Find(a, p).Some? then Find(a, p) else Find(b, p)
  {
    FilterConcat(a, b, p);
  }

  // ---------------------------------------------------------------------------
  // folds
  // ---------------------------------------------------------------------------

  /** `left_fold<Pred>`: `null_type` on empty, the element on a singleton, otherwise
      `Pred<left_fold of pop_back<1>, last>`. */
  function LeftFold<T>(s: seq<T>, op: (T, T) -> T): (r: Option<T>)
    ensures r.Some? <==> |s| > 0
    ensures |s| == 1 ==> r == Some(s[0])
    decreases |s|
  {
    if |s| == 0 then None
    else if |s| == 1 then Head(s)
    else Some(op(LeftFold(PopBack(s, 1), op).value, Last(s).value))
  }

  /** The accumulator form of a left fold: `op(op(op(acc, t0), t1), ...)`. */
  function FoldFrom<T>(acc: T, t: seq<T>, op: (T, T) -> T): T
    decreases |t|
  {
    if |t| == 0 then acc else FoldFrom(op(acc, t[0]), t[1..], op)
  }

  lemma {:induction false} FoldFromSnoc<T>(acc: T, t: seq<T>, y: T, op: (T, T) -> T)
    ensures FoldFrom(acc, t + [y], op) == op(FoldFrom(acc, t, op), y)
    decreases |t|
  {
    if |t| > 0 {
      assert (t + [y])[1..] == t[1..] + [y];
      FoldFromSnoc(op(acc, t[0]), t[1..], y, op);
    }
  }

  /** `left_fold` is `Pred(Pred(Pred(T0, T1), T2), ...)`. */
  lemma {:induction false} LeftFoldAccumulates<T>(s: seq<T>, op: (T, T) -> T)
    requires |s| > 0
    ensures LeftFold(s, op) == Some(FoldFrom(s[0], s[1..], op))
    decreases |s|
  {
    if |s| > 1 {
      var init := s[..|s| - 1];
      LeftFoldAccumulates(init, op);
      assert init[1..] + [s[|s| - 1]] == s[1..];
      FoldFromSnoc(s[0], init[1..], s[|s| - 1], op);
    }
  }

  /** `right_fold<Pred>`: `null_type` on empty, the element on a singleton, otherwise
      `Pred<head, right_fold of tail>`. */
  function RightFold<T>(s: seq<T>, op: (T, T) -> T): (r: Option<T>)
    ensures r.Some? <==> |s| > 0
    ensures |s| == 1 ==> r == Some(s[0])
    ensures |s| > 1 ==> r == Some(op(s[0], RightFold(s[1..], op).value))
  {
    if |s| == 0 then None
    else if |s| == 1 then Head(s)
    else Some(op(Head(s).value, RightFold(Tail(s), op).value))
  }

  ghost predicate Associative<T(!new)>(op: (T, T) -> T) {
    forall a, b, c :: op(op(a, b), c) == op(a, op(b, c))
  }

  lemma {:induction false} FoldFromShift<T(!new)>(a: T, b: T, t: seq<T>, op: (T, T) -> T)
    requires Associative(op)
    ensures FoldFrom(op(a, b), t, op) == op(a, FoldFrom(b, t, op))
    decreases |t|
  {
    if |t| > 0 {
      assert op(op(a, b), t[0]) == op(a, op(b, t[0]));
      FoldFromShift(a, op(b, t[0]), t[1..], op);
    }
  }

  /** For an associative operator the two folds agree. */
  lemma {:induction false} FoldsAgreeWhenAssociative<T(!new)>(s: seq<T>, op: (T, T) -> T)
    requires Associative(op)
    ensures LeftFold(s, op) == RightFold(s, op)
    decreases |s|
  {
    if |s| > 1 {
      FoldsAgreeWhenAssociative(s[1..], op);
      LeftFoldAccumulates(s, op);
      LeftFoldAccumulates(s[1..], op);
      assert s[1..][1..] == s[2..];
      FoldFromShift(s[0], s[1], s[2..], op);
    }
  }

  // ---------------------------------------------------------------------------
  // flatten
  // ---------------------------------------------------------------------------

  /** An element of a pack that may itself be a pack (one with a `pack_tag`). */
  datatype Item<T> = Leaf(value: T) | Nested(items: seq<Item<T>>)

  /** `flatten`: nested packs are replaced, recursively, by their elements. */
  function Flatten<T>(xs: seq<Item<T>>): (r: seq<Item<T>>)
    ensures forall i :: 0 <= i < |r| ==> r[i].Leaf?
  {
    if |xs| == 0 then []
    else match xs[0]
      case Nested(c) => Append(Flatten(c), Flatten(xs[1..]))
      case Leaf(_) => Append([xs[0]], Flatten(xs[1..]))
  }

  /** Flattening distributes over concatenation, so leaves keep their order. */
  lemma {:induction false} FlattenConcat<T>(a: seq<Item<T>>, b: seq<Item<T>>)
    ensures Flatten(a + b) == Flatten(a) + Flatten(b)
    decreases |a|
  {
    if |a| > 0 {
      var ab := a + b;
      assert ab[0] == a[0];
      assert ab[1..] == a[1..] + b;
      FlattenConcat(a[1..], b);
      var front := if a[0].Nested? then Flatten(a[0].items) else [a[0]];
      assert Flatten(a) == front + Flatten(a[1..]);
      assert Flatten(ab) == front + Flatten(a[1..] + b);
      ItemsAssoc(front, Flatten(a[1..]), Flatten(b));
    } else {
      assert a + b == b;
    }
  }

  lemma ItemsAssoc<T>(a: seq<Item<T>>, b: seq<Item<T>>, c: seq<Item<T>>)
    ensures a + (b + c) == a + b + c
  {
  }

  /** A pack without nested packs is its own flattening, so flatten is idempotent. */
  lemma {:induction false} FlattenFlat<T>(xs: seq<Item<T>>)
    requires forall i :: 0 <= i < |xs| ==> xs[i].Leaf?
    ensures Flatten(xs) == xs
  {
    if |xs| > 0 {
      FlattenFlat(xs[1..]);
    }
  }

  lemma FlattenIdempotent<T>(xs: seq<Item<T>>)
    ensures Flatten(Flatten(xs)) == Flatten(xs)
  {
    FlattenFlat(Flatten(xs));
  }

  // ---------------------------------------------------------------------------
  // sort
  // ---------------------------------------------------------------------------

  /** A comparator in the sense of `sort<Pred>`: it returns one of its two arguments. */
  ghost predicate Picks<T(!new)>(op: (T, T) -> T) {
    forall a, b :: op(a, b) == a || op(a, b) == b
  }

  lemma {:induction false} LeftFoldPicks<T(!new)>(s: seq<T>, op: (T, T) -> T)
    requires Picks(op) && |s| > 0
    ensures LeftFold(s, op).value in s
    decreases |s|
  {
    if |s| > 1 {
      LeftFoldPicks(s[..|s| - 1], op);
      var a := LeftFold(s[..|s| - 1], op).value;
      assert op(a, s[|s| - 1]) == a || op(a, s[|s| - 1]) == s[|s| - 1];
    }
  }

  /** `sort<Pred>`: the `left_fold<Pred>` of the pack first, then the sort of the pack
      with that element's first occurrence removed. */
  function Sort<T(==,!new)>(s: seq<T>, op: (T, T) -> T): (r: seq<T>)
    requires Picks(op)
    ensures multiset(r) == multiset(s)
    ensures |r| == |s|
    decreases |s|
  {
    if |s| < 2 then s
    else
      LeftFoldPicks(s, op);
      var m := LeftFold(s, op).value;
      Append([m], Sort(RemoveFirst(s, m), op))
  }

  /** One `compare_by<Key>` step: the first argument only on a strictly smaller key. */
  lemma CompareByStep<T(!new)>(key: T -> nat, a: T, y: T)
    ensures key(a) < key(y) ==> MetaFunctional.CompareBy(key)(a, y) == a
    ensures key(a) >= key(y) ==> MetaFunctional.CompareBy(key)(a, y) == y
  {
  }

  /** A left fold with `compare_by<Key>` yields an element of minimal key. */
  lemma {:induction false} LeftFoldCompareByIsMin<T(!new)>(s: seq<T>, key: T -> nat)
    requires |s| > 0
    ensures forall i :: 0 <= i < |s| ==> key(LeftFold(s, MetaFunctional.CompareBy(key)).value) <= key(s[i])
    decreases |s|
  {
    if |s| > 1 {
      var cmp := MetaFunctional.CompareBy(key);
      var init := s[..|s| - 1];
      LeftFoldCompareByIsMin(init, key);
      var a := LeftFold(init, cmp).value;
      assert LeftFold(s, cmp).value == cmp(a, s[|s| - 1]);
      assert forall i :: 0 <= i < |s| - 1 ==> s[i] == init[i];
    }
  }

  /** Of the elements of minimal key, the fold keeps the last one: every element after
      the chosen position has a strictly larger key, since ties go to the second argument. */
  lemma {:induction false} LeftFoldCompareByIsLast<T(!new)>(s: seq<T>, key: T -> nat)
    requires |s| > 0
    ensures exists j :: 0 <= j < |s| && s[j] == LeftFold(s, MetaFunctional.CompareBy(key)).value
                        && forall i :: j < i < |s| ==> key(s[j]) < key(s[i])
    decreases |s|
  {
    var cmp := MetaFunctional.CompareBy(key);
    if |s| == 1 {
      assert s[0] == LeftFold(s, cmp).value;
    } else {
      var init := s[..|s| - 1];
      var y := s[|s| - 1];
      LeftFoldCompareByIsLast(init, key);
      var a := LeftFold(init, cmp).value;
      assert LeftFold(s, cmp).value == cmp(a, y);
      CompareByStep(key, a, y);
      if key(a) < key(y) {
        var j :| 0 <= j < |init| && init[j] == a && forall i :: j < i < |init| ==> key(init[j]) < key(init[i]);
        assert s[j] == a;
        forall i | j < i < |s|
          ensures key(s[j]) < key(s[i])
        {
          if i < |s| - 1 {
            assert s[i] == init[i];
          }
        }
        assert s[j] == LeftFold(s, cmp).value;
      } else {
        var j := |s| - 1;
        assert s[j] == LeftFold(s, cmp).value;
      }
    }
  }

  ghost predicate SortedBy<T>(s: seq<T>, key: T -> nat) {
    forall i, j :: 0 <= i < j < |s| ==> key(s[i]) <= key(s[j])
  }

  /** Sorting with `compare_by<Key>` orders the pack by key. */
  lemma {:induction false} SortCompareBySorted<T(!new)>(s: seq<T>, key: T -> nat)
    ensures SortedBy(Sort(s, MetaFunctional.CompareBy(key)), key)
    decreases |s|
  {
    var cmp := MetaFunctional.CompareBy(key);
    if |s| >= 2 {
      LeftFoldCompareByIsMin(s, key);
      LeftFoldPicks(s, cmp);
      var m := LeftFold(s, cmp).value;
      var rest := RemoveFirst(s, m);
      SortCompareBySorted(rest, key);
      var t := Sort(rest, cmp);
      assert Sort(s, cmp) == [m] + t;
      forall y | y in t
        ensures key(m) <= key(y)
      {
        assert y in multiset(t);
        assert y in multiset(s);
        var k :| 0 <= k < |s| && s[k] == y;
      }
      SortedCons(m, t, key);
    }
  }

  /** A sorted pack stays sorted under a head whose key is no larger than any of its. */
  lemma SortedCons<T>(m: T, t: seq<T>, key: T -> nat)
    requires SortedBy(t, key)
    requires forall y :: y in t ==> key(m) <= key(y)
    ensures SortedBy([m] + t, key)
  {
    var r := [m] + t;
    forall i, j | 0 <= i < j < |r|
      ensures key(r[i]) <= key(r[j])
    {
      assert r[j] == t[j - 1];
      if i > 0 {
        assert r[i] == t[i - 1];
      }
    }
  }

  // ---------------------------------------------------------------------------
  // reverse and unique
  // ---------------------------------------------------------------------------

  /** `reverse`: the reversed tail with the head appended. */
  function Reverse<T>(s: seq<T>): (r: seq<T>)
    ensures |r| == |s|
    ensures forall i :: 0 <= i < |s| ==> r[i] == s[|s| - 1 - i]
  {
    if |s| == 0 then [] else Reverse(Tail(s)) + [s[0]]
  }

  lemma ReverseMembers<T(!new)>(s: seq<T>)
    ensures forall x :: x in Reverse(s) <==> x in s
  {
    var r := Reverse(s);
    forall x | x in s
      ensures x in r
    {
      var i :| 0 <= i < |s| && s[i] == x;
      assert r[|s| - 1 - i] == x;
    }
  }

  lemma ReverseInvolution<T>(s: seq<T>)
    ensures Reverse(Reverse(s)) == s
  {
  }

  /** `unique_impl`: keeps the LAST occurrence of every element. */
  function UniqueLast<T(==,!new)>(s: seq<T>): (r: seq<T>)
    ensures NoDup(r)
    ensures forall x :: x in r <==> x in s
  {
    if |s| == 0 then []
    else
      var t := UniqueLast(Tail(s));
      if Contains(t, s[0]) then t else Prepend(t, [s[0]])
  }

  /** `unique`: `unique_impl` under a double reversal, so the first occurrence stays. */
  function Unique<T(==,!new)>(s: seq<T>): (r: seq<T>)
    ensures NoDup(r)
    ensures forall x :: x in r <==> x in s
  {
    ReverseMembers(s);
    ReverseMembers(UniqueLast(Reverse(s)));
    Reverse(UniqueLast(Reverse(s)))
  }

  /** Reference definition: the first occurrence of every element, in order. */
  function FirstOccurrences<T(==,!new)>(s: seq<T>): seq<T>
    decreases |s|
  {
    if |s| == 0 then []
    else
      var init := s[..|s| - 1];
      if s[|s| - 1] in init then FirstOccurrences(init)
      else FirstOccurrences(init) + [s[|s| - 1]]
  }

  /** Reversing puts the last element first, followed by the reversed front. */
  lemma ReverseInit<T>(s: seq<T>)
    requires |s| > 0
    ensures Tail(Reverse(s)) == Reverse(s[..|s| - 1])
  {
    MirrorTail(s, s[..|s| - 1], Reverse(s), Reverse(s[..|s| - 1]));
  }

  lemma MirrorTail<T>(s: seq<T>, front: seq<T>, r: seq<T>, ri: seq<T>)
    requires |s| > 0 && front == s[..|s| - 1] && |r| == |s| && |ri| == |front|
    requires forall i :: 0 <= i < |s| ==> r[i] == s[|s| - 1 - i]
    requires forall i :: 0 <= i < |front| ==> ri[i] == front[|front| - 1 - i]
    ensures Tail(r) == ri
  {
    forall i | 0 <= i < |ri|
      ensures r[1..][i] == ri[i]
    {
      assert r[1..][i] == r[i + 1];
    }
  }

  lemma {:induction false} UniqueIsFirstOccurrences<T(!new)>(s: seq<T>)
    ensures Unique(s) == FirstOccurrences(s)
    decreases |s|
  {
    if |s| > 0 {
      var init := s[..|s| - 1];
      var x := s[|s| - 1];
      UniqueIsFirstOccurrences(init);
      ReverseInit(s);
      var t := UniqueLast(Reverse(init));
      assert Unique(init) == Reverse(t);
      if x in init {
        assert Contains(t, x);
      } else {
        assert !Contains(t, x);
        assert Reverse([x] + t) == Reverse(t) + [x];
      }
    }
  }

  /** A pack without duplicates is left unchanged by `unique`. */
  lemma {:induction false} UniqueOfNoDup<T(!new)>(s: seq<T>)
    requires NoDup(s)
    ensures Unique(s) == s
    decreases |s|
  {
    UniqueIsFirstOccurrences(s);
    FirstOccurrencesOfNoDup(s);
  }

  lemma {:induction false} FirstOccurrencesOfNoDup<T(!new)>(s: seq<T>)
    requires NoDup(s)
    ensures FirstOccurrences(s) == s
    decreases |s|
  {
    if |s| > 0 {
      var init := s[..|s| - 1];
      assert NoDup(init);
      assert s[|s| - 1] !in init;
      FirstOccurrencesOfNoDup(init);
      assert init + [s[|s| - 1]] == s;
    }
  }

  lemma UniqueIdempotent<T(!new)>(s: seq<T>)
    ensures Unique(Unique(s)) == Unique(s)
  {
    UniqueOfNoDup(Unique(s));
  }
}
