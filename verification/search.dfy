/** What the semifunctional and the imperative A* have in common: path costs and outcomes.
    Both keep their g- and f-scores in `float`, starting at
    `std::numeric_limits<float>::infinity()`; here a score is a natural number or infinity,
    with the comparison and sum those floats have on such values. */
module Search {
  datatype Score = Fin(n: nat) | Inf

  /** The outcome of a search: a path of node indices, no path (the open set ran dry), or a
      step budget that ran out first. */
  datatype Outcome = Found(path: seq<nat>) | NoPath | OutOfFuel

  /** `a < b`: infinity is below nothing and every finite score is below infinity. */
  function Less(a: Score, b: Score): (r: bool)
    ensures r ==> a.Fin?
    ensures a.Fin? && b == Inf ==> r
    ensures a.Fin? && b.Fin? ==> (r <==> a.n < b.n)
  {
    match a
    case Inf => false
    case Fin(x) => (match b case Inf => true case Fin(y) => x < y)
  }

  /** `a + b`: infinite as soon as one side is. */
  function Plus(a: Score, b: Score): (r: Score)
    ensures r.Fin? <==> a.Fin? && b.Fin?
  {
    if a.Fin? && b.Fin? then Fin(a.n + b.n) else Inf
  }

  /** `Less` is a strict total order on scores. */
  lemma LessIsStrictTotalOrder(a: Score, b: Score, c: Score)
    ensures !Less(a, a)
    ensures Less(a, b) && Less(b, c) ==> Less(a, c)
    ensures Less(a, b) || a == b || Less(b, a)
  {
  }

  /** Adding a finite cost never makes a score smaller. */
  lemma PlusNotLess(a: Score, n: nat)
    ensures !Less(Plus(a, Fin(n)), a)
  {
  }
}
