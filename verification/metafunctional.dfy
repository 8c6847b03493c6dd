/** Combinators over predicates and argument lists (metaprogram/metafunctional.hpp and
    metaprogram/functional.hpp).  A variadic template argument list, or a variadic
    run-time argument list, is a sequence; a template predicate is a function value. */
module MetaFunctional {

  /** `bind<Ts...>::front<P>` (and the run-time `bind_front(fn, args...)`): the bound
      arguments go before the caller's. */
  function BindFront<T(!new), U>(ts: seq<T>, p: seq<T> -> U): (f: seq<T> -> U)
    ensures forall xs :: f(xs) == p(ts + xs)
  {
    xs => p(ts + xs)
  }

  /** `bind<Ts...>::back<P>` (and the run-time `bind_back(fn, args...)`): the bound
      arguments go after the caller's. */
  function BindBack<T(!new), U>(ts: seq<T>, p: seq<T> -> U): (f: seq<T> -> U)
    ensures forall xs :: f(xs) == p(xs + ts)
  {
    xs => p(xs + ts)
  }

  /** Binding in two steps is binding at once, the inner binding's arguments first. */
  lemma BindFrontTwice<T(!new), U>(ts: seq<T>, us: seq<T>, p: seq<T> -> U, xs: seq<T>)
    ensures BindFront(ts, BindFront(us, p))(xs) == BindFront(us + ts, p)(xs)
  {
    assert us + (ts + xs) == (us + ts) + xs;
  }

  /** `compare_by<Pred>::type<A, B>`: the argument whose key is strictly smaller, the
      second one on a tie. */
  function CompareBy<T(!new)>(key: T -> nat): (cmp: (T, T) -> T)
    ensures forall a, b :: cmp(a, b) == a || cmp(a, b) == b
    ensures forall a, b :: key(cmp(a, b)) <= key(a) && key(cmp(a, b)) <= key(b)
    ensures forall a, b :: key(a) == key(b) ==> cmp(a, b) == b
  {
    (a, b) => if key(a) < key(b) then a else b
  }

  /** `invert<Pred>::type<T>`: the negated predicate. */
  function Invert<T(!new)>(p: T -> bool): (q: T -> bool)
    ensures forall x :: q(x) == !p(x)
  {
    x => !p(x)
  }

  lemma InvertTwice<T(!new)>(p: T -> bool, x: T)
    ensures Invert(Invert(p))(x) == p(x)
  {
  }

  /** `one_of(elem, rest...)`: the fold `(elem == rest) || ...`; false with no alternatives. */
  function OneOf<T(==)>(elem: T, rest: seq<T>): (r: bool)
    ensures r <==> elem in rest
  {
    if |rest| == 0 then false else elem == rest[0] || OneOf(elem, rest[1..])
  }
}
