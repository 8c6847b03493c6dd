/** `sf::Maybe` (`std::optional`) and its two `>>` overloads and `Else`
    (semifunctional/monad/maybe.hpp).  A `Maybe<T>` is an `Option<T>`. */
module Maybe {
  import opened Wrappers

  /** `opt >> fn` when fn takes the contained value: fn applied inside, or empty. */
  function Map<T, U>(opt: Option<T>, fn: T -> U): (r: Option<U>)
    ensures opt.None? ==> r.None?
    ensures opt.Some? ==> r == Some(fn(opt.value))
  {
    match opt
    case None => None
    case Some(x) => Some(fn(x))
  }

  /** `opt >> fn` when fn takes the whole Maybe: a plain application. */
  function Pipe<T, R>(opt: Option<T>, fn: Option<T> -> R): R
  {
    fn(opt)
  }

  /** `Else { v }(m)`: the contained value, or v when empty. */
  function Else<T>(v: T, m: Option<T>): (r: T)
    ensures m.Some? ==> r == m.value
    ensures m.None? ==> r == v
  {
    m.GetOr(v)
  }

  /** Mapping the identity changes nothing. */
  lemma MapIdentity<T>(opt: Option<T>)
    ensures Map(opt, (x: T) => x) == opt
  {
  }

  /** Mapping twice is mapping the composition once. */
  lemma MapCompose<T, U, V>(opt: Option<T>, f: T -> U, g: U -> V)
    ensures Map(Map(opt, f), g) == Map(opt, (x: T) => g(f(x)))
  {
  }

  /** The chain `m >> fn >> Else { v }` used for path reconstruction: fn of the value, or
      the default. */
  lemma MapThenElse<T, U>(m: Option<T>, fn: T -> U, v: U)
    ensures Pipe(Map(m, fn), (o: Option<U>) => Else(v, o)) == if m.Some? then fn(m.value) else v
  {
  }
}
