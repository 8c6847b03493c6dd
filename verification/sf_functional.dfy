/** The small function combinators of the constexpr implementation
    (semifunctional/functional.hpp).  A generic lambda taking any argument list is a
    function of one argument here; callers bundle several arguments into a tuple. */
module SfFunctional {

  /** `identity`. */
  function Identity<T>(x: T): (r: T)
    ensures r == x
  {
    x
  }

  /** `produce(value)`: ignores its arguments and returns the captured value. */
  function Produce<A(!new), T>(value: T): (f: A -> T)
    ensures forall a :: f(a) == value
  {
    _ => value
  }

  /** `pick(condition, if_true, if_false)`. */
  function Pick<A(!new), R>(condition: A -> bool, ifTrue: A -> R, ifFalse: A -> R): (g: A -> R)
    ensures forall x :: condition(x) ==> g(x) == ifTrue(x)
    ensures forall x :: !condition(x) ==> g(x) == ifFalse(x)
  {
    x => if condition(x) then ifTrue(x) else ifFalse(x)
  }

  /** Picking between the same two branches ignores the condition. */
  lemma PickSameBranches<A(!new), R>(condition: A -> bool, branch: A -> R, x: A)
    ensures Pick(condition, branch, branch)(x) == branch(x)
  {
  }

  /** Negating the condition swaps the branches. */
  lemma PickNegated<A(!new), R>(condition: A -> bool, ifTrue: A -> R, ifFalse: A -> R, x: A)
    ensures Pick(x => !condition(x), ifFalse, ifTrue)(x) == Pick(condition, ifTrue, ifFalse)(x)
  {
  }

  /** `equal(value)`: the test `other == value`. */
  function Equal<T(==,!new)>(value: T): (p: T -> bool)
    ensures forall x :: p(x) <==> x == value
  {
    x => x == value
  }

  /** `non_equal(value)` as written: its body is the same `other == value` test. */
  function NonEqualAsWritten<T(==,!new)>(value: T): (p: T -> bool)
    ensures forall x :: p(x) <==> x == value
  {
    x => x == value
  }

  /** The as-written `non_equal` accepts the very value it should reject, and agrees with
      `equal` on every argument. */
  lemma NonEqualAsWrittenIsEqual<T(!new)>(value: T, x: T)
    ensures NonEqualAsWritten(value)(value)
    ensures NonEqualAsWritten(value)(x) == Equal(value)(x)
  {
  }

  /** `non_equal(value)` as its name promises: the test `other != value`. */
  function NonEqual<T(==,!new)>(value: T): (p: T -> bool)
    ensures forall x :: p(x) <==> x != value
  {
    x => x != value
  }

  /** The corrected `non_equal` is the complement of `equal`. */
  lemma NonEqualComplementsEqual<T(!new)>(value: T, x: T)
    ensures NonEqual(value)(x) == !Equal(value)(x)
    ensures !NonEqual(value)(value)
  {
  }

  /** `get_other(field_a, field_b, value)`: field b when field a holds the value, field a
      otherwise; the fields are the projections `fieldA` and `fieldB`. */
  function GetOther<O(!new), T(==)>(fieldA: O -> T, fieldB: O -> T, value: T): (g: O -> T)
    ensures forall o :: fieldA(o) == value ==> g(o) == fieldB(o)
    ensures forall o :: fieldA(o) != value ==> g(o) == fieldA(o)
  {
    o => if fieldA(o) == value then fieldB(o) else fieldA(o)
  }

  /** On a pair with two different ends, asking for the other end of either end yields the
      opposite end. */
  lemma GetOtherEnd<O(!new), T>(fieldA: O -> T, fieldB: O -> T, o: O)
    requires fieldA(o) != fieldB(o)
    ensures GetOther(fieldA, fieldB, fieldA(o))(o) == fieldB(o)
    ensures GetOther(fieldA, fieldB, fieldB(o))(o) == fieldA(o)
  {
  }

  /** `conjunction(a, b)`: both predicates hold. */
  function Conjunction<A(!new)>(a: A -> bool, b: A -> bool): (p: A -> bool)
    ensures forall x :: p(x) <==> a(x) && b(x)
  {
    x => a(x) && b(x)
  }

  /** `disjunction(a, b)`: at least one predicate holds. */
  function Disjunction<A(!new)>(a: A -> bool, b: A -> bool): (p: A -> bool)
    ensures forall x :: p(x) <==> a(x) || b(x)
  {
    x => a(x) || b(x)
  }

  /** The conjunction of two predicates fails exactly where the disjunction of their
      negations holds. */
  lemma ConjunctionDual<A(!new)>(a: A -> bool, b: A -> bool, x: A)
    ensures !Conjunction(a, b)(x) <==> Disjunction(y => !a(y), y => !b(y))(x)
  {
  }

  /** `create_filled_array<T, N>(pred)`: the array `{ pred(0), ..., pred(N - 1) }`. */
  method CreateFilledArray<T>(n: nat, pred: nat -> T) returns (a: seq<T>)
    ensures |a| == n
    ensures forall i :: 0 <= i < n ==> a[i] == pred(i)
  {
    a := [];
    var i := 0;
    while i < n
      invariant i <= n && |a| == i
      invariant forall j :: 0 <= j < i ==> a[j] == pred(j)
    {
      a := a + [pred(i)];
      i := i + 1;
    }
  }
}
