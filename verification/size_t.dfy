/** Unsigned machine words (`std::size_t`, 64 bits): the model's integers are unbounded,
    so every place where the program adds or subtracts `size_t` values goes through here. */
module SizeT {

  const SIZE_MOD: nat := 0x1_0000_0000_0000_0000
  const SIZE_MAX: nat := SIZE_MOD - 1

  type Size = x: nat | x < SIZE_MOD

  /** `a + b` on `size_t`: exact unless it overflows, then reduced by 2^64. */
  function Add(a: Size, b: Size): Size {
    if a + b < SIZE_MOD then a + b else a + b - SIZE_MOD
  }

  /** `a - b` on `size_t`: exact when `b <= a`, otherwise wraps to 2^64 - (b - a). */
  function Sub(a: Size, b: Size): Size {
    if b <= a then a - b else SIZE_MOD - (b - a)
  }

  /** `a * b` on `size_t`: the product reduced modulo 2^64. */
  function Mul(a: Size, b: Size): Size {
    (a * b) % SIZE_MOD
  }

  /** Unsigned addition is addition modulo 2^64. */
  lemma AddIsModular(a: Size, b: Size)
    ensures Add(a, b) == (a + b) % SIZE_MOD
    ensures Add(a, b) < a <==> a + b >= SIZE_MOD
  {
  }

  /** Unsigned subtraction is subtraction modulo 2^64, and undoes addition. */
  lemma SubIsModular(a: Size, b: Size)
    ensures Sub(a, b) == (a - b) % SIZE_MOD
    ensures Add(Sub(a, b), b) == a
  {
  }
}
