/**
 * The two pieces of C# `int` arithmetic that the statistics depend on:
 * unchecked 32-bit addition, which wraps around, and integer division by 2,
 * which truncates toward zero (Dafny's own `/` is Euclidean instead).
 */
module CSharpInt {

  const MinValue: int := -0x8000_0000
  const MaxValue: int := 0x7FFF_FFFF
  const Modulus: int := 0x1_0000_0000

  predicate InRange(x: int) {
    MinValue <= x <= MaxValue
  }

  /** A value of the C# type `int`. */
  type Int32 = x: int | InRange(x)

  /** The value an unchecked C# `int` operation yields for the exact result `x`. */
  function Wrap(x: int): (r: Int32)
    ensures (r - x) % Modulus == 0
    ensures InRange(x) ==> r == x
  {
    (x - MinValue) % Modulus + MinValue
  }

  /** `x / 2` for C# integers: the quotient truncated toward zero. */
  function HalfTowardZero(x: int): (r: int)
    ensures x >= 0 ==> 0 <= 2 * r <= x <= 2 * r + 1
    ensures x < 0 ==> 2 * r - 1 <= x <= 2 * r <= 0
  {
    if x >= 0 then x / 2 else -((-x) / 2)
  }

  /** Halving an `int` never leaves the range of `int`. */
  lemma HalfInRange(x: int)
    requires InRange(x)
    ensures InRange(HalfTowardZero(x))
  {
  }

  /** The truncated half of `a + b` lies between `a` and `b`. */
  lemma HalfOfSumBetween(a: int, b: int)
    requires a <= b
    ensures a <= HalfTowardZero(a + b) <= b
  {
  }
}
