/** Go's int64 arithmetic, and `abs` from util.go. */
module Util {

  const MinInt64: int := -0x8000_0000_0000_0000
  const MaxInt64: int := 0x7fff_ffff_ffff_ffff
  const Modulus64: int := 0x1_0000_0000_0000_0000

  predicate IsInt64(n: int) {
    MinInt64 <= n <= MaxInt64
  }

  type int64 = n: int | MinInt64 <= n <= MaxInt64

  /** Two's-complement wrap-around: the int64 that Go's `+`, `-` and `*`
      produce for the mathematical value `n`. */
  function Wrap(n: int): (r: int64)
    ensures IsInt64(n) ==> r == n
    ensures MinInt64 - Modulus64 <= n < MinInt64 ==> r == n + Modulus64
    ensures MaxInt64 < n <= MaxInt64 + Modulus64 ==> r == n - Modulus64
  {
    if IsInt64(n) then n else (n - MinInt64) % Modulus64 + MinInt64
  }

  /** util.go `abs`: `0 - n` wraps, so the most negative int64 is its own
      absolute value. */
  function Abs(n: int64): (r: int64)
    ensures n > MinInt64 ==> r >= 0 && (r == n || r + n == 0)
    ensures n == MinInt64 ==> r == MinInt64
  {
    if n < 0 then Wrap(0 - n) else n
  }

  /** Two int64 values that differ by less than 2^64 wrap to the same value
      only when they are equal. */
  lemma WrapInjective(a: int, b: int)
    requires -Modulus64 < a - b < Modulus64
    requires MinInt64 - Modulus64 <= a <= MaxInt64 + Modulus64
    requires MinInt64 - Modulus64 <= b <= MaxInt64 + Modulus64
    requires Wrap(a) == Wrap(b)
    ensures a == b
  {
  }

  /** For a small step `d`, `b` is `a` stepped by `d` exactly when the
      wrapped difference `b - a` is `d`. */
  lemma WrapOffset(a: int64, b: int64, d: int)
    requires -2 <= d <= 2
    ensures b == Wrap(a + d) <==> Wrap(b - a) == d
  {
  }

  /** Two small steps make one. */
  lemma WrapShift(a: int64, d1: int, d2: int)
    requires -1 <= d1 <= 1 && -1 <= d2 <= 1
    ensures Wrap(Wrap(a + d1) + d2) == Wrap(a + d1 + d2)
  {
  }
}
