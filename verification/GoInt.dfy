/** Go's fixed-width integer arithmetic, where the program relies on it. */
module GoInt {

  const TWO_63: int := 0x8000_0000_0000_0000
  const TWO_64: int := 0x1_0000_0000_0000_0000

  /** The int64 a sum or product is truncated to (two's complement). */
  function Wrap64(x: int): (r: int)
    ensures -TWO_63 <= r < TWO_63
    ensures -TWO_63 <= x < TWO_63 ==> r == x
    ensures (r - x) % TWO_64 == 0
  {
    (x + TWO_63) % TWO_64 - TWO_63
  }

  predicate Fits64(x: int) { -TWO_63 <= x < TWO_63 }

  lemma WrapAdd(a: int, b: int)
    ensures Wrap64(Wrap64(a) + b) == Wrap64(a + b)
  {
  }

  lemma WrapIsFar(x: int)
    requires !Fits64(x)
    ensures x - Wrap64(x) >= TWO_64 || Wrap64(x) - x >= TWO_64
  {
  }

  /** Go's integer division truncates toward zero. */
  function TruncDiv(a: int, b: int): (q: int)
    requires b > 0
    ensures a >= 0 ==> b * q <= a < b * q + b
    ensures a <= 0 ==> b * q - b < a <= b * q
  {
    if a >= 0 then a / b else -((-a) / b)
  }

  lemma SameQuotientIsNear(a: int, b: int, n: int)
    requires n > 0 && TruncDiv(a, n) == TruncDiv(b, n)
    ensures -2 * n < a - b < 2 * n
  {
  }
}
