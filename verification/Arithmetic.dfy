/** Sums of integers, and facts about products and quotients. */
module Arithmetic {

  function Sum(s: seq<int>): int {
    if s == [] then 0 else Sum(s[..|s| - 1]) + s[|s| - 1]
  }

  lemma ProductSign(x: int, y: int)
    requires x >= 0 && y >= 0
    ensures x * y >= 0
  {
  }

  lemma Product(n: int, a: int, b: int)
    requires n > 0 && a <= b
    ensures n * a <= n * b
    ensures n * (a - 1) == n * a - n
  {
  }

  lemma BelowOne(k: int, x: int)
    requires k >= 1 && k * x < k
    ensures x < 1
  {
  }

  lemma Quotient(k: int, a: int, b: int)
    requires k >= 1 && k * a <= b
    ensures a <= b / k
  {
    assert k * (a - b / k) == k * a - k * (b / k) < k;
    BelowOne(k, a - b / k);
  }
}
