/** Quotients and minima of numbers. */
module Quotients {

  lemma QuotientBound(n: int, ttl: int, span: int)
    requires ttl > 0 && n * ttl <= span
    ensures n <= span / ttl
  {
    var q, r := span / ttl, span % ttl;
    assert (n - q) * ttl == n * ttl - q * ttl;
    assert n - q >= 1 ==> (n - q) * ttl >= ttl;
  }

  function Min(a: int, b: int): int {
    if a < b then a else b
  }
}
