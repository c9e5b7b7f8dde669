/** Integer widths, and facts about integer division and products. */
module Arithmetic {
  const INT64_MAX := 0x7fff_ffff_ffff_ffff
  const INT64_MIN := -INT64_MAX - 1
  const UINT64_MAX := 0xffff_ffff_ffff_ffff

  lemma Quotient(a: int, n: nat, k: int)
    requires n > 0 && n * k <= a < n * k + n
    ensures a / n == k
  {
    var d := a / n - k;
    assert n * d == n * (a / n) - n * k;
    assert a == n * (a / n) + a % n;
    assert d > 0 ==> n * d >= n;
    assert d < 0 ==> n * d <= 0 - n;
  }

  lemma QuotientMonotone(a: nat, b: nat, n: nat)
    requires n > 0 && a <= b
    ensures a / n <= b / n
  {
    var d := a / n - b / n;
    assert n * d == n * (a / n) - n * (b / n);
    assert a == n * (a / n) + a % n && b == n * (b / n) + b % n;
    assert d > 0 ==> n * d >= n;
  }

  lemma MulMonotone(p: nat, a: nat, b: nat)
    requires a <= b
    ensures p * a <= p * b
  {
    assert p * (b - a) == p * b - p * a;
  }
}
