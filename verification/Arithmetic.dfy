/** Integer arithmetic as Go performs it, and the few facts about division the autoscaler rests on. */
module Arithmetic {

  /** Go's `/` on `int`: the quotient is truncated toward zero (Dafny's is Euclidean). */
  function TruncDiv(a: int, b: int): int
    requires b != 0
  {
    if a >= 0 then
      if b > 0 then a / b else -(a / -b)
    else
      if b > 0 then -(-a / b) else -a / -b
  }

  function Max(a: int, b: int): int {
    if a < b then b else a
  }

  function Min(a: int, b: int): int {
    if a < b then a else b
  }

  /** A non-negative quotient reaches `t` exactly when the dividend reaches `t` divisors. */
  lemma QuotientReaches(a: int, b: int, t: int)
    requires a >= 0 && b > 0
    ensures TruncDiv(a, b) >= t <==> a >= t * b
  {
    var q, r := a / b, a % b;
    assert a == q * b + r && 0 <= r < b;
    if q >= t {
      ScaleMonotone(t, q, b);
    } else {
      ScaleMonotone(q + 1, t, b);
      assert (q + 1) * b == q * b + b;
    }
  }

  lemma ScaleMonotone(x: int, y: int, b: int)
    requires x <= y && b >= 0
    ensures x * b <= y * b
  {
  }
}
