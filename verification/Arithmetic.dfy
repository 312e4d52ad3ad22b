/** The smaller of two, and the few facts about products and quotients that the linear solver does not find. */
module Arithmetic {

  function Min(a: int, b: int): (m: int) { if a < b then a else b }

  lemma {:induction false} MulAtLeast(d: int, n: nat)
    requires d >= 1
    ensures d * n >= n
    decreases d
  {
    if d > 1 {
      MulAtLeast(d - 1, n);
      assert d * n == (d - 1) * n + n;
    }
  }

  lemma Negate(d: int, n: int)
    ensures (-d) * n == -(d * n)
  {
  }

  /** A multiple of `n` smaller than `n` is none. */
  lemma SmallMultiple(d: int, n: int)
    requires n >= 0 && -n < d * n < n
    ensures d == 0
  {
    Negate(d, n);
    if d >= 1 {
      MulAtLeast(d, n);
    } else if d <= -1 {
      MulAtLeast(-d, n);
    }
  }

  /** Quotient and remainder are unique. */
  lemma DivisionIs(x: nat, n: nat, q: nat, r: nat)
    requires n > 0 && x == q * n + r && r < n
    ensures x / n == q && x % n == r
  {
    var q', r' := x / n, x % n;
    assert x == q' * n + r';
    assert (q' - q) * n == q' * n - q * n;
    SmallMultiple(q' - q, n);
  }
}
