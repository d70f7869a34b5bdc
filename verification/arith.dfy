/** Minimum and facts about Euclidean division used by the cyclic counters of the model. */
module Arith {

  /** The smaller of two integers. */
  function Min(a: int, b: int): int { if a <= b then a else b }

  /** A positive multiple of `m` is at least `m`. */
  lemma MulAtLeast(d: int, m: int)
    requires d >= 1 && m > 0
    ensures d * m >= m
  {
  }

  /** Quotient and remainder are determined by `a == q * m + r`, `0 <= r < m`. */
  lemma ModUnique(a: int, m: int, q: int, r: int)
    requires 0 < m && 0 <= r < m && a == q * m + r
    ensures a % m == r && a / m == q
  {
    var q' := a / m;
    var r' := a % m;
    assert a == q' * m + r';
    assert (q' - q) * m == r - r';
    if q' - q >= 1 {
      MulAtLeast(q' - q, m);
    } else if q - q' >= 1 {
      MulAtLeast(q - q', m);
    }
  }

  /** Stepping a residue by one: it grows by one, or wraps to zero. */
  lemma ModSucc(a: int, m: int)
    requires 0 < m
    ensures (a + 1) % m == if a % m + 1 < m then a % m + 1 else 0
  {
    var q := a / m;
    var r := a % m;
    assert a == q * m + r;
    if r + 1 < m {
      ModUnique(a + 1, m, q, r + 1);
    } else {
      ModUnique(a + 1, m, q + 1, 0);
    }
  }

  /** Reducing before stepping by one gives the same residue. */
  lemma ModSuccOfMod(a: int, m: int)
    requires 0 < m
    ensures (a % m + 1) % m == (a + 1) % m
  {
    ModSucc(a, m);
    var r := a % m;
    if r + 1 < m {
      ModUnique(r + 1, m, 0, r + 1);
    } else {
      ModUnique(r + 1, m, 1, 0);
    }
  }

  /** Reducing the first summand first does not change the residue. */
  lemma ModOfSum(a: int, b: int, m: int)
    requires 0 < m
    ensures (a % m + b) % m == (a + b) % m
  {
    var t := a % m + b;
    assert a == (a / m) * m + a % m;
    assert t == (t / m) * m + t % m;
    assert (a / m + t / m) * m == (a / m) * m + (t / m) * m;
    ModUnique(a + b, m, a / m + t / m, t % m);
  }

  /** Adding the modulus to a residue gives the same residue. */
  lemma ModAddSelf(a: int, m: int)
    requires 0 <= a < m
    ensures (a + m) % m == a
  {
    ModUnique(a + m, m, 1, a);
  }
}
