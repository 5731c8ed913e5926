/** `round(n / d)` of Python on exact quotients: to the nearest integer, halves to the even one. */
module Rounding {
  import opened Base

  function Round(n: nat, d: nat): nat
    requires d > 0
  {
    var q, r := n / d, n % d;
    if 2 * r < d || (2 * r == d && q % 2 == 0) then q else q + 1
  }

  /** `m` is nearest to `n / d`; of two that are equally near, the even one. */
  ghost predicate Nearest(n: nat, d: nat, m: nat) {
    var product := m * d;
    && 2 * product <= 2 * n + d && 2 * n <= 2 * product + d
    && (2 * product == 2 * n + d || 2 * n == 2 * product + d ==> m % 2 == 0)
  }

  lemma {:induction false} RoundIsNearest(n: nat, d: nat)
    requires d > 0
    ensures Nearest(n, d, Round(n, d))
  {
    DivParts(n, d);
    var q := n / d;
    assert (q + 1) * d == q * d + d;
  }

  lemma {:induction false} NearestOnce(n: nat, d: nat, a: nat, b: nat)
    requires d > 0 && a < b && Nearest(n, d, a)
    ensures !Nearest(n, d, b)
  {
    if b == a + 1 {
      assert b * d == a * d + d;
    } else {
      assert (a + 2) * d == a * d + 2 * d;
      Times(a + 2, b, d);
    }
  }

  /** Only one number is nearest. */
  lemma {:induction false} NearestIsRound(n: nat, d: nat, m: nat)
    requires d > 0
    ensures Nearest(n, d, m) <==> m == Round(n, d)
  {
    RoundIsNearest(n, d);
    hide Round, Nearest;
    var r := Round(n, d);
    if m < r { if Nearest(n, d, m) { NearestOnce(n, d, m, r); } }
    if r < m { NearestOnce(n, d, r, m); }
  }

  lemma {:induction false} DivParts(n: nat, d: nat)
    requires d > 0
    ensures n == (n / d) * d + n % d && 0 <= n % d < d
  {
  }

  lemma {:induction false} QuotientMonotone(q: nat, p: nat, d: nat, m: nat, n: nat)
    requires d > 0 && m <= n && q * d <= m && n < (p + 1) * d
    ensures q <= p
  {
    assert q >= p + 1 ==> q * d >= (p + 1) * d by {
      if q >= p + 1 { Times(p + 1, q, d); }
    }
  }

  lemma {:induction false} RoundMonotone(m: nat, n: nat, d: nat)
    requires d > 0 && m <= n
    ensures Round(m, d) <= Round(n, d)
  {
    DivParts(m, d);
    DivParts(n, d);
    assert n < (n / d + 1) * d;
    QuotientMonotone(m / d, n / d, d, m, n);
  }

  /** Whole multiples are rounded to themselves. */
  lemma {:induction false} RoundMultiple(q: nat, d: nat)
    requires d > 0
    ensures Round(d * q, d) == q && Round(0, d) == 0
  {
    MultipleDivides(q, d);
  }

  /** A part of the way is never more than the whole. */
  lemma {:induction false} RoundWithin(offset: nat, size: nat, length: nat)
    requires 0 < length && offset <= length
    ensures Round(offset * size, length) <= size
    ensures Round(0, length) == 0 && Round(length * size, length) == size
  {
    hide Round;
    Times(offset, length, size);
    RoundMonotone(offset * size, length * size, length);
    RoundMultiple(size, length);
  }

  lemma {:induction false} MultipleDivides(q: nat, d: nat)
    requires d > 0
    ensures (d * q) / d == q && (d * q) % d == 0
    ensures 0 / d == 0 && 0 % d == 0
  {
    DivParts(d * q, d);
    QuotientMonotone((d * q) / d, q, d, d * q, d * q);
    QuotientMonotone(q, (d * q) / d, d, d * q, d * q);
  }
}
