/** Powers of two and division by them. */
module Powers {

  function Pow2(k: nat): (p: nat)
    ensures p > 0
  {
    if k == 0 then 1 else 2 * Pow2(k - 1)
  }

  lemma {:induction false} Pow2Add(a: nat, b: nat)
    ensures Pow2(a + b) == Pow2(a) * Pow2(b)
  {
    if b > 0 {
      Pow2Add(a, b - 1);
      assert Pow2(a) * Pow2(b) == 2 * (Pow2(a) * Pow2(b - 1));
    }
  }

  lemma {:induction false} Pow2Monotone(a: nat, b: nat)
    requires a <= b
    ensures Pow2(a) <= Pow2(b)
    decreases b
  {
    if a < b {
      Pow2Monotone(a, b - 1);
    }
  }

  lemma {:induction false} Pow2StrictlyMonotone(a: nat, b: nat)
    requires a < b
    ensures Pow2(a) < Pow2(b) && 2 * Pow2(a) <= Pow2(b)
  {
    Pow2Monotone(a + 1, b);
  }

  // ---------- Division ----------

  function Quotient(x: nat, d: nat): (q: nat)
    requires d > 0
  {
    x / d
  }

  lemma {:induction false} MulOrder(a: int, b: int, d: nat)
    ensures a <= b ==> a * d <= b * d
  {}

  lemma {:induction false} MulAssociates(a: nat, b: nat, c: nat)
    ensures a * (b * c) == (a * b) * c
  {}

  lemma {:induction false} MulBelow(x: nat, y: nat, m: nat)
    requires x < y && m > 0
    ensures x * m < y * m
  {}

  lemma {:induction false} QuotientIs(x: nat, d: nat, q: nat)
    requires d > 0 && q * d <= x < (q + 1) * d
    ensures x / d == q
  {
    var q', r := x / d, x % d;
    assert x == q' * d + r;
    MulOrder(q' + 1, q, d);
    MulOrder(q + 1, q', d);
  }

  lemma {:induction false} QuotientBounds(x: nat, d: nat)
    requires d > 0
    ensures (x / d) * d <= x < (x / d + 1) * d
  {
    assert x == (x / d) * d + x % d;
    assert (x / d + 1) * d == (x / d) * d + d;
  }

  lemma {:induction false} QuotientMonotone(x: nat, y: nat, d: nat)
    requires d > 0 && x <= y
    ensures x / d <= y / d
  {
    QuotientBounds(x, d);
    QuotientBounds(y, d);
    MulOrder(y / d + 1, x / d, d);
  }

  /** A common factor cancels. */
  lemma {:induction false} QuotientCancel(x: nat, d: nat, m: nat)
    requires d > 0 && m > 0
    ensures d * m > 0 && (x * m) / (d * m) == x / d
  {
    var q := x / d;
    QuotientBounds(x, d);
    MulAssociates(q, d, m);
    MulAssociates(q + 1, d, m);
    MulOrder(q * d, x, m);
    MulBelow(x, (q + 1) * d, m);
    MulBelow(0, d, m);
    QuotientIs(x * m, d * m, q);
  }

  lemma {:induction false} QuotientMeans(x: nat, d: nat, q: nat)
    requires d > 0
    ensures x / d == q <==> q * d <= x < (q + 1) * d
  {
    QuotientBounds(x, d);
    if q * d <= x < (q + 1) * d {
      QuotientIs(x, d, q);
    }
  }

  /** Equal fractions have equal quotients. */
  lemma {:induction false} QuotientOfEqual(x: nat, d: nat, y: nat, e: nat)
    requires d > 0 && e > 0 && x * e == y * d
    ensures x / d == y / e
  {
    QuotientCancel(x, d, e);
    QuotientCancel(y, e, d);
    assert d * e == e * d;
  }

  lemma {:induction false} Division(v: nat, d: nat) returns (q: nat, r: nat)
    requires d > 0
    ensures v == q * d + r && r < d && q == v / d && r == v % d
  {
    q, r := v / d, v % d;
  }

  lemma {:induction false} DivisionIs(v: nat, d: nat, q: nat, r: nat)
    requires d > 0 && v == q * d + r && r < d
    ensures v / d == q && v % d == r
  {
    assert (q + 1) * d == q * d + d;
    QuotientIs(v, d, q);
    assert v == (v / d) * d + v % d;
  }
}
