/** The exact conversion of a number to a wider format, and that converting it to an integer afterwards changes nothing. */
module Widening {
  import opened Powers
  import opened Bits
  import opened FixConversions
  import opened FloatConversions

  /** The wider format has room for every fraction and, as a normal number, for the smallest magnitude. */
  predicate Wider(l: Layout, l': Layout) {
    1 <= l.bias && l.significandBits <= l'.significandBits && l.bias + l.significandBits <= l'.bias
  }

  function Scaled(n: nat, k: nat): (r: nat) {
    n * Pow2(k)
  }

  /** Zero and the special numbers keep their kind, a subnormal number gets a leading digit, all others move their
      exponent. */
  function Widen(l: Layout, l': Layout, x: Number): (x': Number)
    requires Wider(l, l') && Fits(l, x)
  {
    var more := l'.significandBits - l.significandBits;
    if x.field == 2 * l.bias + 1 then Number(x.negative, 2 * l'.bias + 1, Scaled(x.fraction, more))
    else if x.field > 0 then Number(x.negative, x.field + (l'.bias - l.bias), Scaled(x.fraction, more))
    else if x.fraction == 0 then x
    else
      var k := Length(x.fraction) - 1;
      ShortLength(x.fraction, l.significandBits);
      Number(x.negative, k + 1 + l'.bias - l.bias - l.significandBits,
             Scaled(x.fraction - Pow2(k), l'.significandBits - k))
  }

  lemma {:induction false} ShortLength(n: nat, k: nat)
    requires 0 < n < Pow2(k)
    ensures 0 < Length(n) <= k && Pow2(Length(n) - 1) <= n
  {
    LengthBounds(n);
    if Length(n) > k {
      Pow2Monotone(k, Length(n) - 1);
    }
  }

  lemma {:induction false} NormalWidens(l: Layout, l': Layout, x: Number)
    requires Wider(l, l') && Fits(l, x) && 0 < x.field != 2 * l.bias + 1
    ensures Fits(l', Widen(l, l', x)) && SameValue(l, x, l', Widen(l, l', x))
  {
    var more, x' := l'.significandBits - l.significandBits, Widen(l, l', x);
    MulBelow(x.fraction, Pow2(l.significandBits), Pow2(more));
    Pow2Add(l.significandBits, more);
    Distributes(x.fraction, Pow2(l.significandBits), Pow2(more));
    var s := Significand(l, x);
    assert Significand(l', x') == s * Pow2(more);
    var up, d, d' := x'.field - 1, l.bias + l.significandBits - 1, l'.bias + l'.significandBits - 1;
    Pow2Add(more, up);
    MulAssociates(s, Pow2(more), Pow2(up));
    SplitPowers(s, x.field - 1, d', more + up, d);
  }

  /** A leading digit taken off and put on top again. */
  lemma {:induction false} DigitsMoved(n: nat, k: nat, more: nat)
    requires Pow2(k) <= n < 2 * Pow2(k)
    ensures (n - Pow2(k)) * Pow2(more) < Pow2(k + more)
    ensures (n - Pow2(k)) * Pow2(more) + Pow2(k + more) == n * Pow2(more)
  {
    Pow2Add(k, more);
    MulBelow(n - Pow2(k), Pow2(k), Pow2(more));
    Distributes(n - Pow2(k), Pow2(k), Pow2(more));
  }

  /** Steps of different sizes that amount to the same. */
  lemma {:induction false} SameSteps(n: nat, more: nat, up: nat, d: nat, d': nat)
    requires more + up + d == d'
    ensures n * Pow2(d') == ((n * Pow2(more)) * Pow2(up)) * Pow2(d)
  {
    Pow2Add(more, up);
    MulAssociates(n, Pow2(more), Pow2(up));
    Pow2Add(more + up, d);
    MulAssociates(n, Pow2(more + up), Pow2(d));
  }

  lemma {:induction false} SubnormalWidens(l: Layout, l': Layout, x: Number)
    requires Wider(l, l') && Fits(l, x) && x.field == 0 && x.fraction > 0
    ensures Fits(l', Widen(l, l', x)) && SameValue(l, x, l', Widen(l, l', x))
  {
    var n := x.fraction;
    ShortLength(n, l.significandBits);
    LengthBounds(n);
    var k := Length(n) - 1;
    var more, up := l'.significandBits - k, k + l'.bias - l.bias - l.significandBits;
    DigitsMoved(n, k, more);
    SameSteps(n, more, up, l.bias + l.significandBits - 1, l'.bias + l'.significandBits - 1);
  }

  /** Widening a finite number keeps its value. */
  lemma {:induction false} WidenKeepsValue(l: Layout, l': Layout, x: Number)
    requires Wider(l, l') && Fits(l, x) && x.field != 2 * l.bias + 1
    ensures Fits(l', Widen(l, l', x)) && SameValue(l, x, l', Widen(l, l', x))
  {
    if x.field > 0 {
      NormalWidens(l, l', x);
    } else if x.fraction > 0 {
      SubnormalWidens(l, l', x);
    }
  }

  /** Converting a number, special or not, gives the same integer before and after it is widened. */
  lemma {:induction false} WidenThenConvert(l: Layout, l': Layout, bits: nat, x: Number)
    requires Wider(l, l') && Fits(l, x) && 0 < bits <= l.bias + 1
    ensures FixUnsigned(l, bits, x) == FixUnsigned(l', bits, Widen(l, l', x))
    ensures bits > l'.significandBits ==> FixSigned(l, bits, x) == FixSigned(l', bits, Widen(l, l', x))
  {
    if x.field != 2 * l.bias + 1 {
      WidenKeepsValue(l, l', x);
      WideningIsHarmless(l, x, l', Widen(l, l', x), bits);
    }
  }

  /** Single precision, converted directly or widened first. */
  lemma {:induction false} SingleWidens(a: nat)
    ensures var x := Fields(BINARY32, 32, a);
      && FixUnsigned(BINARY64, 128, Widen(BINARY32, BINARY64, x)) == Fixunssfti(a)
      && FixUnsigned(BINARY128, 128, Widen(BINARY32, BINARY128, x)) == Fixunssfti(a)
      && FixSigned(BINARY64, 128, Widen(BINARY32, BINARY64, x)) == Fixsfti(a)
      && FixSigned(BINARY128, 128, Widen(BINARY32, BINARY128, x)) == Fixsfti(a)
  {
    WidenThenConvert(BINARY32, BINARY64, 128, Fields(BINARY32, 32, a));
    WidenThenConvert(BINARY32, BINARY128, 128, Fields(BINARY32, 32, a));
  }
}
