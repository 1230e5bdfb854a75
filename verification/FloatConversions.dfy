/** Conversions of 128-bit integers to binary64, rounding to nearest with ties to even, and how they meet the
    conversions back.  The rounding keeps two bits below the result and merges everything further down into the
    lower one, so that one increment rounds correctly.

    The model is over the layout of the format, like the conversions back; `l.significandBits + 1` is the number
    of significant digits. */
module FloatConversions {
  import opened Powers
  import opened Bits
  import opened FixConversions

  /** `x | 1` if `b`, else `x`. */
  function OrLowBit(x: nat, b: bool): (r: nat) {
    if b && x % 2 == 0 then x + 1 else x
  }

  /** The leading digits of `v`, two digits more than the format holds, with all lower digits merged into the last.
      `k > 0` is the number of digits too many. */
  function Shortened(v: nat, k: nat): (t: nat)
    requires k > 0
  {
    if k == 1 then v * 2
    else if k == 2 then v
    else OrLowBit(v / Pow2(k - 2), v % Pow2(k - 2) != 0)
  }

  /** Merge the digit above into the last one, increment, drop the two extra digits. */
  function RoundShortened(t: nat): (a: nat) {
    (OrLowBit(t, t / 4 % 2 == 1) + 1) / 4
  }

  /** The magnitude of the integer `v > 0` as exponent and fraction fields. */
  function FloatOf(l: Layout, negative: bool, v: nat): (x: Number)
    requires v > 0
  {
    var digits, sd := l.significandBits + 1, Length(v);
    var e := sd - 1;
    if sd > digits then
      var a := RoundShortened(Shortened(v, sd - digits));
      if a / Pow2(digits) % 2 == 1 then Number(negative, e + 1 + l.bias, (a / 2) % Pow2(l.significandBits))
      else Number(negative, e + l.bias, a % Pow2(l.significandBits))
    else
      var a := v * Pow2(digits - sd);
      Number(negative, e + l.bias, a % Pow2(l.significandBits))
  }

  /** Zero becomes the zero encoding; a negative integer is converted by magnitude. */
  function Float(l: Layout, m: int): (x: Number) {
    if m == 0 then Number(false, 0, 0)
    else FloatOf(l, m < 0, if m < 0 then 0 - m else m)
  }

  // ---------- What rounding means ----------

  /** `v / 2^k` to the nearest integer, and to the even one of two nearest. */
  function NearestEven(v: nat, k: nat): (q: nat) {
    var q, r := v / Pow2(k), v % Pow2(k);
    if 2 * r > Pow2(k) || (2 * r == Pow2(k) && q % 2 == 1) then q + 1 else q
  }

  /** `v` rounded to `digits` significant digits. */
  function Rounded(digits: nat, v: nat): (r: nat) {
    if Length(v) <= digits then v else NearestEven(v, Length(v) - digits) * Pow2(Length(v) - digits)
  }

  lemma {:induction false} LengthBounds(n: nat)
    requires n > 0
    ensures Length(n) > 0 && Pow2(Length(n) - 1) <= n < Pow2(Length(n))
  {
    if n > 1 {
      LengthBounds(n / 2);
    }
  }

  lemma {:induction false} Regroup(q: nat, c: nat, d: nat, low: nat)
    requires c < 4 && low < d
    ensures (4 * q + c) * d + low == q * (4 * d) + (c * d + low)
    ensures c * d + low < 4 * d
  {
    MulOrder(c, 3, d);
  }

  lemma {:induction false} SplitRemainder(v: nat, d: nat)
    requires d > 0
    ensures v / (4 * d) == v / d / 4
    ensures v % (4 * d) == (v / d % 4) * d + v % d
  {
    var t, low := Division(v, d);
    var q, c := t / 4, t % 4;
    Regroup(q, c, d, low);
    DivisionIs(v, 4 * d, q, c * d + low);
  }

  /** The last two digits of the shortened number say on which side of the middle the dropped part lies. */
  lemma {:induction false} ShortenedTells(v: nat, k: nat)
    requires k > 0
    ensures Shortened(v, k) / 4 == v / Pow2(k)
    ensures Shortened(v, k) % 4 == 3 <==> 2 * (v % Pow2(k)) > Pow2(k)
    ensures Shortened(v, k) % 4 == 2 <==> 2 * (v % Pow2(k)) == Pow2(k)
  {
    if k == 1 {
      DoubledTells(v);
      assert Pow2(1) == 2;
    } else if k == 2 {
      assert Pow2(2) == 4;
    } else {
      assert Pow2(k) == 2 * Pow2(k - 1) == 4 * Pow2(k - 2);
      ManyMergedTell(v, Pow2(k - 2));
    }
  }

  lemma {:induction false} ManyMergedTell(v: nat, d: nat)
    requires d > 0
    ensures var s := OrLowBit(v / d, v % d != 0);
      s / 4 == v / (4 * d)
      && (s % 4 == 3 <==> 2 * (v % (4 * d)) > 4 * d)
      && (s % 4 == 2 <==> 2 * (v % (4 * d)) == 4 * d)
  {
    SplitRemainder(v, d);
    MergedTells(v / d, v % d, d);
  }

  lemma {:induction false} DoubledTells(v: nat)
    ensures v * 2 / 4 == v / 2 && v * 2 % 4 == 2 * (v % 2)
  {}

  lemma {:induction false} MergedTells(t: nat, low: nat, d: nat)
    requires low < d
    ensures var s := OrLowBit(t, low != 0);
      s / 4 == t / 4
      && (s % 4 == 3 <==> 2 * ((t % 4) * d + low) > 4 * d)
      && (s % 4 == 2 <==> 2 * ((t % 4) * d + low) == 4 * d)
  {
    var c := t % 4;
    if
    case c == 0 =>
    case c == 1 =>
    case c == 2 =>
    case c == 3 =>
  }

  /** The increment rounds to nearest, ties to even. */
  lemma {:induction false} RoundingIsNearestEven(v: nat, k: nat)
    requires k > 0
    ensures RoundShortened(Shortened(v, k)) == NearestEven(v, k)
  {
    ShortenedTells(v, k);
    IncrementRounds(Shortened(v, k));
  }

  /** Half way between two numbers, the result is the even one. */
  lemma {:induction false} TiesToEven(v: nat, k: nat)
    requires k > 0 && 2 * (v % Pow2(k)) == Pow2(k)
    ensures RoundShortened(Shortened(v, k)) % 2 == 0
  {
    RoundingIsNearestEven(v, k);
  }

  lemma {:induction false} IncrementRounds(t: nat)
    ensures RoundShortened(t) == t / 4 + if t % 4 == 3 || (t % 4 == 2 && t / 4 % 2 == 1) then 1 else 0
  {
    var q, c := t / 4, t % 4;
    assert t == 4 * q + c;
    DivisionIs(t, 2, 2 * q + c / 2, c % 2);
    var e := c + 1 + if q % 2 == 1 && c % 2 == 0 then 1 else 0;
    DivisionIs(4 * q + e, 4, q + e / 4, e % 4);
  }

  // ---------- The conversion is exact rounding ----------

  lemma {:induction false} NearestEvenBounds(v: nat, k: nat, digits: nat)
    requires digits > 0 && Pow2(digits - 1 + k) <= v < Pow2(digits + k)
    ensures Pow2(digits - 1) <= NearestEven(v, k) <= Pow2(digits)
  {
    Pow2Add(digits - 1, k);
    Pow2Add(digits, k);
    QuotientBetween(v, Pow2(k), Pow2(digits - 1), Pow2(digits));
  }

  lemma {:induction false} RemainderOfUnit(a: nat, p: nat)
    requires p <= a < 2 * p
    ensures a % p == a - p
  {
    DivisionIs(a, p, 1, a - p);
  }

  /** Fields with a leading digit on top of the fraction: the steps are the digits times a power of two. */
  lemma {:induction false} NormalSteps(l: Layout, negative: bool, field: nat, a: nat)
    requires field > 0 && Pow2(l.significandBits) <= a < 2 * Pow2(l.significandBits)
    ensures var x := Number(negative, field, a % Pow2(l.significandBits));
      x.fraction < Pow2(l.significandBits) && Steps(l, x) == a * Pow2(field - 1)
  {
    RemainderOfUnit(a, Pow2(l.significandBits));
  }

  lemma {:induction false} SplitPowers(a: nat, i: nat, j: nat, m: nat, n: nat)
    requires i + j == m + n
    ensures (a * Pow2(i)) * Pow2(j) == (a * Pow2(m)) * Pow2(n)
  {
    Pow2Add(i, j);
    Pow2Add(m, n);
    MulAssociates(a, Pow2(i), Pow2(j));
    MulAssociates(a, Pow2(m), Pow2(n));
  }

  lemma {:induction false} ShortIsExact(l: Layout, negative: bool, v: nat)
    requires 1 <= l.bias && 0 < v && Length(v) <= l.significandBits + 1
    ensures var x := FloatOf(l, negative, v);
      Fits(l, x) && Steps(l, x) == v * StepsPerOne(l)
  {
    var sb, sd := l.significandBits, Length(v);
    var k := sb + 1 - sd;
    LengthBounds(v);
    Pow2Add(sd - 1, k);
    Pow2Add(sd, k);
    MulOrder(Pow2(sd - 1), v, Pow2(k));
    MulBelow(v, Pow2(sd), Pow2(k));
    NormalSteps(l, negative, sd - 1 + l.bias, v * Pow2(k));
    Pow2Add(k, sd - 2 + l.bias);
    MulAssociates(v, Pow2(k), Pow2(sd - 2 + l.bias));
  }

  lemma {:induction false} LongIsRounded(l: Layout, negative: bool, v: nat)
    requires 1 <= l.bias && Length(v) > l.significandBits + 1
    ensures v > 0
    ensures var x := FloatOf(l, negative, v);
      Fits(l, x) && Steps(l, x) == Rounded(l.significandBits + 1, v) * StepsPerOne(l)
  {
    var sb, sd := l.significandBits, Length(v);
    var digits, k := sb + 1, sd - (sb + 1);
    LengthBounds(v);
    NearestEvenBounds(v, k, digits);
    RoundingIsNearestEven(v, k);
    var a := NearestEven(v, k);
    SplitPowers(a, 0, sd - 2 + l.bias, k, l.bias + sb - 1);
    assert a * Pow2(0) == a;
    if a == Pow2(digits) {
      CarriesOut(l, negative, a, sd - 1);
    } else {
      QuotientIs(a, Pow2(digits), 0);
      NormalSteps(l, negative, sd - 1 + l.bias, a);
    }
  }

  /** The increment ran through all digits: the exponent grows and the fraction is zero. */
  lemma {:induction false} CarriesOut(l: Layout, negative: bool, a: nat, e: nat)
    requires 1 <= l.bias && a == Pow2(l.significandBits + 1)
    ensures a / Pow2(l.significandBits + 1) % 2 == 1
    ensures var x := Number(negative, e + 1 + l.bias, (a / 2) % Pow2(l.significandBits));
      Fits(l, x) && Steps(l, x) == a * Pow2(e - 1 + l.bias)
  {
    var p := Pow2(l.significandBits);
    QuotientIs(a, a, 1);
    assert a / 2 == p;
    NormalSteps(l, negative, e + 1 + l.bias, p);
    assert p * Pow2(e + l.bias) == (2 * p) * Pow2(e - 1 + l.bias);
  }

  /** Main result: the number converted to is the integer, rounded to the digits of the format. */
  lemma {:induction false} FloatIsRounded(l: Layout, m: int)
    requires 1 <= l.bias
    ensures var x := Float(l, m);
      Fits(l, x) && x.negative == (m < 0)
      && Steps(l, x) == Rounded(l.significandBits + 1, if m < 0 then 0 - m else m) * StepsPerOne(l)
  {
    if m != 0 {
      var v: nat := if m < 0 then 0 - m else m;
      if Length(v) > l.significandBits + 1 {
        LongIsRounded(l, m < 0, v);
      } else {
        ShortIsExact(l, m < 0, v);
      }
    }
  }

  // ---------- No other number of the format is nearer ----------

  function Distance(a: nat, b: nat): (d: nat) {
    if a <= b then b - a else a - b
  }

  lemma {:induction false} NearestEvenDistance(v: nat, p: nat, k: nat, w: nat)
    requires p == Pow2(k) && (w <= (v / p) * p || w >= (v / p + 1) * p)
    ensures Distance(NearestEven(v, k) * p, v) <= Distance(w, v)
  {
    var q, r := Division(v, p);
    assert (q + 1) * p == q * p + p;
  }

  lemma {:induction false} MultipleIsOutside(v: nat, p: nat, c: nat)
    requires p > 0
    ensures c * p <= (v / p) * p || c * p >= (v / p + 1) * p
  {
    MulOrder(c, v / p, p);
    MulOrder(v / p + 1, c, p);
  }

  lemma {:induction false} LargeIsOutside(v: nat, k: nat, c: nat, j: nat)
    requires j >= k
    ensures c * Pow2(j) <= (v / Pow2(k)) * Pow2(k) || c * Pow2(j) >= (v / Pow2(k) + 1) * Pow2(k)
  {
    Pow2Add(j - k, k);
    MulAssociates(c, Pow2(j - k), Pow2(k));
    MultipleIsOutside(v, Pow2(k), c * Pow2(j - k));
  }

  /** Every number with the digits of the format, `c * 2^j`, is at least as far from `v` as the rounded `v`. */
  lemma {:induction false} RoundedIsNearest(digits: nat, v: nat, c: nat, j: nat)
    requires digits > 0 && c < Pow2(digits)
    ensures Distance(Rounded(digits, v), v) <= Distance(c * Pow2(j), v)
  {
    if Length(v) > digits {
      LengthBounds(v);
      LongIsNearest(digits, Length(v) - digits, v, c, j);
    }
  }

  lemma {:induction false} LongIsNearest(digits: nat, k: nat, v: nat, c: nat, j: nat)
    requires digits > 0 && c < Pow2(digits) && Pow2(digits + k - 1) <= v
    ensures Distance(NearestEven(v, k) * Pow2(k), v) <= Distance(c * Pow2(j), v)
  {
    if j >= k {
      LargeIsOutside(v, k, c, j);
    } else {
      BelowLeadingDigit(digits, k, v, c, j);
    }
    NearestEvenDistance(v, Pow2(k), k, c * Pow2(j));
  }

  lemma {:induction false} BelowLeadingDigit(digits: nat, k: nat, v: nat, c: nat, j: nat)
    requires digits > 0 && c < Pow2(digits) && j < k && Pow2(digits + k - 1) <= v
    ensures c * Pow2(j) <= (v / Pow2(k)) * Pow2(k)
  {
    MulBelow(c, Pow2(digits), Pow2(j));
    Pow2Add(digits, j);
    Pow2Monotone(digits + j, digits - 1 + k);
    Pow2Add(digits - 1, k);
    QuotientMonotone(Pow2(digits - 1 + k), v, Pow2(k));
    QuotientCancel(Pow2(digits - 1), 1, Pow2(k));
    MulOrder(Pow2(digits - 1), v / Pow2(k), Pow2(k));
  }

  // ---------- There and back ----------

  lemma {:induction false} RoundedBound(digits: nat, v: nat, n: nat)
    requires digits > 0 && v <= Pow2(n)
    ensures Rounded(digits, v) <= Pow2(n)
  {
    if Length(v) > digits {
      LengthBounds(v);
      var k := Length(v) - digits;
      if n < Length(v) {
        Pow2PinsDown(v, n, Length(v));
        PowerIsRounded(digits, n);
      } else {
        NearestEvenBounds(v, k, digits);
        Pow2Add(digits, k);
        MulOrder(NearestEven(v, k), Pow2(digits), Pow2(k));
        Pow2Monotone(Length(v), n);
      }
    }
  }

  lemma {:induction false} Pow2PinsDown(v: nat, n: nat, length: nat)
    requires 0 < length && Pow2(length - 1) <= v <= Pow2(n) && n < length
    ensures v == Pow2(n) && n == length - 1
  {
    if n < length - 1 {
      Pow2StrictlyMonotone(n, length - 1);
    }
  }

  lemma {:induction false} LengthOfPower(n: nat)
    ensures Length(Pow2(n)) == n + 1
  {
    if n > 0 {
      LengthOfPower(n - 1);
      assert Pow2(n) / 2 == Pow2(n - 1);
    }
  }

  lemma {:induction false} PowerIsRounded(digits: nat, n: nat)
    requires digits > 0
    ensures Rounded(digits, Pow2(n)) == Pow2(n)
  {
    LengthOfPower(n);
    if n + 1 > digits {
      var k := n + 1 - digits;
      Pow2Add(digits - 1, k);
      DivisionIs(Pow2(n), Pow2(k), Pow2(digits - 1), 0);
    }
  }

  /** Converting back the converted integer gives the rounded integer, exactly unless a positive integer was
      rounded up to the first power of two that the signed type does not hold. */
  lemma {:induction false} ThereAndBack(l: Layout, bits: nat, m: int)
    requires 1 <= l.bias && bits > l.significandBits && IntMin(bits) <= m <= IntMax(bits)
    ensures var r: int := Rounded(l.significandBits + 1, if m < 0 then 0 - m else m);
      FixSigned(l, bits, Float(l, m)) == (if m < 0 then 0 - r else r) <==> !(m > 0 && r == Pow2(bits - 1))
  {
    var v: nat := if m < 0 then 0 - m else m;
    var r := Rounded(l.significandBits + 1, v);
    var x := Float(l, m);
    FloatIsRounded(l, m);
    QuotientCancel(r, 1, StepsPerOne(l));
    RoundedBound(l.significandBits + 1, v, bits - 1);
    SignedByFloor(l, bits, x);
    WrapAbove(bits, Pow2(bits - 1));
  }

  /** The unsigned conversion gives the rounded integer back, at most the largest integer; nothing below zero. */
  lemma {:induction false} UnsignedThereAndBack(l: Layout, bits: nat, m: int)
    requires 1 <= l.bias
    ensures FixUnsigned(l, bits, Float(l, m)) == if m < 0 then 0 else Min(Rounded(l.significandBits + 1, m), Pow2(bits) - 1)
  {
    FloatIsRounded(l, m);
    UnsignedExact(l, bits, Float(l, m));
    QuotientCancel(Rounded(l.significandBits + 1, if m < 0 then 0 - m else m), 1, StepsPerOne(l));
  }

  /** Integers that need no rounding come back unchanged. */
  lemma {:induction false} ShortComesBack(l: Layout, bits: nat, m: int)
    requires 1 <= l.bias && bits > l.significandBits + 1
    requires Length(if m < 0 then 0 - m else m) <= l.significandBits + 1
    ensures FixSigned(l, bits, Float(l, m)) == m
  {
    var v: nat := if m < 0 then 0 - m else m;
    if m != 0 {
      LengthBounds(v);
      Pow2Monotone(Length(v), bits - 1);
    }
    ThereAndBack(l, bits, m);
  }

  lemma {:induction false} LengthBelowPower(n: nat)
    requires n > 0
    ensures Length(Pow2(n) - 1) == n
  {
    if n > 1 {
      LengthBelowPower(n - 1);
      assert (Pow2(n) - 1) / 2 == Pow2(n - 1) - 1;
    }
  }

  /** A number of ones only, with more digits than the format, is rounded up. */
  lemma {:induction false} OnesRoundUp(digits: nat, k: nat)
    requires digits > 0 && k > 0
    ensures NearestEven(Pow2(digits + k) - 1, k) == Pow2(digits)
  {
    var p, q := Pow2(k), Pow2(digits);
    Pow2Add(digits, k);
    Distributes(q - 1, 1, p);
    DivisionIs(Pow2(digits + k) - 1, p, q - 1, p - 1);
    assert q == 2 * Pow2(digits - 1) && p == 2 * Pow2(k - 1);
  }

  /** The largest signed integer comes back as the smallest. */
  lemma {:induction false} LargestComesBackNegative(l: Layout, bits: nat)
    requires 1 <= l.bias && bits > l.significandBits + 2
    ensures FixSigned(l, bits, Float(l, IntMax(bits))) == IntMin(bits)
  {
    var digits, n := l.significandBits + 1, bits - 1;
    LengthBelowPower(n);
    OnesRoundUp(digits, n - digits);
    Pow2Add(digits, n - digits);
    FloatIsRounded(l, Pow2(n) - 1);
    QuotientCancel(Pow2(n), 1, StepsPerOne(l));
    SignedByFloor(l, bits, Float(l, Pow2(n) - 1));
  }
}
