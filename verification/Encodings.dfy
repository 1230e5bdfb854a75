/** The conversions by name on the bits of their arguments and results: the constants of the binary32, binary64 and
    binary128 formats of IEEE 754-2008, section 3.4, written out. */
module Encodings {
  import opened Powers
  import opened Bits
  import opened FixConversions
  import opened FloatConversions

  // ---------- Words ----------

  /** A sign at bit `top`, an exponent field above `sb` bits of fraction. */
  function Word(sb: nat, top: nat, negative: bool, e: nat, f: nat): (a: nat) {
    (if negative then Pow2(top) else 0) + (e * Pow2(sb) + f)
  }

  lemma {:induction false} BelowTop(sb: nat, top: nat, e: nat, f: nat)
    requires sb <= top && f < Pow2(sb) && e < Pow2(top - sb)
    ensures e * Pow2(sb) + f < Pow2(top)
  {
    Pow2Add(top - sb, sb);
    MulOrder(e + 1, Pow2(top - sb), Pow2(sb));
    Distributes(e, 1, Pow2(sb));
  }

  lemma {:induction false} FieldsOfWord(l: Layout, top: nat, negative: bool, e: nat, f: nat)
    requires l.significandBits <= top && f < Pow2(l.significandBits) && e < Pow2(top - l.significandBits)
    ensures Fields(l, top + 1, Word(l.significandBits, top, negative, e, f)) == Number(negative, e, f)
  {
    var p, x := Pow2(top), e * Pow2(l.significandBits) + f;
    var a := Word(l.significandBits, top, negative, e, f);
    BelowTop(l.significandBits, top, e, f);
    DivisionIs(a, p, if negative then 1 else 0, x);
    DivisionIs(x, Pow2(l.significandBits), e, f);
  }

  /** Every word is made up of such fields. */
  lemma {:induction false} EveryWord(sb: nat, top: nat, a: nat) returns (negative: bool, e: nat, f: nat)
    requires sb <= top && a < Pow2(top + 1)
    ensures f < Pow2(sb) && e < Pow2(top - sb) && a == Word(sb, top, negative, e, f)
  {
    var sign, x := Division(a, Pow2(top));
    if sign >= 2 {
      MulOrder(2, sign, Pow2(top));
    }
    negative := sign == 1;
    assert sign == 0 || sign == 1;
    e, f := Division(x, Pow2(sb));
    Pow2Add(top - sb, sb);
    if e >= Pow2(top - sb) {
      MulOrder(Pow2(top - sb), e, Pow2(sb));
    }
  }

  // ---------- Integers ----------

  /** The integer part of `1.f * 2^(e - bias)`. */
  function Magnitude(sb: nat, bias: nat, e: nat, f: nat): (q: nat)
    requires e >= bias
  {
    Quotient((Pow2(sb) + f) * Pow2(e - bias), Pow2(sb))
  }

  /** Zero below one and below zero, the integer part up to 128 bits, the largest integer above. */
  function UnsignedValue(bits: nat, sb: nat, bias: nat, negative: bool, e: nat, f: nat): (r: nat) {
    if negative || e < bias then 0
    else if e < bias + bits then Magnitude(sb, bias, e, f)
    else Pow2(bits) - 1
  }

  /** Zero below one, the integer part with its sign below half of the range, the nearest integer above the range.  Between the two
      the sign bit is hit: the result is off by the range, except for the smallest integer. */
  function SignedValue(bits: nat, sb: nat, bias: nat, negative: bool, e: nat, f: nat): (r: int)
    requires bits > 0
  {
    if e < bias then 0
    else if e < bias + (bits - 1) then (if negative then 0 - Magnitude(sb, bias, e, f) else Magnitude(sb, bias, e, f))
    else if e == bias + (bits - 1) then
      (if !negative then Magnitude(sb, bias, e, f) - Pow2(bits)
       else if f == 0 then 0 - Pow2(bits - 1)
       else Pow2(bits) - Magnitude(sb, bias, e, f))
    else if negative then 0 - Pow2(bits - 1)
    else Pow2(bits - 1) - 1
  }

  lemma {:induction false} MagnitudeIsFloor(l: Layout, negative: bool, e: nat, f: nat)
    requires 1 <= l.bias <= e && f < Pow2(l.significandBits)
    ensures Magnitude(l.significandBits, l.bias, e, f) == Floor(l, Number(negative, e, f))
  {
    var x, s, sb, k := Number(negative, e, f), Pow2(l.significandBits) + f, l.significandBits, e - l.bias;
    if k < sb {
      FloorByRightShift(l, x);
      Pow2Add(sb - k, k);
      QuotientCancel(s, Pow2(sb - k), Pow2(k));
    } else {
      FloorByLeftShift(l, x);
      Pow2Add(k - sb, sb);
      MulAssociates(s, Pow2(k - sb), Pow2(sb));
      QuotientCancel(s * Pow2(k - sb), 1, Pow2(sb));
    }
  }

  lemma {:induction false} UnsignedByFields(l: Layout, bits: nat, negative: bool, e: nat, f: nat)
    requires 1 <= l.bias && f < Pow2(l.significandBits)
    ensures FixUnsigned(l, bits, Number(negative, e, f)) == UnsignedValue(bits, l.significandBits, l.bias, negative, e, f)
  {
    var x := Number(negative, e, f);
    UnsignedExact(l, bits, x);
    if e < l.bias {
      FloorOfSmall(l, x);
    } else {
      MagnitudeIsFloor(l, negative, e, f);
      FloorHasExponent(l, x);
      if e < l.bias + bits {
        Pow2Monotone(e - l.bias + 1, bits);
      } else {
        Pow2Monotone(bits, e - l.bias);
      }
    }
  }

  lemma {:induction false} WrapTop(bits: nat, q: nat)
    requires bits > 0 && Pow2(bits - 1) <= q < Pow2(bits)
    ensures Wrap(bits, Pow2(bits) - q) == if q == Pow2(bits - 1) then 0 - Pow2(bits - 1) else Pow2(bits) - q
  {
    Pow2Add(1, bits - 1);
    if q == Pow2(bits - 1) {
      WrapAbove(bits, Pow2(bits) - q);
    } else {
      WrapInside(bits, Pow2(bits) - q);
    }
  }

  lemma {:induction false} MoreThanPower(sb: nat, bias: nat, e: nat, f: nat)
    requires bias + sb <= e && f < Pow2(sb)
    ensures Magnitude(sb, bias, e, f) == Pow2(e - bias) <==> f == 0
  {
    var k := e - bias - sb;
    Pow2Add(k, sb);
    MulAssociates(Pow2(sb) + f, Pow2(k), Pow2(sb));
    QuotientCancel((Pow2(sb) + f) * Pow2(k), 1, Pow2(sb));
    Distributes(Pow2(sb), f, Pow2(k));
    assert Pow2(sb) * Pow2(k) == Pow2(k) * Pow2(sb);
  }

  lemma {:induction false} SignedByFields(l: Layout, bits: nat, negative: bool, e: nat, f: nat)
    requires 1 <= l.bias && l.significandBits < bits && f < Pow2(l.significandBits)
    ensures FixSigned(l, bits, Number(negative, e, f)) == SignedValue(bits, l.significandBits, l.bias, negative, e, f)
  {
    var x := Number(negative, e, f);
    SignedByFloor(l, bits, x);
    if e < l.bias {
      FloorOfSmall(l, x);
      Pow2Monotone(0, bits - 1);
    } else {
      MagnitudeIsFloor(l, negative, e, f);
      FloorHasExponent(l, x);
      if e < l.bias + (bits - 1) {
        Pow2Monotone(e - l.bias + 1, bits - 1);
        Pow2Monotone(bits - 1, bits);
      } else if e == l.bias + (bits - 1) {
        WrapTop(bits, Floor(l, x));
        MoreThanPower(l.significandBits, l.bias, e, f);
      } else {
        Pow2Monotone(bits, e - l.bias);
      }
    }
  }

  // ---------- The six conversions ----------

  lemma {:induction false} SinglesConvert(negative: bool, e: nat, f: nat)
    requires e < 256 && f < Pow2(23)
    ensures Fixsfti(Word(23, 31, negative, e, f)) == SignedValue(128, 23, 127, negative, e, f)
    ensures Fixunssfti(Word(23, 31, negative, e, f)) == UnsignedValue(128, 23, 127, negative, e, f)
  {
    assert Pow2(8) == 256;
    FieldsOfWord(BINARY32, 31, negative, e, f);
    SignedByFields(BINARY32, 128, negative, e, f);
    UnsignedByFields(BINARY32, 128, negative, e, f);
  }

  lemma {:induction false} DoublesConvert(negative: bool, e: nat, f: nat)
    requires e < 2048 && f < Pow2(52)
    ensures Fixdfti(Word(52, 63, negative, e, f)) == SignedValue(128, 52, 1023, negative, e, f)
    ensures Fixunsdfti(Word(52, 63, negative, e, f)) == UnsignedValue(128, 52, 1023, negative, e, f)
  {
    assert Pow2(11) == 2048;
    FieldsOfWord(BINARY64, 63, negative, e, f);
    SignedByFields(BINARY64, 128, negative, e, f);
    UnsignedByFields(BINARY64, 128, negative, e, f);
  }

  lemma {:induction false} QuadruplesConvert(negative: bool, e: nat, f: nat)
    requires e < 32768 && f < Pow2(112)
    ensures Fixtfti(Word(112, 127, negative, e, f)) == SignedValue(128, 112, 16383, negative, e, f)
    ensures Fixunstfti(Word(112, 127, negative, e, f)) == UnsignedValue(128, 112, 16383, negative, e, f)
  {
    assert Pow2(15) == 32768;
    FieldsOfWord(BINARY128, 127, negative, e, f);
    SignedByFields(BINARY128, 128, negative, e, f);
    UnsignedByFields(BINARY128, 128, negative, e, f);
  }

  // ---------- Integers to doubles ----------

  function DoubleBits(m: int): (a: nat) {
    var x := Float(BINARY64, m);
    Word(52, 63, x.negative, x.field, x.fraction)
  }

  function Floattidf(m: int): (a: nat)
    requires 0 - Pow2(127) <= m < Pow2(127)
  {
    DoubleBits(m)
  }

  function Floatuntidf(m: nat): (a: nat)
    requires m < Pow2(128)
  {
    DoubleBits(m)
  }

  /** A common factor of both sides goes. */
  lemma {:induction false} CancelFactor(a: nat, b: nat, p: nat)
    requires p > 0 && a * p == b * p
    ensures a == b
  {
    if a < b {
      MulBelow(a, b, p);
    } else if b < a {
      MulBelow(b, a, p);
    }
  }

  lemma {:induction false} IntegerExponent(l: Layout, x: Number, r: nat)
    requires Fits(l, x) && r > 0 && Steps(l, x) == r * StepsPerOne(l)
    ensures Exponent(l, x) >= 0 && Pow2(Exponent(l, x)) <= r < Pow2(Exponent(l, x) + 1)
  {
    QuotientCancel(r, 1, StepsPerOne(l));
    if Exponent(l, x) < 0 {
      FloorOfSmall(l, x);
    } else {
      FloorHasExponent(l, x);
    }
  }

  lemma {:induction false} IntegerDigits(s: nat, r: nat, e: nat, sb: nat, b: nat)
    requires s * Pow2(e + b) == r * Pow2(b + sb)
    ensures s * Pow2(e) == r * Pow2(sb)
  {
    Pow2Add(e, b);
    MulAssociates(s, Pow2(e), Pow2(b));
    Pow2Add(sb, b);
    MulAssociates(r, Pow2(sb), Pow2(b));
    CancelFactor(s * Pow2(e), r * Pow2(sb), Pow2(b));
  }

  /** The fields of a number whose value is the integer `r`. */
  lemma {:induction false} IntegerFields(l: Layout, x: Number, r: nat) returns (e: nat)
    requires Fits(l, x) && r > 0 && Steps(l, x) == r * StepsPerOne(l)
    ensures x.field == l.bias + e && Pow2(e) <= r < Pow2(e + 1)
    ensures (Pow2(l.significandBits) + x.fraction) * Pow2(e) == r * Pow2(l.significandBits)
  {
    IntegerExponent(l, x, r);
    e := Exponent(l, x);
    IntegerDigits(Significand(l, x), r, e, l.significandBits, l.bias - 1);
  }

  lemma {:induction false} RoundedIsPositive(digits: nat, v: nat)
    requires digits > 0 && v > 0
    ensures Rounded(digits, v) > 0
  {
    if Length(v) > digits {
      LengthBounds(v);
      var k := Length(v) - digits;
      NearestEvenBounds(v, k, digits);
      MulBelow(0, NearestEven(v, k), Pow2(k));
    }
  }

  /** The fields that the conversion gives for an integer. */
  lemma {:induction false} FloatFields(l: Layout, m: int) returns (e: nat)
    requires 1 <= l.bias && m != 0
    ensures var r, x := Rounded(l.significandBits + 1, if m < 0 then 0 - m else m), Float(l, m);
      && Pow2(e) <= r < Pow2(e + 1) && x.fraction < Pow2(l.significandBits)
      && (Pow2(l.significandBits) + x.fraction) * Pow2(e) == r * Pow2(l.significandBits)
      && x == Number(m < 0, l.bias + e, x.fraction)
  {
    var v: nat := if m < 0 then 0 - m else m;
    FloatIsRounded(l, m);
    RoundedIsPositive(l.significandBits + 1, v);
    e := IntegerFields(l, Float(l, m), Rounded(l.significandBits + 1, v));
  }

  /** The bits of the double for an integer: its sign, the exponent of the rounded integer, and below the leading digit
      the digits of the rounded integer. */
  lemma {:induction false} DoubleBitsExact(m: int) returns (e: nat, f: nat)
    requires m != 0
    ensures var r := Rounded(53, if m < 0 then 0 - m else m);
      && Pow2(e) <= r < Pow2(e + 1) && f < Pow2(52) && (Pow2(52) + f) * Pow2(e) == r * Pow2(52)
      && DoubleBits(m) == Word(52, 63, m < 0, 1023 + e, f)
  {
    e := FloatFields(BINARY64, m);
    f := Float(BINARY64, m).fraction;
  }

  lemma {:induction false} ZeroBits()
    ensures DoubleBits(0) == 0
  {}

  lemma {:induction false} FloatFieldBound(l: Layout, m: int, k: nat)
    requires 1 <= l.bias && 0 - Pow2(k) <= m <= Pow2(k)
    ensures Float(l, m).fraction < Pow2(l.significandBits) && Float(l, m).field <= l.bias + k
  {
    if m != 0 {
      var e := FloatFields(l, m);
      RoundedBound(l.significandBits + 1, if m < 0 then 0 - m else m, k);
      if e > k {
        Pow2StrictlyMonotone(k, e);
      }
    }
  }

  lemma {:induction false} FieldsOfDouble(m: int)
    requires 0 - Pow2(128) <= m <= Pow2(128)
    ensures Fields(BINARY64, 64, DoubleBits(m)) == Float(BINARY64, m)
  {
    var x := Float(BINARY64, m);
    assert Pow2(11) == 2048;
    FloatFieldBound(BINARY64, m, 128);
    FieldsOfWord(BINARY64, 63, x.negative, x.field, x.fraction);
  }

  /** To a double and back, by name: the rounded integer, unless rounding reached 2^127. */
  lemma {:induction false} DoubleRoundTrip(m: int)
    requires 0 - Pow2(127) <= m < Pow2(127)
    ensures var r: int := Rounded(53, if m < 0 then 0 - m else m);
      Fixdfti(Floattidf(m)) == (if m < 0 then 0 - r else r) <==> !(m > 0 && r == Pow2(127))
  {
    Pow2Monotone(127, 128);
    FieldsOfDouble(m);
    ThereAndBack(BINARY64, 128, m);
  }

  /** Without sign: the rounded integer, at most the largest one. */
  lemma {:induction false} UnsignedDoubleRoundTrip(m: nat)
    requires m < Pow2(128)
    ensures Fixunsdfti(Floatuntidf(m)) == Min(Rounded(53, m), Pow2(128) - 1)
  {
    FieldsOfDouble(m);
    UnsignedThereAndBack(BINARY64, 128, m);
  }
}
