/** Conversions of binary floating point numbers to 128-bit integers, rounding toward zero, for the binary32,
    binary64 and binary128 formats of IEEE 754-2008, section 3.4.

    The six conversions share one body, so the model is one function over the layout of the format (its fraction
    bits and its exponent bias) and the bits of the integer type.  Masks with one less than a power of two are
    remainders, right shifts are quotients, and setting the implicit bit above the fraction is an addition. */
module FixConversions {
  import opened Powers

  datatype Layout = Layout(significandBits: nat, bias: nat)

  /** The three fields of an encoding. */
  datatype Number = Number(negative: bool, field: nat, fraction: nat)

  predicate Fits(l: Layout, x: Number) {
    1 <= l.bias && x.fraction < Pow2(l.significandBits)
  }

  function Exponent(l: Layout, x: Number): (e: int) {
    x.field - l.bias
  }

  function Significand(l: Layout, x: Number): (s: nat) {
    x.fraction + Pow2(l.significandBits)
  }

  // ---------- The conversions ----------

  function FixUnsigned(l: Layout, bits: nat, x: Number): (r: nat) {
    var exponent, significand := Exponent(l, x), Significand(l, x);
    if x.negative || exponent < 0 then 0
    else if exponent >= bits then Pow2(bits) - 1
    else if exponent < l.significandBits then significand / Pow2(l.significandBits - exponent)
    else significand * Pow2(exponent - l.significandBits)
  }

  /** What a signed register of `bits` bits holds after an operation with the exact result `x`. */
  function Wrap(bits: nat, x: int): (r: int)
    requires bits > 0
  {
    var half := Pow2(bits - 1);
    (x + half) % (2 * half) - half
  }

  function IntMax(bits: nat): (m: int)
    requires bits > 0
  {
    Pow2(bits - 1) - 1
  }

  function IntMin(bits: nat): (m: int)
    requires bits > 0
  {
    -IntMax(bits) - 1
  }

  /** The range check compares with the number of bits, not with one less, so an exponent of `bits - 1` reaches
      the shift and wraps around. */
  function FixSigned(l: Layout, bits: nat, x: Number): (r: int)
    requires bits > 0
  {
    var sign := if x.negative then -1 else 1;
    var exponent, significand := Exponent(l, x), Significand(l, x);
    if exponent < 0 then 0
    else if exponent >= bits then if sign == 1 then IntMax(bits) else IntMin(bits)
    else if exponent < l.significandBits then Wrap(bits, sign * (significand / Pow2(l.significandBits - exponent)))
    else Wrap(bits, sign * Wrap(bits, significand * Pow2(exponent - l.significandBits)))
  }

  // ---------- The number that the fields stand for ----------

  /** The magnitude, counted in steps of the smallest positive number of the format.  An exponent field of all
      ones is read like any other, as a magnitude above the range of the integer type. */
  function Steps(l: Layout, x: Number): (n: nat) {
    if x.field == 0 then x.fraction else Significand(l, x) * Pow2(x.field - 1)
  }

  /** How many of these steps make one. */
  function StepsPerOne(l: Layout): (d: nat)
    requires 1 <= l.bias
    ensures d > 0
  {
    Pow2(l.bias + l.significandBits - 1)
  }

  /** The magnitude rounded down. */
  function Floor(l: Layout, x: Number): (q: nat)
    requires 1 <= l.bias
  {
    Quotient(Steps(l, x), StepsPerOne(l))
  }

  lemma {:induction false} FloorByRightShift(l: Layout, x: Number)
    requires Fits(l, x) && 0 <= Exponent(l, x) < l.significandBits
    ensures Floor(l, x) == Significand(l, x) / Pow2(l.significandBits - Exponent(l, x))
  {
    var k := l.significandBits - Exponent(l, x);
    Pow2Add(k, x.field - 1);
    assert k + (x.field - 1) == l.bias + l.significandBits - 1;
    QuotientCancel(Significand(l, x), Pow2(k), Pow2(x.field - 1));
  }

  lemma {:induction false} FloorByLeftShift(l: Layout, x: Number)
    requires Fits(l, x) && l.significandBits <= Exponent(l, x)
    ensures Floor(l, x) == Significand(l, x) * Pow2(Exponent(l, x) - l.significandBits)
  {
    var k, d := Exponent(l, x) - l.significandBits, l.bias + l.significandBits - 1;
    Pow2Add(k, d);
    assert k + d == x.field - 1;
    var s := Significand(l, x);
    MulAssociates(s, Pow2(k), Pow2(d));
    QuotientCancel(s * Pow2(k), 1, Pow2(d));
  }

  lemma {:induction false} FloorOfSmall(l: Layout, x: Number)
    requires Fits(l, x) && Exponent(l, x) < 0
    ensures Floor(l, x) == 0
  {
    var sb := l.significandBits;
    if x.field == 0 {
      Pow2Monotone(sb, l.bias + sb - 1);
    } else {
      Pow2Add(sb + 1, x.field - 1);
      MulBelow(Significand(l, x), Pow2(sb + 1), Pow2(x.field - 1));
      Pow2Monotone(sb + x.field, l.bias + sb - 1);
    }
    QuotientIs(Steps(l, x), StepsPerOne(l), 0);
  }

  /** A number with the exponent `e` lies between the powers of two `e` and `e + 1`. */
  lemma {:induction false} FloorHasExponent(l: Layout, x: Number)
    requires Fits(l, x) && 0 <= Exponent(l, x)
    ensures Pow2(Exponent(l, x)) <= Floor(l, x) < Pow2(Exponent(l, x) + 1)
  {
    var e, sb, s := Exponent(l, x), l.significandBits, Significand(l, x);
    if e < sb {
      FloorByRightShift(l, x);
      Pow2Add(e, sb - e);
      Pow2Add(e + 1, sb - e);
      QuotientBetween(s, Pow2(sb - e), Pow2(e), Pow2(e + 1));
    } else {
      FloorByLeftShift(l, x);
      Pow2Add(sb, e - sb);
      Pow2Add(sb + 1, e - sb);
      MulBelow(s, Pow2(sb + 1), Pow2(e - sb));
      MulOrder(Pow2(sb), s, Pow2(e - sb));
    }
  }

  lemma {:induction false} QuotientBetween(x: nat, d: nat, lo: nat, hi: nat)
    requires d > 0 && lo * d <= x < hi * d
    ensures lo <= x / d < hi
  {
    QuotientBounds(x, d);
    MulOrder(x / d + 1, lo, d);
    MulOrder(hi, x / d, d);
  }

  // ---------- Correctness ----------

  function Min(a: nat, b: nat): (m: nat) {
    if a <= b then a else b
  }

  /** The unsigned conversion is the floor, saturated, and zero for negative numbers: for every encoding. */
  lemma {:induction false} UnsignedExact(l: Layout, bits: nat, x: Number)
    requires Fits(l, x)
    ensures FixUnsigned(l, bits, x) == if x.negative then 0 else Min(Floor(l, x), Pow2(bits) - 1)
  {
    var e := Exponent(l, x);
    if !x.negative {
      if e < 0 {
        FloorOfSmall(l, x);
      } else {
        FloorHasExponent(l, x);
        if e >= bits {
          Pow2Monotone(bits, e);
        } else {
          Pow2Monotone(e + 1, bits);
          if e < l.significandBits {
            FloorByRightShift(l, x);
          } else {
            FloorByLeftShift(l, x);
          }
        }
      }
    }
  }

  /** The magnitude rounded down, with the sign, and saturated at the ends of the signed type. */
  function Truncated(l: Layout, bits: nat, x: Number): (r: int)
    requires 1 <= l.bias && bits > 0
  {
    var q := Floor(l, x);
    if x.negative then (if 0 - q < IntMin(bits) then IntMin(bits) else 0 - q)
    else (if q > IntMax(bits) then IntMax(bits) else q)
  }

  lemma {:induction false} WrapInside(bits: nat, x: int)
    requires bits > 0 && 0 - Pow2(bits - 1) <= x < Pow2(bits - 1)
    ensures Wrap(bits, x) == x
  {
    var half := Pow2(bits - 1);
    RemainderIs(x + half, 2 * half, 0);
  }

  lemma {:induction false} WrapAbove(bits: nat, x: int)
    requires bits > 0 && Pow2(bits - 1) <= x < Pow2(bits)
    ensures Wrap(bits, x) == x - Pow2(bits)
  {
    var half := Pow2(bits - 1);
    RemainderIs(x + half, 2 * half, 1);
  }

  lemma {:induction false} RemainderIs(x: int, d: nat, q: nat)
    requires d > 0 && q * d <= x < (q + 1) * d
    ensures x % d == x - q * d
  {
    QuotientIs(x, d, q);
  }

  lemma {:induction false} SignedInside(l: Layout, bits: nat, x: Number)
    requires Fits(l, x) && bits > 0 && Exponent(l, x) < bits - 1
    ensures FixSigned(l, bits, x) == Truncated(l, bits, x)
  {
    var e := Exponent(l, x);
    if e < 0 {
      FloorOfSmall(l, x);
    } else {
      FloorHasExponent(l, x);
      Pow2Monotone(e + 1, bits - 1);
      var q: int := Floor(l, x);
      WrapInside(bits, q);
      WrapInside(bits, 0 - q);
      assert -1 * q == 0 - q && 1 * q == q;
      if e < l.significandBits {
        FloorByRightShift(l, x);
      } else {
        FloorByLeftShift(l, x);
      }
    }
  }

  lemma {:induction false} SignedAbove(l: Layout, bits: nat, x: Number)
    requires Fits(l, x) && bits > 0 && Exponent(l, x) >= bits
    ensures FixSigned(l, bits, x) == Truncated(l, bits, x)
  {
    FloorHasExponent(l, x);
    Pow2StrictlyMonotone(bits - 1, Exponent(l, x));
  }

  /** At the exponent the range check misses, the sign comes out wrong, but for the smallest integer. */
  lemma {:induction false} SignedAtTop(l: Layout, bits: nat, x: Number)
    requires Fits(l, x) && bits > l.significandBits && Exponent(l, x) == bits - 1
    ensures FixSigned(l, bits, x) == if x.negative then Wrap(bits, Pow2(bits) - Floor(l, x)) else Floor(l, x) - Pow2(bits)
    ensures FixSigned(l, bits, x) == Truncated(l, bits, x) <==> x.negative && x.fraction == 0
  {
    var q, half, sb := Floor(l, x), Pow2(bits - 1), l.significandBits;
    FloorHasExponent(l, x);
    FloorByLeftShift(l, x);
    WrapAbove(bits, q);
    Pow2Add(sb, bits - 1 - sb);
    assert q == x.fraction * Pow2(bits - 1 - sb) + half by {
      Distributes(x.fraction, Pow2(sb), Pow2(bits - 1 - sb));
    }
    assert q == half <==> x.fraction == 0;
    if x.negative {
      if q == half {
        WrapAbove(bits, half);
      } else {
        WrapInside(bits, Pow2(bits) - q);
      }
    } else {
      WrapInside(bits, q - Pow2(bits));
    }
  }

  lemma {:induction false} Distributes(a: nat, b: nat, m: nat)
    ensures (a + b) * m == a * m + b * m
    ensures m > 0 && a > 0 ==> a * m > 0
  {}

  /** The signed conversion is the truncation, saturated by sign, exactly when the exponent is not the one the
      range check misses, or the number is the smallest integer. */
  lemma {:induction false} SignedExact(l: Layout, bits: nat, x: Number)
    requires Fits(l, x) && bits > l.significandBits
    ensures FixSigned(l, bits, x) == Truncated(l, bits, x) <==>
      (Exponent(l, x) == bits - 1 ==> x.negative && x.fraction == 0)
  {
    if Exponent(l, x) < bits - 1 {
      SignedInside(l, bits, x);
    } else if Exponent(l, x) >= bits {
      SignedAbove(l, bits, x);
    } else {
      SignedAtTop(l, bits, x);
    }
  }

  // ---------- Order ----------

  /** The order of the bits below the sign. */
  predicate AtMost(x: Number, y: Number) {
    x.field < y.field || (x.field == y.field && x.fraction <= y.fraction)
  }

  /** Larger bits, larger magnitude: across subnormal numbers and every change of exponent. */
  lemma {:induction false} StepsMonotone(l: Layout, x: Number, y: Number)
    requires Fits(l, x) && Fits(l, y) && AtMost(x, y)
    ensures Steps(l, x) <= Steps(l, y)
  {
    var sb := l.significandBits;
    if x.field == y.field {
      if x.field > 0 {
        MulOrder(Significand(l, x), Significand(l, y), Pow2(x.field - 1));
      }
    } else {
      MulOrder(Pow2(sb), Significand(l, y), Pow2(y.field - 1));
      if x.field == 0 {
        MulOrder(1, Pow2(y.field - 1), Pow2(sb));
      } else {
        MulBelow(Significand(l, x), Pow2(sb + 1), Pow2(x.field - 1));
        Pow2Add(sb + 1, x.field - 1);
        Pow2Add(sb, y.field - 1);
        Pow2Monotone(sb + x.field, sb + y.field - 1);
      }
    }
  }

  /** Unsigned conversion respects the order of all encodings, negative ones below the others. */
  lemma {:induction false} UnsignedMonotone(l: Layout, bits: nat, x: Number, y: Number)
    requires Fits(l, x) && Fits(l, y)
    requires (x.negative && !y.negative) || (!x.negative && !y.negative && AtMost(x, y)) || (x.negative && y.negative && AtMost(y, x))
    ensures FixUnsigned(l, bits, x) <= FixUnsigned(l, bits, y)
  {
    UnsignedExact(l, bits, x);
    UnsignedExact(l, bits, y);
    if !x.negative {
      StepsMonotone(l, x, y);
      QuotientMonotone(Steps(l, x), Steps(l, y), StepsPerOne(l));
    }
  }

  // ---------- Agreement ----------

  /** Two numbers, maybe in different formats, with the same value. */
  ghost predicate SameValue(l: Layout, x: Number, l': Layout, x': Number)
    requires 1 <= l.bias && 1 <= l'.bias
  {
    x.negative == x'.negative && Steps(l, x) * StepsPerOne(l') == Steps(l', x') * StepsPerOne(l)
  }

  /** The result of either conversion depends on the value only, so widening a number first changes nothing. */
  lemma {:induction false} WideningIsHarmless(l: Layout, x: Number, l': Layout, x': Number, bits: nat)
    requires Fits(l, x) && Fits(l', x') && SameValue(l, x, l', x')
    ensures FixUnsigned(l, bits, x) == FixUnsigned(l', bits, x')
    ensures bits > l.significandBits && bits > l'.significandBits ==> FixSigned(l, bits, x) == FixSigned(l', bits, x')
  {
    UnsignedExact(l, bits, x);
    UnsignedExact(l', bits, x');
    QuotientOfEqual(Steps(l, x), StepsPerOne(l), Steps(l', x'), StepsPerOne(l'));
    if bits > l.significandBits && bits > l'.significandBits {
      SignedByFloor(l, bits, x);
      SignedByFloor(l', bits, x');
    }
  }

  function SignedOfFloor(bits: nat, negative: bool, q: nat): (r: int)
    requires bits > 0
  {
    if q >= Pow2(bits) then (if negative then IntMin(bits) else IntMax(bits))
    else if q >= Pow2(bits - 1) then (if negative then Wrap(bits, Pow2(bits) - q) else q - Pow2(bits))
    else if negative then 0 - q else q
  }

  lemma {:induction false} SignedByFloor(l: Layout, bits: nat, x: Number)
    requires Fits(l, x) && bits > l.significandBits
    ensures FixSigned(l, bits, x) == SignedOfFloor(bits, x.negative, Floor(l, x))
  {
    var e := Exponent(l, x);
    if e < 0 {
      FloorOfSmall(l, x);
    } else {
      FloorHasExponent(l, x);
      if e < bits - 1 {
        Pow2Monotone(e + 1, bits - 1);
        SignedInside(l, bits, x);
      } else if e == bits - 1 {
        SignedAtTop(l, bits, x);
      } else {
        Pow2Monotone(bits, e);
      }
    }
  }

  /** On non-negative numbers inside the signed range, the two conversions agree. */
  lemma {:induction false} SignedAgreesWithUnsigned(l: Layout, bits: nat, x: Number)
    requires Fits(l, x) && bits > 0 && !x.negative && Exponent(l, x) < bits - 1
    ensures FixSigned(l, bits, x) == FixUnsigned(l, bits, x)
  {
    SignedInside(l, bits, x);
    UnsignedExact(l, bits, x);
    if Exponent(l, x) >= 0 {
      FloorHasExponent(l, x);
      Pow2Monotone(Exponent(l, x) + 1, bits - 1);
    } else {
      FloorOfSmall(l, x);
    }
  }

  /** An integer that the format holds exactly comes back unchanged. */
  lemma {:induction false} IntegerComesBack(l: Layout, bits: nat, x: Number, m: nat)
    requires Fits(l, x) && !x.negative && Steps(l, x) == m * StepsPerOne(l) && m < Pow2(bits)
    ensures FixUnsigned(l, bits, x) == m
  {
    UnsignedExact(l, bits, x);
    QuotientCancel(m, 1, StepsPerOne(l));
  }

  // ---------- Encodings ----------

  const BINARY32 := Layout(23, 127)
  const BINARY64 := Layout(52, 1023)
  const BINARY128 := Layout(112, 16383)

  /** The fields of an encoding of `width` bits. */
  function Fields(l: Layout, width: nat, a: nat): (x: Number)
    requires width > 0
  {
    var sign, fraction := Pow2(width - 1), Pow2(l.significandBits);
    Number(a / sign % 2 == 1, a % sign / fraction, a % sign % fraction)
  }

  /** Encodings compare, below the sign, like the magnitudes they stand for. */
  lemma {:induction false} EncodingOrder(l: Layout, width: nat, a: nat, b: nat)
    requires width > 0 && 1 <= l.bias && a % Pow2(width - 1) <= b % Pow2(width - 1)
    ensures Steps(l, Fields(l, width, a)) <= Steps(l, Fields(l, width, b))
  {
    var x, y, p := a % Pow2(width - 1), b % Pow2(width - 1), Pow2(l.significandBits);
    QuotientMonotone(x, y, p);
    assert x == (x / p) * p + x % p && y == (y / p) * p + y % p;
    StepsMonotone(l, Fields(l, width, a), Fields(l, width, b));
  }

  function Fixsfti(a: nat): (r: int) { FixSigned(BINARY32, 128, Fields(BINARY32, 32, a)) }
  function Fixdfti(a: nat): (r: int) { FixSigned(BINARY64, 128, Fields(BINARY64, 64, a)) }
  function Fixtfti(a: nat): (r: int) { FixSigned(BINARY128, 128, Fields(BINARY128, 128, a)) }
  function Fixunssfti(a: nat): (r: nat) { FixUnsigned(BINARY32, 128, Fields(BINARY32, 32, a)) }
  function Fixunsdfti(a: nat): (r: nat) { FixUnsigned(BINARY64, 128, Fields(BINARY64, 64, a)) }
  function Fixunstfti(a: nat): (r: nat) { FixUnsigned(BINARY128, 128, Fields(BINARY128, 128, a)) }

  /** An unsigned result: the magnitude rounded down, within the range of 128 bits; zero below zero. */
  ghost predicate RoundsDown(l: Layout, x: Number, r: nat)
    requires 1 <= l.bias
  {
    r == if x.negative then 0 else Min(Floor(l, x), Pow2(128) - 1)
  }

  /** A signed result: the truncated number, within the range of 128 bits, exactly if the exponent is not 127 or the
      number is the smallest integer. */
  ghost predicate TruncatesExactly(l: Layout, x: Number, r: int)
    requires 1 <= l.bias
  {
    r == Truncated(l, 128, x) <==> (Exponent(l, x) == 127 ==> x.negative && x.fraction == 0)
  }

  lemma {:induction false} ConvertsExactly(l: Layout, x: Number)
    requires Fits(l, x) && l.significandBits < 128
    ensures RoundsDown(l, x, FixUnsigned(l, 128, x)) && TruncatesExactly(l, x, FixSigned(l, 128, x))
  {
    UnsignedExact(l, 128, x);
    SignedExact(l, 128, x);
  }

  /** All six conversions, for every encoding. */
  lemma {:induction false} ConversionsExact(a: nat)
    ensures TruncatesExactly(BINARY32, Fields(BINARY32, 32, a), Fixsfti(a))
    ensures TruncatesExactly(BINARY64, Fields(BINARY64, 64, a), Fixdfti(a))
    ensures TruncatesExactly(BINARY128, Fields(BINARY128, 128, a), Fixtfti(a))
    ensures RoundsDown(BINARY32, Fields(BINARY32, 32, a), Fixunssfti(a))
    ensures RoundsDown(BINARY64, Fields(BINARY64, 64, a), Fixunsdfti(a))
    ensures RoundsDown(BINARY128, Fields(BINARY128, 128, a), Fixunstfti(a))
  {
    ConvertsExactly(BINARY32, Fields(BINARY32, 32, a));
    ConvertsExactly(BINARY64, Fields(BINARY64, 64, a));
    ConvertsExactly(BINARY128, Fields(BINARY128, 128, a));
  }
}
