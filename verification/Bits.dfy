/** 64-bit words, the numbers they stand for, and the two bit tricks that size a merkle tree. */
module Bits {

  /** The number a word stands for, from its bits. */
  function Value(w: bv64): (n: nat)
    decreases w
  {
    if w == 0 then 0 else 2 * Value(w >> 1) + (if w & 1 == 1 then 1 else 0)
  }

  lemma {:induction false} ValueHalf(w: bv64)
    ensures Value(w >> 1) == Value(w) / 2
    ensures w & 1 == 0 <==> Value(w) % 2 == 0
  {
    LowBit(w);
  }

  lemma {:induction false} LowBit(w: bv64)
    ensures w & 1 == 0 || w & 1 == 1
  {}

  lemma {:induction false} NextEven(w: bv64)
    requires w & 1 == 0
    ensures (w + 1) >> 1 == w >> 1 && (w + 1) & 1 == 1
  {}

  lemma {:induction false} NextOdd(w: bv64)
    requires w & 1 != 0 && w != 0xFFFF_FFFF_FFFF_FFFF
    ensures (w + 1) >> 1 == (w >> 1) + 1 && (w + 1) & 1 == 0 && w + 1 != 0
    ensures w >> 1 != 0xFFFF_FFFF_FFFF_FFFF && w & 1 == 1
  {}

  lemma {:induction false} CountWithoutCarry(w: bv64, next: bv64)
    requires next >> 1 == w >> 1 && w & 1 == 0 && next & 1 == 1
    ensures Value(next) == Value(w) + 1
  {}

  lemma {:induction false} CountWithCarry(w: bv64, next: bv64, half: bv64, nextHalf: bv64)
    requires w >> 1 == half && next >> 1 == nextHalf && w & 1 == 1 && next & 1 == 0 && next != 0
    requires Value(nextHalf) == Value(half) + 1
    ensures Value(next) == Value(w) + 1
  {}

  lemma {:induction false} OddShrinks(w: bv64)
    requires w & 1 == 1
    ensures Value(w >> 1) < Value(w)
  {}

  lemma {:induction false} ValueNext(w: bv64)
    requires w != 0xFFFF_FFFF_FFFF_FFFF
    ensures Value(w + 1) == Value(w) + 1
    decreases Value(w)
  {
    var next := w + 1;
    if w & 1 == 0 {
      NextEven(w);
      CountWithoutCarry(w, next);
    } else {
      NextOdd(w);
      OddShrinks(w);
      var half := w >> 1;
      ValueNext(half);
      CountWithCarry(w, next, half, half + 1);
    }
  }

  /** How many binary digits `n` has. */
  function Length(n: nat): (k: nat) {
    if n == 0 then 0 else 1 + Length(n / 2)
  }

  function NextPowerOf2(value: bv64): (r: bv64) {
    var v0 := value - 1;
    var v1 := v0 | (v0 >> 1);
    var v2 := v1 | (v1 >> 2);
    var v3 := v2 | (v2 >> 4);
    var v4 := v3 | (v3 >> 8);
    var v5 := v4 | (v4 >> 16);
    var v6 := v5 | (v5 >> 32);
    v6 + 1
  }

  /** Named a count of leading zeros in the source; on a power of two it counts the trailing zeros. */
  function ClzPower2(value: bv64): (lz: int) {
    64
    - (if value != 0 then 1 else 0)
    - (if value & 0x0000_0000_FFFF_FFFF != 0 then 32 else 0)
    - (if value & 0x0000_FFFF_0000_FFFF != 0 then 16 else 0)
    - (if value & 0x00FF_00FF_00FF_00FF != 0 then 8 else 0)
    - (if value & 0x0F0F_0F0F_0F0F_0F0F != 0 then 4 else 0)
    - (if value & 0x3333_3333_3333_3333 != 0 then 2 else 0)
    - (if value & 0x5555_5555_5555_5555 != 0 then 1 else 0)
  }

  function MaxDepth(nodeCount: bv64): (depth: int) {
    if nodeCount == 0 then 0 else ClzPower2(NextPowerOf2(nodeCount)) + 1
  }

  /** `p` is the least power of two above `m`; 2^64 shows as zero. */
  predicate PowerAbove(m: bv64, p: bv64) {
    p & (p - 1) == 0 && m <= p - 1 && if m == 0 then p == 1 else (p - 1) >> 1 < m
  }

  lemma {:induction false} NextPowerOf2IsPower(m: bv64)
    ensures var p := NextPowerOf2(m + 1); p & (p - 1) == 0
  {}

  lemma {:induction false} NextPowerOf2Covers(m: bv64)
    ensures m <= NextPowerOf2(m + 1) - 1
  {}

  lemma {:induction false} NextPowerOf2LeastLow(m: bv64)
    requires 0 < m < 0x1_0000_0000
    ensures (NextPowerOf2(m + 1) - 1) >> 1 < m
  {}

  lemma {:induction false} NextPowerOf2LeastHigh(m: bv64)
    requires 0x1_0000_0000 <= m
    ensures (NextPowerOf2(m + 1) - 1) >> 1 < m
  {}

  lemma {:induction false} NextPowerOf2IsAbove(m: bv64)
    requires 0 < m
    ensures PowerAbove(m, NextPowerOf2(m + 1))
  {
    NextPowerOf2IsPower(m);
    NextPowerOf2Covers(m);
    if m < 0x1_0000_0000 {
      NextPowerOf2LeastLow(m);
    } else {
      NextPowerOf2LeastHigh(m);
    }
  }

  lemma {:induction false} PowerAboveHalf(m: bv64, p: bv64)
    requires PowerAbove(m, p) && m != 0
    ensures PowerAbove(m >> 1, if p == 0 then 0x8000_0000_0000_0000 else p >> 1)
  {}

  lemma {:induction false} ClzHalf(p: bv64)
    requires p & (p - 1) == 0 && p != 1
    ensures ClzPower2(p) == 1 + ClzPower2(if p == 0 then 0x8000_0000_0000_0000 else p >> 1)
  {}

  lemma {:induction false} ClzOfOne()
    ensures ClzPower2(1) == 0
  {}

  lemma {:induction false} ClzIsLength(m: bv64, p: bv64)
    requires PowerAbove(m, p)
    ensures ClzPower2(p) == Length(Value(m))
    decreases Value(m)
  {
    if m == 0 {
      ClzOfOne();
    } else {
      HalfShrinks(m);
      ValueHalf(m);
      PowerAboveHalf(m, p);
      ClzIsLength(m >> 1, if p == 0 then 0x8000_0000_0000_0000 else p >> 1);
      ClzHalf(p);
    }
  }

  /** The bit tricks give the number of binary digits of `nodeCount - 1`, for every 64-bit count, also
      where the next power of two does not fit and wraps to zero. */
  lemma {:induction false} DepthIsLength(m: bv64)
    ensures ClzPower2(NextPowerOf2(m + 1)) == Length(Value(m))
  {
    if m == 0 {
      ClzOfOne();
    } else {
      NextPowerOf2IsAbove(m);
      ClzIsLength(m, NextPowerOf2(m + 1));
    }
  }

  lemma {:induction false} HalfShrinks(w: bv64)
    requires w != 0
    ensures Value(w >> 1) < Value(w)
  {
    ValueNotZero(w);
    ValueHalf(w);
  }

  lemma {:induction false} ValueNotZero(w: bv64)
    requires w != 0
    ensures Value(w) > 0
    decreases w
  {
    if w & 1 == 0 {
      assert w >> 1 != 0;
      ValueNotZero(w >> 1);
    } else {
      LowBit(w);
    }
  }

  lemma {:induction false} NextIsPositive(w: bv64)
    requires w != 0xFFFF_FFFF_FFFF_FFFF
    ensures w + 1 != 0
  {}
}
