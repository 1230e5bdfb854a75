/** Account names: up to thirteen characters packed into 64 bits, twelve in five bits each from the top and
    the last in four bits.  A character is its number in the name alphabet; the dot is zero. */
module Names {

  const DOT: bv64 := 0

  /** Character `k`: `(n >> (59 - 5 * k)) & 0x1F`, and the last four bits for the thirteenth. */
  function Char(n: bv64, k: nat): (c: bv64)
    requires k < 13
  {
    match k
    case 0 => (n >> 59) & 0x1F
    case 1 => (n >> 54) & 0x1F
    case 2 => (n >> 49) & 0x1F
    case 3 => (n >> 44) & 0x1F
    case 4 => (n >> 39) & 0x1F
    case 5 => (n >> 34) & 0x1F
    case 6 => (n >> 29) & 0x1F
    case 7 => (n >> 24) & 0x1F
    case 8 => (n >> 19) & 0x1F
    case 9 => (n >> 14) & 0x1F
    case 10 => (n >> 9) & 0x1F
    case 11 => (n >> 4) & 0x1F
    case _ => n & 0xF
  }

  /** The thirteen characters of a name, dots included. */
  function Chars(n: bv64): (cs: seq<bv64>) {
    seq(13, k requires 0 <= k < 13 => Char(n, k))
  }

  lemma {:induction false} SameBits(a: bv64, b: bv64)
    requires (a >> 59) & 0x1F == (b >> 59) & 0x1F && (a >> 54) & 0x1F == (b >> 54) & 0x1F
    requires (a >> 49) & 0x1F == (b >> 49) & 0x1F && (a >> 44) & 0x1F == (b >> 44) & 0x1F
    requires (a >> 39) & 0x1F == (b >> 39) & 0x1F && (a >> 34) & 0x1F == (b >> 34) & 0x1F
    requires (a >> 29) & 0x1F == (b >> 29) & 0x1F && (a >> 24) & 0x1F == (b >> 24) & 0x1F
    requires (a >> 19) & 0x1F == (b >> 19) & 0x1F && (a >> 14) & 0x1F == (b >> 14) & 0x1F
    requires (a >> 9) & 0x1F == (b >> 9) & 0x1F && (a >> 4) & 0x1F == (b >> 4) & 0x1F
    requires a & 0xF == b & 0xF
    ensures a == b
  {}

  lemma {:induction false} SameChar(a: bv64, b: bv64, k: nat)
    requires k < 13 && Chars(a) == Chars(b)
    ensures Char(a, k) == Char(b, k)
  {
    assert Chars(a)[k] == Chars(b)[k];
  }

  lemma {:induction false} SameCharsSameBits(a: bv64, b: bv64)
    requires Char(a, 0) == Char(b, 0) && Char(a, 1) == Char(b, 1) && Char(a, 2) == Char(b, 2) && Char(a, 3) == Char(b, 3)
    requires Char(a, 4) == Char(b, 4) && Char(a, 5) == Char(b, 5) && Char(a, 6) == Char(b, 6) && Char(a, 7) == Char(b, 7)
    requires Char(a, 8) == Char(b, 8) && Char(a, 9) == Char(b, 9) && Char(a, 10) == Char(b, 10) && Char(a, 11) == Char(b, 11)
    requires Char(a, 12) == Char(b, 12)
    ensures a == b
  {
    SameBits(a, b);
  }

  /** Two names with the same characters are the same name. */
  lemma {:induction false} CharsInjective(a: bv64, b: bv64)
    requires Chars(a) == Chars(b)
    ensures a == b
  {
    SameChar(a, b, 0);
    SameChar(a, b, 1);
    SameChar(a, b, 2);
    SameChar(a, b, 3);
    SameChar(a, b, 4);
    SameChar(a, b, 5);
    SameChar(a, b, 6);
    SameChar(a, b, 7);
    SameChar(a, b, 8);
    SameChar(a, b, 9);
    SameChar(a, b, 10);
    SameChar(a, b, 11);
    SameChar(a, b, 12);
    SameCharsSameBits(a, b);
  }

  // ---------- What the suffix of a name is ----------

  /** Without the trailing dots: the characters a name shows. */
  function Trim(cs: seq<bv64>): (r: seq<bv64>) {
    if cs != [] && cs[|cs| - 1] == DOT then Trim(cs[..|cs| - 1]) else cs
  }

  /** The index of the last dot, or -1. */
  function LastDot(cs: seq<bv64>): (d: int)
    ensures -1 <= d < |cs|
  {
    if cs == [] then -1
    else if cs[|cs| - 1] == DOT then |cs| - 1
    else LastDot(cs[..|cs| - 1])
  }

  function AfterLastDot(cs: seq<bv64>): (r: seq<bv64>) {
    cs[LastDot(cs) + 1..]
  }

  lemma {:induction false} LastDotIsDot(cs: seq<bv64>)
    ensures LastDot(cs) >= 0 ==> cs[LastDot(cs)] == DOT
    ensures forall i :: LastDot(cs) < i < |cs| ==> cs[i] != DOT
  {
    if cs != [] && cs[|cs| - 1] != DOT {
      LastDotIsDot(cs[..|cs| - 1]);
    }
  }

  lemma {:induction false} NoDotThere(cs: seq<bv64>)
    requires forall i :: 0 <= i < |cs| ==> cs[i] != DOT
    ensures LastDot(cs) == -1
  {
    if cs != [] {
      NoDotThere(cs[..|cs| - 1]);
    }
  }

  lemma {:induction false} TrimIsPrefix(cs: seq<bv64>)
    ensures Trim(cs) <= cs
    ensures Trim(cs) != [] ==> Trim(cs)[|Trim(cs)| - 1] != DOT
    ensures forall i :: |Trim(cs)| <= i < |cs| ==> cs[i] == DOT
  {
    if cs != [] && cs[|cs| - 1] == DOT {
      TrimIsPrefix(cs[..|cs| - 1]);
    }
  }

  lemma {:induction false} TrimTail(cs: seq<bv64>, d: nat)
    requires d <= |Trim(cs)| <= |cs|
    ensures Trim(cs[d..]) == Trim(cs)[d..]
    decreases |cs|
  {
    if cs != [] && cs[|cs| - 1] == DOT {
      var t := cs[..|cs| - 1];
      TrimIsPrefix(t);
      TrimTail(t, d);
      assert cs[d..][..|cs[d..]| - 1] == t[d..];
    }
  }

  lemma {:induction false} TrimPadded(cs: seq<bv64>, m: nat)
    ensures Trim(cs + seq(m, _ => DOT)) == Trim(cs)
  {
    if m == 0 {
      assert cs + seq(0, _ => DOT) == cs;
    } else {
      TrimPadded(cs, m - 1);
      assert (cs + seq(m, _ => DOT))[..|cs| + m - 1] == cs + seq(m - 1, _ => DOT);
    }
  }

  // ---------- Shifts and masks ----------

  /** The characters right of a dot at character `d`, moved to the top.  With `bits = 59 - 5 * d` bits to the right of
      the dot, that is `((n & mask) << shift) + ((n & 0xF) << (shift - 1))` for the mask `(1 << bits) - 16` and the
      shift `64 - bits`. */
  function Repack(n: bv64, d: nat): (r: bv64)
    requires d < 12
  {
    match d
    case 0 => ((n & (((1 as bv64) << 59) - 16)) << 5) + ((n & 0xF) << 4)
    case 1 => ((n & (((1 as bv64) << 54) - 16)) << 10) + ((n & 0xF) << 9)
    case 2 => ((n & (((1 as bv64) << 49) - 16)) << 15) + ((n & 0xF) << 14)
    case 3 => ((n & (((1 as bv64) << 44) - 16)) << 20) + ((n & 0xF) << 19)
    case 4 => ((n & (((1 as bv64) << 39) - 16)) << 25) + ((n & 0xF) << 24)
    case 5 => ((n & (((1 as bv64) << 34) - 16)) << 30) + ((n & 0xF) << 29)
    case 6 => ((n & (((1 as bv64) << 29) - 16)) << 35) + ((n & 0xF) << 34)
    case 7 => ((n & (((1 as bv64) << 24) - 16)) << 40) + ((n & 0xF) << 39)
    case 8 => ((n & (((1 as bv64) << 19) - 16)) << 45) + ((n & 0xF) << 44)
    case 9 => ((n & (((1 as bv64) << 14) - 16)) << 50) + ((n & 0xF) << 49)
    case 10 => ((n & (((1 as bv64) << 9) - 16)) << 55) + ((n & 0xF) << 54)
    case _ => ((n & (((1 as bv64) << 4) - 16)) << 60) + ((n & 0xF) << 59)
  }

  /** The two summands share no bit, so the sum carries nothing. */
  lemma {:induction false} AddIsOr(x: bv64, y: bv64)
    requires x & y == 0
    ensures x + y == x | y
  {}

  // One lemma for each place of the dot, and one case for each character: a joint split over both is out of reach of
  // the bit-vector solver.

  lemma {:induction false} Repack0(n: bv64, j: nat)
    requires j < 13
    ensures Char(Repack(n, 0), j) == if j < 12 then Char(n, j + 1) else DOT
  {
    AddIsOr((n & (((1 as bv64) << 59) - 16)) << 5, (n & 0xF) << 4);
    match j
    case 0 =>
    case 1 =>
    case 2 =>
    case 3 =>
    case 4 =>
    case 5 =>
    case 6 =>
    case 7 =>
    case 8 =>
    case 9 =>
    case 10 =>
    case 11 =>
    case _ =>
  }

  lemma {:induction false} Repack1(n: bv64, j: nat)
    requires j < 13
    ensures Char(Repack(n, 1), j) == if j < 11 then Char(n, j + 2) else DOT
  {
    AddIsOr((n & (((1 as bv64) << 54) - 16)) << 10, (n & 0xF) << 9);
    match j
    case 0 =>
    case 1 =>
    case 2 =>
    case 3 =>
    case 4 =>
    case 5 =>
    case 6 =>
    case 7 =>
    case 8 =>
    case 9 =>
    case 10 =>
    case 11 =>
    case _ =>
  }

  lemma {:induction false} Repack2(n: bv64, j: nat)
    requires j < 13
    ensures Char(Repack(n, 2), j) == if j < 10 then Char(n, j + 3) else DOT
  {
    AddIsOr((n & (((1 as bv64) << 49) - 16)) << 15, (n & 0xF) << 14);
    match j
    case 0 =>
    case 1 =>
    case 2 =>
    case 3 =>
    case 4 =>
    case 5 =>
    case 6 =>
    case 7 =>
    case 8 =>
    case 9 =>
    case 10 =>
    case 11 =>
    case _ =>
  }

  lemma {:induction false} Repack3(n: bv64, j: nat)
    requires j < 13
    ensures Char(Repack(n, 3), j) == if j < 9 then Char(n, j + 4) else DOT
  {
    AddIsOr((n & (((1 as bv64) << 44) - 16)) << 20, (n & 0xF) << 19);
    match j
    case 0 =>
    case 1 =>
    case 2 =>
    case 3 =>
    case 4 =>
    case 5 =>
    case 6 =>
    case 7 =>
    case 8 =>
    case 9 =>
    case 10 =>
    case 11 =>
    case _ =>
  }

  lemma {:induction false} Repack4(n: bv64, j: nat)
    requires j < 13
    ensures Char(Repack(n, 4), j) == if j < 8 then Char(n, j + 5) else DOT
  {
    AddIsOr((n & (((1 as bv64) << 39) - 16)) << 25, (n & 0xF) << 24);
    match j
    case 0 =>
    case 1 =>
    case 2 =>
    case 3 =>
    case 4 =>
    case 5 =>
    case 6 =>
    case 7 =>
    case 8 =>
    case 9 =>
    case 10 =>
    case 11 =>
    case _ =>
  }

  lemma {:induction false} Repack5(n: bv64, j: nat)
    requires j < 13
    ensures Char(Repack(n, 5), j) == if j < 7 then Char(n, j + 6) else DOT
  {
    AddIsOr((n & (((1 as bv64) << 34) - 16)) << 30, (n & 0xF) << 29);
    match j
    case 0 =>
    case 1 =>
    case 2 =>
    case 3 =>
    case 4 =>
    case 5 =>
    case 6 =>
    case 7 =>
    case 8 =>
    case 9 =>
    case 10 =>
    case 11 =>
    case _ =>
  }

  lemma {:induction false} Repack6(n: bv64, j: nat)
    requires j < 13
    ensures Char(Repack(n, 6), j) == if j < 6 then Char(n, j + 7) else DOT
  {
    AddIsOr((n & (((1 as bv64) << 29) - 16)) << 35, (n & 0xF) << 34);
    match j
    case 0 =>
    case 1 =>
    case 2 =>
    case 3 =>
    case 4 =>
    case 5 =>
    case 6 =>
    case 7 =>
    case 8 =>
    case 9 =>
    case 10 =>
    case 11 =>
    case _ =>
  }

  lemma {:induction false} Repack7(n: bv64, j: nat)
    requires j < 13
    ensures Char(Repack(n, 7), j) == if j < 5 then Char(n, j + 8) else DOT
  {
    AddIsOr((n & (((1 as bv64) << 24) - 16)) << 40, (n & 0xF) << 39);
    match j
    case 0 =>
    case 1 =>
    case 2 =>
    case 3 =>
    case 4 =>
    case 5 =>
    case 6 =>
    case 7 =>
    case 8 =>
    case 9 =>
    case 10 =>
    case 11 =>
    case _ =>
  }

  lemma {:induction false} Repack8(n: bv64, j: nat)
    requires j < 13
    ensures Char(Repack(n, 8), j) == if j < 4 then Char(n, j + 9) else DOT
  {
    AddIsOr((n & (((1 as bv64) << 19) - 16)) << 45, (n & 0xF) << 44);
    match j
    case 0 =>
    case 1 =>
    case 2 =>
    case 3 =>
    case 4 =>
    case 5 =>
    case 6 =>
    case 7 =>
    case 8 =>
    case 9 =>
    case 10 =>
    case 11 =>
    case _ =>
  }

  lemma {:induction false} Repack9(n: bv64, j: nat)
    requires j < 13
    ensures Char(Repack(n, 9), j) == if j < 3 then Char(n, j + 10) else DOT
  {
    AddIsOr((n & (((1 as bv64) << 14) - 16)) << 50, (n & 0xF) << 49);
    match j
    case 0 =>
    case 1 =>
    case 2 =>
    case 3 =>
    case 4 =>
    case 5 =>
    case 6 =>
    case 7 =>
    case 8 =>
    case 9 =>
    case 10 =>
    case 11 =>
    case _ =>
  }

  lemma {:induction false} Repack10(n: bv64, j: nat)
    requires j < 13
    ensures Char(Repack(n, 10), j) == if j < 2 then Char(n, j + 11) else DOT
  {
    AddIsOr((n & (((1 as bv64) << 9) - 16)) << 55, (n & 0xF) << 54);
    match j
    case 0 =>
    case 1 =>
    case 2 =>
    case 3 =>
    case 4 =>
    case 5 =>
    case 6 =>
    case 7 =>
    case 8 =>
    case 9 =>
    case 10 =>
    case 11 =>
    case _ =>
  }

  lemma {:induction false} Repack11(n: bv64, j: nat)
    requires j < 13
    ensures Char(Repack(n, 11), j) == if j < 1 then Char(n, j + 12) else DOT
  {
    AddIsOr((n & (((1 as bv64) << 4) - 16)) << 60, (n & 0xF) << 59);
    match j
    case 0 =>
    case 1 =>
    case 2 =>
    case 3 =>
    case 4 =>
    case 5 =>
    case 6 =>
    case 7 =>
    case 8 =>
    case 9 =>
    case 10 =>
    case 11 =>
    case _ =>
  }

  /** The mask, the shifts and the addition keep every character right of the dot, in order, and lose nothing
      to overlap or overflow. */
  lemma {:induction false} RepackChar(n: bv64, d: nat, j: nat)
    requires d < 12 && j < 13
    ensures Char(Repack(n, d), j) == if j < 12 - d then Char(n, j + d + 1) else DOT
  {
    match d
    case 0 => Repack0(n, j);
    case 1 => Repack1(n, j);
    case 2 => Repack2(n, j);
    case 3 => Repack3(n, j);
    case 4 => Repack4(n, j);
    case 5 => Repack5(n, j);
    case 6 => Repack6(n, j);
    case 7 => Repack7(n, j);
    case 8 => Repack8(n, j);
    case 9 => Repack9(n, j);
    case 10 => Repack10(n, j);
    case _ => Repack11(n, j);
  }

  lemma {:induction false} RepackChars(n: bv64, d: nat)
    requires d < 12
    ensures Chars(Repack(n, d)) == Chars(n)[d + 1..] + seq(d + 1, _ => DOT)
  {
    var r := Repack(n, d);
    forall j | 0 <= j < 13 ensures Chars(r)[j] == (Chars(n)[d + 1..] + seq(d + 1, _ => DOT))[j] {
      RepackChar(n, d, j);
    }
  }

  // ---------- The suffix ----------

  lemma {:induction false} LastDotBeforeEnd(cs: seq<bv64>)
    requires |cs| <= 13
    ensures LastDot(Trim(cs)) < 12
  {
    TrimIsPrefix(cs);
    LastDotIsDot(Trim(cs));
  }

  function Suffix(n: bv64): (r: bv64) {
    var d := LastDot(Trim(Chars(n)));
    LastDotBeforeEnd(Chars(n));
    if d < 0 then n else Repack(n, d)
  }

  /** The bits to the right of a dot at `d`; zero stands for no dot. */
  function Remaining(d: int): (bits: int) {
    if d < 0 then 0 else 59 - 5 * d
  }

  lemma {:induction false} ScanStep(cs: seq<bv64>, c: bv64)
    ensures c == DOT ==> LastDot(cs + [c]) == |cs| && Trim(cs + [c]) == Trim(cs)
    ensures c != DOT ==> LastDot(cs + [c]) == LastDot(cs) && Trim(cs + [c]) == cs + [c]
  {
    assert (cs + [c])[..|cs|] == cs;
  }

  method ReadChar(n: bv64, remaining: int, ghost k: nat) returns (c: bv64)
    requires k < 12 && remaining == 59 - 5 * k
    ensures c == Chars(n)[k]
  {
    c := Char(n, (59 - remaining) / 5);
  }

  method ReadThirteenth(n: bv64) returns (c: bv64)
    ensures c == Chars(n)[12]
  {
    c := Char(n, 12);
  }

  /** The scan over the characters of a name, from left to right: the place of the last dot with a character behind it. */
  method LastActualDot(n: bv64) returns (lastActualDot: int)
    ensures lastActualDot == Remaining(LastDot(Trim(Chars(n))))
  {
    ghost var cs := Chars(n);
    var tmp := 0;
    lastActualDot := 0;
    var remaining := 59;
    ghost var k := 0;
    while remaining >= 4
      invariant 0 <= k <= 12 && remaining == 59 - 5 * k
      invariant tmp == Remaining(LastDot(cs[..k]))
      invariant lastActualDot == Remaining(LastDot(Trim(cs[..k])))
      decreases remaining
    {
      var c := ReadChar(n, remaining, k);
      ScanStep(cs[..k], c);
      assert cs[..k + 1] == cs[..k] + [c];
      if c == DOT {
        tmp := remaining;
      } else {
        lastActualDot := tmp;
      }
      remaining := remaining - 5;
      k := k + 1;
    }
    var thirteenth := ReadThirteenth(n);
    ScanStep(cs[..12], thirteenth);
    assert cs == cs[..12] + [thirteenth];
    if thirteenth != DOT {
      lastActualDot := tmp;
    }
  }

  lemma {:induction false} DotOfRemaining(d: int)
    requires -1 <= d < 12
    ensures Remaining(d) == 0 <==> d == -1
    ensures d >= 0 ==> (59 - Remaining(d)) / 5 == d
  {}

  method NameSuffix(n: bv64) returns (r: bv64)
    ensures r == Suffix(n)
  {
    var lastActualDot := LastActualDot(n);
    LastDotBeforeEnd(Chars(n));
    DotOfRemaining(LastDot(Trim(Chars(n))));
    if lastActualDot == 0 {
      return n;
    }
    return Repack(n, (59 - lastActualDot) / 5);
  }

  /** The suffix shows the characters after the last dot that the name shows. */
  lemma {:induction false} SuffixShows(n: bv64)
    ensures Trim(Chars(Suffix(n))) == AfterLastDot(Trim(Chars(n)))
  {
    var cs := Chars(n);
    var d := LastDot(Trim(cs));
    LastDotBeforeEnd(cs);
    TrimIsPrefix(cs);
    if d >= 0 {
      RepackChars(n, d);
      TrimPadded(cs[d + 1..], d + 1);
      TrimTail(cs, d + 1);
    }
  }

  lemma {:induction false} SuffixHasNoDot(n: bv64)
    ensures LastDot(Trim(Chars(Suffix(n)))) == -1
  {
    SuffixShows(n);
    LastDotIsDot(Trim(Chars(n)));
    NoDotThere(AfterLastDot(Trim(Chars(n))));
  }

  lemma {:induction false} SuffixIdempotent(n: bv64)
    ensures Suffix(Suffix(n)) == Suffix(n)
  {
    SuffixHasNoDot(n);
  }

  lemma {:induction false} ZeroShowsNothing()
    ensures Trim(Chars(0)) == []
  {
    forall k: nat | k < 13 ensures Char(0, k) == DOT {
      match k
      case 0 => case 1 => case 2 => case 3 => case 4 => case 5 => case 6 =>
      case 7 => case 8 => case 9 => case 10 => case 11 => case _ =>
    }
    TrimPadded([], 13);
    assert Chars(0) == [] + seq(13, _ => DOT);
  }

  lemma {:induction false} ShownIsInjective(a: bv64, b: bv64)
    requires Trim(Chars(a)) == Trim(Chars(b))
    ensures a == b
  {
    TrimIsPrefix(Chars(a));
    TrimIsPrefix(Chars(b));
    assert Chars(a) == Chars(b);
    CharsInjective(a, b);
  }

  /** Only the empty name has an empty suffix. */
  lemma {:induction false} SuffixZeroOnlyOnZero(n: bv64)
    ensures Suffix(n) == 0 <==> n == 0
  {
    ZeroShowsNothing();
    if Suffix(n) == 0 {
      SuffixShows(n);
      TrimIsPrefix(Chars(n));
      LastDotIsDot(Trim(Chars(n)));
      ShownIsInjective(n, 0);
    }
  }

  /** The characters decide: any name that shows what follows the last dot is the suffix. */
  lemma {:induction false} SuffixIsUnique(n: bv64, m: bv64)
    requires Trim(Chars(m)) == AfterLastDot(Trim(Chars(n)))
    ensures m == Suffix(n)
  {
    SuffixShows(n);
    ShownIsInjective(m, Suffix(n));
  }
}
