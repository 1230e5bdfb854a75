/** Merkle roots: the batch computation over a whole list, and the incremental tree that keeps only the
    roots of its complete subtrees.  The incremental root is proved equal to the batch root.

    `hash(l, r)` stands for the digest of the canonical pair of two digests. */
module Merkle {
  import opened Bits
  import opened Powers

  // ---------- Levels of the tree ----------

  /** The node above positions `2i` and `2i + 1`; a last node without a partner is paired with itself. */
  function Pair<D>(hash: (D, D) -> D, ids: seq<D>, i: nat): (up: D)
    requires 2 * i < |ids|
  {
    hash(ids[2 * i], if 2 * i + 1 < |ids| then ids[2 * i + 1] else ids[2 * i])
  }

  /** One level up. */
  function Level<D>(hash: (D, D) -> D, ids: seq<D>): (up: seq<D>)
    ensures |up| == (|ids| + 1) / 2
  {
    seq((|ids| + 1) / 2, i requires 0 <= i < (|ids| + 1) / 2 => Pair(hash, ids, i))
  }

  function Root<D>(hash: (D, D) -> D, ids: seq<D>): (root: D)
    requires ids != []
    decreases |ids|
  {
    if |ids| == 1 then ids[0] else Root(hash, Level(hash, ids))
  }

  /** The level `k` steps above the leaves. */
  function LevelAt<D>(hash: (D, D) -> D, ids: seq<D>, k: nat): (level: seq<D>) {
    if k == 0 then ids else Level(hash, LevelAt(hash, ids, k - 1))
  }

  /** `n` shifted right by `k` bits. */
  function Shift(n: nat, k: nat): (r: nat) {
    if k == 0 then n else Shift(n, k - 1) / 2
  }

  lemma {:induction false} LevelSize<D>(hash: (D, D) -> D, ids: seq<D>, k: nat)
    requires ids != []
    ensures |LevelAt(hash, ids, k)| == Shift(|ids| - 1, k) + 1
  {
    if k > 0 {
      LevelSize(hash, ids, k - 1);
    }
  }

  lemma {:induction false} ShiftStep(n: nat, k: nat)
    ensures Shift(n / 2, k) == Shift(n, k + 1)
  {
    if k > 0 {
      ShiftStep(n, k - 1);
    }
  }

  lemma {:induction false} LengthShifts(n: nat)
    ensures Shift(n, Length(n)) == 0
    ensures forall k: nat :: k < Length(n) ==> Shift(n, k) > 0
  {
    if n > 0 {
      LengthShifts(n / 2);
      ShiftStep(n, Length(n / 2));
      forall k: nat | k < Length(n) ensures Shift(n, k) > 0 {
        if k > 0 {
          ShiftStep(n, k - 1);
        }
      }
    }
  }

  lemma {:induction false} LevelOfLevel<D>(hash: (D, D) -> D, ids: seq<D>, k: nat)
    ensures LevelAt(hash, Level(hash, ids), k) == LevelAt(hash, ids, k + 1)
  {
    if k > 0 {
      LevelOfLevel(hash, ids, k - 1);
    }
  }

  /** The batch root sits at the level numbered by the binary length of the last leaf's index. */
  lemma {:induction false} RootAtLevel<D>(hash: (D, D) -> D, ids: seq<D>)
    requires ids != []
    ensures LevelAt(hash, ids, Length(|ids| - 1)) == [Root(hash, ids)]
    decreases |ids|
  {
    if |ids| > 1 {
      RootAtLevel(hash, Level(hash, ids));
      LevelOfLevel(hash, ids, Length((|ids| - 1) / 2));
    }
  }

  /** A node above leaves that all exist never changes when leaves are added. */
  lemma {:induction false} CompleteIsStable<D>(hash: (D, D) -> D, ids: seq<D>, more: seq<D>, k: nat, i: nat)
    requires i < Shift(|ids|, k) && ids <= more
    ensures i < |LevelAt(hash, ids, k)| && i < |LevelAt(hash, more, k)|
    ensures LevelAt(hash, ids, k)[i] == LevelAt(hash, more, k)[i]
  {
    if k > 0 {
      CompleteIsStable(hash, ids, more, k - 1, 2 * i);
      CompleteIsStable(hash, ids, more, k - 1, 2 * i + 1);
    }
  }

  // ---------- The same root from the top down ----------

  /** The root of a full tree of depth `d` over the leaves: the left half is full before the right half starts, and an
      empty right half repeats the left one. */
  function Top<D>(hash: (D, D) -> D, ids: seq<D>, d: nat): (root: D)
    requires 0 < |ids| <= Pow2(d)
  {
    if d == 0 then ids[0]
    else
      var half := Pow2(d - 1);
      if |ids| <= half then hash(Top(hash, ids, d - 1), Top(hash, ids, d - 1))
      else hash(Top(hash, ids[..half], d - 1), Top(hash, ids[half..], d - 1))
  }

  lemma {:induction false} LevelConcat<D>(hash: (D, D) -> D, a: seq<D>, b: seq<D>)
    requires |a| % 2 == 0
    ensures Level(hash, a + b) == Level(hash, a) + Level(hash, b)
  {
    var n := |a| / 2;
    forall i | 0 <= i < (|a + b| + 1) / 2 ensures Level(hash, a + b)[i] == (Level(hash, a) + Level(hash, b))[i] {
      assert Level(hash, a + b)[i] == Pair(hash, a + b, i);
      if i < n {
        assert Level(hash, a)[i] == Pair(hash, a, i);
      } else {
        assert Level(hash, b)[i - n] == Pair(hash, b, i - n);
      }
    }
  }

  /** Pairing the leaves takes one level off the tree. */
  lemma {:induction false} TopOfLevel<D>(hash: (D, D) -> D, ids: seq<D>, d: nat)
    requires 0 < |ids| <= Pow2(d + 1)
    ensures |Level(hash, ids)| <= Pow2(d) && Top(hash, ids, d + 1) == Top(hash, Level(hash, ids), d)
    decreases d
  {
    var half := Pow2(d);
    if d == 0 {
      assert Level(hash, ids)[0] == Pair(hash, ids, 0);
    } else if |ids| <= half {
      TopOfLevel(hash, ids, d - 1);
    } else {
      var a, b := ids[..half], ids[half..];
      assert ids == a + b;
      LevelConcat(hash, a, b);
      TopOfLevel(hash, a, d - 1);
      TopOfLevel(hash, b, d - 1);
      var up := Level(hash, ids);
      assert up[..Pow2(d - 1)] == Level(hash, a) && up[Pow2(d - 1)..] == Level(hash, b);
    }
  }

  lemma {:induction false} LengthCovers(n: nat)
    ensures n < Pow2(Length(n))
  {
    if n > 0 {
      LengthCovers(n / 2);
    }
  }

  /** The level by level computation gives the root of the full tree. */
  lemma {:induction false} RootIsTop<D>(hash: (D, D) -> D, ids: seq<D>)
    requires ids != []
    ensures |ids| <= Pow2(Length(|ids| - 1)) && Root(hash, ids) == Top(hash, ids, Length(|ids| - 1))
    decreases |ids|
  {
    LengthCovers(|ids| - 1);
    if |ids| > 1 {
      var up, d := Level(hash, ids), Length((|ids| - 1) / 2);
      assert |up| - 1 == (|ids| - 1) / 2 && Length(|ids| - 1) == d + 1;
      RootIsTop(hash, up);
      TopOfLevel(hash, ids, d);
    }
  }

  // ---------- When lists share a root ----------

  ghost predicate Injective<D(!new)>(hash: (D, D) -> D) {
    forall a, b, c, d :: hash(a, b) == hash(c, d) ==> a == c && b == d
  }

  lemma {:induction false} LevelIsInjective<D(!new)>(hash: (D, D) -> D, ids: seq<D>, other: seq<D>)
    requires Injective(hash) && |ids| == |other| && Level(hash, ids) == Level(hash, other)
    ensures ids == other
  {
    forall k | 0 <= k < |ids| ensures ids[k] == other[k] {
      assert Level(hash, ids)[k / 2] == Pair(hash, ids, k / 2);
      assert Level(hash, other)[k / 2] == Pair(hash, other, k / 2);
      assert k == 2 * (k / 2) || k == 2 * (k / 2) + 1;
    }
  }

  /** If the hash has no collisions, lists of the same length share a root only if they are equal. */
  lemma {:induction false} RootDetermines<D(!new)>(hash: (D, D) -> D, ids: seq<D>, other: seq<D>)
    requires Injective(hash) && |ids| == |other| > 0
    ensures Root(hash, ids) == Root(hash, other) <==> ids == other
    decreases |ids|
  {
    if |ids| > 1 {
      RootDetermines(hash, Level(hash, ids), Level(hash, other));
      if Level(hash, ids) == Level(hash, other) {
        LevelIsInjective(hash, ids, other);
      }
    }
  }

  /** The length matters: repeating the last leaf of a longer odd list does not change the root. */
  lemma {:induction false} RepeatedLastIsHidden<D>(hash: (D, D) -> D, ids: seq<D>)
    requires |ids| > 1 && |ids| % 2 == 1
    ensures Root(hash, ids + [ids[|ids| - 1]]) == Root(hash, ids)
  {
    var more := ids + [ids[|ids| - 1]];
    forall i | 0 <= i < (|ids| + 1) / 2 ensures Level(hash, more)[i] == Level(hash, ids)[i] {
      assert Level(hash, more)[i] == Pair(hash, more, i) && Level(hash, ids)[i] == Pair(hash, ids, i);
    }
    assert Level(hash, more) == Level(hash, ids);
  }

  // ---------- The nodes an incremental tree keeps ----------

  /** The last complete node on level `k`, if it is a left child. */
  ghost function Left<D>(hash: (D, D) -> D, ids: seq<D>, k: nat): (nodes: seq<D>) {
    var i := Shift(|ids|, k);
    if i % 2 == 0 then []
    else
      CompleteIsStable(hash, ids, ids, k, i - 1);
      [LevelAt(hash, ids, k)[i - 1]]
  }

  ghost function Join<D>(part: nat -> seq<D>, lo: nat, hi: nat): (all: seq<D>)
    decreases hi - lo
  {
    if lo >= hi then [] else part(lo) + Join(part, lo + 1, hi)
  }

  lemma {:induction false} JoinAppend<D>(part: nat -> seq<D>, lo: nat, hi: nat)
    requires lo <= hi
    ensures Join(part, lo, hi + 1) == Join(part, lo, hi) + part(hi)
    decreases hi - lo
  {
    if lo < hi {
      JoinAppend(part, lo + 1, hi);
      assert part(lo) + (Join(part, lo + 1, hi) + part(hi)) == (part(lo) + Join(part, lo + 1, hi)) + part(hi);
    } else {
      assert Join(part, hi + 1, hi + 1) == [];
    }
  }

  ghost function LeftOn<D>(hash: (D, D) -> D, ids: seq<D>): (part: nat -> seq<D>) {
    (k: nat) => Left(hash, ids, k)
  }

  /** The left nodes on the levels from `lo` to below `hi`. */
  ghost function Lefts<D>(hash: (D, D) -> D, ids: seq<D>, lo: nat, hi: nat): (nodes: seq<D>) {
    Join(LeftOn(hash, ids), lo, hi)
  }

  lemma {:induction false} LeftsAppend<D>(hash: (D, D) -> D, ids: seq<D>, lo: nat, hi: nat)
    requires lo <= hi
    ensures Lefts(hash, ids, lo, hi + 1) == Lefts(hash, ids, lo, hi) + Left(hash, ids, hi)
  {
    JoinAppend(LeftOn(hash, ids), lo, hi);
  }

  lemma {:induction false} LeftsFirst<D>(hash: (D, D) -> D, ids: seq<D>, lo: nat, hi: nat)
    requires lo < hi
    ensures Lefts(hash, ids, lo, hi) == Left(hash, ids, lo) + Lefts(hash, ids, lo + 1, hi)
  {}

  /** What the tree stores for a list of leaves: the complete left nodes from the bottom up, and the root. */
  ghost function Active<D>(hash: (D, D) -> D, ids: seq<D>): (nodes: seq<D>) {
    if ids == [] then [] else Lefts(hash, ids, 0, Length(|ids| - 1)) + [Root(hash, ids)]
  }

  /** Counting one further changes a shifted count by one exactly while all lower digits carry. */
  lemma {:induction false} Carry(n: nat, k: nat)
    ensures Shift(n + 1, k) == Shift(n, k) || Shift(n + 1, k) == Shift(n, k) + 1
    ensures k > 0 && Shift(n + 1, k) == Shift(n, k) + 1 ==>
      Shift(n + 1, k - 1) == Shift(n, k - 1) + 1 && Shift(n + 1, k - 1) % 2 == 0
  {
    if k > 0 {
      Carry(n, k - 1);
    }
  }

  lemma {:induction false} CarryUp(n: nat, k: nat)
    ensures Shift(n, k) % 2 == 0 ==> Shift(n + 1, k + 1) == Shift(n, k + 1)
    ensures Shift(n, k) % 2 == 1 ==>
      (Shift(n + 1, k + 1) == Shift(n, k + 1) <==> Shift(n + 1, k) == Shift(n, k))
  {
    Carry(n, k);
  }

  lemma {:induction false} NoLeftsBelowCarry<D>(hash: (D, D) -> D, ids: seq<D>, lo: nat, k: nat)
    requires ids != [] && lo <= k && Shift(|ids|, k) == Shift(|ids| - 1, k) + 1
    ensures Lefts(hash, ids, lo, k) == []
    decreases k
  {
    if lo < k {
      Carry(|ids| - 1, k);
      NoLeftsBelowCarry(hash, ids, lo, k - 1);
      LeftsAppend(hash, ids, lo, k - 1);
    }
  }

  lemma {:induction false} LengthGrows(n: nat)
    ensures Length(n + 1) == Length(n) || (Length(n + 1) == Length(n) + 1 && Shift(n + 1, Length(n)) == 1)
  {
    if n > 0 {
      LengthGrows(n / 2);
      ShiftStep(n + 1, Length(n / 2));
    }
  }

  /** The stored nodes start with every left node the next append will need, also when the tree was full:
      then the stored root is that left node. */
  lemma {:induction false} ActiveServesAppend<D>(hash: (D, D) -> D, ids: seq<D>)
    ensures Lefts(hash, ids, 0, Length(|ids|)) <= Active(hash, ids)
  {
    if ids != [] {
      var n := |ids| - 1;
      LengthGrows(n);
      LengthShifts(n);
      if Length(n + 1) != Length(n) {
        NoLeftsBelowCarry(hash, ids, 0, Length(n));
        LeftsAppend(hash, ids, 0, Length(n));
        RootAtLevel(hash, ids);
      }
    }
  }

  // ---------- Climbing from the new leaf ----------

  /** The state of an append after `k` levels: `top` is the new last node, `partial` says that it is not
      complete, `kept` are the nodes to store, and `unread` starts with the old nodes still needed. */
  ghost predicate Climb<D>(hash: (D, D) -> D, ids: seq<D>, x: D, k: nat, top: D, partial: bool, kept: seq<D>, unread: seq<D>) {
    var n := |ids|;
    && k <= Length(n)
    && |LevelAt(hash, ids + [x], k)| == Shift(n, k) + 1
    && top == LevelAt(hash, ids + [x], k)[Shift(n, k)]
    && (partial <==> Shift(n + 1, k) == Shift(n, k))
    && kept == Lefts(hash, ids + [x], 0, k)
    && Lefts(hash, ids, k, Length(n)) <= unread
  }

  lemma {:induction false} ClimbStart<D>(hash: (D, D) -> D, ids: seq<D>, x: D)
    ensures Climb(hash, ids, x, 0, x, false, [], Active(hash, ids))
  {
    ActiveServesAppend(hash, ids);
  }

  /** The last node of a level goes up with its left neighbour, or alone with itself. */
  lemma {:induction false} LastGoesUp<D>(hash: (D, D) -> D, level: seq<D>, i: nat)
    requires |level| == i + 1
    ensures |Level(hash, level)| == i / 2 + 1
    ensures Level(hash, level)[i / 2] == hash(level[if i % 2 == 0 then i else i - 1], level[i])
  {
    assert Level(hash, level)[i / 2] == Pair(hash, level, i / 2);
  }

  /** The node to store for level `k` once there is one leaf more. */
  lemma {:induction false} LeftAfter<D>(hash: (D, D) -> D, ids: seq<D>, x: D, k: nat)
    ensures Shift(|ids|, k) <= |LevelAt(hash, ids + [x], k)| - 1
    ensures Left(hash, ids + [x], k) ==
      if Shift(|ids| + 1, k) % 2 == 0 then []
      else if Shift(|ids| + 1, k) == Shift(|ids|, k) then Left(hash, ids, k)
      else [LevelAt(hash, ids + [x], k)[Shift(|ids|, k)]]
  {
    LevelSize(hash, ids + [x], k);
    Carry(|ids|, k);
    if Shift(|ids|, k) % 2 == 1 {
      CompleteIsStable(hash, ids, ids + [x], k, Shift(|ids|, k) - 1);
    }
  }

  lemma {:induction false} KeptUp<D>(hash: (D, D) -> D, ids: seq<D>, x: D, k: nat, partial: bool, left: D, top: D)
    requires |LevelAt(hash, ids + [x], k)| == Shift(|ids|, k) + 1 && top == LevelAt(hash, ids + [x], k)[Shift(|ids|, k)]
    requires partial <==> Shift(|ids| + 1, k) == Shift(|ids|, k)
    requires Left(hash, ids, k) == if Shift(|ids|, k) % 2 == 0 then [] else [left]
    ensures Lefts(hash, ids + [x], 0, k + 1) == Lefts(hash, ids + [x], 0, k) +
      if Shift(|ids|, k) % 2 == 0 then (if partial then [] else [top]) else (if partial then [left] else [])
  {
    Carry(|ids|, k);
    LeftAfter(hash, ids, x, k);
    LeftsAppend(hash, ids + [x], 0, k);
  }

  lemma {:induction false} ClimbFromLeft<D>(hash: (D, D) -> D, ids: seq<D>, x: D, k: nat, top: D, partial: bool, kept: seq<D>, unread: seq<D>)
    requires Climb(hash, ids, x, k, top, partial, kept, unread) && k < Length(|ids|)
    requires Shift(|ids|, k) % 2 == 0
    ensures Climb(hash, ids, x, k + 1, hash(top, top), true, if partial then kept else kept + [top], unread)
  {
    StillUnread(hash, ids, k, unread);
    KeptFromLeft(hash, ids, x, k, partial, kept, top);
    TopFromLeft(hash, ids, x, k, top);
    CarryUp(|ids|, k);
  }

  lemma {:induction false} StillUnread<D>(hash: (D, D) -> D, ids: seq<D>, k: nat, unread: seq<D>)
    requires k < Length(|ids|) && Lefts(hash, ids, k, Length(|ids|)) <= unread && Shift(|ids|, k) % 2 == 0
    ensures Lefts(hash, ids, k + 1, Length(|ids|)) <= unread
  {
    LeftsFirst(hash, ids, k, Length(|ids|));
    assert Left(hash, ids, k) == [];
  }

  lemma {:induction false} KeptFromLeft<D>(hash: (D, D) -> D, ids: seq<D>, x: D, k: nat, partial: bool, kept: seq<D>, top: D)
    requires |LevelAt(hash, ids + [x], k)| == Shift(|ids|, k) + 1 && top == LevelAt(hash, ids + [x], k)[Shift(|ids|, k)]
    requires (partial <==> Shift(|ids| + 1, k) == Shift(|ids|, k)) && Shift(|ids|, k) % 2 == 0
    requires kept == Lefts(hash, ids + [x], 0, k)
    ensures Lefts(hash, ids + [x], 0, k + 1) == if partial then kept else kept + [top]
  {
    KeptUp(hash, ids, x, k, partial, top, top);
  }

  lemma {:induction false} TopFromLeft<D>(hash: (D, D) -> D, ids: seq<D>, x: D, k: nat, top: D)
    requires |LevelAt(hash, ids + [x], k)| == Shift(|ids|, k) + 1 && top == LevelAt(hash, ids + [x], k)[Shift(|ids|, k)]
    requires Shift(|ids|, k) % 2 == 0
    ensures |LevelAt(hash, ids + [x], k + 1)| == Shift(|ids|, k + 1) + 1
    ensures LevelAt(hash, ids + [x], k + 1)[Shift(|ids|, k + 1)] == hash(top, top)
  {
    LastGoesUp(hash, LevelAt(hash, ids + [x], k), Shift(|ids|, k));
  }

  lemma {:induction false} TopFromRight<D>(hash: (D, D) -> D, ids: seq<D>, x: D, k: nat, left: D, top: D)
    requires |LevelAt(hash, ids + [x], k)| == Shift(|ids|, k) + 1 && top == LevelAt(hash, ids + [x], k)[Shift(|ids|, k)]
    requires Shift(|ids|, k) % 2 == 1 && Left(hash, ids, k) == [left]
    ensures |LevelAt(hash, ids + [x], k + 1)| == Shift(|ids|, k + 1) + 1
    ensures LevelAt(hash, ids + [x], k + 1)[Shift(|ids|, k + 1)] == hash(left, top)
  {
    CompleteIsStable(hash, ids, ids + [x], k, Shift(|ids|, k) - 1);
    LastGoesUp(hash, LevelAt(hash, ids + [x], k), Shift(|ids|, k));
  }

  lemma {:induction false} ClimbFromRight<D>(hash: (D, D) -> D, ids: seq<D>, x: D, k: nat, top: D, partial: bool, kept: seq<D>, unread: seq<D>)
    requires Climb(hash, ids, x, k, top, partial, kept, unread) && k < Length(|ids|)
    requires Shift(|ids|, k) % 2 == 1
    ensures unread != []
    ensures Climb(hash, ids, x, k + 1, hash(unread[0], top), partial, if partial then kept + [unread[0]] else kept, unread[1..])
  {
    NextUnread(hash, ids, k, unread);
    var left := unread[0];
    assert Lefts(hash, ids + [x], 0, k + 1) == if partial then kept + [left] else kept by {
      KeptUp(hash, ids, x, k, partial, left, top);
    }
    TopFromRight(hash, ids, x, k, left, top);
    CarryUp(|ids|, k);
  }

  lemma {:induction false} NextUnread<D>(hash: (D, D) -> D, ids: seq<D>, k: nat, unread: seq<D>)
    requires k < Length(|ids|) && Lefts(hash, ids, k, Length(|ids|)) <= unread && Shift(|ids|, k) % 2 == 1
    ensures unread != [] && Left(hash, ids, k) == [unread[0]]
    ensures Lefts(hash, ids, k + 1, Length(|ids|)) <= unread[1..]
  {
    var left, rest := Left(hash, ids, k), Lefts(hash, ids, k + 1, Length(|ids|));
    LeftsFirst(hash, ids, k, Length(|ids|));
    assert left + rest <= unread;
    assert (left + rest)[1..] == rest;
  }

  lemma {:induction false} ClimbEnd<D>(hash: (D, D) -> D, ids: seq<D>, x: D, k: nat, top: D, partial: bool, kept: seq<D>, unread: seq<D>)
    requires Climb(hash, ids, x, k, top, partial, kept, unread) && k == Length(|ids|)
    ensures top == Root(hash, ids + [x])
    ensures kept + [top] == Active(hash, ids + [x])
  {
    LengthShifts(|ids|);
    RootAtLevel(hash, ids + [x]);
  }

  // ---------- The two programs ----------

  /** The batch computation: each round duplicates a last id without a partner, hashes the pairs into the
      front half of the same list, and cuts the list to that half. */
  method MerkleRoot<D>(hash: (D, D) -> D, zero: D, leaves: seq<D>) returns (root: D)
    ensures root == if leaves == [] then zero else Root(hash, leaves)
  {
    if |leaves| == 0 {
      return zero;
    }
    var ids := leaves;
    while |ids| > 1
      invariant ids != [] && Root(hash, ids) == Root(hash, leaves)
      decreases |ids|
    {
      ghost var level := ids;
      if |ids| % 2 == 1 {
        ids := ids + [ids[|ids| - 1]];
      }
      ghost var padded := ids;
      var i := 0;
      while i < |ids| / 2
        invariant 0 <= i <= |ids| / 2 && |ids| == |padded|
        invariant ids[..i] == Level(hash, level)[..i]
        invariant ids[2 * i..] == padded[2 * i..]
      {
        assert ids[2 * i] == ids[2 * i..][0] == padded[2 * i..][0] && ids[2 * i + 1] == ids[2 * i..][1] == padded[2 * i..][1];
        assert Level(hash, level)[i] == Pair(hash, level, i);
        ids := ids[i := hash(ids[2 * i], ids[2 * i + 1])];
        i := i + 1;
      }
      ids := ids[..|ids| / 2];
      assert ids == Level(hash, level);
    }
    root := ids[0];
  }

  /** The number of levels between the leaf number `nodeCount` and the root above it. */
  method DepthBelowRoot(nodeCount: bv64) returns (depth: int)
    requires nodeCount != 0xFFFF_FFFF_FFFF_FFFF
    ensures depth == Length(Value(nodeCount))
  {
    DepthIsLength(nodeCount);
    NextIsPositive(nodeCount);
    var maxDepth := MaxDepth(nodeCount + 1);
    depth := maxDepth - 1;
  }

  /** Whether a position is a left child, and the position of its parent. */
  method OneLevelUp(index: bv64) returns (isLeft: bool, half: bv64)
    ensures isLeft <==> Value(index) % 2 == 0
    ensures Value(half) == Value(index) / 2
  {
    ValueHalf(index);
    return index & 1 == 0, index >> 1;
  }

  /** Join the new last node with its left neighbour, or with itself when it has none. */
  method JoinNeighbour<D>(hash: (D, D) -> D, ghost ids: seq<D>, ghost x: D, ghost k: nat, isLeft: bool,
      top: D, partial: bool, kept: seq<D>, unread: seq<D>)
    returns (newTop: D, nowPartial: bool, nowKept: seq<D>, nowUnread: seq<D>)
    requires Climb(hash, ids, x, k, top, partial, kept, unread) && k < Length(|ids|)
    requires isLeft <==> Shift(|ids|, k) % 2 == 0
    ensures Climb(hash, ids, x, k + 1, newTop, nowPartial, nowKept, nowUnread)
  {
    nowPartial, nowKept, nowUnread := partial, kept, unread;
    if isLeft {
      ClimbFromLeft(hash, ids, x, k, top, partial, kept, unread);
      if !partial {
        nowKept := kept + [top];
      }
      newTop := hash(top, top);
      nowPartial := true;
    } else {
      ClimbFromRight(hash, ids, x, k, top, partial, kept, unread);
      var leftValue := unread[0];
      nowUnread := unread[1..];
      if partial {
        nowKept := kept + [leftValue];
      }
      newTop := hash(leftValue, top);
    }
  }

  /** Climb from a new leaf to the root: the nodes to store from now on, with the root last. */
  method Collapse<D>(hash: (D, D) -> D, ghost ids: seq<D>, nodeCount: bv64, activeNodes: seq<D>, digest: D)
    returns (updated: seq<D>)
    requires Value(nodeCount) == |ids| && nodeCount != 0xFFFF_FFFF_FFFF_FFFF && activeNodes == Active(hash, ids)
    ensures updated == Active(hash, ids + [digest])
  {
    var partial := false;
    var currentDepth := DepthBelowRoot(nodeCount);
    var index := nodeCount;
    var top := digest;
    var unread := activeNodes;
    updated := [];
    ghost var k := 0;
    ClimbStart(hash, ids, digest);
    while currentDepth > 0
      invariant 0 <= k <= Length(|ids|) && currentDepth == Length(|ids|) - k
      invariant Value(index) == Shift(|ids|, k)
      invariant Climb(hash, ids, digest, k, top, partial, updated, unread)
    {
      var isLeft, half := OneLevelUp(index);
      top, partial, updated, unread := JoinNeighbour(hash, ids, digest, k, isLeft, top, partial, updated, unread);
      currentDepth := currentDepth - 1;
      index := half;
      k := k + 1;
    }
    ClimbEnd(hash, ids, digest, k, top, partial, updated, unread);
    updated := updated + [top];
  }

  class IncrementalMerkle<D> {
    const hash: (D, D) -> D
    const zero: D
    var nodeCount: bv64
    var activeNodes: seq<D>
    ghost var leaves: seq<D>

    ghost predicate Valid()
      reads this
    {
      Value(nodeCount) == |leaves| && activeNodes == Active(hash, leaves)
    }

    constructor (hash: (D, D) -> D, zero: D)
      ensures Valid() && leaves == [] && this.hash == hash && this.zero == zero
    {
      this.hash, this.zero := hash, zero;
      nodeCount, activeNodes, leaves := 0, [], [];
    }

    /** Add one leaf. The count must not wrap around 64 bits. */
    method Append(digest: D) returns (root: D)
      requires Valid() && nodeCount != 0xFFFF_FFFF_FFFF_FFFF
      modifies this
      ensures Valid() && leaves == old(leaves) + [digest]
      ensures root == Root(hash, leaves)
    {
      ValueNext(nodeCount);
      activeNodes := Collapse(hash, leaves, nodeCount, activeNodes, digest);
      nodeCount := nodeCount + 1;
      leaves := leaves + [digest];
      return activeNodes[|activeNodes| - 1];
    }

    /** At any time the stored root is the batch root of all leaves appended so far. */
    method GetRoot() returns (root: D)
      requires Valid()
      ensures root == if leaves == [] then zero else Root(hash, leaves)
    {
      if nodeCount > 0 {
        ValueNotZero(nodeCount);
        return activeNodes[|activeNodes| - 1];
      } else {
        return zero;
      }
    }
  }
}
