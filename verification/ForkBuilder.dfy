/** Building corrupted forks of an honest chain: fork `j` follows the chain up to block `j`, corrupts that block, and
    then relinks every later block to its own last block. */
module ForkBuilder {

  /** The parts of a block that the construction touches, and the rest of it. */
  datatype Block = Block(previous: nat, actionRoot: bv64, rest: nat)

  /** Block ids are digests; all that matters here is that different blocks have different ids. */
  ghost predicate Injective(id: Block -> nat) {
    forall a, b :: id(a) == id(b) ==> a == b
  }

  function Flip(x: bv64): (y: bv64) {
    x ^ 1
  }

  /** Flipping changes the lowest bit and no other, and undoes itself. */
  lemma {:induction false} FlipIsLowBit(x: bv64)
    ensures Flip(x) != x && Flip(x) >> 1 == x >> 1 && Flip(Flip(x)) == x
  {}

  /** Corrupting a block flips a bit of its action root and changes nothing else. */
  function Corrupt(b: Block): (c: Block)
    ensures c != b && c.previous == b.previous && c.rest == b.rest && c.actionRoot == Flip(b.actionRoot)
  {
    FlipIsLowBit(b.actionRoot);
    b.(actionRoot := Flip(b.actionRoot))
  }

  /** Each block names the id of the one before it; `root` is the id before the first. */
  ghost predicate Linked(id: Block -> nat, root: nat, blocks: seq<Block>) {
    forall k :: 0 <= k < |blocks| ==> LinkAt(id, root, blocks, k)
  }

  ghost predicate LinkAt(id: Block -> nat, root: nat, blocks: seq<Block>, k: nat)
    requires k < |blocks|
  {
    blocks[k].previous == if k == 0 then root else id(blocks[k - 1])
  }

  /** Block `k` of fork `j`. */
  function ForkBlock(id: Block -> nat, honest: seq<Block>, j: nat, k: nat): (b: Block)
    requires k < |honest|
  {
    if k < j then honest[k]
    else if k == j then Corrupt(honest[k])
    else honest[k].(previous := id(ForkBlock(id, honest, j, k - 1)))
  }

  function Fork(id: Block -> nat, honest: seq<Block>, j: nat, n: nat): (blocks: seq<Block>)
    requires n <= |honest|
  {
    seq(n, k requires 0 <= k < n => ForkBlock(id, honest, j, k))
  }

  lemma {:induction false} ForkAppend(id: Block -> nat, honest: seq<Block>, j: nat, n: nat)
    requires n < |honest|
    ensures Fork(id, honest, j, n + 1) == Fork(id, honest, j, n) + [ForkBlock(id, honest, j, n)]
  {}

  /** A fork of a linked chain is linked. */
  lemma {:induction false} ForkIsLinked(id: Block -> nat, root: nat, honest: seq<Block>, j: nat, n: nat)
    requires n <= |honest| && Linked(id, root, honest)
    ensures Linked(id, root, Fork(id, honest, j, n))
  {
    var blocks := Fork(id, honest, j, n);
    forall k: nat | k < |blocks| ensures LinkAt(id, root, blocks, k) {
      assert LinkAt(id, root, honest, k);
    }
  }

  lemma {:induction false} ForkBlocksDiffer(id: Block -> nat, honest: seq<Block>, root: nat, j: nat, j': nat, k: nat)
    requires Injective(id) && Linked(id, root, honest) && j < j' && j <= k < |honest|
    ensures ForkBlock(id, honest, j, k) != ForkBlock(id, honest, j', k)
  {
    if k > j {
      ForkBlocksDiffer(id, honest, root, j, j', k - 1);
      assert LinkAt(id, root, honest, k);
    }
  }

  /** Two forks share exactly the blocks before the earlier corruption. */
  lemma {:induction false} ForksDiverge(id: Block -> nat, root: nat, honest: seq<Block>, j: nat, j': nat, n: nat)
    requires Injective(id) && n <= |honest| && Linked(id, root, honest) && j < j'
    ensures forall k :: 0 <= k < n ==> (Fork(id, honest, j, n)[k] == Fork(id, honest, j', n)[k] <==> k < j)
  {
    forall k | 0 <= k < n ensures Fork(id, honest, j, n)[k] == Fork(id, honest, j', n)[k] <==> k < j {
      if k >= j {
        ForkBlocksDiffer(id, honest, root, j, j', k);
      }
    }
  }

  // ---------- The construction ----------

  /** A fork under construction: its blocks, and the leaves of its block merkle. */
  datatype Tracker = Tracker(blocks: seq<Block>, merkle: seq<nat>)

  function Ids(id: Block -> nat, blocks: seq<Block>): (ids: seq<nat>) {
    seq(|blocks|, k requires 0 <= k < |blocks| => id(blocks[k]))
  }

  /** Fork `j` after `n` blocks: the merkle starts with what the honest chain had before block `j` and continues with
      the fork's own ids. */
  ghost predicate Built(id: Block -> nat, base: seq<nat>, honest: seq<Block>, j: nat, n: nat, t: Tracker)
    requires n <= |honest|
  {
    && t.blocks == Fork(id, honest, j, n)
    && (j < n ==> t.merkle == base + Ids(id, honest[..j]) + Ids(id, t.blocks[j..]))
  }

  lemma {:induction false} CorruptionBuilt(id: Block -> nat, base: seq<nat>, honest: seq<Block>, i: nat, t: Tracker)
    requires i < |honest| && Built(id, base, honest, i, i, t)
    ensures var b := Corrupt(honest[i]);
      Built(id, base, honest, i, i + 1, Tracker(t.blocks + [b], base + Ids(id, honest[..i]) + [id(b)]))
  {
    var b := Corrupt(honest[i]);
    ForkAppend(id, honest, i, i);
    assert (t.blocks + [b])[i..] == [b];
    assert Ids(id, [b]) == [id(b)];
  }

  lemma {:induction false} RelinkBuilt(id: Block -> nat, base: seq<nat>, honest: seq<Block>, j: nat, i: nat, t: Tracker)
    requires j < i < |honest| && Built(id, base, honest, j, i, t)
    ensures t.blocks != []
    ensures var b := honest[i].(previous := id(t.blocks[|t.blocks| - 1]));
      Built(id, base, honest, j, i + 1, Tracker(t.blocks + [b], t.merkle + [id(b)]))
  {
    var b := honest[i].(previous := id(t.blocks[|t.blocks| - 1]));
    ForkAppend(id, honest, j, i);
    assert (t.blocks + [b])[j..] == t.blocks[j..] + [b];
    assert Ids(id, t.blocks[j..] + [b]) == Ids(id, t.blocks[j..]) + [id(b)];
  }

  /** The nested loops: the honest chain grows by one block per round, and every fork with it.  `base` are the
      merkle leaves of the chain before its first block. */
  method BuildForks(id: Block -> nat, base: seq<nat>, honest: seq<Block>, count: nat) returns (forks: seq<Tracker>)
    ensures |forks| == count
    ensures forall j :: 0 <= j < count ==> Built(id, base, honest, j, |honest|, forks[j])
  {
    forks := seq(count, _ => Tracker([], []));
    var i := 0;
    while i < |honest|
      invariant 0 <= i <= |honest| && |forks| == count
      invariant forall j :: 0 <= j < count ==> Built(id, base, honest, j, i, forks[j])
    {
      var b := honest[i];
      var j := 0;
      while j < count
        invariant 0 <= j <= count && |forks| == count
        invariant forall k :: 0 <= k < j ==> Built(id, base, honest, k, i + 1, forks[k])
        invariant forall k :: j <= k < count ==> Built(id, base, honest, k, i, forks[k])
      {
        var fork := forks[j];
        if j <= i {
          var copy := b;
          if j == i {
            CorruptionBuilt(id, base, honest, i, fork);
            fork := fork.(merkle := base + Ids(id, honest[..i]));
            copy := Corrupt(copy);
          } else {
            RelinkBuilt(id, base, honest, j, i, fork);
            copy := copy.(previous := id(fork.blocks[|fork.blocks| - 1]));
          }
          fork := Tracker(fork.blocks + [copy], fork.merkle + [id(copy)]);
        } else {
          ForkAppend(id, honest, j, i);
          fork := fork.(blocks := fork.blocks + [b]);
        }
        forks := forks[j := fork];
        j := j + 1;
      }
      i := i + 1;
    }
  }
}
