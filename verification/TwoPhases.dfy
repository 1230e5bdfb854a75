/** A block becomes irreversible in two phases: first it is proposed, with all its confirmations; then producers that
    know this from before their own block make it irreversible. */
module TwoPhases {
  import opened Options
  import opened Irreversibility

  /** `p` produced a block before which block `n` already had all its confirmations. */
  ghost predicate Knew(blocks: seq<Block>, p: Name, n: nat) {
    exists k :: 0 <= k < |blocks| && blocks[k].producer == p && Backed(blocks[..k], n)
  }

  /** What a producer implies, it knew. */
  ghost predicate ImpliedWasKnown(t: Trace) {
    forall p :: p in t.state.lastImplied ==> t.state.lastImplied[p] == 0 || Knew(t.blocks, p, t.state.lastImplied[p])
  }

  lemma {:induction false} KnewStays(blocks: seq<Block>, b: Block, p: Name, n: nat)
    requires Knew(blocks, p, n)
    ensures Knew(blocks + [b], p, n)
  {
    var k :| 0 <= k < |blocks| && blocks[k].producer == p && Backed(blocks[..k], n);
    assert (blocks + [b])[k] == blocks[k] && (blocks + [b])[..k] == blocks[..k];
  }

  lemma {:induction false} NewBlockKnows(t: Trace, h: Header)
    requires t.state.active != [] && AllBacked(t)
    ensures Knew(t.blocks + [BlockOf(t.state, h)], ProducerOf(t.state, h), t.state.proposed)
  {
    var blocks := t.blocks + [BlockOf(t.state, h)];
    assert blocks[|t.blocks|].producer == ProducerOf(t.state, h) && blocks[..|t.blocks|] == t.blocks;
  }

  lemma {:induction false} KnownStays(t: Trace, h: Header)
    requires Sound(t) && Next(t.state, h).Ok? && t.state.pending == [] && ImpliedWasKnown(t)
    ensures ImpliedWasKnown(Extended(t, h))
  {
    var u := Extended(t, h);
    NewBlockKnows(t, h);
    forall p | p in u.state.lastImplied ensures u.state.lastImplied[p] == 0 || Knew(u.blocks, p, u.state.lastImplied[p]) {
      if p != ProducerOf(t.state, h) && t.state.lastImplied[p] != 0 {
        KnewStays(t.blocks, BlockOf(t.state, h), p, t.state.lastImplied[p]);
      }
    }
  }

  /** Whoever makes block `x` irreversible knew of a block from `x` on that had all its confirmations before the own
      block. */
  ghost predicate KnewEnough(blocks: seq<Block>, p: Name, x: nat) {
    exists n: nat :: n >= x && Knew(blocks, p, n)
  }

  /** What a header makes irreversible, more than two thirds of the known producers knew to be confirmed before their own
      blocks. */
  lemma {:induction false} IrreversibleWasKnown(t: Trace, h: Header, x: nat)
    requires Sound(t) && Next(t.state, h).Ok? && t.state.pending == [] && ImpliedWasKnown(t)
    requires 0 < x <= Next(t.state, h).state.irreversible
    ensures 3 * |Implying(t.state, h, x)| > 2 * |t.state.lastImplied|
    ensures forall p :: p in Implying(t.state, h, x) ==> KnewEnough(Extended(t, h).blocks, p, x)
  {
    IrreversibleExact(t.state, h, x);
    NewBlockKnows(t, h);
    var blocks := Extended(t, h).blocks;
    forall p | p in Implying(t.state, h, x) ensures KnewEnough(blocks, p, x) {
      if p == ProducerOf(t.state, h) {
        assert Knew(blocks, p, t.state.proposed);
      } else {
        KnewStays(t.blocks, BlockOf(t.state, h), p, t.state.lastImplied[p]);
      }
    }
  }

  lemma {:induction false} ChainKnows(t: Trace, headers: seq<Header>)
    requires Sound(t) && ImpliedWasKnown(t) && t.state.pending == [] && Accepted(t.state, headers) && AllSane(t, headers)
    requires forall i :: 0 <= i < |headers| ==> headers[i].schedule.None?
    ensures ImpliedWasKnown(Chain(t, headers))
    decreases headers
  {
    if headers != [] {
      KnownStays(t, headers[0]);
      SoundStays(t, headers[0]);
      ChainKnows(Extended(t, headers[0]), headers[1..]);
    }
  }

  /** On every chain of sane headers with one schedule, what a producer implies it knew. */
  lemma {:induction false} KnownFromGenesis(s: State, headers: seq<Header>)
    requires Genesis(s) && s.pending == [] && Accepted(s, headers) && AllSane(Trace(s, [], 0), headers)
    requires forall i :: 0 <= i < |headers| ==> headers[i].schedule.None?
    ensures Sound(Chain(Trace(s, [], 0), headers)) && ImpliedWasKnown(Chain(Trace(s, [], 0), headers))
  {
    GenesisIsSound(s);
    ChainIsSound(Trace(s, [], 0), headers);
    ChainKnows(Trace(s, [], 0), headers);
  }
}
