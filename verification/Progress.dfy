/** What a chain achieves: a block with all its confirmations is proposed as long as it is tracked, and if the producers
    take their turns and confirm what they can, every block is proposed and then irreversible after a fixed number of
    blocks. */
module Progress {
  import opened Lists
  import opened Options
  import opened Powers
  import opened ProducerSchedule
  import opened Irreversibility
  import opened Advancing
  import opened Quorums

  // ---------- Confirmed blocks are proposed ----------

  /** The last 1024 blocks are tracked, or all above the proposed one, or all. */
  ghost predicate Watches(t: Trace) {
    |t.state.counts| == 1024 || t.state.blockNum <= t.state.proposed + |t.state.counts| || |t.state.counts| == |t.blocks|
  }

  lemma {:induction false} WatchesStays(t: Trace, h: Header)
    requires Regular(t.state) && Representable(t.state, h) && Next(t.state, h).Ok? && Watches(t)
    ensures Watches(Extended(t, h))
  {
    ConfirmedExact(t.state, h);
    ProposedNumber(t.state, h);
  }

  lemma {:induction false} OpenIsShort(t: Trace, k: nat)
    requires Sound(t) && Watches(t) && k < |t.blocks| && t.state.blockNum < t.blocks[k].num + 1024
    requires t.blocks[k].num > t.state.proposed
    ensures |Confirmers(t.blocks, t.blocks[k].num)| < t.blocks[k].required
  {
    assert Tally(t, k - (|t.blocks| - |t.state.counts|));
  }

  /** A block among the last 1024 that as many different producers confirmed as it needs is not above the proposed one. */
  lemma {:induction false} ConfirmedIsProposed(t: Trace, k: nat)
    requires Sound(t) && Watches(t) && k < |t.blocks| && t.state.blockNum < t.blocks[k].num + 1024
    requires |Confirmers(t.blocks, t.blocks[k].num)| >= t.blocks[k].required
    ensures t.blocks[k].num <= t.state.proposed
  {
    if t.blocks[k].num > t.state.proposed {
      OpenIsShort(t, k);
    }
  }

  lemma {:induction false} ChainWatches(t: Trace, headers: seq<Header>)
    requires Sound(t) && Watches(t) && Accepted(t.state, headers) && AllSane(t, headers)
    ensures Watches(Chain(t, headers))
    decreases headers
  {
    if headers != [] {
      WatchesStays(t, headers[0]);
      SoundStays(t, headers[0]);
      ChainWatches(Extended(t, headers[0]), headers[1..]);
    }
  }

  /** So it is on every chain of sane headers from genesis on. */
  lemma {:induction false} ConfirmedOnChain(s: State, headers: seq<Header>, k: nat)
    requires Genesis(s) && Accepted(s, headers) && AllSane(Trace(s, [], 0), headers)
    requires k < |Chain(Trace(s, [], 0), headers).blocks|
    ensures var t := Chain(Trace(s, [], 0), headers); var b := t.blocks[k];
      t.state.blockNum < b.num + 1024 && |Confirmers(t.blocks, b.num)| >= b.required ==> b.num <= t.state.proposed
  {
    var start := Trace(s, [], 0);
    GenesisIsSound(s);
    ChainIsSound(start, headers);
    ChainWatches(start, headers);
    var t := Chain(start, headers);
    if t.state.blockNum < t.blocks[k].num + 1024 && |Confirmers(t.blocks, t.blocks[k].num)| >= t.blocks[k].required {
      ConfirmedIsProposed(t, k);
    }
  }

  /** Twelve blocks for each confirmation that the largest schedule needs are within what is tracked. */
  lemma {:induction false} EnoughIsTracked(size: nat)
    requires size <= MAX_PRODUCERS
    ensures Required(size) * REPETITIONS <= MAX_TRACKED && 12 * Required(size) <= 1024
  {
    assert size * 2 / 3 <= 83;
  }

  // ---------- Producers that take their turns ----------

  /** The header follows in the next slot. */
  ghost predicate InTurn(s: State, h: Header) {
    SlotOf(s, h) == s.slot + 1
  }

  /** The header confirms everything since the last block of its producer. */
  ghost predicate Attentive(s: State, h: Header)
    requires s.active != []
  {
    var p := ProducerOf(s, h);
    if p in s.lastProduced then s.lastProduced[p] + h.confirmed >= s.blockNum else h.confirmed >= s.blockNum
  }

  ghost predicate Diligent(t: Trace, headers: seq<Header>)
    requires t.state.active != [] && Accepted(t.state, headers)
    decreases headers
  {
    headers == [] ||
    (InTurn(t.state, headers[0]) && Attentive(t.state, headers[0]) && Sane(t, headers[0]) && headers[0].schedule.None?
     && Diligent(Extended(t, headers[0]), headers[1..]))
  }

  /** Whose block it is depends on the slot alone. */
  ghost predicate OnTurn(t: Trace, schedule: seq<Name>, first: nat)
    requires schedule != []
  {
    && t.state.slot == first + |t.blocks|
    && forall k :: 0 <= k < |t.blocks| ==> t.blocks[k].producer == schedule[(first + 1 + k) / 12 % |schedule|]
  }

  /** The numbers kept for the producers are those of their blocks. */
  ghost predicate Exactly(t: Trace) {
    && t.promotedAt == 0
    && (forall p :: p in t.state.lastProduced ==> LastBlock(t, p))
  }

  ghost predicate LastBlock(t: Trace, p: Name)
    requires p in t.state.lastProduced
  {
    exists k :: 0 <= k < |t.blocks| && t.blocks[k].producer == p && t.blocks[k].num == t.state.lastProduced[p]
  }

  /** Whoever produced at or after a block has confirmed it. */
  ghost predicate Covers(t: Trace) {
    forall i, k :: 0 <= i <= k < |t.blocks| ==> Covered(t.blocks, i, k)
  }

  ghost predicate Covered(blocks: seq<Block>, i: nat, k: nat)
    requires i < |blocks| && k < |blocks|
  {
    blocks[k].producer in Confirmers(blocks, blocks[i].num)
  }

  ghost predicate Orderly(t: Trace, schedule: seq<Name>, first: nat)
    requires schedule != []
  {
    && Sound(t) && Watches(t) && Scheduled(t, schedule) && OnTurn(t, schedule, first) && Exactly(t) && Covers(t)
    && (forall p :: p in t.state.lastImplied ==> p in schedule)
  }

  lemma {:induction false} ExactlyStays(t: Trace, h: Header)
    requires t.state.active != [] && Next(t.state, h).Ok? && t.state.pending == [] && Exactly(t)
    ensures Exactly(Extended(t, h))
  {
    var u, n := Extended(t, h), |t.blocks|;
    forall p | p in u.state.lastProduced ensures LastBlock(u, p) {
      if p == ProducerOf(t.state, h) {
        assert u.blocks[n].producer == p && u.blocks[n].num == u.state.lastProduced[p];
      } else {
        assert LastBlock(t, p);
        var k :| 0 <= k < |t.blocks| && t.blocks[k].producer == p && t.blocks[k].num == t.state.lastProduced[p];
        assert u.blocks[k] == t.blocks[k];
      }
    }
  }

  lemma {:induction false} NewBlockCovers(t: Trace, h: Header, i: nat)
    requires Numbered(t) && Remembers(t) && Exactly(t) && Covers(t) && t.state.active != [] && Attentive(t.state, h)
    requires i <= |t.blocks|
    ensures var blocks := t.blocks + [BlockOf(t.state, h)];
      BlockOf(t.state, h).producer in Confirmers(blocks, blocks[i].num)
  {
    var b, p := BlockOf(t.state, h), ProducerOf(t.state, h);
    var blocks := t.blocks + [b];
    ConfirmersAppend(t.blocks, b, blocks[i].num);
    if i < |t.blocks| && p in t.state.lastProduced {
      assert LastBlock(t, p);
      var k :| 0 <= k < |t.blocks| && t.blocks[k].producer == p && t.blocks[k].num == t.state.lastProduced[p];
      if k >= i {
        assert Covered(t.blocks, i, k);
      }
    }
  }

  lemma {:induction false} CoversStays(t: Trace, h: Header)
    requires Numbered(t) && Remembers(t) && Exactly(t) && Covers(t) && t.state.active != [] && Attentive(t.state, h)
    requires Next(t.state, h).Ok?
    ensures Covers(Extended(t, h))
  {
    var b := BlockOf(t.state, h);
    var blocks := t.blocks + [b];
    forall i, k | 0 <= i <= k < |blocks| ensures Covered(blocks, i, k) {
      if k < |t.blocks| {
        assert Covered(t.blocks, i, k);
        ConfirmersAppend(t.blocks, b, blocks[i].num);
      } else {
        NewBlockCovers(t, h, i);
      }
    }
  }

  lemma {:induction false} OnTurnStays(t: Trace, h: Header, schedule: seq<Name>, first: nat)
    requires schedule != [] && t.state.active == schedule && OnTurn(t, schedule, first) && InTurn(t.state, h) && Next(t.state, h).Ok?
    ensures OnTurn(Extended(t, h), schedule, first)
  {
    ProducerInTurn(t.state, h);
  }

  lemma {:induction false} ScheduledOnce(t: Trace, h: Header, schedule: seq<Name>)
    requires schedule != [] && Scheduled(t, schedule) && Next(t.state, h).Ok? && h.schedule.None?
    requires forall p :: p in t.state.lastImplied ==> p in schedule
    ensures Scheduled(Extended(t, h), schedule) && forall p :: p in Extended(t, h).state.lastImplied ==> p in schedule
  {}

  lemma {:induction false} OrderlyStays(t: Trace, h: Header, schedule: seq<Name>, first: nat)
    requires schedule != [] && Orderly(t, schedule, first) && Representable(t.state, h) && Next(t.state, h).Ok?
    requires InTurn(t.state, h) && Attentive(t.state, h) && Sane(t, h) && h.schedule.None?
    ensures Orderly(Extended(t, h), schedule, first)
  {
    SoundStays(t, h);
    WatchesStays(t, h);
    ScheduledOnce(t, h, schedule);
    OnTurnStays(t, h, schedule, first);
    ExactlyStays(t, h);
    CoversStays(t, h);
  }

  // ---------- Enough producers in a stretch of blocks ----------

  /** Who is on turn `q` turns after `turn`. */
  ghost function Taker(schedule: seq<Name>, turn: nat, q: nat): (p: Name)
    requires schedule != []
  {
    schedule[(turn + q) % |schedule|]
  }

  ghost function Takers(schedule: seq<Name>, turn: nat, r: nat): (names: set<Name>)
    requires schedule != []
  {
    set q | 0 <= q < r :: Taker(schedule, turn, q)
  }

  lemma {:induction false} TakersDiffer(schedule: seq<Name>, turn: nat, q: nat, q': nat)
    requires Distinct(schedule) && q < q' < |schedule|
    ensures Taker(schedule, turn, q) != Taker(schedule, turn, q')
  {
    DifferentTurns(|schedule|, turn + q, turn + q');
  }

  lemma {:induction false} DifferentTurns(size: nat, a: nat, b: nat)
    requires a < b < a + size
    ensures a % size != b % size
  {
    if a % size == b % size {
      var q, x := Division(a, size);
      var q', y := Division(b, size);
      MulOrder(q + 1, q', size);
      MulOrder(q', q, size);
      Distribute(q, 1, size);
    }
  }

  lemma {:induction false} TakersStep(schedule: seq<Name>, turn: nat, r: nat)
    requires schedule != []
    ensures Takers(schedule, turn, r + 1) == Takers(schedule, turn, r) + {Taker(schedule, turn, r)}
  {}

  lemma {:induction false} TakersAreMany(schedule: seq<Name>, turn: nat, r: nat)
    requires Distinct(schedule) && schedule != [] && r <= |schedule|
    ensures |Takers(schedule, turn, r)| == r
  {
    if r == 0 {
      assert Takers(schedule, turn, 0) == {};
    } else {
      TakersAreMany(schedule, turn, r - 1);
      var last := Taker(schedule, turn, r - 1);
      TakersStep(schedule, turn, r - 1);
      forall q | 0 <= q < r - 1 ensures Taker(schedule, turn, q) != last {
        TakersDiffer(schedule, turn, q, r - 1);
      }
    }
  }

  lemma {:induction false} TurnOf(slot: nat, q: nat)
    ensures (slot + 12 * q) / 12 == slot / 12 + q
  {}

  lemma {:induction false} TakerProduces(t: Trace, schedule: seq<Name>, first: nat, i: nat, q: nat)
    requires schedule != [] && OnTurn(t, schedule, first) && i + 12 * q < |t.blocks|
    ensures t.blocks[i + 12 * q].producer == Taker(schedule, (first + 1 + i) / 12, q)
  {
    TurnOf(first + 1 + i, q);
    assert first + 1 + (i + 12 * q) == first + 1 + i + 12 * q;
  }

  /** In twelve times `r` blocks on turn there are `r` different producers. */
  lemma {:induction false} StretchHasProducers(t: Trace, schedule: seq<Name>, first: nat, i: nat, r: nat, names: set<Name>)
    requires schedule != [] && Distinct(schedule) && OnTurn(t, schedule, first) && r <= |schedule| && i + 12 * r <= |t.blocks|
    requires forall k :: i <= k < i + 12 * r ==> t.blocks[k].producer in names
    ensures |names| >= r
  {
    var turn := (first + 1 + i) / 12;
    TakersAreMany(schedule, turn, r);
    forall q | 0 <= q < r ensures Taker(schedule, turn, q) in names {
      TakerProduces(t, schedule, first, i, q);
    }
    Subset(Takers(schedule, turn, r), names);
  }

  // ---------- Every block is proposed ----------

  /** All but the last `12 * required` blocks are proposed. */
  ghost predicate Prompt(t: Trace, required: nat) {
    forall i :: 0 <= i < |t.blocks| && i + 12 * required <= |t.blocks| ==> t.blocks[i].num <= t.state.proposed
  }

  lemma {:induction false} NewlyPrompt(u: Trace, schedule: seq<Name>, first: nat, i: nat)
    requires schedule != [] && Distinct(schedule) && Orderly(u, schedule, first) && i + 12 * Required(|schedule|) == |u.blocks|
    ensures u.blocks[i].num <= u.state.proposed
  {
    var r := Required(|schedule|);
    EnoughIsTracked(|schedule|);
    forall k | i <= k < i + 12 * r ensures u.blocks[k].producer in Confirmers(u.blocks, u.blocks[i].num) {
      assert Covered(u.blocks, i, k);
    }
    StretchHasProducers(u, schedule, first, i, r, Confirmers(u.blocks, u.blocks[i].num));
    ConfirmedIsProposed(u, i);
  }

  lemma {:induction false} PromptStays(t: Trace, h: Header, schedule: seq<Name>, first: nat)
    requires schedule != [] && Distinct(schedule) && Orderly(t, schedule, first) && Prompt(t, Required(|schedule|))
    requires Representable(t.state, h) && Next(t.state, h).Ok? && Orderly(Extended(t, h), schedule, first)
    ensures Prompt(Extended(t, h), Required(|schedule|))
  {
    var u, r := Extended(t, h), Required(|schedule|);
    OrderedStays(t.state, h);
    forall i | 0 <= i < |u.blocks| && i + 12 * r <= |u.blocks| ensures u.blocks[i].num <= u.state.proposed {
      if i + 12 * r <= |t.blocks| {
        assert u.blocks[i] == t.blocks[i];
      } else {
        NewlyPrompt(u, schedule, first, i);
      }
    }
  }

  // ---------- Every block becomes irreversible ----------

  /** Whoever produced once a block was proposed implies at least that block. */
  ghost predicate Implies(t: Trace, required: nat) {
    forall i, k :: 0 <= i && i + 12 * required <= k < |t.blocks| ==> ImpliesAt(t, i, k)
  }

  ghost predicate ImpliesAt(t: Trace, i: nat, k: nat)
    requires i < |t.blocks| && k < |t.blocks|
  {
    t.blocks[k].producer in t.state.lastImplied && t.state.lastImplied[t.blocks[k].producer] >= t.blocks[i].num
  }

  lemma {:induction false} ImpliesStays(t: Trace, h: Header, required: nat)
    requires Regular(t.state) && Next(t.state, h).Ok? && t.state.pending == [] && Prompt(t, required) && Implies(t, required)
    requires required > 0
    ensures Implies(Extended(t, h), required)
  {
    var u := Extended(t, h);
    forall i, k | 0 <= i && i + 12 * required <= k < |u.blocks| ensures ImpliesAt(u, i, k) {
      assert u.blocks[i] == t.blocks[i];
      if k < |t.blocks| {
        assert ImpliesAt(t, i, k);
      }
    }
  }

  /** All but the last `24 * required` blocks before the newest one are irreversible. */
  ghost predicate Final(t: Trace, required: nat) {
    forall i :: 0 <= i && i + 24 * required < |t.blocks| ==> t.blocks[i].num <= t.state.irreversible
  }

  lemma {:induction false} FewImply(t: Trace, schedule: seq<Name>)
    requires forall p :: p in t.state.lastImplied ==> p in schedule
    ensures |t.state.lastImplied| <= |schedule|
  {
    NamesAreFew(schedule);
    assert |t.state.lastImplied| == |t.state.lastImplied.Keys|;
    Subset(t.state.lastImplied.Keys, Elements(schedule));
  }

  lemma {:induction false} FinalStays(t: Trace, h: Header, schedule: seq<Name>, first: nat)
    requires schedule != [] && Distinct(schedule) && Orderly(t, schedule, first) && Next(t.state, h).Ok?
    requires Implies(t, Required(|schedule|))
    ensures Final(Extended(t, h), Required(|schedule|))
  {
    var u, r := Extended(t, h), Required(|schedule|);
    FewImply(t, schedule);
    ImpliedGrows(t.state, h);
    forall i | 0 <= i && i + 24 * r < |u.blocks| ensures u.blocks[i].num <= u.state.irreversible {
      var m, x := t.state.lastImplied, t.blocks[i].num;
      forall k | i + 12 * r <= k < i + 12 * r + 12 * r ensures t.blocks[k].producer in AtLeast(m, x) {
        assert ImpliesAt(t, i, k);
      }
      StretchHasProducers(t, schedule, first, i + 12 * r, r, AtLeast(m, x));
      assert m != map[];
      ThirdIsQuorum(m, x);
    }
  }

  /** Such headers exist: the next one, for any chain that is not too long for its number of confirmations. */
  lemma {:induction false} DiligentHeader(t: Trace) returns (h: Header)
    requires Regular(t.state) && t.state.blockNum < 0x1_0000
    ensures Representable(t.state, h) && Next(t.state, h).Ok? && InTurn(t.state, h) && Attentive(t.state, h) && Sane(t, h)
      && h.schedule.None?
  {
    var p := ProducerOf(t.state, Header(0, 0, None));
    h := Header(0, t.state.blockNum - if p in t.state.lastProduced then t.state.lastProduced[p] else 0, None);
    assert ProducerOf(t.state, h) == p;
    RepeatsExact(t.state, h);
  }

  lemma {:induction false} ChainProgresses(t: Trace, headers: seq<Header>, schedule: seq<Name>, first: nat)
    requires schedule != [] && Distinct(schedule) && Orderly(t, schedule, first) && Accepted(t.state, headers) && Diligent(t, headers)
    requires Prompt(t, Required(|schedule|)) && Implies(t, Required(|schedule|)) && Final(t, Required(|schedule|))
    ensures Prompt(Chain(t, headers), Required(|schedule|)) && Final(Chain(t, headers), Required(|schedule|))
    decreases headers
  {
    if headers != [] {
      var h := headers[0];
      OrderlyStays(t, h, schedule, first);
      PromptStays(t, h, schedule, first);
      ImpliesStays(t, h, Required(|schedule|));
      FinalStays(t, h, schedule, first);
      ChainProgresses(Extended(t, h), headers[1..], schedule, first);
    }
  }

  /** If different producers take their turns without a gap and each confirms everything since its last block, then every
      block is proposed at the latest by the last of `12 * required` blocks, itself the first, and irreversible `24 *
      required` blocks after it. */
  lemma {:induction false} EveryBlockBecomesIrreversible(s: State, headers: seq<Header>)
    requires Genesis(s) && s.pending == [] && Distinct(s.active) && Accepted(s, headers) && Diligent(Trace(s, [], 0), headers)
    ensures var t, required := Chain(Trace(s, [], 0), headers), |s.active| * 2 / 3 + 1;
      && (forall i :: 0 <= i && i + 12 * required <= |t.blocks| ==> t.blocks[i].num <= t.state.proposed)
      && (forall i :: 0 <= i && i + 24 * required < |t.blocks| ==> t.blocks[i].num <= t.state.irreversible)
  {
    GenesisIsSound(s);
    ChainProgresses(Trace(s, [], 0), headers, s.active, s.slot);
  }
}
