/** Delegated proof of stake: how headers count confirmations, propose blocks as irreversible, make them irreversible,
    and change the set of producers. */
module Irreversibility {
  import opened Options
  import opened ProducerSchedule

  type Name = nat

  const REPETITIONS := 12
  const MAX_PRODUCERS := 125
  const MAX_TRACKED := 1024
  const WORD := 0x1_0000_0000

  // ---------- The number that two thirds imply ----------

  type Numbers = map<Name, nat>

  ghost function Below(m: Numbers, x: nat): (names: set<Name>) {
    set p | p in m && m[p] < x
  }

  ghost function AtMost(m: Numbers, x: nat): (names: set<Name>) {
    set p | p in m && m[p] <= x
  }

  /** `r` stands at place `k` when the numbers are sorted. */
  ghost predicate Ranks(m: Numbers, k: nat, r: nat) {
    (exists p :: p in m && m[p] == r) && |Below(m, r)| <= k < |AtMost(m, r)|
  }

  lemma {:induction false} Subset(a: set<Name>, b: set<Name>)
    requires a <= b
    ensures |a| <= |b|
  {
    if a != {} {
      var x :| x in a;
      Subset(a - {x}, b - {x});
    }
  }

  ghost predicate IsLeast(m: Numbers, p: Name) {
    p in m && forall q :: q in m ==> m[p] <= m[q]
  }

  lemma {:induction false} LeastExists(m: Numbers) returns (p: Name)
    requires m != map[]
    ensures IsLeast(m, p)
  {
    p :| p in m;
    var rest := m - {p};
    assert m == rest[p := m[p]];
    if rest != map[] {
      var q := LeastExists(rest);
      if m[q] < m[p] {
        p := q;
      }
    }
  }

  /** Taking out a least number moves every rank down by one. */
  lemma {:induction false} RankWithoutLeast(m: Numbers, p: Name, k: nat, r: nat)
    requires IsLeast(m, p) && k > 0 && Ranks(m - {p}, k - 1, r)
    ensures Ranks(m, k, r)
  {
    var rest := m - {p};
    var q :| q in rest && rest[q] == r;
    assert q in m && m[q] == r;
    assert AtMost(m, r) == AtMost(rest, r) + {p};
    Subset(Below(m, r), Below(rest, r) + {p});
  }

  lemma {:induction false} LeastRanksFirst(m: Numbers, p: Name)
    requires IsLeast(m, p)
    ensures Ranks(m, 0, m[p])
  {
    assert Below(m, m[p]) == {};
    assert p in AtMost(m, m[p]);
  }

  lemma {:induction false} RankExists(m: Numbers, k: nat) returns (r: nat)
    requires k < |m|
    ensures Ranks(m, k, r)
    decreases k
  {
    var p := LeastExists(m);
    if k == 0 {
      LeastRanksFirst(m, p);
      r := m[p];
    } else {
      assert (m - {p}).Keys == m.Keys - {p};
      r := RankExists(m - {p}, k - 1);
      RankWithoutLeast(m, p, k, r);
    }
  }

  /** A rank bounds how many numbers are lower, and the other way round. */
  lemma {:induction false} RankIsBound(m: Numbers, k: nat, r: nat, x: nat)
    requires Ranks(m, k, r)
    ensures x <= r <==> |Below(m, x)| <= k
  {
    if x <= r {
      Subset(Below(m, x), Below(m, r));
    } else {
      Subset(AtMost(m, r), Below(m, x));
    }
  }

  ghost function Ranked(m: Numbers, k: nat): (r: nat)
    requires k < |m|
    ensures Ranks(m, k, r)
  {
    assert exists r: nat :: Ranks(m, k, r) by {
      var r := RankExists(m, k);
    }
    var r: nat :| Ranks(m, k, r);
    r
  }

  /** The number at one third of the sorted list. */
  ghost function Third(m: Numbers): (r: nat) {
    if m == map[] then 0 else Ranked(m, (|m| - 1) / 3)
  }

  function Required(size: nat): (n: nat) {
    size * 2 / 3 + 1
  }

  ghost function AtLeast(m: Numbers, x: nat): (names: set<Name>) {
    set p | p in m && m[p] >= x
  }

  /** It is the greatest number that more than two thirds of the producers imply. */
  lemma {:induction false} ThirdIsQuorum(m: Numbers, x: nat)
    requires m != map[]
    ensures x <= Third(m) <==> |AtLeast(m, x)| >= Required(|m|)
  {
    RankIsBound(m, (|m| - 1) / 3, Third(m), x);
    assert m.Keys == Below(m, x) + AtLeast(m, x);
    assert |m| == |m.Keys|;
  }

  // ---------- Confirmations ----------

  /** Room for one more block; the oldest one is forgotten when too many are tracked.  Counts are bytes. */
  function Track(counts: seq<nat>, required: nat): (r: seq<nat>) {
    (if |counts| < MAX_TRACKED then counts else counts[1..]) + [required % 256]
  }

  function OneLess(count: nat): (r: nat) {
    (count + 255) % 256
  }

  /** Confirm up to `left` blocks from position `i` down.  The first one that needs no more confirmations is proposed,
      and it and all before it are no longer tracked. */
  function Confirm(counts: seq<nat>, i: int, left: nat): (r: (seq<nat>, Option<nat>))
    requires -1 <= i < |counts|
    decreases left
  {
    if i < 0 || left == 0 then (counts, None)
    else if OneLess(counts[i]) == 0 then (counts[i + 1..], Some(i))
    else Confirm(counts[i := OneLess(counts[i])], i - 1, left - 1)
  }

  ghost predicate Counts(counts: seq<nat>) {
    forall j :: 0 <= j < |counts| ==> 0 < counts[j] < 256
  }

  /** What is left of a count after a block with `left` confirmations down from `i`. */
  ghost function Lowered(counts: seq<nat>, i: int, left: nat, j: nat): (r: int)
    requires j < |counts|
  {
    counts[j] as int - (if i - left < j <= i then 1 else 0)
  }

  lemma {:induction false} ConfirmExact(counts: seq<nat>, i: int, left: nat)
    requires -1 <= i < |counts| && Counts(counts)
    ensures Confirm(counts, i, left).1.None? ==>
      && |Confirm(counts, i, left).0| == |counts|
      && forall j :: 0 <= j < |counts| ==> Confirm(counts, i, left).0[j] == Lowered(counts, i, left, j) > 0
    ensures Confirm(counts, i, left).1.Some? ==>
      var z := Confirm(counts, i, left).1.value;
      && i - left < z <= i && Lowered(counts, i, left, z) == 0
      && |Confirm(counts, i, left).0| == |counts| - z - 1
      && forall j :: z < j < |counts| ==> Confirm(counts, i, left).0[j - z - 1] == Lowered(counts, i, left, j) > 0
    decreases left
  {
    if i >= 0 && left > 0 && OneLess(counts[i]) != 0 {
      var next := counts[i := OneLess(counts[i])];
      ConfirmExact(next, i - 1, left - 1);
      forall j | 0 <= j < |counts| ensures Lowered(counts, i, left, j) == Lowered(next, i - 1, left - 1, j) {}
    }
  }

  // ---------- Header states ----------

  datatype State = State(blockNum: nat, slot: nat, proposed: nat, irreversible: nat, counts: seq<nat>,
                         active: seq<Name>, pending: seq<Name>, pendingSince: nat,
                         lastProduced: Numbers, lastImplied: Numbers)

  /** What a block brings: its time slot (zero for the next one), how many earlier blocks it confirms, and a schedule
      that is to become active. */
  datatype Header = Header(slot: nat, confirmed: nat, schedule: Option<seq<Name>>)

  datatype Result = Ok(state: State) | NotInFuture | DoubleConfirm | ScheduleRefused

  function SlotOf(s: State, h: Header): (slot: nat) {
    if h.slot == 0 then s.slot + 1 else h.slot
  }

  function ProducerOf(s: State, h: Header): (p: Name)
    requires s.active != []
  {
    ExpectedProducer(s.active, REPETITIONS, SlotOf(s, h))
  }

  /** The number of the first block that a header confirms, on 32 bits. */
  function FirstConfirmed(s: State, h: Header): (n: nat) {
    (s.blockNum + 1 - h.confirmed) % WORD
  }

  predicate Repeats(s: State, h: Header)
    requires s.active != []
  {
    var p := ProducerOf(s, h);
    p in s.lastProduced && s.lastProduced[p] >= FirstConfirmed(s, h)
  }

  function Confirmed(s: State, h: Header): (r: (seq<nat>, Option<nat>)) {
    var counts := Track(s.counts, Required(|s.active|));
    Confirm(counts, |counts| - 1, h.confirmed + 1)
  }

  /** The proposed number: that of the block at the position found, or the old one. */
  function Proposed(s: State, h: Header): (n: nat) {
    var size := |Track(s.counts, Required(|s.active|))|;
    match Confirmed(s, h).1
    case None => s.proposed
    case Some(i) => (s.blockNum + 1 - (size - 1 - i)) % WORD
  }

  function Implied(s: State, h: Header): (m: Numbers)
    requires s.active != []
  {
    var p := ProducerOf(s, h);
    if p in s.lastImplied then s.lastImplied[p := s.proposed] else s.lastImplied
  }

  ghost function Irreversible(s: State, h: Header): (n: nat)
    requires s.active != []
  {
    Third(Implied(s, h))
  }

  ghost predicate Promotes(s: State, h: Header)
    requires s.active != []
  {
    s.pending != [] && Irreversible(s, h) >= s.pendingSince
  }

  /** The numbers of a new schedule: kept where the producer is known, `otherwise` for new ones. */
  function Rebuilt(schedule: seq<Name>, known: Numbers, p: Name, own: nat, otherwise: nat): (m: Numbers) {
    map q | q in schedule :: if q == p then own else if q in known then known[q] else otherwise
  }

  ghost function Next(s: State, h: Header): (r: Result)
    requires s.active != []
  {
    var p := ProducerOf(s, h);
    var irreversible := Irreversible(s, h);
    if h.slot != 0 && h.slot <= s.slot then NotInFuture
    else if Repeats(s, h) then DoubleConfirm
    else if h.schedule.Some? && (Promotes(s, h) || s.pending != []) then ScheduleRefused
    else Ok(State(
      s.blockNum + 1, SlotOf(s, h), Proposed(s, h), irreversible, Confirmed(s, h).0,
      if Promotes(s, h) then s.pending else s.active,
      if h.schedule.Some? then h.schedule.value else if Promotes(s, h) then [] else s.pending,
      if h.schedule.Some? then s.blockNum + 1 else s.pendingSince,
      (if Promotes(s, h) then Rebuilt(s.pending, s.lastProduced, p, s.blockNum + 1, irreversible) else s.lastProduced)
        [p := s.blockNum + 1],
      if Promotes(s, h) then Rebuilt(s.pending, s.lastImplied, p, s.proposed, irreversible)
      else s.lastImplied[p := s.proposed]))
  }

  // ---------- Histories ----------

  /** One block of a chain: who produced it, what it confirms, and how many confirmations it needs itself. */
  datatype Block = Block(producer: Name, num: nat, confirmed: nat, required: nat)

  /** A state with the blocks that led to it and the number of the block that last changed the schedule. */
  datatype Trace = Trace(state: State, blocks: seq<Block>, promotedAt: nat)

  ghost predicate Confirms(b: Block, n: nat) {
    b.num - b.confirmed <= n <= b.num
  }

  /** The producers that confirmed block `n`. */
  ghost function Confirmers(blocks: seq<Block>, n: nat): (names: set<Name>) {
    set k | 0 <= k < |blocks| && Confirms(blocks[k], n) :: blocks[k].producer
  }

  lemma {:induction false} ConfirmersAppend(blocks: seq<Block>, b: Block, n: nat)
    ensures Confirmers(blocks + [b], n) == Confirmers(blocks, n) + (if Confirms(b, n) then {b.producer} else {})
  {
    var all := blocks + [b];
    forall x ensures x in Confirmers(all, n) <==> x in Confirmers(blocks, n) + (if Confirms(b, n) then {b.producer} else {}) {
      if x in Confirmers(blocks, n) {
        var k :| 0 <= k < |blocks| && Confirms(blocks[k], n) && blocks[k].producer == x;
        assert all[k] == blocks[k];
      }
      if Confirms(b, n) {
        assert all[|blocks|] == b;
      }
    }
  }

  /** Block `n` has the confirmations it needs, from as many different producers. */
  ghost predicate Backed(blocks: seq<Block>, n: nat) {
    n == 0 || exists k :: 0 <= k < |blocks| && blocks[k].num == n && |Confirmers(blocks, n)| >= blocks[k].required
  }

  lemma {:induction false} BackedStays(blocks: seq<Block>, b: Block, n: nat)
    requires Backed(blocks, n)
    ensures Backed(blocks + [b], n)
  {
    if n != 0 {
      var k :| 0 <= k < |blocks| && blocks[k].num == n && |Confirmers(blocks, n)| >= blocks[k].required;
      ConfirmersAppend(blocks, b, n);
      Subset(Confirmers(blocks, n), Confirmers(blocks + [b], n));
      assert (blocks + [b])[k] == blocks[k];
    }
  }

  // ---------- What every header keeps of a state ----------

  ghost predicate Ordered(s: State) {
    && s.proposed + |s.counts| <= s.blockNum && s.irreversible <= s.proposed
    && forall p :: p in s.lastImplied ==> s.lastImplied[p] <= s.proposed
  }

  ghost predicate Sized(s: State) {
    && s.active != [] && |s.active| <= MAX_PRODUCERS && |s.pending| <= MAX_PRODUCERS
    && |s.counts| <= MAX_TRACKED
  }

  ghost predicate Regular(s: State) {
    && Sized(s) && Counts(s.counts) && Ordered(s)
    && forall p :: p in s.lastProduced ==> s.lastProduced[p] <= s.blockNum
  }

  /** Block numbers have 32 bits, numbers of confirmations 16, and schedules at most 125 producers. */
  ghost predicate Representable(s: State, h: Header) {
    && s.blockNum + 1 < 0x1_0000_0000 && h.confirmed < 0x1_0000
    && (h.schedule.Some? ==> |h.schedule.value| <= MAX_PRODUCERS)
  }

  ghost function Tracked(s: State): (counts: seq<nat>) {
    Track(s.counts, Required(|s.active|))
  }

  /** What a header leaves of the counts: the end of the lowered list, from after the last one that reached zero. */
  ghost predicate Leaves(counts: seq<nat>, left: nat, r: (seq<nat>, Option<nat>)) {
    && |r.0| + (if r.1.Some? then r.1.value + 1 else 0) == |counts|
    && (r.1.Some? ==> Lowered(counts, |counts| - 1, left, r.1.value) == 0)
    && forall j :: 0 <= j < |r.0| ==> 0 < r.0[j] == Lowered(counts, |counts| - 1, left, j + |counts| - |r.0|)
  }

  lemma {:induction false} ConfirmLeaves(counts: seq<nat>, left: nat)
    requires Counts(counts)
    ensures Leaves(counts, left, Confirm(counts, |counts| - 1, left))
  {
    ConfirmExact(counts, |counts| - 1, left);
    var r := Confirm(counts, |counts| - 1, left);
    var cut := |counts| - |r.0|;
    forall j | 0 <= j < |r.0| ensures 0 < r.0[j] == Lowered(counts, |counts| - 1, left, j + cut) {
      var i := j + cut;
      assert r.1.Some? ==> j == i - r.1.value - 1;
      assert Lowered(counts, |counts| - 1, left, i) > 0;
    }
  }

  lemma {:induction false} ConfirmedExact(s: State, h: Header)
    requires Sized(s) && Counts(s.counts)
    ensures Leaves(Tracked(s), h.confirmed + 1, Confirmed(s, h))
    ensures Counts(Tracked(s)) && Counts(Confirmed(s, h).0) && |Confirmed(s, h).0| <= |Tracked(s)| <= MAX_TRACKED
  {
    ConfirmLeaves(Tracked(s), h.confirmed + 1);
  }

  /** The proposed number is that of the block found, and everything still tracked is above it. */
  lemma {:induction false} ProposedNumber(s: State, h: Header)
    requires Sized(s) && Counts(s.counts) && Ordered(s) && s.blockNum + 1 < WORD
    ensures s.proposed <= Proposed(s, h) && Proposed(s, h) + |Confirmed(s, h).0| <= s.blockNum + 1
    ensures Confirmed(s, h).1.Some? ==>
      Proposed(s, h) == s.blockNum + 1 - (|Tracked(s)| - 1 - Confirmed(s, h).1.value)
  {
    ConfirmedExact(s, h);
  }

  /** A numbering that only holds what was implied before or proposed. */
  ghost predicate From(m: Numbers, s: State, irreversible: nat) {
    forall p :: p in m ==> m[p] == s.proposed || m[p] == irreversible || exists q :: q in s.lastImplied && s.lastImplied[q] == m[p]
  }

  lemma {:induction false} ImpliedIsOld(s: State, h: Header)
    requires s.active != []
    ensures From(Implied(s, h), s, 0)
    ensures Irreversible(s, h) == 0 || Irreversible(s, h) == s.proposed
      || exists q :: q in s.lastImplied && s.lastImplied[q] == Irreversible(s, h)
    ensures Next(s, h).Ok? ==> From(Next(s, h).state.lastImplied, s, Irreversible(s, h))
  {
    var m := Implied(s, h);
    if m != map[] {
      var p :| p in m && m[p] == Irreversible(s, h);
    }
  }

  lemma {:induction false} OrderedStays(s: State, h: Header)
    requires Regular(s) && Representable(s, h) && Next(s, h).Ok?
    ensures Ordered(Next(s, h).state) && Irreversible(s, h) <= s.proposed <= Proposed(s, h)
  {
    ProposedNumber(s, h);
    ImpliedIsOld(s, h);
  }

  /** Every accepted header keeps a state regular. */
  lemma {:induction false} RegularStays(s: State, h: Header)
    requires Regular(s) && Representable(s, h) && Next(s, h).Ok?
    ensures Regular(Next(s, h).state)
  {
    OrderedStays(s, h);
    ConfirmedExact(s, h);
    var n := Next(s, h).state;
    forall p | p in n.lastProduced ensures n.lastProduced[p] <= n.blockNum {}
  }

  // ---------- What a header decides ----------

  /** The producers that imply at least `x`, the one of the new block with what is proposed before it. */
  ghost function Implying(s: State, h: Header, x: nat): (names: set<Name>)
    requires s.active != []
  {
    set q | q in s.lastImplied && (if q == ProducerOf(s, h) then s.proposed else s.lastImplied[q]) >= x
  }

  /** Irreversible is exactly what more than two thirds of the known producers imply; a producer without a number does
      not count yet. */
  lemma {:induction false} IrreversibleExact(s: State, h: Header, x: nat)
    requires s.active != [] && Next(s, h).Ok?
    ensures s.lastImplied == map[] ==> Next(s, h).state.irreversible == 0
    ensures s.lastImplied != map[] ==> (x <= Next(s, h).state.irreversible <==> 3 * |Implying(s, h, x)| > 2 * |s.lastImplied|)
  {
    var m := Implied(s, h);
    assert m.Keys == s.lastImplied.Keys && |m| == |m.Keys| && |s.lastImplied| == |s.lastImplied.Keys|;
    if m != map[] {
      ThirdIsQuorum(m, x);
      assert AtLeast(m, x) == Implying(s, h, x);
    }
  }

  /** In slot `n` the producer at place `n / 12` of the schedule, counted round and round, is on turn. */
  lemma {:induction false} ProducerInTurn(s: State, h: Header)
    requires s.active != []
    ensures ProducerOf(s, h) == s.active[(if h.slot == 0 then s.slot + 1 else h.slot) / 12 % |s.active|]
  {
    PositionIsTurn(|s.active|, 12, SlotOf(s, h));
  }

  // ---------- What every header keeps of a history ----------

  ghost predicate Numbered(t: Trace) {
    && |t.blocks| <= t.state.blockNum
    && forall k :: 0 <= k < |t.blocks| ==> t.blocks[k].num == t.state.blockNum - |t.blocks| + 1 + k > 0
  }

  /** No producer has a block above the number kept for it; one without a number has none since the last change. */
  ghost predicate Remembers(t: Trace) {
    && (forall k :: 0 <= k < |t.blocks| ==>
      var p := t.blocks[k].producer;
      t.blocks[k].num <= if p in t.state.lastProduced then t.state.lastProduced[p] else t.promotedAt)
    && (t.promotedAt == 0 || forall p :: p in t.state.active ==> p in t.state.lastProduced)
    && t.promotedAt <= t.state.blockNum && (t.state.pending != [] ==> t.promotedAt <= t.state.pendingSince)
  }

  /** A count is what a block still needs. */
  ghost predicate Tallies(t: Trace) {
    |t.state.counts| <= |t.blocks| && forall j :: 0 <= j < |t.state.counts| ==> Tally(t, j)
  }

  ghost predicate Tally(t: Trace, j: nat)
    requires j < |t.state.counts| <= |t.blocks|
  {
    var b := t.blocks[|t.blocks| - |t.state.counts| + j];
    t.state.counts[j] + |Confirmers(t.blocks, b.num)| == b.required
  }

  ghost predicate AllBacked(t: Trace) {
    && Backed(t.blocks, t.state.proposed) && Backed(t.blocks, t.state.irreversible)
    && forall p :: p in t.state.lastImplied ==> Backed(t.blocks, t.state.lastImplied[p])
  }

  ghost predicate Sound(t: Trace) {
    Regular(t.state) && Numbered(t) && Remembers(t) && Tallies(t) && AllBacked(t)
  }

  ghost function BlockOf(s: State, h: Header): (b: Block)
    requires s.active != []
  {
    Block(ProducerOf(s, h), s.blockNum + 1, h.confirmed, Required(|s.active|))
  }

  ghost function Extended(t: Trace, h: Header): (r: Trace)
    requires t.state.active != [] && Next(t.state, h).Ok?
  {
    Trace(Next(t.state, h).state, t.blocks + [BlockOf(t.state, h)],
          if Promotes(t.state, h) then t.state.blockNum + 1 else t.promotedAt)
  }

  // ---------- The check for repeated confirmations ----------

  /** The check refuses exactly the overlapping ranges of a header that confirms no more blocks than there are; a
      longer range always passes. */
  lemma {:induction false} RepeatsExact(s: State, h: Header)
    requires Regular(s) && Representable(s, h)
    ensures Repeats(s, h) <==>
      && h.confirmed <= s.blockNum + 1
      && ProducerOf(s, h) in s.lastProduced && s.blockNum + 1 - h.confirmed <= s.lastProduced[ProducerOf(s, h)]
  {
    if h.confirmed > s.blockNum + 1 {
      assert FirstConfirmed(s, h) == s.blockNum + 1 - h.confirmed + WORD;
    }
  }

  ghost predicate Newcomer(t: Trace, p: Name) {
    forall k :: 0 <= k < |t.blocks| ==> t.blocks[k].producer != p
  }

  /** The header confirms no more blocks than there are, or is the first of its producer. */
  ghost predicate Sane(t: Trace, h: Header)
    requires t.state.active != []
  {
    h.confirmed <= t.state.blockNum + 1 || Newcomer(t, ProducerOf(t.state, h))
  }

  /** The producer of an accepted header confirms no block for a second time. */
  ghost predicate ConfirmsOnlyNew(t: Trace, h: Header)
    requires t.state.active != []
  {
    forall n: nat :: Confirms(BlockOf(t.state, h), n) ==> ProducerOf(t.state, h) !in Confirmers(t.blocks, n)
  }

  lemma {:induction false} ConfirmsOnce(t: Trace, h: Header, n: nat)
    requires Regular(t.state) && Numbered(t) && Remembers(t) && Representable(t.state, h) && !Repeats(t.state, h)
    requires Sane(t, h) && Confirms(BlockOf(t.state, h), n)
    ensures ProducerOf(t.state, h) !in Confirmers(t.blocks, n)
  {
    var p := ProducerOf(t.state, h);
    assert p in t.state.active;
    RepeatsExact(t.state, h);
    forall k | 0 <= k < |t.blocks| && Confirms(t.blocks[k], n) ensures t.blocks[k].producer != p {
      assert t.blocks[k].num > 0;
    }
  }

  /** What the check is for holds if and only if the header is sane. */
  lemma {:induction false} ConfirmsOnceExact(t: Trace, h: Header)
    requires Sound(t) && Representable(t.state, h) && !Repeats(t.state, h)
    ensures ConfirmsOnlyNew(t, h) <==> Sane(t, h)
  {
    var b := BlockOf(t.state, h);
    if Sane(t, h) {
      forall n: nat | Confirms(b, n) ensures b.producer !in Confirmers(t.blocks, n) {
        ConfirmsOnce(t, h, n);
      }
    } else {
      var k :| 0 <= k < |t.blocks| && t.blocks[k].producer == b.producer;
      var n := t.blocks[k].num;
      assert Confirms(t.blocks[k], n) && Confirms(b, n);
    }
  }

  /** From block 65535 on, every header is sane. */
  lemma {:induction false} LateIsSane(t: Trace, h: Header)
    requires Representable(t.state, h) && t.state.active != [] && t.state.blockNum + 1 >= 0xFFFF
    ensures Sane(t, h)
  {}

  // ---------- Counts are what is missing ----------

  /** The block that position `j` of the counts stands for, once there is room for the new block. */
  ghost function CountedBlock(t: Trace, h: Header, j: nat): (b: Block)
    requires t.state.active != [] && |t.state.counts| <= |t.blocks| && j < |Tracked(t.state)|
  {
    (t.blocks + [BlockOf(t.state, h)])[|t.blocks| + 1 - |Tracked(t.state)| + j]
  }

  /** Before the new block confirms anything, each count is what the block needed before. */
  lemma {:induction false} TrackExact(t: Trace, h: Header, j: nat)
    requires Sized(t.state) && Numbered(t) && Tallies(t) && j < |Tracked(t.state)|
    ensures CountedBlock(t, h, j).num == t.state.blockNum + 1 - (|Tracked(t.state)| - 1 - j)
    ensures Tracked(t.state)[j] + |Confirmers(t.blocks, CountedBlock(t, h, j).num)| == CountedBlock(t, h, j).required
  {
    var s, size := t.state, |Tracked(t.state)|;
    if j == size - 1 {
      assert Confirmers(t.blocks, s.blockNum + 1) == {};
    } else {
      var i := j + |s.counts| + 1 - size;
      assert Tally(t, i);
      assert Tracked(s)[j] == s.counts[i];
    }
  }

  /** A header lowers a count exactly for the blocks it confirms, by the one confirmer it adds. */
  lemma {:induction false} LoweredExact(t: Trace, h: Header, j: nat)
    requires Regular(t.state) && Numbered(t) && Tallies(t) && j < |Tracked(t.state)|
    requires Remembers(t) && Representable(t.state, h) && Sane(t, h) && !Repeats(t.state, h)
    ensures Lowered(Tracked(t.state), |Tracked(t.state)| - 1, h.confirmed + 1, j)
      + |Confirmers(t.blocks + [BlockOf(t.state, h)], CountedBlock(t, h, j).num)| == CountedBlock(t, h, j).required
  {
    TrackExact(t, h, j);
    var n := CountedBlock(t, h, j).num;
    ConfirmersAppend(t.blocks, BlockOf(t.state, h), n);
    if Confirms(BlockOf(t.state, h), n) {
      ConfirmsOnce(t, h, n);
    }
  }

  lemma {:induction false} TallyStays(t: Trace, h: Header, j: nat)
    requires Regular(t.state) && Numbered(t) && Tallies(t) && Next(t.state, h).Ok?
    requires Remembers(t) && Representable(t.state, h) && Sane(t, h) && j < |Confirmed(t.state, h).0|
    ensures |Confirmed(t.state, h).0| <= |t.blocks| + 1 && Tally(Extended(t, h), j)
  {
    ConfirmedExact(t.state, h);
    var i := j + |Tracked(t.state)| - |Confirmed(t.state, h).0|;
    LoweredExact(t, h, i);
    assert CountedBlock(t, h, i) == (t.blocks + [BlockOf(t.state, h)])[|t.blocks| + 1 - |Confirmed(t.state, h).0| + j];
  }

  lemma {:induction false} TalliesStays(t: Trace, h: Header)
    requires Regular(t.state) && Numbered(t) && Tallies(t) && Next(t.state, h).Ok?
    requires Remembers(t) && Representable(t.state, h) && Sane(t, h)
    ensures Tallies(Extended(t, h))
  {
    ConfirmedExact(t.state, h);
    forall j | 0 <= j < |Confirmed(t.state, h).0| ensures |Confirmed(t.state, h).0| <= |t.blocks| + 1 && Tally(Extended(t, h), j) {
      TallyStays(t, h, j);
    }
  }

  /** A newly proposed block has the confirmations it needs. */
  lemma {:induction false} ProposedIsBacked(t: Trace, h: Header)
    requires Sound(t) && Representable(t.state, h) && Sane(t, h) && !Repeats(t.state, h)
    ensures Backed(t.blocks + [BlockOf(t.state, h)], Proposed(t.state, h))
    ensures t.state.proposed <= Proposed(t.state, h)
  {
    ConfirmedExact(t.state, h);
    ProposedNumber(t.state, h);
    if Confirmed(t.state, h).1.None? {
      BackedStays(t.blocks, BlockOf(t.state, h), t.state.proposed);
    } else {
      var z := Confirmed(t.state, h).1.value;
      TrackExact(t, h, z);
      LoweredExact(t, h, z);
    }
  }

  lemma {:induction false} NumberedStays(t: Trace, h: Header)
    requires Numbered(t) && t.state.active != [] && Next(t.state, h).Ok?
    ensures Numbered(Extended(t, h))
  {}

  lemma {:induction false} RemembersStays(t: Trace, h: Header)
    requires Numbered(t) && Remembers(t) && t.state.active != [] && Next(t.state, h).Ok?
    ensures Remembers(Extended(t, h))
  {
    var u := Extended(t, h);
    forall k | 0 <= k < |u.blocks| ensures
      var p := u.blocks[k].producer;
      u.blocks[k].num <= if p in u.state.lastProduced then u.state.lastProduced[p] else u.promotedAt
    {
      if k < |t.blocks| {
        assert u.blocks[k] == t.blocks[k];
        assert t.blocks[k].num <= t.state.blockNum;
      }
    }
  }

  lemma {:induction false} OldIsBacked(t: Trace, b: Block, n: nat)
    requires AllBacked(t)
    requires n == 0 || n == t.state.proposed || exists q :: q in t.state.lastImplied && t.state.lastImplied[q] == n
    ensures Backed(t.blocks + [b], n)
  {
    if n != 0 {
      BackedStays(t.blocks, b, n);
    }
  }

  lemma {:induction false} AllBackedStays(t: Trace, h: Header)
    requires Sound(t) && Representable(t.state, h) && Sane(t, h) && Next(t.state, h).Ok?
    ensures AllBacked(Extended(t, h))
  {
    ProposedIsBacked(t, h);
    ImpliedIsOld(t.state, h);
    OldIsBacked(t, BlockOf(t.state, h), Irreversible(t.state, h));
    var m := Next(t.state, h).state.lastImplied;
    forall p | p in m ensures Backed(t.blocks + [BlockOf(t.state, h)], m[p]) {
      if m[p] != Irreversible(t.state, h) {
        OldIsBacked(t, BlockOf(t.state, h), m[p]);
      }
    }
  }

  /** One header keeps everything. */
  lemma {:induction false} SoundStays(t: Trace, h: Header)
    requires Sound(t) && Representable(t.state, h) && Sane(t, h) && Next(t.state, h).Ok?
    ensures Sound(Extended(t, h))
  {
    RegularStays(t.state, h);
    NumberedStays(t, h);
    RemembersStays(t, h);
    TalliesStays(t, h);
    AllBackedStays(t, h);
  }

  // ---------- Whole chains ----------

  /** Before the first block: nothing produced, proposed or confirmed. */
  ghost predicate Genesis(s: State) {
    && Sized(s) && s.proposed == 0 && s.irreversible == 0 && s.counts == []
    && s.lastProduced == map[] && s.lastImplied == map[]
  }

  lemma {:induction false} GenesisIsSound(s: State)
    requires Genesis(s)
    ensures Sound(Trace(s, [], 0))
  {}

  ghost predicate Accepted(s: State, headers: seq<Header>)
    requires s.active != []
    decreases headers
  {
    headers == [] ||
    (Representable(s, headers[0]) && Next(s, headers[0]).Ok? && Accepted(Next(s, headers[0]).state, headers[1..]))
  }

  ghost function Chain(t: Trace, headers: seq<Header>): (r: Trace)
    requires t.state.active != [] && Accepted(t.state, headers)
    decreases headers
  {
    if headers == [] then t else Chain(Extended(t, headers[0]), headers[1..])
  }

  ghost predicate AllSane(t: Trace, headers: seq<Header>)
    requires t.state.active != [] && Accepted(t.state, headers)
    decreases headers
  {
    headers == [] || (Sane(t, headers[0]) && AllSane(Extended(t, headers[0]), headers[1..]))
  }

  lemma {:induction false} ChainIsSound(t: Trace, headers: seq<Header>)
    requires Sound(t) && Accepted(t.state, headers) && AllSane(t, headers)
    ensures Sound(Chain(t, headers))
    decreases headers
  {
    if headers != [] {
      SoundStays(t, headers[0]);
      ChainIsSound(Extended(t, headers[0]), headers[1..]);
    }
  }

  /** Whatever sane headers a chain accepts, the block it calls irreversible has been confirmed by as many different
      producers as it needed, through all changes of the schedule. */
  lemma {:induction false} IrreversibleIsBacked(s: State, headers: seq<Header>)
    requires Genesis(s) && Accepted(s, headers) && AllSane(Trace(s, [], 0), headers)
    ensures var t := Chain(Trace(s, [], 0), headers);
      && Backed(t.blocks, t.state.irreversible) && Backed(t.blocks, t.state.proposed)
      && t.state.irreversible <= t.state.proposed <= t.state.blockNum
  {
    GenesisIsSound(s);
    ChainIsSound(Trace(s, [], 0), headers);
  }

  lemma {:induction false} RankIsUnique(m: Numbers, k: nat, a: nat, b: nat)
    requires Ranks(m, k, a) && Ranks(m, k, b)
    ensures a == b
  {
    RankIsBound(m, k, a, b);
    RankIsBound(m, k, b, a);
  }

  // ---------- The computation ----------

  method ConfirmBlocks(tracked: seq<nat>, confirmed: nat) returns (counts: seq<nat>, found: Option<nat>)
    ensures (counts, found) == Confirm(tracked, |tracked| - 1, confirmed + 1)
  {
    counts := tracked;
    var i: int, left: nat := |counts| - 1, confirmed + 1;
    while i >= 0 && left > 0
      invariant -1 <= i < |counts|
      invariant Confirm(counts, i, left) == Confirm(tracked, |tracked| - 1, confirmed + 1)
      decreases left
    {
      counts := counts[i := OneLess(counts[i])];
      if counts[i] == 0 {
        counts := counts[i + 1..];
        return counts, Some(i);
      }
      i, left := i - 1, left - 1;
    }
    found := None;
  }

  /** The standard library's selection, by taking out the least number `k` times. */
  method Select(numbers: Numbers, k: nat) returns (r: nat)
    requires k < |numbers|
    ensures Ranks(numbers, k, r)
  {
    var rest := numbers;
    var j: nat := k;
    while j > 0
      invariant j < |rest|
      invariant forall x: nat :: Ranks(rest, j, x) ==> Ranks(numbers, k, x)
    {
      var least := LeastExists(rest);
      var p :| p in rest && forall q :: q in rest ==> rest[p] <= rest[q];
      forall x: nat | Ranks(rest - {p}, j - 1, x) ensures Ranks(numbers, k, x) {
        RankWithoutLeast(rest, p, j, x);
      }
      assert (rest - {p}).Keys == rest.Keys - {p};
      rest, j := rest - {p}, j - 1;
    }
    var least := LeastExists(rest);
    var p :| p in rest && forall q :: q in rest ==> rest[p] <= rest[q];
    LeastRanksFirst(rest, p);
    r := rest[p];
  }

  method LastIrreversible(s: State, h: Header) returns (r: nat)
    requires s.active != []
    ensures r == Irreversible(s, h)
  {
    var p := ProducerOf(s, h);
    var numbers: Numbers := map[];
    var left := s.lastImplied.Keys;
    while left != {}
      invariant left <= s.lastImplied.Keys && numbers.Keys == s.lastImplied.Keys - left
      invariant forall q :: q in numbers ==> numbers[q] == if q == p then s.proposed else s.lastImplied[q]
      decreases left
    {
      var q :| q in left;
      left := left - {q};
      numbers := numbers[q := if q == p then s.proposed else s.lastImplied[q]];
    }
    assert numbers == Implied(s, h);
    if |numbers| == 0 {
      return 0;
    }
    r := Select(numbers, (|numbers| - 1) / 3);
    RankIsUnique(numbers, (|numbers| - 1) / 3, r, Third(numbers));
  }

  method Rebuild(schedule: seq<Name>, known: Numbers, p: Name, own: nat, otherwise: nat) returns (m: Numbers)
    ensures m == Rebuilt(schedule, known, p, own, otherwise)
  {
    m := map[];
    for i := 0 to |schedule|
      invariant m == Rebuilt(schedule[..i], known, p, own, otherwise)
    {
      assert schedule[..i + 1] == schedule[..i] + [schedule[i]];
      var q := schedule[i];
      if q == p {
        m := m[q := own];
      } else if q in known {
        m := m[q := known[q]];
      } else {
        m := m[q := otherwise];
      }
    }
    assert schedule[..|schedule|] == schedule;
  }

  method Advance(s: State, h: Header) returns (r: Result)
    requires s.active != []
    ensures r == Next(s, h)
  {
    if h.slot != 0 && h.slot <= s.slot {
      return NotInFuture;
    }
    var p, num := ProducerOf(s, h), s.blockNum + 1;
    if p in s.lastProduced && s.lastProduced[p] >= FirstConfirmed(s, h) {
      return DoubleConfirm;
    }
    var tracked := Track(s.counts, Required(|s.active|));
    var counts, found := ConfirmBlocks(tracked, h.confirmed);
    var proposed := if found.None? then s.proposed else (num - (|tracked| - 1 - found.value)) % WORD;
    var irreversible := LastIrreversible(s, h);
    var promotes := s.pending != [] && irreversible >= s.pendingSince;
    var active, lastProduced, lastImplied := s.active, s.lastProduced, s.lastImplied[p := s.proposed];
    if promotes {
      active := s.pending;
      lastProduced := Rebuild(active, s.lastProduced, p, num, irreversible);
      lastImplied := Rebuild(active, s.lastImplied, p, s.proposed, irreversible);
    }
    lastProduced := lastProduced[p := num];
    var pending, since := if promotes then [] else s.pending, s.pendingSince;
    if h.schedule.Some? {
      if promotes || s.pending != [] {
        return ScheduleRefused;
      }
      pending, since := h.schedule.value, num;
    }
    return Ok(State(num, SlotOf(s, h), proposed, irreversible, counts, active, pending, since, lastProduced, lastImplied));
  }
}
