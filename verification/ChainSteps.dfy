/** Single headers of the example chains. */
module ChainSteps {
  import opened Options
  import opened ProducerSchedule
  import opened Irreversibility

  /** Four producers, before the first block. */
  ghost function Start(): (s: State) {
    State(1, 0, 0, 0, [], [0, 1, 2, 3], [], 0, map[], map[])
  }

  /** The state after a block of `p` that changes no schedule. */
  ghost function After(s: State, slot: nat, p: Name, proposed: nat, irreversible: nat, counts: seq<nat>): (n: State) {
    s.(blockNum := s.blockNum + 1, slot := slot, proposed := proposed, irreversible := irreversible, counts := counts,
       lastProduced := s.lastProduced[p := s.blockNum + 1], lastImplied := s.lastImplied[p := s.proposed])
  }

  /** The header is accepted, and takes one state to the other. */
  ghost predicate Leads(s: State, h: Header, n: State) {
    s.active != [] && Representable(s, h) && Next(s, h) == Ok(n)
  }

  lemma {:induction false} PlainStep(s: State, h: Header, p: Name, irreversible: nat, counts: seq<nat>)
    requires s.active != [] && h.slot > s.slot && h.schedule.None? && ProducerOf(s, h) == p && !Repeats(s, h)
    requires Irreversible(s, h) == irreversible && (s.pending == [] || irreversible < s.pendingSince)
    requires Confirmed(s, h).0 == counts
    ensures Next(s, h) == Ok(After(s, h.slot, p, Proposed(s, h), irreversible, counts))
  {}

  lemma {:induction false} ChangingStep(s: State, h: Header, p: Name, irreversible: nat, counts: seq<nat>)
    requires s.active != [] && h.slot > s.slot && h.schedule.None? && ProducerOf(s, h) == p && !Repeats(s, h)
    requires Irreversible(s, h) == irreversible && s.pending != [] && irreversible >= s.pendingSince
    requires Confirmed(s, h).0 == counts
    ensures Next(s, h) == Ok(State(s.blockNum + 1, h.slot, Proposed(s, h), irreversible, counts, s.pending, [], s.pendingSince,
      Rebuilt(s.pending, s.lastProduced, p, s.blockNum + 1, irreversible)[p := s.blockNum + 1],
      Rebuilt(s.pending, s.lastImplied, p, s.proposed, irreversible)))
  {}

  lemma {:induction false} ConfirmOne(s: State, h: Header, required: nat)
    requires s.active != [] && h.confirmed == 0 && |s.counts| < MAX_TRACKED && required == Required(|s.active|) && 1 < required < 256
    ensures Confirmed(s, h) == (s.counts + [required - 1], None) && Proposed(s, h) == s.proposed
  {
    var counts := s.counts + [required];
    assert counts[|s.counts| := required - 1] == s.counts + [required - 1];
    assert Confirm(s.counts + [required - 1], |s.counts| - 1, 0) == (s.counts + [required - 1], None);
  }

  lemma {:induction false} LeastIsThird(m: Numbers, p: Name)
    requires IsLeast(m, p) && |m| <= 3
    ensures Third(m) == m[p]
  {
    LeastRanksFirst(m, p);
    RankIsUnique(m, 0, m[p], Third(m));
  }

  /** Of four numbers, the second. */
  lemma {:induction false} SecondIsThird(m: Numbers, below: set<Name>, atMost: set<Name>, r: nat)
    requires |m| == 4 && below == Below(m, r) && atMost == AtMost(m, r) && |below| <= 1 < |atMost|
    requires exists p :: p in m && m[p] == r
    ensures Third(m) == r
  {
    RankIsUnique(m, 1, r, Third(m));
  }

  /** A header that confirms only its own block, with no change of the schedule. */
  lemma {:induction false} QuietStep(s: State, h: Header, p: Name, irreversible: nat, required: nat)
    requires s.active != [] && h.slot > s.slot && h.confirmed == 0 && h.schedule.None? && ProducerOf(s, h) == p
    requires (p in s.lastProduced ==> s.lastProduced[p] <= s.blockNum) && s.blockNum + 1 < WORD
    requires Third(Implied(s, h)) == irreversible && (s.pending == [] || irreversible < s.pendingSince)
    requires |s.counts| < MAX_TRACKED && required == Required(|s.active|) && 1 < required < 256
    ensures Leads(s, h, After(s, h.slot, p, s.proposed, irreversible, s.counts + [required - 1]))
  {
    ConfirmOne(s, h, required);
    PlainStep(s, h, p, irreversible, s.counts + [required - 1]);
  }

  /** One header of a chain whose schedule does not change. */
  lemma {:induction false} ChainStep(t: Trace, h: Header, rest: seq<Header>, n: State, b: Block)
    requires t.state.active != [] && t.state.pending == [] && Leads(t.state, h, n) && n.active != [] && Accepted(n, rest)
    requires b == BlockOf(t.state, h)
    ensures Accepted(t.state, [h] + rest)
    ensures Chain(t, [h] + rest) == Chain(Trace(n, t.blocks + [b], t.promotedAt), rest)
  {
    assert ([h] + rest)[1..] == rest;
  }
}
