/** Two chains that confirm a block under the same schedule have many producers in common. */
module Quorums {
  import opened Lists
  import opened Options
  import opened Irreversibility

  /** All blocks come from the one schedule that is and stays active. */
  ghost predicate Scheduled(t: Trace, schedule: seq<Name>) {
    && t.state.active == schedule && t.state.pending == []
    && forall k :: 0 <= k < |t.blocks| ==> t.blocks[k].producer in schedule && t.blocks[k].required == Required(|schedule|)
  }

  ghost predicate NoChange(headers: seq<Header>) {
    forall i :: 0 <= i < |headers| ==> headers[i].schedule.None?
  }

  lemma {:induction false} ScheduledStays(t: Trace, headers: seq<Header>, schedule: seq<Name>)
    requires schedule != [] && Scheduled(t, schedule) && Accepted(t.state, headers) && NoChange(headers)
    ensures Scheduled(Chain(t, headers), schedule)
    decreases headers
  {
    if headers != [] {
      ScheduledStays(Extended(t, headers[0]), headers[1..], schedule);
    }
  }

  lemma {:induction false} NamesAreFew(schedule: seq<Name>)
    ensures |Elements(schedule)| <= |schedule|
  {
    if schedule != [] {
      var n := |schedule| - 1;
      NamesAreFew(schedule[..n]);
      assert Elements(schedule) == Elements(schedule[..n]) + {schedule[n]};
    }
  }

  lemma {:induction false} Overlap(a: set<Name>, b: set<Name>, all: set<Name>)
    requires a <= all && b <= all
    ensures |a * b| + |all| >= |a| + |b|
  {
    assert |a + b| + |a * b| == |a| + |b|;
    Subset(a + b, all);
  }

  lemma {:induction false} ConfirmersAreScheduled(t: Trace, schedule: seq<Name>, n: nat)
    requires Scheduled(t, schedule) && Backed(t.blocks, n) && n > 0
    ensures Confirmers(t.blocks, n) <= Elements(schedule) && |Confirmers(t.blocks, n)| >= Required(|schedule|)
  {}

  /** If two chains from the same start both back block `n`, then more than a third of the producers confirmed block `n`
      on both chains. */
  lemma {:induction false} QuorumsMeet(s: State, g: seq<Header>, h: seq<Header>, n: nat)
    requires s.active != [] && s.pending == [] && Accepted(s, g) && Accepted(s, h) && NoChange(g) && NoChange(h) && n > 0
    requires Backed(Chain(Trace(s, [], 0), g).blocks, n) && Backed(Chain(Trace(s, [], 0), h).blocks, n)
    ensures var both := Confirmers(Chain(Trace(s, [], 0), g).blocks, n) * Confirmers(Chain(Trace(s, [], 0), h).blocks, n);
      && both <= Elements(s.active) && |both| >= 2 * Required(|s.active|) - |s.active| && 3 * |both| > |s.active|
  {
    var start := Trace(s, [], 0);
    ScheduledStays(start, g, s.active);
    ScheduledStays(start, h, s.active);
    ConfirmersAreScheduled(Chain(start, g), s.active, n);
    ConfirmersAreScheduled(Chain(start, h), s.active, n);
    NamesAreFew(s.active);
    Overlap(Confirmers(Chain(start, g).blocks, n), Confirmers(Chain(start, h).blocks, n), Elements(s.active));
  }

  /** In particular for the irreversible blocks of two chains of sane headers. */
  lemma {:induction false} IrreversibleBlocksMeet(s: State, g: seq<Header>, h: seq<Header>)
    requires Genesis(s) && s.pending == [] && Accepted(s, g) && Accepted(s, h) && NoChange(g) && NoChange(h)
    requires AllSane(Trace(s, [], 0), g) && AllSane(Trace(s, [], 0), h)
    requires Chain(Trace(s, [], 0), g).state.irreversible == Chain(Trace(s, [], 0), h).state.irreversible > 0
    ensures var n := Chain(Trace(s, [], 0), g).state.irreversible;
      3 * |Confirmers(Chain(Trace(s, [], 0), g).blocks, n) * Confirmers(Chain(Trace(s, [], 0), h).blocks, n)| > |s.active|
  {
    IrreversibleIsBacked(s, g);
    IrreversibleIsBacked(s, h);
    QuorumsMeet(s, g, h, Chain(Trace(s, [], 0), g).state.irreversible);
  }
}
