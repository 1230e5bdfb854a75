/** How a new producer schedule waits and becomes active. */
module PendingSchedules {
  import opened Options
  import opened Irreversibility

  /** A header is accepted exactly if it is in the future, its producer did not already produce in the range it confirms,
      and it brings no schedule while another one waits. */
  lemma {:induction false} AcceptedExact(s: State, h: Header)
    requires Regular(s) && Representable(s, h)
    ensures Next(s, h).Ok? <==>
      && (h.slot == 0 || h.slot > s.slot)
      && (h.confirmed <= s.blockNum + 1 && ProducerOf(s, h) in s.lastProduced ==>
            s.lastProduced[ProducerOf(s, h)] + h.confirmed < s.blockNum + 1)
      && (h.schedule.Some? ==> s.pending == [])
  {
    RepeatsExact(s, h);
  }

  /** One accepted header: a schedule starts to wait only where none waits; a waiting one goes on waiting below the
      irreversible number it waits for, and is the active one from there on. */
  lemma {:induction false} OneHeader(s: State, h: Header)
    requires s.active != [] && Next(s, h).Ok?
    ensures var n := Next(s, h).state;
      && n.blockNum == s.blockNum + 1 && n.slot > s.slot && n.slot == (if h.slot == 0 then s.slot + 1 else h.slot)
      && (h.schedule.Some? ==> s.pending == [] && n.pending == h.schedule.value && n.pendingSince == n.blockNum)
      && (h.schedule.None? && s.pending == [] ==> n.pending == [])
      && (s.pending == [] || n.irreversible < s.pendingSince ==> n.active == s.active)
      && (s.pending != [] && n.irreversible < s.pendingSince ==> n.pending == s.pending && n.pendingSince == s.pendingSince)
      && (s.pending != [] && n.irreversible >= s.pendingSince ==> n.active == s.pending && n.pending == [])
  {}

  /** A header changes the numbers of its own producer only.  At a schedule change, the others that stay keep theirs, new
      ones start at the irreversible number, and those that leave are forgotten. */
  lemma {:induction false} OthersKeepNumbers(s: State, h: Header, q: Name)
    requires s.active != [] && Next(s, h).Ok? && q != ProducerOf(s, h)
    ensures var n := Next(s, h).state;
      if n.active == s.active && n.pending == s.pending then
        && (q in n.lastProduced <==> q in s.lastProduced) && (q in s.lastProduced ==> n.lastProduced[q] == s.lastProduced[q])
        && (q in n.lastImplied <==> q in s.lastImplied) && (q in s.lastImplied ==> n.lastImplied[q] == s.lastImplied[q])
      else if s.pending != [] then
        && (q in n.lastProduced <==> q in s.pending) && (q in n.lastImplied <==> q in s.pending)
        && (q in s.pending ==> n.lastProduced[q] == if q in s.lastProduced then s.lastProduced[q] else n.irreversible)
        && (q in s.pending ==> n.lastImplied[q] == if q in s.lastImplied then s.lastImplied[q] else n.irreversible)
      else true
  {}

  /** The own numbers: this block, and what was proposed before it. */
  lemma {:induction false} OwnNumbers(s: State, h: Header)
    requires s.active != [] && Next(s, h).Ok?
    ensures var n, p := Next(s, h).state, ProducerOf(s, h);
      && p in n.lastProduced && n.lastProduced[p] == s.blockNum + 1
      && (p in n.lastImplied <==> p in n.active || n.active == s.active)
      && (p in n.lastImplied ==> n.lastImplied[p] == s.proposed)
  {}

  ghost function Reached(s: State, headers: seq<Header>): (n: State)
    requires s.active != [] && Accepted(s, headers)
    decreases headers
  {
    if headers == [] then s else Reached(Next(s, headers[0]).state, headers[1..])
  }

  lemma {:induction false} ReachedStep(s: State, headers: seq<Header>, k: nat)
    requires s.active != [] && Accepted(s, headers) && k <= |headers|
    ensures Accepted(s, headers[..k]) && Reached(s, headers[..k]).active != [] && Accepted(Reached(s, headers[..k]), headers[k..])
    ensures k < |headers| ==>
      Accepted(s, headers[..k + 1]) && Next(Reached(s, headers[..k]), headers[k]) == Ok(Reached(s, headers[..k + 1]))
    decreases headers
  {
    if k == 0 {
      assert headers[..0] == [] && headers[0..] == headers;
      if headers != [] {
        FirstReached(s, headers);
      }
    } else {
      Slices(headers, k);
      ReachedStep(Next(s, headers[0]).state, headers[1..], k - 1);
    }
  }

  lemma {:induction false} FirstReached(s: State, headers: seq<Header>)
    requires s.active != [] && Accepted(s, headers) && headers != []
    ensures Accepted(s, headers[..1]) && Next(s, headers[0]) == Ok(Reached(s, headers[..1]))
  {
    assert headers[..1] == [headers[0]] && [headers[0]][1..] == [];
  }

  lemma {:induction false} Slices(headers: seq<Header>, k: nat)
    requires 0 < k <= |headers|
    ensures headers[..k] != [] && headers[..k][0] == headers[0] && headers[..k][1..] == headers[1..][..k - 1]
    ensures headers[1..][k - 1..] == headers[k..]
    ensures k < |headers| ==> headers[..k + 1][1..] == headers[1..][..k]
  {}

  /** Below the number it waits for at all the first `k` headers. */
  ghost predicate StillWaits(s: State, headers: seq<Header>, k: nat)
    requires s.active != [] && Accepted(s, headers) && k <= |headers|
  {
    forall j :: 0 < j <= k ==> Accepted(s, headers[..j]) && Reached(s, headers[..j]).irreversible < s.pendingSince
  }

  /** A waiting schedule is never lost or replaced: it stays, and the active one with it, as long as the irreversible
      number is below the one it waits for. */
  lemma {:induction false} WaitingStays(s: State, headers: seq<Header>, k: nat)
    requires s.active != [] && s.pending != [] && Accepted(s, headers) && k <= |headers| && StillWaits(s, headers, k)
    ensures Accepted(s, headers[..k])
    ensures var n := Reached(s, headers[..k]);
      n.active == s.active && n.pending == s.pending && n.pendingSince == s.pendingSince
    decreases k
  {
    ReachedStep(s, headers, k);
    if k == 0 {
      assert headers[..0] == [];
    } else {
      WaitingStays(s, headers, k - 1);
      ReachedStep(s, headers, k - 1);
      assert Reached(s, headers[..k]).irreversible < s.pendingSince;
      OneHeader(Reached(s, headers[..k - 1]), headers[k - 1]);
    }
  }

  /** The first header whose irreversible number reaches the one it waits for makes exactly this schedule active. */
  lemma {:induction false} WaitingBecomesActive(s: State, headers: seq<Header>, k: nat)
    requires s.active != [] && s.pending != [] && Accepted(s, headers) && k < |headers| && StillWaits(s, headers, k)
    requires Accepted(s, headers[..k + 1]) && Reached(s, headers[..k + 1]).irreversible >= s.pendingSince
    ensures Reached(s, headers[..k + 1]).active == s.pending && Reached(s, headers[..k + 1]).pending == []
  {
    WaitingStays(s, headers, k);
    ReachedStep(s, headers, k);
    OneHeader(Reached(s, headers[..k]), headers[k]);
  }

  /** The active schedule changes at no other header: along any chain it is the one that was active before, or one that
      waited. */
  lemma {:induction false} ActiveChangesOnlyTo(s: State, h: Header)
    requires s.active != [] && Next(s, h).Ok? && Next(s, h).state.active != s.active
    ensures Next(s, h).state.active == s.pending != [] && s.pendingSince <= Next(s, h).state.irreversible
  {
    OneHeader(s, h);
  }
}
