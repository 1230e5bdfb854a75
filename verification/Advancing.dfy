/** When the irreversible number can go back: only after a change of the schedule, and exactly if too many of the new
    producers lag behind. */
module Advancing {
  import opened Lists
  import opened Options
  import opened ProducerSchedule
  import opened Irreversibility

  // ---------- The number at one third grows ----------

  lemma {:induction false} ThirdGrows(m: Numbers, n: Numbers)
    requires m.Keys == n.Keys && forall p :: p in m ==> m[p] <= n[p]
    ensures Third(m) <= Third(n)
  {
    if m != map[] {
      var k := (|m.Keys| - 1) / 3;
      assert |m| == |m.Keys| == |n| && n != map[];
      RankIsBound(n, k, Third(n), Third(m));
      Subset(Below(n, Third(m)), Below(m, Third(m)));
    }
  }

  lemma {:induction false} ThirdGrowsByTop(m: Numbers, q: Name, top: nat)
    requires q !in m && forall p :: p in m ==> m[p] <= top
    ensures Third(m) <= Third(m[q := top])
  {
    var n := m[q := top];
    if m != map[] {
      assert n.Keys == m.Keys + {q} && |n| == |m| + 1;
      RankIsBound(n, (|n| - 1) / 3, Third(n), Third(m));
      Subset(Below(n, Third(m)), Below(m, Third(m)));
    }
  }

  lemma {:induction false} ImpliedGrows(s: State, h: Header)
    requires s.active != [] && Ordered(s)
    ensures Third(s.lastImplied) <= Third(Implied(s, h)) <= Third(s.lastImplied[ProducerOf(s, h) := s.proposed])
  {
    var p := ProducerOf(s, h);
    if p in s.lastImplied {
      ThirdGrows(s.lastImplied, Implied(s, h));
    } else {
      ThirdGrowsByTop(s.lastImplied, p, s.proposed);
    }
  }

  // ---------- Settled states ----------

  /** What is irreversible would still be found irreversible. */
  ghost predicate Settled(s: State) {
    s.irreversible <= Third(s.lastImplied)
  }

  /** Without a change of the schedule, what is irreversible stays so and stays settled. */
  lemma {:induction false} SettledAdvances(s: State, h: Header)
    requires s.active != [] && Ordered(s) && Settled(s) && Next(s, h).Ok?
    ensures s.irreversible <= Next(s, h).state.irreversible
    ensures !Promotes(s, h) ==> Settled(Next(s, h).state)
  {
    ImpliedGrows(s, h);
  }

  ghost predicate OneProducer(schedule: seq<Name>) {
    schedule != [] && forall p :: p in schedule ==> p == schedule[0]
  }

  /** A state that no header can lower: it is settled, or its one producer settles it with any block. */
  ghost predicate Steady(s: State) {
    Settled(s) || (OneProducer(s.active) && s.lastImplied.Keys == {s.active[0]})
  }

  lemma {:induction false} OnlyIsThird(m: Numbers, p: Name)
    requires m.Keys == {p}
    ensures Third(m) == m[p]
  {
    assert |m| == |m.Keys| && IsLeast(m, p);
    LeastRanksFirst(m, p);
    RankIsUnique(m, 0, m[p], Third(m));
  }

  lemma {:induction false} SteadyAdvances(s: State, h: Header)
    requires Regular(s) && Steady(s) && Next(s, h).Ok?
    ensures s.irreversible <= Next(s, h).state.irreversible
    ensures !Promotes(s, h) ==> Steady(Next(s, h).state)
  {
    if Settled(s) {
      SettledAdvances(s, h);
    } else {
      assert ProducerOf(s, h) in s.active;
      OnlyIsThird(Implied(s, h), ProducerOf(s, h));
    }
  }

  // ---------- Changes of the schedule ----------

  /** The producers of the waiting schedule that are known and imply less than what becomes irreversible. */
  ghost function Lagging(s: State, h: Header): (names: set<Name>)
    requires s.active != []
  {
    set p | p in s.pending && (if p == ProducerOf(s, h) then s.proposed < Irreversible(s, h)
                               else p in s.lastImplied && s.lastImplied[p] < Irreversible(s, h))
  }

  /** No more than a third of the new producers lag behind, or there is only one. */
  ghost predicate Harmless(s: State, h: Header)
    requires s.active != [] && s.pending != []
  {
    |Lagging(s, h)| <= (|Elements(s.pending)| - 1) / 3 || OneProducer(s.pending)
  }

  lemma {:induction false} SettledExact(s: State, h: Header)
    requires s.active != [] && Next(s, h).Ok? && Promotes(s, h)
    ensures var n := Next(s, h).state;
      && n.active == s.pending && n.lastImplied.Keys == Elements(s.pending) && |n.lastImplied| == |Elements(s.pending)| > 0
      && Below(n.lastImplied, n.irreversible) == Lagging(s, h)
      && (Settled(n) <==> |Lagging(s, h)| <= (|Elements(s.pending)| - 1) / 3)
  {
    var n := Next(s, h).state;
    assert s.pending[0] in n.lastImplied;
    assert n.lastImplied.Keys == Elements(s.pending);
    assert |n.lastImplied| == |n.lastImplied.Keys|;
    RankIsBound(n.lastImplied, (|n.lastImplied| - 1) / 3, Third(n.lastImplied), n.irreversible);
    assert Below(n.lastImplied, n.irreversible) == Lagging(s, h);
  }

  lemma {:induction false} OneName(schedule: seq<Name>)
    requires schedule != []
    ensures OneProducer(schedule) <==> |Elements(schedule)| == 1
  {
    var p := schedule[0];
    assert p in Elements(schedule);
    if OneProducer(schedule) {
      assert Elements(schedule) == {p};
    }
    if |Elements(schedule)| == 1 {
      forall q | q in schedule ensures q == p {
        assert {p, q} <= Elements(schedule);
        Subset({p, q}, Elements(schedule));
      }
    }
  }

  /** A header of any producer that confirms nothing but its own block is accepted. */
  lemma {:induction false} AnyProducerNext(n: State, p: Name) returns (g: Header)
    requires Regular(n) && p in n.active && n.blockNum + 1 < WORD
    ensures Representable(n, g) && Next(n, g).Ok? && ProducerOf(n, g) == p
  {
    var i :| 0 <= i < |n.active| && n.active[i] == p;
    var slot := EveryPositionComes(|n.active|, REPETITIONS, i, n.slot);
    g := Header(slot, 0, None);
  }

  /** No accepted header lowers the irreversible number. */
  ghost predicate Stays(n: State)
    requires n.active != []
  {
    forall g :: Representable(n, g) && Next(n, g).Ok? ==> n.irreversible <= Next(n, g).state.irreversible
  }

  lemma {:induction false} RaisedOne(m: Numbers, p: Name, top: nat, x: nat)
    requires p in m && x <= top
    ensures |m[p := top]| == |m| && Below(m[p := top], x) == Below(m, x) - {p}
  {
    assert m[p := top].Keys == m.Keys && |m| == |m.Keys|;
  }

  /** With more than one producer and too many that lag, some producer can lower the number: one that does not lag, or
      any if all lag. */
  lemma {:induction false} FallingHeader(n: State) returns (g: Header)
    requires Regular(n) && n.blockNum + 1 < WORD && n.lastImplied.Keys == Elements(n.active) && |Elements(n.active)| > 1 && !Settled(n)
    ensures Representable(n, g) && Next(n, g).Ok? && Next(n, g).state.irreversible < n.irreversible
  {
    var m, low := n.lastImplied, Below(n.lastImplied, n.irreversible);
    assert |m| == |m.Keys|;
    RankIsBound(m, (|m| - 1) / 3, Third(m), n.irreversible);
    var p := n.active[0];
    if low != m.Keys {
      p :| p in m && p !in low;
    }
    assert p in Elements(n.active);
    g := AnyProducerNext(n, p);
    var q := m[p := n.proposed];
    assert Implied(n, g) == q;
    RaisedOne(m, p, n.proposed, n.irreversible);
    RankIsBound(q, (|q| - 1) / 3, Third(q), n.irreversible);
  }

  /** After a change of the schedule, no header lowers the irreversible number if and only if the change is harmless. */
  lemma {:induction false} ChangeExact(s: State, h: Header)
    requires Regular(s) && Representable(s, h) && Next(s, h).Ok? && Promotes(s, h) && s.blockNum + 2 < WORD
    ensures Stays(Next(s, h).state) <==> Harmless(s, h)
    ensures Harmless(s, h) <==> Steady(Next(s, h).state)
  {
    var n := Next(s, h).state;
    RegularStays(s, h);
    SettledExact(s, h);
    OneName(s.pending);
    if Harmless(s, h) {
      assert OneProducer(s.pending) ==> n.lastImplied.Keys == {n.active[0]};
      forall g | Representable(n, g) && Next(n, g).Ok? ensures n.irreversible <= Next(n, g).state.irreversible {
        SteadyAdvances(n, g);
      }
    } else {
      var g := FallingHeader(n);
    }
  }

  // ---------- Whole chains ----------

  ghost predicate AllHarmless(s: State, headers: seq<Header>)
    requires s.active != [] && Accepted(s, headers)
    decreases headers
  {
    headers == [] ||
    ((Promotes(s, headers[0]) ==> Harmless(s, headers[0])) && AllHarmless(Next(s, headers[0]).state, headers[1..]))
  }

  /** At no place of the chain can any header lower the irreversible number. */
  ghost predicate NeverFalls(s: State, headers: seq<Header>)
    requires s.active != [] && Accepted(s, headers)
    decreases headers
  {
    Stays(s) && (headers == [] || NeverFalls(Next(s, headers[0]).state, headers[1..]))
  }

  lemma {:induction false} SteadyStays(s: State)
    requires Regular(s) && Steady(s)
    ensures Stays(s)
  {
    forall g | Representable(s, g) && Next(s, g).Ok? ensures s.irreversible <= Next(s, g).state.irreversible {
      SteadyAdvances(s, g);
    }
  }

  /** The irreversible number never goes back along a chain, whatever header comes at any place, if and only if all the
      schedule changes of the chain are harmless. */
  lemma {:induction false} NeverFallsExact(s: State, headers: seq<Header>)
    requires Regular(s) && Steady(s) && Accepted(s, headers) && s.blockNum + |headers| + 1 < WORD
    ensures NeverFalls(s, headers) <==> AllHarmless(s, headers)
    decreases headers
  {
    SteadyStays(s);
    if headers != [] {
      var h := headers[0];
      RegularStays(s, h);
      if Promotes(s, h) {
        ChangeExact(s, h);
      } else {
        SteadyAdvances(s, h);
      }
      if Steady(Next(s, h).state) {
        NeverFallsExact(Next(s, h).state, headers[1..]);
      }
    }
  }

  /** In particular from genesis on. */
  lemma {:induction false} NeverFallsFromGenesis(s: State, headers: seq<Header>)
    requires Genesis(s) && Accepted(s, headers) && s.blockNum + |headers| + 1 < WORD
    ensures NeverFalls(s, headers) <==> AllHarmless(s, headers)
  {
    NeverFallsExact(s, headers);
  }
}
