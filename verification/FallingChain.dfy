/** A chain of seven headers along which the irreversible number goes back: the schedule changes to two producers, of
    which one has not produced since nothing was proposed yet. */
module FallingChain {
  import opened Options
  import opened ProducerSchedule
  import opened Irreversibility
  import opened ChainSteps

  ghost function S1(): (s: State) { After(Start(), 1, 0, 0, 0, [2]).(pending := [0, 2], pendingSince := 2) }
  ghost function S2(): (s: State) { After(S1(), 12, 1, 0, 0, [1, 2]) }
  ghost function S3(): (s: State) { After(S2(), 24, 2, 2, 0, [1, 2]) }
  ghost function S4(): (s: State) {
    State(5, 36, 2, 0, [1, 2, 2], [0, 1, 2, 3], [0, 2], 2,
          map[0 := 2, 1 := 3, 2 := 4, 3 := 5], map[0 := 0, 1 := 0, 2 := 0, 3 := 2])
  }
  ghost function S5(): (s: State) {
    State(6, 60, 2, 0, [1, 2, 2, 2], [0, 1, 2, 3], [0, 2], 2,
          map[0 := 2, 1 := 6, 2 := 4, 3 := 5], map[0 := 0, 1 := 2, 2 := 0, 3 := 2])
  }
  ghost function S6(): (s: State) {
    State(7, 72, 2, 2, [1, 2, 2, 2, 2], [0, 2], [], 2, map[0 := 2, 2 := 7], map[0 := 0, 2 := 2])
  }
  ghost function S7(): (s: State) { After(S6(), 84, 2, 2, 0, [1, 2, 2, 2, 2, 1]) }

  // ---------- Seven headers ----------

  lemma {:induction false} Step1()
    ensures Leads(Start(), Header(1, 0, Some([0, 2])), S1())
  {
    var s, h := Start(), Header(1, 0, Some([0, 2]));
    assert Position(4, 12, 1) == 0;
    ConfirmOne(s, h, 3);
  }

  lemma {:induction false} Confirms2()
    ensures Confirmed(S1(), Header(12, 1, None)) == ([1, 2], None)
  {
    assert Track([2], 3) == [2, 3] && [2, 3][1 := 2] == [2, 2] && [2, 2][0 := 1] == [1, 2];
    assert Confirm([2, 3], 1, 2) == Confirm([2, 2], 0, 1) == Confirm([1, 2], -1, 0) == ([1, 2], None);
  }

  lemma {:induction false} Step2()
    ensures Leads(S1(), Header(12, 1, None), S2())
  {
    var s, h := S1(), Header(12, 1, None);
    assert Position(4, 12, 12) == 1;
    var m := s.lastImplied;
    assert m.Keys == {0} && |m| == |m.Keys|;
    LeastIsThird(m, 0);
    Confirms2();
    PlainStep(s, h, 1, 0, [1, 2]);
  }

  lemma {:induction false} Confirms3()
    ensures Confirmed(S2(), Header(24, 2, None)) == ([1, 2], Some(0)) && Proposed(S2(), Header(24, 2, None)) == 2
  {
    assert Track([1, 2], 3) == [1, 2, 3];
    assert [1, 2, 3][2 := 2] == [1, 2, 2] && [1, 2, 2][1 := 1] == [1, 1, 2] && [1, 1, 2][1..] == [1, 2];
    assert Confirm([1, 2, 3], 2, 3) == Confirm([1, 2, 2], 1, 2) == Confirm([1, 1, 2], 0, 1) == ([1, 2], Some(0));
  }

  lemma {:induction false} Step3()
    ensures Leads(S2(), Header(24, 2, None), S3())
  {
    var s, h := S2(), Header(24, 2, None);
    assert Position(4, 12, 24) == 2;
    var m := s.lastImplied;
    assert m.Keys == {0, 1} && |m| == |m.Keys|;
    LeastIsThird(m, 0);
    Confirms3();
    PlainStep(s, h, 2, 0, [1, 2]);
  }

  lemma {:induction false} After4()
    ensures After(S3(), 36, 3, 2, 0, [1, 2] + [2]) == S4()
  {
    assert S3().lastProduced == map[0 := 2, 1 := 3, 2 := 4] && S3().lastImplied == map[0 := 0, 1 := 0, 2 := 0];
  }

  lemma {:induction false} Step4()
    ensures Leads(S3(), Header(36, 0, None), S4())
  {
    var s, h := S3(), Header(36, 0, None);
    assert Position(4, 12, 36) == 3;
    var m := s.lastImplied;
    assert m.Keys == {0, 1, 2} && |m| == |m.Keys|;
    LeastIsThird(m, 0);
    QuietStep(s, h, 3, 0, 3);
    After4();
  }

  lemma {:induction false} Implied5()
    ensures Third(S4().lastImplied[1 := 2]) == 0
  {
    var m: Numbers := map[0 := 0, 1 := 2, 2 := 0, 3 := 2];
    assert S4().lastImplied[1 := 2] == m;
    assert m.Keys == {0, 1, 2, 3} && |m| == |m.Keys| && m[0] == 0;
    SecondIsThird(m, {}, {0, 2}, 0);
  }

  lemma {:induction false} After5()
    ensures After(S4(), 60, 1, 2, 0, [1, 2, 2] + [2]) == S5()
  {}

  lemma {:induction false} Step5()
    ensures Leads(S4(), Header(60, 0, None), S5())
  {
    var s, h := S4(), Header(60, 0, None);
    assert Position(4, 12, 60) == 1;
    Implied5();
    QuietStep(s, h, 1, 0, 3);
    After5();
  }

  lemma {:induction false} Implied6()
    ensures Third(S5().lastImplied[2 := 2]) == 2
  {
    var m: Numbers := map[0 := 0, 1 := 2, 2 := 2, 3 := 2];
    assert S5().lastImplied[2 := 2] == m;
    assert m.Keys == {0, 1, 2, 3} && |m| == |m.Keys| && m[1] == 2;
    SecondIsThird(m, {0}, {0, 1, 2, 3}, 2);
  }

  lemma {:induction false} Rebuilt6()
    ensures Rebuilt([0, 2], S5().lastProduced, 2, 7, 2)[2 := 7] == S6().lastProduced
    ensures Rebuilt([0, 2], S5().lastImplied, 2, 2, 2) == S6().lastImplied
  {}

  lemma {:induction false} Producer6()
    ensures ProducerOf(S5(), Header(72, 0, None)) == 2 && !Repeats(S5(), Header(72, 0, None))
    ensures Irreversible(S5(), Header(72, 0, None)) == 2
  {
    assert Position(4, 12, 72) == 2;
    Implied6();
  }

  lemma {:induction false} Step6()
    ensures Leads(S5(), Header(72, 0, None), S6())
  {
    var s, h := S5(), Header(72, 0, None);
    Producer6();
    ConfirmOne(s, h, 3);
    ChangingStep(s, h, 2, 2, [1, 2, 2, 2] + [2]);
    Rebuilt6();
  }

  lemma {:induction false} Implied7()
    ensures Third(S6().lastImplied[2 := 2]) == 0
  {
    var m: Numbers := map[0 := 0, 2 := 2];
    assert S6().lastImplied[2 := 2] == m;
    assert m.Keys == {0, 2} && |m| == |m.Keys|;
    LeastIsThird(m, 0);
  }

  lemma {:induction false} Step7()
    ensures Leads(S6(), Header(84, 0, None), S7())
  {
    var s, h := S6(), Header(84, 0, None);
    assert Position(2, 12, 84) == 1;
    Implied7();
    QuietStep(s, h, 2, 0, 2);
  }

  /** From genesis, seven accepted headers: block 2 is irreversible after the sixth and no longer after the seventh. */
  lemma {:induction false} IrreversibleFalls()
    ensures Genesis(Start())
    ensures Leads(Start(), Header(1, 0, Some([0, 2])), S1()) && Leads(S1(), Header(12, 1, None), S2())
    ensures Leads(S2(), Header(24, 2, None), S3()) && Leads(S3(), Header(36, 0, None), S4())
    ensures Leads(S4(), Header(60, 0, None), S5()) && Leads(S5(), Header(72, 0, None), S6())
    ensures Leads(S6(), Header(84, 0, None), S7())
    ensures S6().irreversible == 2 && S7().irreversible == 0
  {
    Step1();
    Step2();
    Step3();
    Step4();
    Step5();
    Step6();
    Step7();
  }
}
