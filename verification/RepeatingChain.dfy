/** A chain of four headers of one producer out of four, two of which confirm more blocks than there are.  They pass the
    check for repeated confirmations, and a block becomes irreversible that only its producer confirmed. */
module RepeatingChain {
  import opened Options
  import opened ProducerSchedule
  import opened Irreversibility
  import opened ChainSteps

  ghost function S1(): (s: State) { After(Start(), 1, 0, 0, 0, [2]) }
  ghost function S2(): (s: State) { After(S1(), 2, 0, 0, 0, [1, 2]) }
  ghost function S3(): (s: State) { After(S2(), 3, 0, 2, 0, [1, 2]) }
  ghost function S4(): (s: State) { After(S3(), 4, 0, 2, 2, [1, 2, 2]) }

  lemma {:induction false} Numbers1(x: nat)
    ensures Third(map[0 := x]) == x
  {
    var m: Numbers := map[0 := x];
    assert m.Keys == {0} && |m| == |m.Keys|;
    LeastIsThird(m, 0);
  }

  lemma {:induction false} Step1()
    ensures Leads(Start(), Header(1, 0, None), S1())
  {
    var s, h := Start(), Header(1, 0, None);
    assert Position(4, 12, 1) == 0;
    QuietStep(s, h, 0, 0, 3);
  }

  lemma {:induction false} Confirms2()
    ensures Confirmed(S1(), Header(2, 4, None)) == ([1, 2], None)
  {
    assert Track([2], 3) == [2, 3] && [2, 3][1 := 2] == [2, 2] && [2, 2][0 := 1] == [1, 2];
    assert Confirm([2, 3], 1, 5) == Confirm([2, 2], 0, 4) == Confirm([1, 2], -1, 3) == ([1, 2], None);
  }

  lemma {:induction false} Step2()
    ensures Leads(S1(), Header(2, 4, None), S2())
  {
    var s, h := S1(), Header(2, 4, None);
    assert Position(4, 12, 2) == 0 && FirstConfirmed(s, h) == WORD - 1;
    assert s.lastImplied[0 := 0] == map[0 := 0];
    Numbers1(0);
    Confirms2();
    PlainStep(s, h, 0, 0, [1, 2]);
  }

  lemma {:induction false} Confirms3()
    ensures Confirmed(S2(), Header(3, 5, None)) == ([1, 2], Some(0)) && Proposed(S2(), Header(3, 5, None)) == 2
  {
    assert Track([1, 2], 3) == [1, 2, 3];
    assert [1, 2, 3][2 := 2] == [1, 2, 2] && [1, 2, 2][1 := 1] == [1, 1, 2] && [1, 1, 2][1..] == [1, 2];
    assert Confirm([1, 2, 3], 2, 6) == Confirm([1, 2, 2], 1, 5) == Confirm([1, 1, 2], 0, 4) == ([1, 2], Some(0));
  }

  lemma {:induction false} Step3()
    ensures Leads(S2(), Header(3, 5, None), S3())
  {
    var s, h := S2(), Header(3, 5, None);
    assert Position(4, 12, 3) == 0 && FirstConfirmed(s, h) == WORD - 1;
    assert s.lastImplied[0 := 0] == map[0 := 0];
    Numbers1(0);
    Confirms3();
    PlainStep(s, h, 0, 0, [1, 2]);
  }

  lemma {:induction false} Step4()
    ensures Leads(S3(), Header(4, 0, None), S4())
  {
    var s, h := S3(), Header(4, 0, None);
    assert Position(4, 12, 4) == 0 && FirstConfirmed(s, h) == 5 && s.lastProduced[0] == 4;
    assert s.lastImplied[0 := 2] == map[0 := 2];
    Numbers1(2);
    QuietStep(s, h, 0, 2, 3);
  }

  ghost function Headers(): (headers: seq<Header>) {
    [Header(1, 0, None)] + ([Header(2, 4, None)] + ([Header(3, 5, None)] + ([Header(4, 0, None)] + [])))
  }

  /** The four blocks, all of producer 0. */
  ghost function Blocks(): (blocks: seq<Block>) {
    [] + [Block(0, 2, 0, 3)] + [Block(0, 3, 4, 3)] + [Block(0, 4, 5, 3)] + [Block(0, 5, 0, 3)]
  }

  lemma {:induction false} From3(blocks: seq<Block>)
    ensures Accepted(S3(), [Header(4, 0, None)] + [])
    ensures Chain(Trace(S3(), blocks, 0), [Header(4, 0, None)] + []) == Trace(S4(), blocks + [Block(0, 5, 0, 3)], 0)
  {
    Step4();
    assert Position(4, 12, 4) == 0;
    ChainStep(Trace(S3(), blocks, 0), Header(4, 0, None), [], S4(), Block(0, 5, 0, 3));
  }

  lemma {:induction false} From2(blocks: seq<Block>)
    ensures Accepted(S2(), [Header(3, 5, None)] + ([Header(4, 0, None)] + []))
    ensures Chain(Trace(S2(), blocks, 0), [Header(3, 5, None)] + ([Header(4, 0, None)] + []))
      == Trace(S4(), blocks + [Block(0, 4, 5, 3)] + [Block(0, 5, 0, 3)], 0)
  {
    Step3();
    From3(blocks + [Block(0, 4, 5, 3)]);
    assert Position(4, 12, 3) == 0;
    ChainStep(Trace(S2(), blocks, 0), Header(3, 5, None), [Header(4, 0, None)] + [], S3(), Block(0, 4, 5, 3));
  }

  lemma {:induction false} From1(blocks: seq<Block>)
    ensures Accepted(S1(), [Header(2, 4, None)] + ([Header(3, 5, None)] + ([Header(4, 0, None)] + [])))
    ensures Chain(Trace(S1(), blocks, 0), [Header(2, 4, None)] + ([Header(3, 5, None)] + ([Header(4, 0, None)] + [])))
      == Trace(S4(), blocks + [Block(0, 3, 4, 3)] + [Block(0, 4, 5, 3)] + [Block(0, 5, 0, 3)], 0)
  {
    Step2();
    From2(blocks + [Block(0, 3, 4, 3)]);
    assert Position(4, 12, 2) == 0;
    ChainStep(Trace(S1(), blocks, 0), Header(2, 4, None), [Header(3, 5, None)] + ([Header(4, 0, None)] + []), S2(), Block(0, 3, 4, 3));
  }

  lemma {:induction false} WholeChain()
    ensures Accepted(Start(), Headers()) && Chain(Trace(Start(), [], 0), Headers()) == Trace(S4(), Blocks(), 0)
  {
    Step1();
    From1([] + [Block(0, 2, 0, 3)]);
    assert Position(4, 12, 1) == 0;
    ChainStep(Trace(Start(), [], 0), Header(1, 0, None),
              [Header(2, 4, None)] + ([Header(3, 5, None)] + ([Header(4, 0, None)] + [])), S1(), Block(0, 2, 0, 3));
  }

  lemma {:induction false} OneConfirmer()
    ensures Confirmers(Blocks(), 2) <= {0} && !Backed(Blocks(), 2)
  {
    assert Confirmers(Blocks(), 2) <= {0};
    Subset(Confirmers(Blocks(), 2), {0});
  }

  /** Four accepted headers from genesis on after which block 2 is irreversible; it needs three confirmers and has one.
      The second and the third header are not sane. */
  lemma {:induction false} IrreversibleUnbacked()
    ensures Genesis(Start()) && Accepted(Start(), Headers())
    ensures var t := Chain(Trace(Start(), [], 0), Headers());
      t.state.irreversible == 2 && !Backed(t.blocks, 2) && Confirmers(t.blocks, 2) <= {0}
  {
    WholeChain();
    OneConfirmer();
  }
}
