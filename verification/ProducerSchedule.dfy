/** Round-robin production: every producer of a schedule gets `repetitions` slots in a row. */
module ProducerSchedule {
  import opened Powers

  /** The schedule position that produces in `slot`. */
  function Position(size: nat, repetitions: nat, slot: nat): (index: nat)
    requires size > 0 && repetitions > 0
    ensures index < size
  {
    InRound(size, repetitions, slot % (size * repetitions));
    slot % (size * repetitions) / repetitions
  }

  lemma {:induction false} InRound(size: nat, repetitions: nat, r: nat)
    requires size > 0 && repetitions > 0
    ensures size * repetitions > 0
    ensures r < size * repetitions ==> r / repetitions < size
  {
    if r / repetitions >= size {
      MulMonotone(size, r / repetitions, repetitions);
      assert r == (r / repetitions) * repetitions + r % repetitions;
    }
  }

  lemma {:induction false} MulMonotone(a: nat, b: nat, m: nat)
    requires a <= b
    ensures a * m <= b * m
  {}

  function ExpectedProducer<T>(schedule: seq<T>, repetitions: nat, slot: nat): (producer: T)
    requires schedule != [] && repetitions > 0
  {
    schedule[Position(|schedule|, repetitions, slot)]
  }

  /** How often position `i` produces in the `n` slots from `start` on. */
  function Turns(size: nat, repetitions: nat, i: nat, start: nat, n: nat): (count: nat)
    requires size > 0 && repetitions > 0
  {
    if n == 0 then 0
    else Turns(size, repetitions, i, start, n - 1) + (if Position(size, repetitions, start + n - 1) == i then 1 else 0)
  }

  lemma {:induction false} PositionInFirstRound(size: nat, repetitions: nat, slot: nat, i: nat)
    requires size > 0 && repetitions > 0 && slot < size * repetitions
    ensures Position(size, repetitions, slot) == i <==> i * repetitions <= slot < (i + 1) * repetitions
  {
    DivisionIs(slot, size * repetitions, 0, slot);
    QuotientMeans(slot, repetitions, i);
  }

  lemma {:induction false} TurnsInFirstRound(size: nat, repetitions: nat, i: nat, n: nat)
    requires size > 0 && repetitions > 0 && n <= size * repetitions
    ensures Turns(size, repetitions, i, 0, n) ==
      if n <= i * repetitions then 0 else if n <= (i + 1) * repetitions then n - i * repetitions else repetitions
  {
    assert (i + 1) * repetitions == i * repetitions + repetitions;
    if n > 0 {
      TurnsInFirstRound(size, repetitions, i, n - 1);
      PositionInFirstRound(size, repetitions, n - 1, i);
    }
  }

  lemma {:induction false} PositionIsPeriodic(size: nat, repetitions: nat, slot: nat)
    requires size > 0 && repetitions > 0
    ensures Position(size, repetitions, slot + size * repetitions) == Position(size, repetitions, slot)
  {
    InRound(size, repetitions, 0);
    RemainderIsPeriodic(slot, size * repetitions);
  }

  lemma {:induction false} RemainderIsPeriodic(x: nat, d: nat)
    requires d > 0
    ensures (x + d) % d == x % d
  {
    var q, r := Division(x, d);
    DivisionIs(x + d, d, q + 1, r);
  }

  lemma {:induction false} TurnsShift(size: nat, repetitions: nat, i: nat, start: nat, n: nat)
    requires size > 0 && repetitions > 0
    ensures Turns(size, repetitions, i, start + 1, n) + (if Position(size, repetitions, start) == i then 1 else 0) ==
            Turns(size, repetitions, i, start, n + 1)
  {
    if n > 0 {
      TurnsShift(size, repetitions, i, start, n - 1);
    }
  }

  /** Fairness: in any window of one round, from any slot on, every position produces `repetitions` times. */
  lemma {:induction false} RoundIsFair(size: nat, repetitions: nat, i: nat, start: nat)
    requires repetitions > 0 && i < size
    ensures Turns(size, repetitions, i, start, size * repetitions) == repetitions
    decreases start
  {
    var round := size * repetitions;
    if start == 0 {
      MulMonotone(i + 1, size, repetitions);
      TurnsInFirstRound(size, repetitions, i, round);
    } else {
      RoundIsFair(size, repetitions, i, start - 1);
      TurnsShift(size, repetitions, i, start - 1, round);
      PositionIsPeriodic(size, repetitions, start - 1);
    }
  }

  /** The position is the number of the turn, counted round and round. */
  lemma {:induction false} PositionIsTurn(size: nat, repetitions: nat, slot: nat)
    requires size > 0 && repetitions > 0
    ensures Position(size, repetitions, slot) == slot / repetitions % size
  {
    var turn, c := Division(slot, repetitions);
    var a, b := Division(turn, size);
    MulOrder(b + 1, size, repetitions);
    Distribute(b, 1, repetitions);
    InRound(size, repetitions, 0);
    MulAssociates(a, size, repetitions);
    Distribute(a * size, b, repetitions);
    DivisionIs(slot, size * repetitions, a, b * repetitions + c);
    DivisionIs(b * repetitions + c, repetitions, b, c);
  }

  lemma {:induction false} Distribute(a: nat, b: nat, m: nat)
    ensures (a + b) * m == a * m + b * m
  {}

  /** Every position comes again after any slot. */
  lemma {:induction false} EveryPositionComes(size: nat, repetitions: nat, i: nat, after: nat) returns (slot: nat)
    requires repetitions > 0 && i < size
    ensures slot > after && Position(size, repetitions, slot) == i
  {
    InRound(size, repetitions, 0);
    var round := size * repetitions;
    slot := (after + 1) * round + i * repetitions;
    MulMonotone(i + 1, size, repetitions);
    assert (i + 1) * repetitions == i * repetitions + repetitions;
    MulOrder(1, round, after + 1);
    assert (after + 1) * round == round * (after + 1);
    DivisionIs(slot, round, after + 1, i * repetitions);
    DivisionIs(i * repetitions, repetitions, i, 0);
  }

  /** The comparison of two schedules, whatever their sizes. */
  method IsScheduleEqual<T(==)>(first: seq<T>, second: seq<T>) returns (isEqual: bool)
    ensures isEqual <==> first == second
  {
    isEqual := |first| == |second|;
    for i := 0 to |first|
      invariant isEqual <==> |first| == |second| && first[..i] == second[..i]
    {
      isEqual := isEqual && first[i] == second[i];
    }
  }

  /** The search for the block number that starts the next round. */
  method NextRoundFirstBlock(headBlockNum: nat, size: nat, repetitions: nat) returns (res: nat)
    requires size > 0 && repetitions > 0
    ensures res > headBlockNum && size * repetitions > 0 && res % (size * repetitions) == 0
    ensures forall n :: headBlockNum < n < res ==> n % (size * repetitions) != 0
    ensures Position(size, repetitions, res) == 0
  {
    InRound(size, repetitions, 0);
    var blocksPerRound := size * repetitions;
    res := headBlockNum + 1;
    while res % blocksPerRound != 0
      invariant headBlockNum < res
      invariant forall n :: headBlockNum < n < res ==> n % blocksPerRound != 0
      decreases if res % blocksPerRound == 0 then 0 else blocksPerRound - res % blocksPerRound
    {
      NextRemainder(res, blocksPerRound);
      res := res + 1;
    }
  }

  lemma {:induction false} NextRemainder(x: nat, d: nat)
    requires d > 0 && x % d != 0
    ensures (x + 1) % d == 0 || (x + 1) % d == x % d + 1
  {
    var q, r := Division(x, d);
    if r + 1 == d {
      DivisionIs(x + 1, d, q + 1, 0);
    } else {
      DivisionIs(x + 1, d, q, r + 1);
    }
  }
}
