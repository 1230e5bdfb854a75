/** Nested undo sessions over a flat list: a stack of list sizes stands for a stack of frames. */
module UndoSessions {

  /** The list and the sizes at which the open sessions started. */
  datatype State<T> = State(permissions: seq<T>, sizeStack: seq<nat>)

  ghost predicate Valid<T>(s: State<T>) {
    && (forall i, j :: 0 <= i < j < |s.sizeStack| ==> s.sizeStack[i] <= s.sizeStack[j])
    && (forall i :: 0 <= i < |s.sizeStack| ==> s.sizeStack[i] <= |s.permissions|)
  }

  /** The stack of frames that a state stands for, the outermost first: what was added outside every session,
      then what each open session added by itself. */
  function Frames<T>(s: State<T>): (frames: seq<seq<T>>)
    requires Valid(s)
    decreases |s.sizeStack|
  {
    if s.sizeStack == [] then [s.permissions]
    else
      var n := |s.sizeStack| - 1;
      var top := s.sizeStack[n];
      Frames(State(s.permissions[..top], s.sizeStack[..n])) + [s.permissions[top..]]
  }

  function Flatten<T>(frames: seq<seq<T>>): (list: seq<T>) {
    if frames == [] then [] else Flatten(frames[..|frames| - 1]) + frames[|frames| - 1]
  }

  lemma {:induction false} FramesShape<T>(s: State<T>)
    requires Valid(s)
    ensures |Frames(s)| == |s.sizeStack| + 1 && Flatten(Frames(s)) == s.permissions
    decreases |s.sizeStack|
  {
    var n := |s.sizeStack| - 1;
    if n >= 0 {
      var top := s.sizeStack[n];
      var below := State(s.permissions[..top], s.sizeStack[..n]);
      FramesShape(below);
      assert Frames(s)[..|Frames(s)| - 1] == Frames(below);
      assert s.permissions == s.permissions[..top] + s.permissions[top..];
    } else {
      assert Flatten([s.permissions]) == Flatten([s.permissions][..0]) + s.permissions;
    }
  }

  // ---------- The four operations ----------

  datatype Op<T> = Visit(permission: T) | Push | Pop | Squash

  /** What one operation does to the list and the sizes; `Pop` and `Squash` need an open session. */
  function Step<T>(s: State<T>, op: Op<T>): (s': State<T>)
    requires Valid(s) && (op.Pop? || op.Squash? ==> s.sizeStack != [])
    ensures Valid(s')
  {
    match op
    case Visit(p) => s.(permissions := s.permissions + [p])
    case Push => s.(sizeStack := s.sizeStack + [|s.permissions|])
    case Pop => State(s.permissions[..s.sizeStack[|s.sizeStack| - 1]], s.sizeStack[..|s.sizeStack| - 1])
    case Squash => s.(sizeStack := s.sizeStack[..|s.sizeStack| - 1])
  }

  /** The same operation on frames. */
  function FrameStep<T>(frames: seq<seq<T>>, op: Op<T>): (frames': seq<seq<T>>)
    requires frames != [] && (op.Pop? || op.Squash? ==> |frames| > 1)
  {
    var n := |frames|;
    match op
    case Visit(p) => frames[..n - 1] + [frames[n - 1] + [p]]
    case Push => frames + [[]]
    case Pop => frames[..n - 1]
    case Squash => frames[..n - 2] + [frames[n - 2] + frames[n - 1]]
  }

  /** The flat list with its sizes refines the stack of frames. */
  lemma {:induction false} StepRefines<T>(s: State<T>, op: Op<T>)
    requires Valid(s) && (op.Pop? || op.Squash? ==> s.sizeStack != [])
    ensures |Frames(s)| == |s.sizeStack| + 1
    ensures Frames(Step(s, op)) == FrameStep(Frames(s), op)
  {
    FramesShape(s);
    var n := |s.sizeStack|;
    match op
    case Visit(p) =>
      if n > 0 {
        var top := s.sizeStack[n - 1];
        assert (s.permissions + [p])[..top] == s.permissions[..top];
        assert (s.permissions + [p])[top..] == s.permissions[top..] + [p];
      }
    case Push =>
      assert (s.sizeStack + [|s.permissions|])[..n] == s.sizeStack;
      assert s.permissions[..|s.permissions|] == s.permissions && s.permissions[|s.permissions|..] == [];
    case Pop =>
    case Squash =>
      SquashRefines(s);
  }

  lemma {:induction false} SplitTwice<T>(list: seq<T>, a: nat, b: nat)
    requires a <= b <= |list|
    ensures list[..b][..a] == list[..a] && list[a..] == list[..b][a..] + list[b..]
  {}

  lemma {:induction false} MergeTop<T>(frames: seq<seq<T>>, middle: seq<T>, top: seq<T>)
    ensures FrameStep(frames + [middle] + [top], Squash) == frames + [middle + top]
  {
    var all := frames + [middle] + [top];
    assert all[..|all| - 2] == frames;
  }

  lemma {:induction false} SquashRefines<T>(s: State<T>)
    requires Valid(s) && s.sizeStack != []
    ensures |Frames(s)| == |s.sizeStack| + 1
    ensures Frames(Step(s, Squash)) == FrameStep(Frames(s), Squash)
  {
    FramesShape(s);
    var n := |s.sizeStack|;
    var top := s.sizeStack[n - 1];
    if n == 1 {
      MergeTop([], s.permissions[..top], s.permissions[top..]);
      assert s.permissions[..top] + s.permissions[top..] == s.permissions;
    } else {
      var next := s.sizeStack[n - 2];
      var base := State(s.permissions[..next], s.sizeStack[..n - 2]);
      SplitTwice(s.permissions, next, top);
      assert s.sizeStack[..n - 1][..n - 2] == s.sizeStack[..n - 2];
      assert Frames(s) == Frames(base) + [s.permissions[..top][next..]] + [s.permissions[top..]];
      MergeTop(Frames(base), s.permissions[..top][next..], s.permissions[top..]);
    }
  }

  // ---------- Runs ----------

  /** Every operation has the session it needs, and no session below the lowest `floor` is closed. */
  predicate Keeps(depth: nat, ops: seq<Op>, floor: nat)
    decreases |ops|
  {
    ops == [] ||
    (match ops[0]
     case Visit(_) => Keeps(depth, ops[1..], floor)
     case Push => Keeps(depth + 1, ops[1..], floor)
     case _ => depth > floor && Keeps(depth - 1, ops[1..], floor))
  }

  function DepthAfter(depth: nat, ops: seq<Op>, floor: nat): (d: nat)
    requires Keeps(depth, ops, floor)
    decreases |ops|
  {
    if ops == [] then depth
    else
      match ops[0]
      case Visit(_) => DepthAfter(depth, ops[1..], floor)
      case Push => DepthAfter(depth + 1, ops[1..], floor)
      case _ => DepthAfter(depth - 1, ops[1..], floor)
  }

  function Run<T>(s: State<T>, ops: seq<Op<T>>, floor: nat): (s': State<T>)
    requires Valid(s) && Keeps(|s.sizeStack|, ops, floor)
    ensures Valid(s') && |s'.sizeStack| == DepthAfter(|s.sizeStack|, ops, floor)
    decreases |ops|
  {
    if ops == [] then s else Run(Step(s, ops[0]), ops[1..], floor)
  }

  /** A run that closes no session below `floor` leaves those sessions, and all they hold, alone. */
  lemma {:induction false} RunKeepsBase<T>(s: State<T>, ops: seq<Op<T>>, floor: nat)
    requires Valid(s) && 0 < floor <= |s.sizeStack| && Keeps(|s.sizeStack|, ops, floor)
    ensures var s' := Run(s, ops, floor);
      |s'.sizeStack| >= floor && s'.sizeStack[..floor] == s.sizeStack[..floor]
      && s'.permissions[..s.sizeStack[floor - 1]] == s.permissions[..s.sizeStack[floor - 1]]
    decreases |ops|
  {
    if ops != [] {
      var s1 := Step(s, ops[0]);
      assert s1.sizeStack[..floor] == s.sizeStack[..floor];
      assert s1.sizeStack[floor - 1] == s.sizeStack[floor - 1];
      RunKeepsBase(s1, ops[1..], floor);
    }
  }

  /** Undo: push, any run that stays inside the new session and ends with it on top, then pop, gives back the
      state exactly. */
  lemma {:induction false} PopRestores<T>(s: State<T>, ops: seq<Op<T>>)
    requires Valid(s) && Keeps(|s.sizeStack| + 1, ops, |s.sizeStack| + 1)
    requires DepthAfter(|s.sizeStack| + 1, ops, |s.sizeStack| + 1) == |s.sizeStack| + 1
    ensures var inner := Run(Step(s, Push), ops, |s.sizeStack| + 1);
      inner.sizeStack != [] && Step(inner, Pop) == s
  {
    var pushed := Step(s, Push);
    var floor := |s.sizeStack| + 1;
    RunKeepsBase(pushed, ops, floor);
    var inner := Run(pushed, ops, floor);
    assert inner.sizeStack == inner.sizeStack[..floor] == pushed.sizeStack;
    PopReturns(s, inner);
  }

  lemma {:induction false} PopReturns<T>(s: State<T>, inner: State<T>)
    requires Valid(s) && Valid(inner) && inner.sizeStack == s.sizeStack + [|s.permissions|]
    requires s.permissions <= inner.permissions
    ensures Step(inner, Pop) == s
  {
    assert inner.sizeStack[..|s.sizeStack|] == s.sizeStack;
  }

  // ---------- The visitor ----------

  class PermissionVisitor<T> {
    var permissions: seq<T>
    var sizeStack: seq<nat>

    ghost function View(): (s: State<T>)
      reads this
    {
      State(permissions, sizeStack)
    }

    constructor ()
      ensures Valid(View()) && permissions == [] && sizeStack == []
    {
      permissions, sizeStack := [], [];
    }

    method Visit(permission: T)
      requires Valid(View())
      modifies this
      ensures View() == Step(old(View()), Op.Visit(permission))
    {
      permissions := permissions + [permission];
    }

    method PushUndo()
      requires Valid(View())
      modifies this
      ensures View() == Step(old(View()), Push)
    {
      sizeStack := sizeStack + [|permissions|];
    }

    method PopUndo()
      requires Valid(View()) && sizeStack != []
      modifies this
      ensures View() == Step(old(View()), Pop)
    {
      assert sizeStack[|sizeStack| - 1] <= |permissions| && |sizeStack| >= 1;
      permissions := permissions[..sizeStack[|sizeStack| - 1]];
      sizeStack := sizeStack[..|sizeStack| - 1];
    }

    method SquashUndo()
      requires Valid(View()) && sizeStack != []
      modifies this
      ensures View() == Step(old(View()), Squash)
    {
      assert |sizeStack| >= 1;
      sizeStack := sizeStack[..|sizeStack| - 1];
    }
  }
}
