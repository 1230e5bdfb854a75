/** The FC_REFLECT field check: a two-cursor scan that compares the fields a class declares
    with the fields its reflection lists, under `@ignore` and `@swap` annotations.

    `Relation` says what a correct reflection is, without any scan; `Meets` says, again without
    any scan, when the tool objects to a swap annotation.  `Reflection.Match` is the scan, and it
    passes exactly on `Relation && !Meets`. */
module FieldMatcher {
  import opened Lists
  import opened Options

  type Field = string

  /** How a check ends: it passes, or one of the tool's assertions fails. */
  datatype Outcome =
    | Passed
    | SwapNotReflected(field: Field)
    | SwapInOrder(field: Field)
    | IgnoredButReflected(field: Field)
    | IgnoreInOrder(field: Field)
    | Mismatch(field: Field, found: Option<Field>)
    | ErroneousIgnores(fields: seq<Field>)
    | UnusedFields(fields: seq<Field>)
    | ErroneousSwaps(fields: seq<Field>)
    | SwapsNeverProvided(fields: seq<Field>)
    | SwapsNotInClass(fields: seq<Field>)

  // ---------- What a correct reflection is ----------

  /** `r` reflects the class fields `f`: the ignored fields are class fields left out of `r`, the
      swapped fields occur in both lists, and all the others occur in both in the same order. */
  ghost predicate Relation(f: seq<Field>, r: seq<Field>, ig: seq<Field>, sw: seq<Field>) {
    && Distinct(f)
    && (forall x :: x in ig ==> x in f && x !in r)
    && (forall x :: x in sw ==> x in f && x in r)
    && Without(f, Elements(ig) + Elements(sw)) == Without(r, Elements(sw))
  }

  /** Positions just after the same unswapped field in both lists, or the two beginnings. */
  ghost predicate Aligned(f: seq<Field>, r: seq<Field>, sw: seq<Field>, i: nat, j: nat) {
    || (i == 0 && j == 0)
    || (0 < i <= |f| && 0 < j <= |r| && f[i - 1] == r[j - 1] && f[i - 1] !in sw)
  }

  /** The swapped field at `f[i]` is the first reflected field after an aligned position, and only
      swapped fields that are reflected later stand before it in the class. */
  ghost predicate MeetsAt(f: seq<Field>, r: seq<Field>, sw: seq<Field>, start: nat, i: nat, j: nat) {
    && start <= i < |f| && j < |r|
    && f[i] == r[j] && f[i] in sw
    && Aligned(f, r, sw, start, j)
    && forall t :: start <= t < i ==> f[t] in sw && f[t] !in r[..j]
  }

  ghost predicate Meets(f: seq<Field>, r: seq<Field>, sw: seq<Field>) {
    exists start: nat, i: nat, j: nat :: MeetsAt(f, r, sw, start, i, j)
  }

  ghost predicate Accepts(f: seq<Field>, r: seq<Field>, ig: seq<Field>, sw: seq<Field>) {
    Relation(f, r, ig, sw) && !Meets(f, r, sw)
  }

  // ---------- The scan ----------

  /** The two cursors and the five worklists of the scan. */
  datatype Scan = Scan(i: nat, j: nat, pending: seq<Field>, back: seq<Field>, fwd: seq<Field>,
                       ignored: seq<Field>, seen: seq<Field>)

  datatype StepResult = Continue(next: Scan) | Stop(outcome: Outcome)

  /** One round of the scan over class field `f[s.i]`. */
  function Step(f: seq<Field>, r: seq<Field>, s: Scan): (result: StepResult)
    requires s.i < |f| && s.j <= |r|
    ensures result.Continue? ==>
      s.i <= result.next.i <= |f| && s.j <= result.next.j <= |r| && s.i + s.j < result.next.i + result.next.j
  {
    var field := f[s.i];
    var shown := if s.j < |r| then Some(r[s.j]) else None;
    if field in s.pending then
      if field !in r then Stop(SwapNotReflected(field))
      else if shown == Some(field) then Stop(SwapInOrder(field))
      else Continue(s.(i := s.i + 1, pending := RemoveFirst(s.pending, field), back := s.back + [field]))
    else if shown.Some? && shown.value in s.pending then
      Continue(s.(j := s.j + 1, pending := RemoveFirst(s.pending, shown.value), fwd := s.fwd + [shown.value]))
    else if shown.Some? && shown.value in s.seen then
      Stop(IgnoredButReflected(shown.value))
    else if field in s.ignored then
      if shown == Some(field) then Stop(IgnoreInOrder(field))
      else Continue(s.(i := s.i + 1, ignored := RemoveFirst(s.ignored, field), seen := s.seen + [field]))
    else if shown.Some? && shown.value in s.back then
      Continue(s.(j := s.j + 1, back := RemoveFirst(s.back, shown.value)))
    else if field in s.fwd then
      Continue(s.(i := s.i + 1, fwd := RemoveFirst(s.fwd, field)))
    else if shown != Some(field) then
      Stop(Mismatch(field, shown))
    else
      Continue(s.(i := s.i + 1, j := s.j + 1))
  }

  /** The reflected fields left after the class fields are used up: back-swapped, or unused. */
  function Tail(r: seq<Field>, j: nat, back: seq<Field>, unused: seq<Field>): (rest: (seq<Field>, seq<Field>))
    requires j <= |r|
    decreases |r| - j
  {
    if j == |r| then (back, unused)
    else if r[j] in back then Tail(r, j + 1, RemoveFirst(back, r[j]), unused)
    else Tail(r, j + 1, back, unused + [r[j]])
  }

  /** The assertions after the scan, in order. */
  function Finish(r: seq<Field>, s: Scan): (outcome: Outcome)
    requires s.j <= |r|
  {
    var (back, unused) := Tail(r, s.j, s.back, []);
    if s.ignored != [] then ErroneousIgnores(s.ignored)
    else if unused != [] then UnusedFields(unused)
    else if s.pending != [] then ErroneousSwaps(s.pending)
    else if back != [] then SwapsNeverProvided(back)
    else if s.fwd != [] then SwapsNotInClass(s.fwd)
    else Passed
  }

  function Run(f: seq<Field>, r: seq<Field>, s: Scan): (outcome: Outcome)
    requires s.i <= |f| && s.j <= |r|
    decreases |f| - s.i + |r| - s.j
  {
    if s.i == |f| then Finish(r, s)
    else
      match Step(f, r, s)
      case Continue(next) => Run(f, r, next)
      case Stop(outcome) => outcome
  }

  // ---------- The scan's invariant ----------

  /** Every initially swapped field is in exactly one of pending, back-swapped, forward-swapped and
      resolved, according to which cursors have passed it; the fields passed so far are in order. */
  ghost predicate Cursors(f: seq<Field>, r: seq<Field>, ig: seq<Field>, sw: seq<Field>, s: Scan) {
    && s.i <= |f| && s.j <= |r|
    && Distinct(s.pending) && Distinct(s.back) && Distinct(s.fwd) && Distinct(s.ignored)
    && (forall x :: x in s.pending <==> x in sw && x !in f[..s.i] && x !in r[..s.j])
    && (forall x :: x in s.back <==> x in sw && x in f[..s.i] && x !in r[..s.j])
    && (forall x :: x in s.fwd <==> x in sw && x !in f[..s.i] && x in r[..s.j])
    && (forall x :: x in s.ignored <==> x in ig && x !in f[..s.i])
    && (forall x :: x in s.seen <==> x in ig && x in f[..s.i])
    && Distinct(f[..s.i])
    && (forall x :: x in f[..s.i] && x in sw ==> x in r)
    && (forall x :: x in ig ==> x !in r[..s.j])
    && Without(f[..s.i], Elements(ig) + Elements(sw)) == Without(r[..s.j], Elements(sw))
  }

  /** What the annotations of one class look like when the scan starts. */
  ghost predicate Ready(r: seq<Field>, ig: seq<Field>, sw: seq<Field>) {
    && Distinct(r) && Distinct(ig) && Distinct(sw)
    && (forall x :: x in ig && x in sw ==> x !in r)
  }

  lemma {:induction false} PrefixStep<T>(s: seq<T>, i: nat)
    requires i < |s|
    ensures s[..i + 1] == s[..i] + [s[i]]
  {}

  lemma {:induction false} HeadIsElement<T>(s: seq<T>)
    ensures s != [] ==> s[0] in s
  {}

  lemma {:induction false} WholePrefix<T>(s: seq<T>, n: nat)
    requires n <= |s|
    ensures n == |s| ==> s[..n] == s
  {}

  lemma {:induction false} NotYetRead(r: seq<Field>, j: nat)
    requires Distinct(r) && j < |r|
    ensures r[j] !in r[..j]
  {}

  lemma {:induction false} CursorsInit(f: seq<Field>, r: seq<Field>, ig: seq<Field>, sw: seq<Field>)
    requires Ready(r, ig, sw)
    ensures Cursors(f, r, ig, sw, Scan(0, 0, sw, [], [], ig, []))
  {}

  lemma {:induction false} CursorsBack(f: seq<Field>, r: seq<Field>, ig: seq<Field>, sw: seq<Field>, s: Scan)
    requires Ready(r, ig, sw) && Cursors(f, r, ig, sw, s)
    requires s.i < |f| && f[s.i] in s.pending && f[s.i] in r
    ensures Cursors(f, r, ig, sw, s.(i := s.i + 1, pending := RemoveFirst(s.pending, f[s.i]), back := s.back + [f[s.i]]))
  {
    PrefixStep(f, s.i);
    RemoveFirstDistinct(s.pending, f[s.i]);
    WithoutAppend(f[..s.i], f[s.i], Elements(ig) + Elements(sw));
  }

  lemma {:induction false} CursorsFwd(f: seq<Field>, r: seq<Field>, ig: seq<Field>, sw: seq<Field>, s: Scan)
    requires Ready(r, ig, sw) && Cursors(f, r, ig, sw, s)
    requires s.j < |r| && r[s.j] in s.pending
    ensures Cursors(f, r, ig, sw, s.(j := s.j + 1, pending := RemoveFirst(s.pending, r[s.j]), fwd := s.fwd + [r[s.j]]))
  {
    PrefixStep(r, s.j);
    NotYetRead(r, s.j);
    RemoveFirstDistinct(s.pending, r[s.j]);
    WithoutAppend(r[..s.j], r[s.j], Elements(sw));
  }

  lemma {:induction false} CursorsIgnore(f: seq<Field>, r: seq<Field>, ig: seq<Field>, sw: seq<Field>, s: Scan)
    requires Ready(r, ig, sw) && Cursors(f, r, ig, sw, s)
    requires s.i < |f| && f[s.i] in s.ignored && f[s.i] !in s.pending
    ensures Cursors(f, r, ig, sw, s.(i := s.i + 1, ignored := RemoveFirst(s.ignored, f[s.i]), seen := s.seen + [f[s.i]]))
  {
    PrefixStep(f, s.i);
    RemoveFirstDistinct(s.ignored, f[s.i]);
    WithoutAppend(f[..s.i], f[s.i], Elements(ig) + Elements(sw));
    assert f[s.i] in ig;
    assert f[s.i] !in sw;
  }

  lemma {:induction false} CursorsBackSeen(f: seq<Field>, r: seq<Field>, ig: seq<Field>, sw: seq<Field>, s: Scan)
    requires Ready(r, ig, sw) && Cursors(f, r, ig, sw, s)
    requires s.j < |r| && r[s.j] in s.back
    ensures Cursors(f, r, ig, sw, s.(j := s.j + 1, back := RemoveFirst(s.back, r[s.j])))
  {
    PrefixStep(r, s.j);
    NotYetRead(r, s.j);
    RemoveFirstDistinct(s.back, r[s.j]);
    WithoutAppend(r[..s.j], r[s.j], Elements(sw));
  }

  lemma {:induction false} CursorsFwdSeen(f: seq<Field>, r: seq<Field>, ig: seq<Field>, sw: seq<Field>, s: Scan)
    requires Ready(r, ig, sw) && Cursors(f, r, ig, sw, s)
    requires s.i < |f| && f[s.i] in s.fwd
    ensures Cursors(f, r, ig, sw, s.(i := s.i + 1, fwd := RemoveFirst(s.fwd, f[s.i])))
  {
    PrefixStep(f, s.i);
    RemoveFirstDistinct(s.fwd, f[s.i]);
    WithoutAppend(f[..s.i], f[s.i], Elements(ig) + Elements(sw));
  }

  /** A field that both cursors show, and that no worklist holds, is new to the class and unannotated. */
  lemma {:induction false} MatchedIsPlain(f: seq<Field>, r: seq<Field>, ig: seq<Field>, sw: seq<Field>, s: Scan)
    requires Ready(r, ig, sw) && Cursors(f, r, ig, sw, s)
    requires s.i < |f| && s.j < |r| && f[s.i] == r[s.j]
    requires f[s.i] !in s.pending && f[s.i] !in s.back && f[s.i] !in s.fwd
    requires f[s.i] !in s.ignored && f[s.i] !in s.seen
    ensures f[s.i] !in sw && f[s.i] !in ig && f[s.i] !in f[..s.i]
  {
    NotYetRead(r, s.j);
    WithoutElements(f[..s.i], Elements(ig) + Elements(sw));
    WithoutElements(r[..s.j], Elements(sw));
  }

  lemma {:induction false} CursorsMatch(f: seq<Field>, r: seq<Field>, ig: seq<Field>, sw: seq<Field>, s: Scan)
    requires Ready(r, ig, sw) && Cursors(f, r, ig, sw, s)
    requires s.i < |f| && s.j < |r| && f[s.i] == r[s.j]
    requires f[s.i] !in sw && f[s.i] !in ig && f[s.i] !in f[..s.i]
    ensures Cursors(f, r, ig, sw, s.(i := s.i + 1, j := s.j + 1))
  {
    PrefixStep(f, s.i);
    PrefixStep(r, s.j);
    WithoutAppend(f[..s.i], f[s.i], Elements(ig) + Elements(sw));
    WithoutAppend(r[..s.j], f[s.i], Elements(sw));
  }

  // ---------- What the relation forces on the scan ----------

  /** With nothing else to do, a correct reflection shows the same field under both cursors. */
  lemma {:induction false} MatchForced(f: seq<Field>, r: seq<Field>, ig: seq<Field>, sw: seq<Field>, s: Scan)
    requires Ready(r, ig, sw) && Cursors(f, r, ig, sw, s) && Relation(f, r, ig, sw)
    requires s.i < |f| && f[s.i] !in s.pending && f[s.i] !in s.ignored && f[s.i] !in s.fwd
    requires s.j < |r| ==> r[s.j] !in s.pending && r[s.j] !in s.back
    ensures s.j < |r| && f[s.i] == r[s.j]
  {
    NotYetRead(f, s.i);
    NextKept(f, s.i, Elements(ig) + Elements(sw));
    WholePrefix(r, s.j);
    if s.j < |r| {
      NotYetRead(r, s.j);
      NextKept(r, s.j, Elements(sw));
    }
  }

  /** The kept element at `i` follows the kept elements before `i`. */
  lemma {:induction false} NextKept(s: seq<Field>, i: nat, drop: set<Field>)
    requires i < |s| && s[i] !in drop
    ensures var k := |Without(s[..i], drop)|; k < |Without(s, drop)| && Without(s, drop)[k] == s[i]
  {
    PrefixStep(s, i);
    WithoutAppend(s[..i], s[i], drop);
    WithoutConcat(s[..i + 1], s[i + 1..], drop);
    assert s == s[..i + 1] + s[i + 1..];
  }

  /** Once the class fields are read, what a correct reflection still lists was swapped back. */
  lemma {:induction false} TailForced(f: seq<Field>, r: seq<Field>, ig: seq<Field>, sw: seq<Field>, s: Scan)
    requires Ready(r, ig, sw) && Cursors(f, r, ig, sw, s) && Relation(f, r, ig, sw)
    requires s.i == |f|
    ensures s.ignored == []
    ensures s.j < |r| ==> r[s.j] in s.back
    ensures s.j == |r| ==> s.pending == [] && s.back == [] && s.fwd == []
  {
    assert f[..s.i] == f;
    HeadIsElement(s.ignored);
    if s.j < |r| {
      NotYetRead(r, s.j);
      if r[s.j] !in sw {
        NextKept(r, s.j, Elements(sw));
      }
    } else {
      assert r[..s.j] == r;
      HeadIsElement(s.pending);
      HeadIsElement(s.back);
      HeadIsElement(s.fwd);
    }
  }

  /** A scan that used up both lists and emptied every worklist has seen a correct reflection. */
  lemma {:induction false} FinishedIsCorrect(f: seq<Field>, r: seq<Field>, ig: seq<Field>, sw: seq<Field>, s: Scan)
    requires Ready(r, ig, sw) && Cursors(f, r, ig, sw, s)
    requires s.i == |f| && s.j == |r|
    requires s.pending == [] && s.back == [] && s.fwd == [] && s.ignored == []
    ensures Relation(f, r, ig, sw)
  {
    assert f[..s.i] == f && r[..s.j] == r;
    forall x | x in sw ensures x in f && x in r {
      assert x !in s.pending && x !in s.back && x !in s.fwd;
    }
    forall x | x in ig ensures x in f && x !in r {
      assert x !in s.ignored;
    }
  }

  // ---------- Where the scan meets a swapped field on both sides ----------

  /** While `untouched`, only pending swaps were read since the aligned position `(start, first)`; after
      that, the cursors never both stand on pending swaps. */
  ghost predicate Lag(f: seq<Field>, r: seq<Field>, sw: seq<Field>, s: Scan, start: nat, first: nat, untouched: bool) {
    && start <= s.i <= |f| && s.j <= |r|
    && Aligned(f, r, sw, start, first)
    && (untouched ==> s.j == first && forall t :: start <= t < s.i ==> f[t] in sw && f[t] !in r[..s.j])
    && (!untouched && s.i < |f| && s.j < |r| ==> f[s.i] !in s.pending || r[s.j] !in s.pending)
  }

  /** Every place where the cursors must meet is still ahead, or about to be met. */
  ghost predicate Ahead(f: seq<Field>, r: seq<Field>, sw: seq<Field>, s: Scan) {
    forall start: nat, i: nat, j: nat :: MeetsAt(f, r, sw, start, i, j) ==>
      s.i < start || (start <= s.i <= i && s.j == j)
  }

  /** Before its meeting place, a meeting field is approached through pending swaps only. */
  lemma {:induction false} ApproachIsPending(f: seq<Field>, r: seq<Field>, ig: seq<Field>, sw: seq<Field>, s: Scan, start: nat, i: nat, j: nat)
    requires Ready(r, ig, sw) && Cursors(f, r, ig, sw, s) && Relation(f, r, ig, sw)
    requires MeetsAt(f, r, sw, start, i, j) && start <= s.i <= i && s.j == j
    ensures f[s.i] in s.pending
    ensures s.i == i ==> f[s.i] == r[s.j]
  {
    NotYetRead(f, s.i);
    NotYetRead(r, j);
  }

  /** Reading one class field that is not a meeting keeps every meeting ahead, provided that field
      was pending, or was matched, or is not the last field before an aligned position. */
  lemma {:induction false} AheadStep(f: seq<Field>, r: seq<Field>, ig: seq<Field>, sw: seq<Field>, s: Scan, s': Scan)
    requires Ready(r, ig, sw) && Cursors(f, r, ig, sw, s) && Relation(f, r, ig, sw)
    requires Ahead(f, r, sw, s)
    requires s.i < |f|
    requires
      || (s'.i == s.i + 1 && s'.j == s.j && f[s.i] in s.pending && !(s.j < |r| && r[s.j] == f[s.i]))
      || (s'.i == s.i && s'.j == s.j + 1 && f[s.i] !in s.pending)
      || (s'.i == s.i + 1 && s'.j == s.j && f[s.i] !in s.pending && (f[s.i] in sw || f[s.i] in ig))
      || (s'.i == s.i + 1 && s'.j == s.j + 1 && f[s.i] !in s.pending && s.j < |r| && f[s.i] == r[s.j])
    ensures Ahead(f, r, sw, s')
  {
    forall start: nat, i: nat, j: nat | MeetsAt(f, r, sw, start, i, j)
      ensures s'.i < start || (start <= s'.i <= i && s'.j == j)
    {
      if start <= s.i {
        ApproachIsPending(f, r, ig, sw, s, start, i, j);
      } else if s'.i == start {
        assert f[s.i] == r[j - 1] && f[s.i] !in sw;
        if s'.j == s.j + 1 {
          assert r[s.j] == r[j - 1];
        }
      }
    }
  }

  ghost predicate Inv(f: seq<Field>, r: seq<Field>, ig: seq<Field>, sw: seq<Field>, s: Scan,
                      start: nat, first: nat, untouched: bool) {
    && Cursors(f, r, ig, sw, s)
    && Lag(f, r, sw, s, start, first, untouched)
    && (Relation(f, r, ig, sw) ==> Ahead(f, r, sw, s))
  }

  lemma {:induction false} StepKeepsCursors(f: seq<Field>, r: seq<Field>, ig: seq<Field>, sw: seq<Field>, s: Scan)
    requires Ready(r, ig, sw) && Cursors(f, r, ig, sw, s) && s.i < |f|
    requires Step(f, r, s).Continue?
    ensures Cursors(f, r, ig, sw, Step(f, r, s).next)
  {
    if f[s.i] in s.pending {
      CursorsBack(f, r, ig, sw, s);
    } else if s.j < |r| && r[s.j] in s.pending {
      CursorsFwd(f, r, ig, sw, s);
    } else if f[s.i] in s.ignored {
      CursorsIgnore(f, r, ig, sw, s);
    } else if s.j < |r| && r[s.j] in s.back {
      CursorsBackSeen(f, r, ig, sw, s);
    } else if f[s.i] in s.fwd {
      CursorsFwdSeen(f, r, ig, sw, s);
    } else {
      MatchedIsPlain(f, r, ig, sw, s);
      CursorsMatch(f, r, ig, sw, s);
    }
  }

  lemma {:induction false} StepKeepsAhead(f: seq<Field>, r: seq<Field>, ig: seq<Field>, sw: seq<Field>, s: Scan)
    requires Ready(r, ig, sw) && Cursors(f, r, ig, sw, s) && s.i < |f|
    requires Relation(f, r, ig, sw) && Ahead(f, r, sw, s)
    requires Step(f, r, s).Continue?
    ensures Ahead(f, r, sw, Step(f, r, s).next)
  {
    AheadStep(f, r, ig, sw, s, Step(f, r, s).next);
  }

  lemma {:induction false} StepKeepsLag(f: seq<Field>, r: seq<Field>, ig: seq<Field>, sw: seq<Field>, s: Scan,
                     start: nat, first: nat, untouched: bool)
    returns (start': nat, first': nat, untouched': bool)
    requires Ready(r, ig, sw) && Cursors(f, r, ig, sw, s) && s.i < |f|
    requires Lag(f, r, sw, s, start, first, untouched)
    requires Step(f, r, s).Continue?
    ensures Lag(f, r, sw, Step(f, r, s).next, start', first', untouched')
  {
    start', first', untouched' := start, first, false;
    var next := Step(f, r, s).next;
    if f[s.i] in s.pending {
      RemoveFirstDistinct(s.pending, f[s.i]);
      untouched' := untouched;
    } else if s.j < |r| && r[s.j] in s.pending {
      RemoveFirstDistinct(s.pending, r[s.j]);
    } else if next.i == s.i + 1 && next.j == s.j + 1 {
      MatchedIsPlain(f, r, ig, sw, s);
      start', first', untouched' := next.i, next.j, true;
    }
  }

  /** The only assertion a correct reflection can fail during the scan is the one about a swap that is
      already in order, and then the field is a meeting. */
  lemma {:induction false} StopExplained(f: seq<Field>, r: seq<Field>, ig: seq<Field>, sw: seq<Field>, s: Scan,
                      start: nat, first: nat, untouched: bool)
    requires Ready(r, ig, sw) && Cursors(f, r, ig, sw, s) && s.i < |f|
    requires Lag(f, r, sw, s, start, first, untouched)
    requires Relation(f, r, ig, sw)
    requires Step(f, r, s).Stop?
    ensures Step(f, r, s).outcome == SwapInOrder(f[s.i]) && MeetsAt(f, r, sw, start, s.i, s.j)
  {
    if f[s.i] !in s.pending && f[s.i] !in s.ignored && f[s.i] !in s.fwd && !(s.j < |r| && r[s.j] in s.pending + s.back) {
      MatchForced(f, r, ig, sw, s);
    }
  }

  lemma {:induction false} TailExact(f: seq<Field>, r: seq<Field>, ig: seq<Field>, sw: seq<Field>, s: Scan, unused: seq<Field>)
    requires Ready(r, ig, sw) && Cursors(f, r, ig, sw, s) && s.i == |f|
    ensures var (back, rest) := Tail(r, s.j, s.back, unused);
      (Relation(f, r, ig, sw) && unused == [] ==> back == rest == [] == s.pending == s.fwd == s.ignored)
      && (back == rest == [] == s.pending == s.fwd == s.ignored ==> Relation(f, r, ig, sw) && unused == [])
    decreases |r| - s.j
  {
    if Relation(f, r, ig, sw) {
      TailForced(f, r, ig, sw, s);
    }
    if s.j < |r| && r[s.j] in s.back {
      CursorsBackSeen(f, r, ig, sw, s);
      TailExact(f, r, ig, sw, s.(j := s.j + 1, back := RemoveFirst(s.back, r[s.j])), unused);
    } else if s.j < |r| {
      TailGrows(r, s.j + 1, s.back, unused + [r[s.j]]);
    } else if s.back == s.pending == s.fwd == s.ignored == [] {
      FinishedIsCorrect(f, r, ig, sw, s);
    }
  }

  lemma {:induction false} TailGrows(r: seq<Field>, j: nat, back: seq<Field>, unused: seq<Field>)
    requires j <= |r|
    ensures unused <= Tail(r, j, back, unused).1
    decreases |r| - j
  {
    if j < |r| {
      if r[j] in back {
        TailGrows(r, j + 1, RemoveFirst(back, r[j]), unused);
      } else {
        TailGrows(r, j + 1, back, unused + [r[j]]);
      }
    }
  }

  lemma {:induction false} RunExact(f: seq<Field>, r: seq<Field>, ig: seq<Field>, sw: seq<Field>, s: Scan,
                                    start: nat, first: nat, untouched: bool)
    requires Ready(r, ig, sw) && Inv(f, r, ig, sw, s, start, first, untouched)
    ensures Run(f, r, s).Passed? <==> Accepts(f, r, ig, sw)
    ensures Relation(f, r, ig, sw) && !Run(f, r, s).Passed? ==> Objects(f, r, sw, Run(f, r, s))
    decreases |f| - s.i + |r| - s.j
  {
    if s.i == |f| {
      TailExact(f, r, ig, sw, s, []);
    } else {
      match Step(f, r, s)
      case Continue(next) =>
        StepKeepsCursors(f, r, ig, sw, s);
        if Relation(f, r, ig, sw) {
          StepKeepsAhead(f, r, ig, sw, s);
        }
        var start', first', untouched' := StepKeepsLag(f, r, ig, sw, s, start, first, untouched);
        RunExact(f, r, ig, sw, next, start', first', untouched');
      case Stop(outcome) =>
        if Relation(f, r, ig, sw) {
          StopExplained(f, r, ig, sw, s, start, first, untouched);
        }
    }
  }

  /** The tool objects that a swapped field is in order, and it names a field met on both sides. */
  ghost predicate Objects(f: seq<Field>, r: seq<Field>, sw: seq<Field>, outcome: Outcome) {
    outcome.SwapInOrder? && exists start: nat, i: nat, j: nat :: MeetsAt(f, r, sw, start, i, j) && f[i] == outcome.field
  }

  /** Main result: the tool passes exactly the correct reflections without a meeting, and on a correct
      reflection it never fails any other assertion. */
  lemma {:induction false} MatchIsExact(f: seq<Field>, r: seq<Field>, ig: seq<Field>, sw: seq<Field>)
    requires Ready(r, ig, sw)
    ensures var outcome := Run(f, r, Scan(0, 0, sw, [], [], ig, []));
      (outcome.Passed? <==> Accepts(f, r, ig, sw))
      && (Relation(f, r, ig, sw) && !outcome.Passed? ==> Objects(f, r, sw, outcome))
  {
    CursorsInit(f, r, ig, sw);
    RunExact(f, r, ig, sw, Scan(0, 0, sw, [], [], ig, []), 0, 0, true);
  }

  // ---------- What a refusal says ----------

  /** Places in both lists before which the same plain fields stand, in the same order. */
  ghost predicate Level(f: seq<Field>, r: seq<Field>, ig: seq<Field>, sw: seq<Field>, i: nat, j: nat) {
    i <= |f| && j <= |r| && Without(f[..i], Elements(ig) + Elements(sw)) == Without(r[..j], Elements(sw))
  }

  /** The class field `x` stands where the reflection shows the different field `found`, or nothing more.  Neither is
      annotated, unless the class repeats `x` or ignores `found` further on. */
  ghost predicate MismatchAt(f: seq<Field>, r: seq<Field>, ig: seq<Field>, sw: seq<Field>, x: Field, found: Option<Field>, i: nat, j: nat) {
    && Level(f, r, ig, sw, i, j) && i < |f| && f[i] == x
    && found == (if j < |r| then Some(r[j]) else None) && found != Some(x)
    && (x in ig || x in sw ==> x in f[..i])
    && (found.Some? ==> found.value !in sw && (found.value in ig ==> found.value !in f[..i]))
  }

  /** What each outcome says of the class fields `f`, the reflected fields `r` and the annotations. */
  ghost predicate True(f: seq<Field>, r: seq<Field>, ig: seq<Field>, sw: seq<Field>, outcome: Outcome) {
    match outcome
    case Passed => Relation(f, r, ig, sw)
    case SwapNotReflected(x) => x in sw && x in f && x !in r
    case SwapInOrder(x) => x in sw && exists i: nat, j: nat :: Level(f, r, ig, sw, i, j) && i < |f| && j < |r| && f[i] == x == r[j]
    case IgnoredButReflected(x) => x in ig && exists i: nat, j: nat :: Level(f, r, ig, sw, i, j) && j < |r| && x in f[..i] && r[j] == x
    case IgnoreInOrder(x) => x in ig && exists i: nat, j: nat :: Level(f, r, ig, sw, i, j) && i < |f| && j < |r| && f[i] == x == r[j]
    case Mismatch(x, found) => exists i: nat, j: nat :: MismatchAt(f, r, ig, sw, x, found, i, j)
    case ErroneousIgnores(fields) => fields != [] && forall x :: x in fields <==> x in ig && x !in f
    case UnusedFields(fields) =>
      && fields != [] && (forall x :: x in fields ==> x in r && (x in f ==> x in ig))
      && (forall x :: x in r && x !in sw && (x in f ==> x in ig) ==> x in fields)
    case ErroneousSwaps(fields) => fields != [] && forall x :: x in fields <==> x in sw && x !in f && x !in r
    case SwapsNeverProvided(_) => false
    case SwapsNotInClass(fields) => fields != [] && forall x :: x in fields <==> x in sw && x !in f && x in r
  }

  lemma {:induction false} MismatchIsTrue(f: seq<Field>, r: seq<Field>, ig: seq<Field>, sw: seq<Field>, s: Scan)
    requires Ready(r, ig, sw) && Cursors(f, r, ig, sw, s) && s.i < |f|
    requires Step(f, r, s).Stop? && Step(f, r, s).outcome.Mismatch?
    ensures True(f, r, ig, sw, Step(f, r, s).outcome)
  {
    if s.j < |r| {
      NotYetRead(r, s.j);
    }
    assert MismatchAt(f, r, ig, sw, f[s.i], if s.j < |r| then Some(r[s.j]) else None, s.i, s.j);
  }

  lemma {:induction false} StopIsTrue(f: seq<Field>, r: seq<Field>, ig: seq<Field>, sw: seq<Field>, s: Scan)
    requires Ready(r, ig, sw) && Cursors(f, r, ig, sw, s) && s.i < |f| && Step(f, r, s).Stop?
    ensures True(f, r, ig, sw, Step(f, r, s).outcome)
  {
    if Step(f, r, s).outcome.Mismatch? {
      MismatchIsTrue(f, r, ig, sw, s);
    } else {
      assert Level(f, r, ig, sw, s.i, s.j);
      assert f[s.i] in f;
    }
  }

  /** What the rest of the reflected fields leaves. */
  lemma {:induction false} TailLeaves(r: seq<Field>, j: nat, back: seq<Field>, unused: seq<Field>)
    requires j <= |r| && Distinct(r) && Distinct(back)
    ensures forall x :: x in Tail(r, j, back, unused).0 <==> x in back && x !in r[j..]
    ensures forall x :: x in Tail(r, j, back, unused).1 <==> x in unused || (x in r[j..] && x !in back)
    decreases |r| - j
  {
    if j < |r| {
      assert r[j..] == [r[j]] + r[j + 1..];
      OnlyThere(r, j);
      if r[j] in back {
        RemoveFirstDistinct(back, r[j]);
        TailLeaves(r, j + 1, RemoveFirst(back, r[j]), unused);
      } else {
        TailLeaves(r, j + 1, back, unused + [r[j]]);
      }
    }
  }

  lemma {:induction false} UnusedIsTrue(f: seq<Field>, r: seq<Field>, ig: seq<Field>, sw: seq<Field>, s: Scan, x: Field)
    requires Ready(r, ig, sw) && Cursors(f, r, ig, sw, s) && s.i == |f| && s.ignored == []
    ensures x in r[s.j..] && x !in s.back ==> x in r && (x in f ==> x in ig)
    ensures x in r && x !in sw && (x in f ==> x in ig) ==> x in r[s.j..] && x !in s.back
  {
    assert f[..s.i] == f;
    assert r == r[..s.j] + r[s.j..];
    WithoutElements(f, Elements(ig) + Elements(sw));
    WithoutElements(r[..s.j], Elements(sw));
    assert x in r[s.j..] ==> x !in r[..s.j];
  }

  lemma {:induction false} FinishIsTrue(f: seq<Field>, r: seq<Field>, ig: seq<Field>, sw: seq<Field>, s: Scan)
    requires Ready(r, ig, sw) && Cursors(f, r, ig, sw, s) && s.i == |f|
    ensures True(f, r, ig, sw, Finish(r, s))
  {
    assert f[..s.i] == f;
    assert r == r[..s.j] + r[s.j..];
    TailLeaves(r, s.j, s.back, []);
    var (back, unused) := Tail(r, s.j, s.back, []);
    HeadIsElement(back);
    assert back == [];
    if s.ignored == [] && unused != [] {
      forall x ensures x in unused ==> x in r && (x in f ==> x in ig) {
        UnusedIsTrue(f, r, ig, sw, s, x);
      }
      forall x | x in r && x !in sw && (x in f ==> x in ig) ensures x in unused {
        UnusedIsTrue(f, r, ig, sw, s, x);
      }
    } else if s.ignored == [] {
      RestIsBack(f, r, ig, sw, s, unused);
      TailExact(f, r, ig, sw, s, []);
    }
  }

  /** With nothing unused, what is left of the reflected fields is swapped and in the class. */
  lemma {:induction false} RestIsBack(f: seq<Field>, r: seq<Field>, ig: seq<Field>, sw: seq<Field>, s: Scan, unused: seq<Field>)
    requires Ready(r, ig, sw) && Cursors(f, r, ig, sw, s) && s.i == |f|
    requires unused == [] && forall x :: x in unused <==> x in r[s.j..] && x !in s.back
    ensures forall x :: x in s.pending <==> x in sw && x !in f && x !in r
    ensures forall x :: x in s.fwd <==> x in sw && x !in f && x in r
  {
    assert f[..s.i] == f;
    assert r == r[..s.j] + r[s.j..];
    forall x | x in r[s.j..] ensures x in f {
      assert x in s.back;
    }
  }

  lemma {:induction false} RunIsTrue(f: seq<Field>, r: seq<Field>, ig: seq<Field>, sw: seq<Field>, s: Scan)
    requires Ready(r, ig, sw) && Cursors(f, r, ig, sw, s)
    ensures True(f, r, ig, sw, Run(f, r, s))
    decreases |f| - s.i + |r| - s.j
  {
    if s.i == |f| {
      FinishIsTrue(f, r, ig, sw, s);
    } else {
      match Step(f, r, s)
      case Continue(next) =>
        StepKeepsCursors(f, r, ig, sw, s);
        RunIsTrue(f, r, ig, sw, next);
      case Stop(outcome) =>
        StopIsTrue(f, r, ig, sw, s);
    }
  }

  /** Whatever the check says, of correct reflections and of wrong ones, is true of its input. */
  lemma {:induction false} RefusalIsTrue(f: seq<Field>, r: seq<Field>, ig: seq<Field>, sw: seq<Field>)
    requires Ready(r, ig, sw)
    ensures True(f, r, ig, sw, Run(f, r, Scan(0, 0, sw, [], [], ig, [])))
  {
    CursorsInit(f, r, ig, sw);
    RunIsTrue(f, r, ig, sw, Scan(0, 0, sw, [], [], ig, []));
  }

  // ---------- Consequences for a reader of the annotations ----------

  /** An accepted reflection lists exactly the class fields that are not ignored. */
  lemma {:induction false} AcceptedIsPermutation(f: seq<Field>, r: seq<Field>, ig: seq<Field>, sw: seq<Field>)
    requires Ready(r, ig, sw) && Relation(f, r, ig, sw)
    ensures multiset(r) == multiset(f) - multiset(ig)
  {
    DistinctIsMultisetOne(r);
    DistinctIsMultisetOne(f);
    DistinctIsMultisetOne(ig);
    WithoutElements(f, Elements(ig) + Elements(sw));
    WithoutElements(r, Elements(sw));
    forall x ensures multiset(r)[x] == (multiset(f) - multiset(ig))[x] {
      assert x in r <==> x in f && x !in ig by {
        assert x in Without(f, Elements(ig) + Elements(sw)) <==> x in Without(r, Elements(sw));
      }
      assert multiset(r)[x] <= 1 && multiset(f)[x] <= 1 && multiset(ig)[x] <= 1;
      assert x in multiset(r) <==> x in r;
      assert x in multiset(f) <==> x in f;
      assert x in multiset(ig) <==> x in ig;
    }
  }

  lemma {:induction false} StartIsSwapped(f: seq<Field>, r: seq<Field>, sw: seq<Field>, start: nat, i: nat, j: nat)
    requires MeetsAt(f, r, sw, start, i, j)
    ensures f[start] in sw
  {}

  /** With one swapped field, the only field that can be met is that one, straight after an aligned position. */
  lemma {:induction false} SingleMeets(f: seq<Field>, r: seq<Field>, x: Field, i: nat, j: nat)
    requires Distinct(f) && Distinct(r)
    requires i < |f| && f[i] == x && j < |r| && r[j] == x
    ensures Meets(f, r, [x]) <==> Aligned(f, r, [x], i, j)
  {
    if Aligned(f, r, [x], i, j) {
      assert MeetsAt(f, r, [x], i, i, j);
    }
    if Meets(f, r, [x]) {
      var start: nat, i': nat, j': nat :| MeetsAt(f, r, [x], start, i', j');
      StartIsSwapped(f, r, [x], start, i', j');
      assert i' == i && j' == j;
    }
  }

  /** Dropping `x` loses only its position. */
  lemma {:induction false} SamePlace(a: seq<Field>, b: seq<Field>, x: Field, k: nat)
    requires Distinct(a) && Distinct(b) && k < |a| && k < |b| && a[k] == b[k] == x
    requires Without(a, {x}) == Without(b, {x})
    ensures a == b
  {
    OnlyThere(a, k);
    OnlyThere(b, k);
    DropOne(a, x, k);
    DropOne(b, x, k);
    assert a[..k] == (a[..k] + a[k + 1..])[..k];
    assert b[..k] == (b[..k] + b[k + 1..])[..k];
    assert a[k + 1..] == (a[..k] + a[k + 1..])[k..];
    assert b[k + 1..] == (b[..k] + b[k + 1..])[k..];
    assert a == a[..k] + [x] + a[k + 1..];
    assert b == b[..k] + [x] + b[k + 1..];
  }

  lemma {:induction false} DropAbsent(s: seq<Field>, drop: set<Field>, x: Field)
    requires x !in s
    ensures Without(s, drop + {x}) == Without(s, drop)
  {
    WithoutTwice(s, drop, {x});
    WithoutElements(s, drop);
    WithoutNothing(Without(s, drop), {x});
  }

  /** A field kept in both lists is preceded by equally many kept fields. */
  lemma {:induction false} SamePlaceKept(f: seq<Field>, r: seq<Field>, drop: set<Field>, x: Field, i: nat, j: nat)
    requires Distinct(r) && i < |f| && j < |r| && f[i] == r[j] && f[i] !in drop + {x}
    requires Without(f, drop + {x}) == Without(r, {x})
    requires x !in f[..i] && x !in r[..j]
    ensures |Without(f[..i], drop)| == j
  {
    NextKept(r, j, {x});
    WithoutNothing(r[..j], {x});
    NextKept(f, i, drop + {x});
    WithoutDistinct(r, {x});
    DropAbsent(f[..i], drop, x);
  }

  lemma {:induction false} AlignedSamePlace(f: seq<Field>, r: seq<Field>, drop: set<Field>, x: Field, i: nat, j: nat)
    requires Distinct(f) && Distinct(r) && i < |f| && j < |r| && f[i] == r[j] == x && x !in drop
    requires Without(f, drop + {x}) == Without(r, {x})
    requires i == j == 0 || (0 < i && 0 < j && f[i - 1] == r[j - 1] && f[i - 1] !in drop + {x})
    ensures |Without(f[..i], drop)| == j
  {
    OnlyThere(f, i);
    OnlyThere(r, j);
    if 0 < i {
      PrefixStep(f, i - 1);
      PrefixStep(r, j - 1);
      SamePlaceKept(f, r, drop, x, i - 1, j - 1);
      WithoutAppend(f[..i - 1], f[i - 1], drop);
    }
  }

  /** An aligned swapped field stands where it would stand without a swap. */
  lemma {:induction false} AlignedIsInOrder(f: seq<Field>, r: seq<Field>, drop: set<Field>, x: Field, i: nat, j: nat)
    requires Distinct(f) && Distinct(r) && i < |f| && j < |r| && f[i] == r[j] == x && x !in drop
    requires Without(f, drop + {x}) == Without(r, {x})
    requires i == j == 0 || (0 < i && 0 < j && f[i - 1] == r[j - 1] && f[i - 1] !in drop + {x})
    ensures r == Without(f, drop)
  {
    AlignedSamePlace(f, r, drop, x, i, j);
    NextKept(f, i, drop);
    WithoutTwice(f, drop, {x});
    WithoutDistinct(f, drop);
    SamePlace(Without(f, drop), r, x, j);
  }

  /** The converse: in a list without swaps, neighbours stay neighbours. */
  lemma {:induction false} InOrderIsAligned(f: seq<Field>, r: seq<Field>, drop: set<Field>, i: nat, j: nat)
    requires Distinct(r) && i < |f| && j < |r| && f[i] == r[j] && f[i] !in drop
    requires r == Without(f, drop)
    requires 0 < i ==> f[i - 1] !in drop
    ensures i == j == 0 || (0 < i && 0 < j && f[i - 1] == r[j - 1])
  {
    NextKept(f, i, drop);
    assert j == |Without(f[..i], drop)|;
    if 0 < i {
      NextKept(f, i - 1, drop);
      PrefixStep(f, i - 1);
      WithoutAppend(f[..i - 1], f[i - 1], drop);
    }
  }

  /** One swap annotation on a correct reflection is refused exactly when the list is in class order already
      and the field just before the swapped one is not ignored: an ignored field hides the mistake. */
  lemma {:induction false} SingleSwapVerdict(f: seq<Field>, r: seq<Field>, ig: seq<Field>, x: Field, i: nat)
    requires Ready(r, ig, [x]) && Relation(f, r, ig, [x])
    requires i < |f| && f[i] == x
    ensures Accepts(f, r, ig, [x]) <==> (r != Without(f, Elements(ig)) || (i > 0 && f[i - 1] in ig))
  {
    assert x in [x];
    var j: nat :| j < |r| && r[j] == x;
    SingleMeets(f, r, x, i, j);
    assert Elements([x]) == {x};
    if Aligned(f, r, [x], i, j) {
      assert i > 0 ==> f[i - 1] in r;
      AlignedIsInOrder(f, r, Elements(ig), x, i, j);
    } else if r == Without(f, Elements(ig)) && !(i > 0 && f[i - 1] in ig) {
      InOrderIsAligned(f, r, Elements(ig), i, j);
      OnlyThere(f, i);
    }
  }

  /** A reflection that differs from the class in the place of one field is correct with that field swapped. */
  lemma {:induction false} MovedIsRelated(f: seq<Field>, r: seq<Field>, i: nat, j: nat)
    requires Distinct(f) && Distinct(r) && i < |f| && j < |r| && f[i] == r[j]
    requires f[..i] + f[i + 1..] == r[..j] + r[j + 1..]
    ensures Relation(f, r, [], [f[i]])
  {
    assert Elements<Field>([]) + Elements([f[i]]) == {f[i]} == Elements([f[i]]);
    OnlyThere(f, i);
    OnlyThere(r, j);
    DropOne(f, f[i], i);
    DropOne(r, f[i], j);
  }

  /** Naming the one field that was moved is always accepted. */
  lemma {:induction false} MovedFieldNamed(f: seq<Field>, r: seq<Field>, i: nat, j: nat)
    requires Distinct(f) && Distinct(r) && i < |f| && j < |r| && f[i] == r[j] && f != r
    requires f[..i] + f[i + 1..] == r[..j] + r[j + 1..]
    ensures Accepts(f, r, [], [f[i]])
  {
    MovedIsRelated(f, r, i, j);
    WithoutNothing(f, {});
    assert Elements<Field>([]) == {};
    SingleSwapVerdict(f, r, [], f[i], i);
  }

  lemma {:induction false} UnannotatedIsEqual(f: seq<Field>, r: seq<Field>)
    requires Relation(f, r, [], [])
    ensures f == r
  {
    assert Elements<Field>([]) + Elements<Field>([]) == {} == Elements<Field>([]);
    WithoutNothing(f, {});
    WithoutNothing(r, {});
  }

  lemma {:induction false} TradedIsDistinct(f: seq<Field>, r: seq<Field>, n: nat)
    requires Distinct(f) && n + 1 < |f| && r == f[n := f[n + 1]][n + 1 := f[n]]
    ensures Distinct(r)
  {
    DistinctIsMultisetOne(f);
    assert multiset(f) == multiset(r);
    DistinctIsMultisetOne(r);
  }

  lemma {:induction false} BothNeighboursMeet(f: seq<Field>, r: seq<Field>, n: nat, sw: seq<Field>)
    requires Distinct(f) && n + 1 < |f| && r == f[n := f[n + 1]][n + 1 := f[n]]
    requires sw == [f[n], f[n + 1]] || sw == [f[n + 1], f[n]]
    ensures Meets(f, r, sw)
  {
    assert f[n] !in r[..n];
    assert n > 0 ==> f[n - 1] == r[n - 1] && f[n - 1] !in sw;
    assert MeetsAt(f, r, sw, n, n + 1, n);
  }

  /** The promise of the tool's header comment, for any class: if two neighbours trade places, naming either
      one as swapped is accepted, and naming both, or none, is refused. */
  lemma {:induction false} NeighboursSwapped(f: seq<Field>, r: seq<Field>, n: nat)
    requires Distinct(f) && n + 1 < |f| && r == f[n := f[n + 1]][n + 1 := f[n]]
    ensures Accepts(f, r, [], [f[n]]) && Accepts(f, r, [], [f[n + 1]])
    ensures !Accepts(f, r, [], [f[n], f[n + 1]]) && !Accepts(f, r, [], [f[n + 1], f[n]])
    ensures !Accepts(f, r, [], [])
  {
    TradedIsDistinct(f, r, n);
    assert r[n] != f[n];
    assert f[..n] + f[n + 1..] == r[..n + 1] + r[n + 2..];
    MovedFieldNamed(f, r, n, n + 1);
    assert f[..n + 1] + f[n + 2..] == r[..n] + r[n + 1..];
    MovedFieldNamed(f, r, n + 1, n);
    BothNeighboursMeet(f, r, n, [f[n], f[n + 1]]);
    BothNeighboursMeet(f, r, n, [f[n + 1], f[n]]);
    if Relation(f, r, [], []) {
      UnannotatedIsEqual(f, r);
    }
  }

  /** The implicit `id` ignore of chainbase objects: acceptance then means that the class has an `id`, that it
      is neither reflected nor swapped, and that the reflection is right for the class without it. */
  lemma {:induction false} ImplicitIdIsSafe(f: seq<Field>, r: seq<Field>, ig: seq<Field>, sw: seq<Field>, id: Field)
    requires id !in ig && id !in r
    requires Accepts(f, r, ig + [id], sw)
    ensures id in f && id !in sw
    ensures Relation(Without(f, {id}), r, ig, sw)
  {
    var rest := Without(f, {id});
    WithoutElements(f, {id});
    WithoutDistinct(f, {id});
    var drop := Elements(ig) + Elements(sw);
    WithoutTwice(f, {id}, drop);
    assert id in ig + [id];
    assert {id} + drop == Elements(ig + [id]) + Elements(sw);
    forall x | x in ig ensures x in rest && x !in r {
      assert x in ig + [id];
    }
  }
}
