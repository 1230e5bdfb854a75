/** The recursive scope reader of the reflection check: scopes are found by looking for braces in a window
    of the text, with regular expressions deciding only what kind of scope starts at a brace.

    The regular expressions are parameters.  All that is asked of them is `Honest`: a class match ends on an
    opening brace inside its window, and an initialiser match starts on an opening brace. */
module ScopeReader {
  import opened Options

  datatype Kind = Generic | Class | Namespace

  /** `initialiser(from)` is the first brace initialiser at or after `from`, as a range of the text;
      `scope(kind, from, end)` is the brace that ends the first class (or namespace) header in the window,
      and the kind of scope it opens. */
  datatype Patterns = Patterns(initialiser: nat -> Option<(nat, nat)>, scope: (Kind, nat, nat) -> Option<(nat, Kind)>)

  ghost predicate Honest(t: string, p: Patterns) {
    && (forall from: nat :: p.initialiser(from).Some? ==>
          var (a, b) := p.initialiser(from).value; from <= a < b <= |t| && t[a] == '{')
    && (forall k: Kind, from: nat, end: nat :: p.scope(k, from, end).Some? ==>
          var (brace, _) := p.scope(k, from, end).value; from <= brace < end && brace < |t| && t[brace] == '{')
  }

  // ---------- Strings ----------

  /** The effective end of a slice: a negative end counts from the back. */
  function Bound(t: string, end: int): (r: nat)
    ensures r <= |t|
  {
    if end < 0 then (if |t| + end < 0 then 0 else |t| + end)
    else if end <= |t| then end else |t|
  }

  /** `str.find` of one character in `t[from..to]`, or -1. */
  function FindChar(t: string, c: char, from: nat, end: nat): (r: int)
    requires end <= |t|
    ensures r == -1 || (from <= r < end && t[r] == c)
    ensures forall i :: from <= i < (if r == -1 then end else r) ==> t[i] != c
    decreases end - from
  {
    if from >= end then -1 else if t[from] == c then from else FindChar(t, c, from + 1, end)
  }

  // ---------- Brace matching ----------

  function Weight(c: char): (w: int) {
    if c == '{' then 1 else if c == '}' then -1 else 0
  }

  /** Opening minus closing braces in `t[a..b]`. */
  function Depth(t: string, a: nat, b: nat): (d: int)
    requires a <= b <= |t|
  {
    if a == b then 0 else Depth(t, a, b - 1) + Weight(t[b - 1])
  }

  /** `t[a..b]` is balanced. */
  ghost predicate Balanced(t: string, a: nat, b: nat) {
    a <= b <= |t| && Depth(t, a, b) == 0 && forall p :: a <= p <= b ==> Depth(t, a, p) >= 0
  }

  /** The brace at `e` closes the brace at `s`. */
  ghost predicate Closes(t: string, s: nat, e: nat) {
    s < e < |t| && t[s] == '{' && t[e] == '}' && Balanced(t, s + 1, e)
  }

  lemma {:induction false} DepthSplit(t: string, a: nat, b: nat, c: nat)
    requires a <= b <= c <= |t|
    ensures Depth(t, a, c) == Depth(t, a, b) + Depth(t, b, c)
    decreases c - b
  {
    if b < c {
      DepthSplit(t, a, b, c - 1);
    }
  }

  lemma {:induction false} NoBraces(t: string, a: nat, b: nat)
    requires a <= b <= |t| && forall i :: a <= i < b ==> t[i] != '{' && t[i] != '}'
    ensures Balanced(t, a, b)
  {
    if a < b {
      NoBraces(t, a, b - 1);
    }
  }

  lemma {:induction false} BalancedConcat(t: string, a: nat, b: nat, c: nat)
    requires Balanced(t, a, b) && Balanced(t, b, c)
    ensures Balanced(t, a, c)
  {
    forall p | a <= p <= c ensures Depth(t, a, p) >= 0 {
      if p > b {
        DepthSplit(t, a, b, p);
      }
    }
    DepthSplit(t, a, b, c);
  }

  lemma {:induction false} ClosesIsBalanced(t: string, s: nat, e: nat)
    requires Closes(t, s, e)
    ensures Balanced(t, s, e + 1)
  {
    forall p | s <= p <= e ensures p > s ==> Depth(t, s, p) == 1 + Depth(t, s + 1, p) {
      if p > s {
        DepthSplit(t, s, s + 1, p);
        assert Depth(t, s, s) == 0;
      }
    }
    assert Depth(t, s, e + 1) == Depth(t, s, e) + Weight(t[e]);
    forall p | s <= p <= e + 1 ensures Depth(t, s, p) >= 0 {
    }
  }

  /** A block reaches down to the first place where its depth would turn negative, and that place is unique. */
  lemma {:induction false} CloserIsUnique(t: string, s: nat, e: nat, e': nat)
    requires Closes(t, s, e) && Closes(t, s, e')
    ensures e == e'
  {
    DropAtCloser(t, s, e);
    DropAtCloser(t, s, e');
  }

  lemma {:induction false} DropAtCloser(t: string, s: nat, e: nat)
    requires Closes(t, s, e)
    ensures Depth(t, s + 1, e + 1) == -1
  {}

  lemma {:induction false} FirstDrop(t: string, a: nat, b: nat) returns (p: nat)
    requires a <= b <= |t| && Depth(t, a, b) < 0
    ensures a <= p < b && t[p] == '}' && Balanced(t, a, p)
  {
    if q :| a <= q < b && Depth(t, a, q) < 0 {
      p := FirstDrop(t, a, q);
    } else {
      p := b - 1;
      assert forall q :: a <= q <= p ==> Depth(t, a, q) >= 0;
    }
  }

  /** An unclosed brace inside a block leaves the block unclosed. */
  lemma {:induction false} UnclosedInside(t: string, s: nat, current: nat, q: nat, e: nat)
    requires s < |t| && t[s] == '{' && Balanced(t, s + 1, current)
    requires current <= q < |t| && t[q] == '{' && forall i :: current <= i < q ==> t[i] != '{' && t[i] != '}'
    requires Closes(t, s, e)
    ensures exists e' :: Closes(t, q, e')
  {
    NoBraces(t, current, q);
    BalancedConcat(t, s + 1, current, q);
    CloserIsLater(t, s, q, e);
    assert e > q;
    DepthSplit(t, s + 1, q, q + 1);
    assert Depth(t, q, q) == 0 && Depth(t, q, q + 1) == 1;
    DepthSplit(t, s + 1, q + 1, e);
    DepthSplit(t, q + 1, e, e + 1);
    assert Depth(t, q + 1, e) == -1;
    var e' := FirstDrop(t, q + 1, e);
    assert Closes(t, q, e');
  }

  lemma {:induction false} CloserIsLater(t: string, s: nat, b: nat, e: nat)
    requires Balanced(t, s + 1, b) && Closes(t, s, e)
    ensures e >= b
  {
    DropAtCloser(t, s, e);
  }

  // ---------- Scopes ----------

  /** The scopes opened while reading: where each one starts and ends. */
  type Spans = map<nat, nat>

  /** `spans` holds every brace of `t[a..b]` with the brace that closes it, and nothing else. */
  ghost predicate AllMatched(t: string, a: nat, b: nat, spans: Spans) {
    && b <= |t|
    && (forall p :: p in spans <==> a <= p < b && t[p] == '{')
    && (forall p :: p in spans ==> Closes(t, p, spans[p]))
  }

  lemma {:induction false} MatchedConcat(t: string, a: nat, b: nat, c: nat, x: Spans, y: Spans)
    requires a <= b <= c && AllMatched(t, a, b, x) && AllMatched(t, b, c, y)
    ensures AllMatched(t, a, c, x + y)
  {}

  /** The window in which a scope looks for the next one ends at the first closing brace, or further on if an initialiser
      holds that brace. */
  function PossibleEnd(t: string, p: Patterns, current: nat): (possible: int) {
    var first := FindChar(t, '}', current, |t|);
    match p.initialiser(current)
    case None => first
    case Some(span) => if span.0 < first < span.1 then FindChar(t, '}', span.1 + 1, |t|) else first
  }

  class Scope {
    const content: string
    const patterns: Patterns
    const kind: Kind
    const start: nat
    var current: nat
    var end: Option<int>

    /** Only the global scope knows its end. */
    constructor (content: string, patterns: Patterns, kind: Kind, start: nat)
      ensures this.content == content && this.patterns == patterns && this.kind == kind && this.start == start
      ensures current == start + 1 && end == if start == 0 then Some(|content| - 1) else None
    {
      this.content, this.patterns, this.kind, this.start := content, patterns, kind, start;
      current := start + 1;
      end := if start == 0 then Some(|content| - 1) else None;
    }

    /** The first closing brace; if an initialiser contains it, the first one further on.
        Widening never brings the window below the first closing brace. */
    method FindPossibleEnd() returns (possible: int)
      requires Honest(content, patterns) && current <= |content|
      ensures possible == PossibleEnd(content, patterns, current) >= -1
      ensures var first := FindChar(content, '}', current, |content|); first == -1 ==> possible == -1
      ensures var first := FindChar(content, '}', current, |content|);
        first != -1 && FindChar(content, '{', current, first) == -1 ==> possible == first
      ensures var first := FindChar(content, '}', current, |content|);
        first != -1 ==> possible == -1 || possible >= first
    {
      possible := FindChar(content, '}', current, |content|);
      var skip := patterns.initialiser(current);
      if skip.Some? {
        var (allStart, allEnd) := skip.value;
        if possible > allStart && possible < allEnd {
          possible := FindChar(content, '}', allEnd + 1, |content|);
        }
      }
    }

    /** The opening brace of the next scope and its kind.  Whatever the patterns match, this is the next
        brace of the text, provided that it is an opening one with a closing one behind it. */
    method FindScope() returns (found: Option<(nat, Kind)>)
      requires Honest(content, patterns) && current < |content| - 1
      ensures found.Some? ==> var (q, _) := found.value;
        current <= q < |content| - 1 && content[q] == '{' && forall i :: current <= i < q ==> content[i] != '{' && content[i] != '}'
      ensures found.None? ==> NoChildAt(content, current)
      ensures found.Some? ==> var (q, newKind) := found.value;
        var header := patterns.scope(kind, current, Bound(content, PossibleEnd(content, patterns, current)));
        newKind == if !kind.Generic? && header.Some? && header.value.0 == q then header.value.1 else Generic
    {
      var possible := FindPossibleEnd();
      var window := Bound(content, possible);
      ghost var first := FindChar(content, '}', current, |content|);
      var generic := FindChar(content, '{', current, window);
      if kind.Generic? {
        if generic != -1 {
          found := Some((generic, Generic));
        } else {
          found := None;
        }
      } else {
        var match_ := patterns.scope(kind, current, window);
        if match_.None? && generic == -1 {
          found := None;
        } else if match_.Some? && (generic == -1 || match_.value.0 <= generic) {
          found := match_;
        } else {
          found := Some((generic, Generic));
        }
      }
    }

    /** Read one child scope and move behind it; `NoScope` if there is none, `Failed` if it has no end. */
    method NextScope() returns (step: Step, ghost spans: Spans)
      requires Honest(content, patterns) && start < current < |content| - 1
      requires Balanced(content, start + 1, current)
      modifies this`current
      ensures step.NoScope? ==> current == old(current) && spans == map[] && NoChildAt(content, current)
      ensures step.ChildRead? ==> old(current) < current <= |content|
      ensures step.ChildRead? ==> Balanced(content, old(current), current) && AllMatched(content, old(current), current, spans)
      ensures step.Failed? ==> current == old(current) && exists q: nat :: q < |content| - 1 && Unclosed(content, current, q)
      decreases |content| - start, 0
    {
      spans := map[];
      var found := FindScope();
      if found.None? {
        return NoScope, spans;
      }
      var (q, newKind) := found.value;
      var child := new Scope(content, patterns, newKind, q);
      var ok;
      ok, spans := child.Read();
      if !ok {
        assert Unclosed(content, current, q);
        return Failed, spans;
      }
      ChildPassed(content, current, q, child.end.value, spans);
      spans := spans[q := child.end.value];
      current := child.end.value + 1;
      return ChildRead, spans;
    }

    /** Read the whole scope.  A nested scope succeeds exactly if its brace is closed, and then ends at the
        closing brace, with every brace in between opened as a scope that ends where it is closed.  The global
        scope skips the first character and reads as far as `Ends` says. */
    method Read() returns (ok: bool, ghost spans: Spans)
      requires Honest(content, patterns) && current == start + 1
      requires start == 0 ==> end == Some(|content| - 1)
      requires start > 0 ==> start < |content| && content[start] == '{' && end == None
      modifies this
      ensures start > 0 ==> (ok <==> exists e :: Closes(content, start, e))
      ensures start > 0 && ok ==>
        end.Some? && end.value >= 0 && Closes(content, start, end.value) && AllMatched(content, start + 1, end.value, spans)
      ensures start == 0 && content != "" ==> (ok <==> exists e :: Ends(content, e))
      ensures start == 0 && content != "" && ok ==> exists e :: Ends(content, e) && AllMatched(content, 1, e, spans)
      ensures content == "" ==> ok
      decreases |content| - start, 1
    {
      spans := map[];
      ok := true;
      if content == "" {
        return;
      }
      var last := |content| - 1;
      while current < last
        invariant start < current <= |content| && end == old(end)
        invariant Balanced(content, start + 1, current) && AllMatched(content, start + 1, current, spans)
        invariant ok
        decreases |content| - current
      {
        ghost var before, was := current, spans;
        var step;
        step, spans := NextScope();
        if step.NoScope? {
          spans := was;
          break;
        }
        if step.Failed? {
          UnclosedFails(content, start, current);
          return false, was;
        }
        BalancedConcat(content, start + 1, before, current);
        MatchedConcat(content, start + 1, before, current, was, spans);
        spans := was + spans;
      }
      assert NoChildAt(content, current);
      if end.None? {
        var found := FindChar(content, '}', current, |content|);
        end := Some(found);
        CloserFound(content, start, current, spans);
        ok := found != -1;
      } else {
        GlobalEnds(content, current, spans);
      }
    }
  }

  datatype Step = NoScope | ChildRead | Failed

  /** Where a scope finds no child: the next brace closes, or no brace closes any more and none opens before the last
      character. */
  ghost predicate NoChildAt(t: string, current: nat) {
    current <= |t| &&
    var first := FindChar(t, '}', current, |t|);
    forall i :: current <= i < (if first != -1 then first else |t| - 1) ==> t[i] != '{'
  }

  /** Where the global scope stops: behind balanced text, at a closing brace that nothing opened, at the end, or at an
      opening brace that is the last character. */
  ghost predicate Ends(t: string, e: nat) {
    1 <= e <= |t| && Balanced(t, 1, e) && (e == |t| || t[e] == '}' || (e == |t| - 1 && t[e] == '{'))
  }

  /** A balanced text is read to its end. */
  lemma {:induction false} BalancedEnds(t: string, e: nat)
    requires t != "" && Weight(t[0]) == 0 && Balanced(t, 0, |t|)
    ensures Ends(t, e) <==> e == |t|
  {
    assert Depth(t, 0, 0) == 0 && Depth(t, 0, 1) == 0;
    forall p | 1 <= p <= |t| ensures Depth(t, 1, p) == Depth(t, 0, p) {
      DepthSplit(t, 0, 1, p);
    }
    if 1 <= e < |t| {
      DepthSplit(t, 1, e, e + 1);
      assert Depth(t, e, e) == 0 && Depth(t, e, e + 1) == Weight(t[e]);
    }
  }

  /** The next brace after `current` is opening, at `q`, and nothing closes it. */
  ghost predicate Unclosed(t: string, current: nat, q: nat) {
    && current <= q < |t| && t[q] == '{' && (forall i :: current <= i < q ==> t[i] != '{' && t[i] != '}')
    && forall e :: !Closes(t, q, e)
  }

  lemma {:induction false} ChildPassed(t: string, current: nat, q: nat, e: nat, inner: Spans)
    requires current <= q < |t| && t[q] == '{' && forall i :: current <= i < q ==> t[i] != '{' && t[i] != '}'
    requires Closes(t, q, e) && AllMatched(t, q + 1, e, inner)
    ensures Balanced(t, current, e + 1) && AllMatched(t, current, e + 1, inner[q := e])
  {
    NoBraces(t, current, q);
    ClosesIsBalanced(t, q, e);
    BalancedConcat(t, current, q, e + 1);
  }

  lemma {:induction false} UnclosedFails(t: string, s: nat, current: nat)
    requires s < |t| && Balanced(t, s + 1, current) && exists q: nat :: q < |t| - 1 && Unclosed(t, current, q)
    ensures t[s] == '{' ==> forall e :: !Closes(t, s, e)
    ensures s == 0 ==> forall e :: !Ends(t, e)
  {
    var q: nat :| q < |t| - 1 && Unclosed(t, current, q);
    if t[s] == '{' {
      if e :| Closes(t, s, e) {
        UnclosedInside(t, s, current, q, e);
      }
    }
    if s == 0 {
      NoBraces(t, current, q);
      BalancedConcat(t, 1, current, q);
      forall e ensures !Ends(t, e) {
        UnclosedNeverEnds(t, q, e);
      }
    }
  }

  lemma {:induction false} UnclosedNeverEnds(t: string, q: nat, e: nat)
    requires 1 <= q < |t| - 1 && t[q] == '{' && Balanced(t, 1, q) && forall c :: !Closes(t, q, c)
    ensures !Ends(t, e)
  {
    if 1 <= e < q {
      NoExcess(t, e, q);
    } else if q < e <= |t| {
      OpenNeedsCloser(t, q, e);
    }
  }

  /** Balanced text has no closing brace that nothing opened. */
  lemma {:induction false} NoExcess(t: string, e: nat, q: nat)
    requires 1 <= e < q <= |t| && Balanced(t, 1, q)
    ensures Balanced(t, 1, e) ==> t[e] != '}'
  {
    assert Depth(t, 1, e + 1) == Depth(t, 1, e) + Weight(t[e]) >= 0;
  }

  /** In a balanced text, a brace reached at depth zero is closed. */
  lemma {:induction false} OpenNeedsCloser(t: string, q: nat, e: nat)
    requires 1 <= q < e <= |t| && t[q] == '{' && Balanced(t, 1, q)
    ensures Balanced(t, 1, e) ==> exists c :: Closes(t, q, c)
  {
    if Balanced(t, 1, e) {
      assert Depth(t, 1, q + 1) == 1;
      DepthSplit(t, 1, q + 1, e);
      var c := FirstDrop(t, q + 1, e);
      assert Closes(t, q, c);
    }
  }

  lemma {:induction false} CloserFound(t: string, s: nat, current: nat, spans: Spans)
    requires s < current && s < |t| && t[s] == '{' && Balanced(t, s + 1, current) && NoChildAt(t, current)
    requires AllMatched(t, s + 1, current, spans)
    ensures var e := FindChar(t, '}', current, |t|);
      if e == -1 then forall e' :: !Closes(t, s, e') else Closes(t, s, e) && AllMatched(t, s + 1, e, spans)
  {
    var e := FindChar(t, '}', current, |t|);
    if e == -1 {
      forall e' ensures !Closes(t, s, e') {
        if Closes(t, s, e') {
          CloserIsLater(t, s, current, e');
        }
      }
    } else {
      NoBraces(t, current, e);
      BalancedConcat(t, s + 1, current, e);
    }
  }

  lemma {:induction false} GlobalEnds(t: string, current: nat, spans: Spans)
    requires t != "" && Balanced(t, 1, current) && NoChildAt(t, current) && AllMatched(t, 1, current, spans)
    ensures exists e :: Ends(t, e) && AllMatched(t, 1, e, spans)
  {
    var first := FindChar(t, '}', current, |t|);
    var e: nat := if first != -1 then first else if current < |t| && t[|t| - 1] == '{' then |t| - 1 else |t|;
    NoBraces(t, current, e);
    BalancedConcat(t, 1, current, e);
    assert Ends(t, e) && AllMatched(t, 1, e, spans);
  }
}
