/** The annotation store of the reflection check and the imperative form of its scan. */
module Reflections {
  import opened Lists
  import opened FieldMatcher
  import opened Options

  datatype Kind = Ignore | Swap

  /** `TypeError` is what a repeated `@swap` really raises: the message of that assertion has a
      placeholder too many, so building it fails before the assertion error exists. */
  datatype Addition = Added | AssertionError(field: Field) | TypeError(field: Field)

  datatype Entry = Entry(fields: seq<Field>, ignored: seq<Field>, swapped: seq<Field>)

  const NOTHING := Entry([], [], [])

  /** What additions keep: no list repeats a field, and no field is both ignored and swapped. */
  ghost predicate WellFormed(e: Entry) {
    && Distinct(e.fields) && Distinct(e.ignored) && Distinct(e.swapped)
    && forall x :: x in e.ignored ==> x !in e.swapped
  }

  predicate Taken(e: Entry, word: Field) {
    word in e.ignored || word in e.swapped
  }

  function Verdict(e: Entry, word: Field, kind: Kind): (added: Addition) {
    if !Taken(e, word) then Added
    else if kind.Swap? && word in e.swapped then TypeError(word)
    else AssertionError(word)
  }

  function Annotate(e: Entry, words: seq<Field>, kind: Kind): (r: Entry) {
    if kind.Ignore? then e.(ignored := e.ignored + words) else e.(swapped := e.swapped + words)
  }

  /** Each of the first `n` words is free when its turn comes. */
  ghost predicate AllFree(e: Entry, words: seq<Field>, n: nat, kind: Kind)
    requires n <= |words|
  {
    forall k :: 0 <= k < n ==> !Taken(Annotate(e, words[..k], kind), words[k])
  }

  lemma {:induction false} AnnotateNext(e: Entry, words: seq<Field>, n: nat, kind: Kind)
    requires n < |words|
    ensures Annotate(Annotate(e, words[..n], kind), [words[n]], kind) == Annotate(e, words[..n + 1], kind)
  {
    assert words[..n + 1] == words[..n] + [words[n]];
  }

  /** The effect on `e` of one annotation comment: its words up to the first that is annotated already. */
  ghost predicate AnnotatedBy(e: Entry, e': Entry, words: seq<Field>, kind: Kind, added: Addition) {
    if added.Added? then
      AllFree(e, words, |words|, kind) && e' == Annotate(e, words, kind)
    else
      exists n: nat ::
        && n < |words|
        && AllFree(e, words, n, kind) && Taken(Annotate(e, words[..n], kind), words[n])
        && e' == Annotate(e, words[..n], kind)
        && added == Verdict(Annotate(e, words[..n], kind), words[n], kind)
  }

  /** The ignores of a class; a chainbase object ignores its `id` unless that is said or reflected already. */
  function IgnoredFor(e: Entry, ignoreId: bool): (ig: seq<Field>) {
    if ignoreId && "id" !in e.ignored && "id" !in e.fields then e.ignored + ["id"] else e.ignored
  }

  class Reflection {
    var fields: seq<Field>
    var ignored: seq<Field>
    var swapped: seq<Field>

    constructor ()
      ensures View() == NOTHING
    {
      fields, ignored, swapped := [], [], [];
    }

    function View(): (e: Entry)
      reads this
    {
      Entry(fields, ignored, swapped)
    }

    /** The reflected fields behind the last class field: back-swapped ones are used up, the others kept. */
    method ScanRest(start: nat, pending: seq<Field>) returns (backSwapped: seq<Field>, unused: seq<Field>)
      requires start <= |fields|
      ensures (backSwapped, unused) == Tail(fields, start, pending, [])
    {
      var rfIndex := start;
      backSwapped, unused := pending, [];
      while rfIndex < |fields|
        invariant start <= rfIndex <= |fields|
        invariant Tail(fields, rfIndex, backSwapped, unused) == Tail(fields, start, pending, [])
      {
        var reflectField := fields[rfIndex];
        if reflectField in backSwapped {
          backSwapped := RemoveFirst(backSwapped, reflectField);
        } else {
          unused := unused + [reflectField];
        }
        rfIndex := rfIndex + 1;
      }
    }

    /** The scan: two cursors move over the class fields `f` and the reflected fields and consume the
        annotations as they go. */
    method ScanFields(f: seq<Field>) returns (outcome: Outcome)
      modifies this`ignored, this`swapped
      ensures outcome == Run(f, fields, Scan(0, 0, old(swapped), [], [], old(ignored), []))
      ensures outcome.Passed? ==> ignored == [] && swapped == []
    {
      ghost var expected := Run(f, fields, Scan(0, 0, swapped, [], [], ignored, []));
      var fIndex, rfIndex := 0, 0;
      var backSwapped, fwdSwapped, seen := [], [], [];
      while fIndex < |f|
        invariant 0 <= fIndex <= |f| && 0 <= rfIndex <= |fields|
        invariant Run(f, fields, Scan(fIndex, rfIndex, swapped, backSwapped, fwdSwapped, ignored, seen)) == expected
        decreases |f| - fIndex + |fields| - rfIndex
      {
        var field := f[fIndex];
        var reflectField := if rfIndex < |fields| then Some(fields[rfIndex]) else None;
        if field in swapped {
          swapped := RemoveFirst(swapped, field);
          backSwapped := backSwapped + [field];
          if field !in fields {
            return SwapNotReflected(field);
          }
          if reflectField == Some(field) {
            return SwapInOrder(field);
          }
          fIndex := fIndex + 1;
          continue;
        }
        if reflectField.Some? && reflectField.value in swapped {
          swapped := RemoveFirst(swapped, reflectField.value);
          fwdSwapped := fwdSwapped + [reflectField.value];
          assert reflectField.value in fields;
          rfIndex := rfIndex + 1;
          continue;
        }
        if reflectField.Some? && reflectField.value in seen {
          return IgnoredButReflected(reflectField.value);
        }
        if field in ignored {
          ignored := RemoveFirst(ignored, field);
          seen := seen + [field];
          if reflectField == Some(field) {
            return IgnoreInOrder(field);
          }
          fIndex := fIndex + 1;
          continue;
        }
        if reflectField.Some? && reflectField.value in backSwapped {
          backSwapped := RemoveFirst(backSwapped, reflectField.value);
          rfIndex := rfIndex + 1;
        } else if field in fwdSwapped {
          fwdSwapped := RemoveFirst(fwdSwapped, field);
          fIndex := fIndex + 1;
        } else {
          if reflectField != Some(field) {
            return Mismatch(field, reflectField);
          }
          fIndex := fIndex + 1;
          rfIndex := rfIndex + 1;
        }
      }
      if ignored != [] {
        return ErroneousIgnores(ignored);
      }
      var unused;
      backSwapped, unused := ScanRest(rfIndex, backSwapped);
      if unused != [] {
        return UnusedFields(unused);
      }
      if swapped != [] {
        return ErroneousSwaps(swapped);
      }
      if backSwapped != [] {
        return SwapsNeverProvided(backSwapped);
      }
      if fwdSwapped != [] {
        return SwapsNotInClass(fwdSwapped);
      }
      return Passed;
    }

    /** The scan accepts exactly the correct reflections whose swaps are needed where they are met, and names
        such a swap whenever it refuses a correct reflection. */
    method Match(f: seq<Field>) returns (outcome: Outcome)
      requires Ready(fields, ignored, swapped)
      modifies this`ignored, this`swapped
      ensures outcome.Passed? <==> Accepts(f, fields, old(ignored), old(swapped))
      ensures outcome.Passed? ==> ignored == [] && swapped == []
      ensures Relation(f, fields, old(ignored), old(swapped)) && !outcome.Passed? ==>
        Objects(f, fields, old(swapped), outcome)
      ensures True(f, fields, old(ignored), old(swapped), outcome)
    {
      MatchIsExact(f, fields, ignored, swapped);
      RefusalIsTrue(f, fields, ignored, swapped);
      outcome := ScanFields(f);
    }

    /** One annotated word: refused, with nothing stored, if it is annotated already. */
    method AddWord(word: Field, kind: Kind) returns (added: Addition)
      requires WellFormed(View())
      modifies this`ignored, this`swapped
      ensures WellFormed(View())
      ensures View() == if Taken(old(View()), word) then old(View()) else Annotate(old(View()), [word], kind)
      ensures added == Verdict(old(View()), word, kind)
      ensures added.Added? <==> word !in old(ignored) && word !in old(swapped)
      ensures added.TypeError? <==> kind.Swap? && word in old(swapped)
    {
      if kind.Ignore? {
        if word in ignored || word in swapped {
          return AssertionError(word);
        }
        ignored := ignored + [word];
      } else {
        if word in swapped {
          return TypeError(word);
        }
        if word in ignored {
          return AssertionError(word);
        }
        swapped := swapped + [word];
      }
      return Added;
    }

    /** The words of one annotation comment, stored one by one. */
    method AddIgnoreSwaps(words: seq<Field>, kind: Kind) returns (added: Addition)
      requires WellFormed(View())
      modifies this`ignored, this`swapped
      ensures WellFormed(View())
      ensures AnnotatedBy(old(View()), View(), words, kind, added)
    {
      ghost var e := View();
      var current := 0;
      assert Annotate(e, words[..0], kind) == e;
      while current < |words|
        invariant 0 <= current <= |words|
        invariant WellFormed(View()) && View() == Annotate(e, words[..current], kind)
        invariant AllFree(e, words, current, kind)
      {
        AnnotateNext(e, words, current, kind);
        added := AddWord(words[current], kind);
        if !added.Added? {
          return;
        }
        current := current + 1;
      }
      assert words[..current] == words;
      return Added;
    }

    /** One reflected field: refused, with nothing stored, if it is listed already. */
    method AddField(field: Field) returns (added: Addition)
      requires WellFormed(View())
      modifies this`fields
      ensures WellFormed(View())
      ensures added == if field in old(fields) then AssertionError(field) else Added
      ensures fields == if added.Added? then old(fields) + [field] else old(fields)
    {
      if field in fields {
        return AssertionError(field);
      }
      fields := fields + [field];
      return Added;
    }

    /** The check of one class. With the implicit `id`, it cannot pass a reflection that is wrong for the class
        without its `id`. */
    method Validate(f: seq<Field>, ignoreId: bool) returns (outcome: Outcome)
      requires WellFormed(View())
      modifies this`ignored, this`swapped
      ensures outcome.Passed? ==> (
          || Relation(f, fields, old(ignored), old(swapped))
          || (ignoreId && "id" in f && "id" !in fields && "id" !in old(swapped)
              && Relation(Without(f, {"id"}), fields, old(ignored), old(swapped))))
      ensures outcome.Passed? <==> Accepts(f, fields, IgnoredFor(old(View()), ignoreId), old(swapped))
      ensures !ignoreId || "id" in fields || "id" in old(ignored) ==>
        (outcome.Passed? <==> Accepts(f, fields, old(ignored), old(swapped)))
      ensures ignoreId && "id" !in fields && "id" !in old(ignored) ==>
        (outcome.Passed? <==> Accepts(f, fields, old(ignored) + ["id"], old(swapped)))
      ensures True(f, fields, IgnoredFor(old(View()), ignoreId), old(swapped), outcome)
    {
      if ignoreId {
        if "id" !in ignored && "id" !in fields {
          ignored := ignored + ["id"];
        }
      }
      outcome := Match(f);
      if outcome.Passed? && ignoreId && "id" !in old(ignored) && "id" !in fields {
        ImplicitIdIsSafe(f, fields, old(ignored), old(swapped), "id");
      }
    }
  }
}
