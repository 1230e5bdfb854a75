/** What a report of the diff tells about the right tree, whoever reads it: it determines the right tree exactly if no
    null reads like a removal and no removal reads like a null. */
module VariantReport {
  import opened Options
  import opened VariantDiff
  import opened VariantPatch

  /** Only one right tree has this report. */
  ghost predicate Determined(l: Variant, r: Variant) {
    forall other :: Unique(other) && Diff(l, other) == Diff(l, r) ==> Meaning(other) == Meaning(r)
  }

  /** No removal reads like a null: no key with a value is missing, and an array does not end before a value. */
  predicate Full(l: Variant, r: Variant)
    decreases r, 1
  {
    if KindOf(l) != KindOf(r) then true
    else
      match r
      case Leaf(_) => true
      case Array(items) => FullItems(l.items, items)
      case Object(entries) => AllKept(l.entries, entries) && FullEntries(l.entries, entries)
  }

  predicate FullItems(l: seq<Variant>, r: seq<Variant>)
    decreases r, 0
  {
    if l == [] then true
    else if r == [] then l[0] == NOTHING
    else Full(l[0], r[0]) && FullItems(l[1..], r[1..])
  }

  predicate AllKept(l: seq<Member>, r: seq<Member>) {
    l == [] || (AllKept(l[1..], r) && (l[0].value == NOTHING || Find(r, l[0].key).Some?))
  }

  predicate FullEntries(l: seq<Member>, r: seq<Member>)
    decreases r, 0
  {
    r == [] ||
    (FullEntries(l, r[1..]) &&
     match Find(l, r[0].key)
     case None => true
     case Some(v) => Full(v, r[0].value))
  }

  predicate Clear(l: Variant, r: Variant) {
    NullSafe(l, r) && Full(l, r)
  }

  // ---------- Nulls instead of removals ----------

  /** The right tree with a null in place of every removal that reads like one. */
  function Pad(l: Variant, r: Variant): (p: Variant)
    decreases r, 1
  {
    if KindOf(l) != KindOf(r) then r
    else
      match r
      case Leaf(_) => r
      case Array(items) => Array(PadItems(l.items, items))
      case Object(entries) => Object(PadEntries(l.entries, entries) + Missing(l.entries, entries))
  }

  function PadItems(l: seq<Variant>, r: seq<Variant>): (p: seq<Variant>)
    decreases r, 0, l
  {
    if l == [] then r
    else if r == [] then (if l[0] == NOTHING then [] else [NOTHING] + PadItems(l[1..], []))
    else [Pad(l[0], r[0])] + PadItems(l[1..], r[1..])
  }

  function PadEntries(l: seq<Member>, r: seq<Member>): (p: seq<Member>)
    decreases r, 0
  {
    if r == [] then []
    else
      var w := r[0].value;
      [Member(r[0].key, if Find(l, r[0].key).Some? then Pad(Find(l, r[0].key).value, w) else w)] + PadEntries(l, r[1..])
  }

  function Missing(l: seq<Member>, r: seq<Member>): (p: seq<Member>) {
    if l == [] then []
    else if l[0].value == NOTHING || Find(r, l[0].key).Some? then Missing(l[1..], r)
    else [Member(l[0].key, NOTHING)] + Missing(l[1..], r)
  }

  lemma {:induction false} FindConcat(a: seq<Member>, b: seq<Member>, k: string)
    ensures Find(a + b, k) == if Find(a, k).Some? then Find(a, k) else Find(b, k)
  {
    if a == [] {
      assert a + b == b;
    } else {
      assert (a + b)[1..] == a[1..] + b;
      FindConcat(a[1..], b, k);
    }
  }

  lemma {:induction false} PadFind(l: seq<Member>, r: seq<Member>, k: string)
    ensures Find(PadEntries(l, r), k) ==
      if Find(r, k).None? then None
      else Some(if Find(l, k).Some? then Pad(Find(l, k).value, Find(r, k).value) else Find(r, k).value)
    decreases r
  {
    if r != [] {
      PadFind(l, r[1..], k);
      assert PadEntries(l, r)[1..] == PadEntries(l, r[1..]);
    }
  }

  lemma {:induction false} MissingFind(l: seq<Member>, r: seq<Member>, k: string)
    requires UniqueEntries(l)
    ensures Find(Missing(l, r), k) ==
      if Find(l, k).Some? && Find(l, k).value != NOTHING && Find(r, k).None? then Some(NOTHING) else None
  {
    if l != [] {
      MissingFind(l[1..], r, k);
      MissingFind(l[1..], r, l[0].key);
      assert ([Member(l[0].key, NOTHING)] + Missing(l[1..], r))[1..] == Missing(l[1..], r);
    }
  }

  ghost function Padded(l: seq<Member>, r: seq<Member>): (p: seq<Member>) {
    PadEntries(l, r) + Missing(l, r)
  }

  lemma {:induction false} PaddedFind(l: seq<Member>, r: seq<Member>, k: string)
    requires UniqueEntries(l)
    ensures Find(Padded(l, r), k) ==
      if Find(r, k).Some? then Some(if Find(l, k).Some? then Pad(Find(l, k).value, Find(r, k).value) else Find(r, k).value)
      else if Find(l, k).Some? && Find(l, k).value != NOTHING then Some(NOTHING)
      else None
  {
    FindConcat(PadEntries(l, r), Missing(l, r), k);
    PadFind(l, r, k);
    MissingFind(l, r, k);
  }

  // ---------- They give the same report ----------

  lemma {:induction false} PadDiff(l: Variant, r: Variant)
    requires Unique(l) && Unique(r)
    ensures Unique(Pad(l, r)) && Diff(l, Pad(l, r)) == Diff(l, r)
    decreases r, 1
  {
    if KindOf(l) == KindOf(r) {
      match r
      case Leaf(_) =>
      case Array(items) => PadDiffItems(l.items, items, 0);
      case Object(entries) =>
        PadUnique(l.entries, entries);
        PadDiffKeys(l.entries, l.entries, entries);
        PadNewKeys(l.entries, entries);
        NewKeysConcat(l.entries, PadEntries(l.entries, entries), Missing(l.entries, entries));
        MissingIsOld(l.entries, l.entries, entries);
    }
  }

  lemma {:induction false} PadDiffItems(l: seq<Variant>, r: seq<Variant>, at: nat)
    requires UniqueItems(l) && UniqueItems(r)
    ensures UniqueItems(PadItems(l, r)) && DiffItems(l, PadItems(l, r), at) == DiffItems(l, r, at)
    decreases r, 0, l
  {
    if l == [] {
    } else if r == [] {
      if l[0] != NOTHING {
        PadDiffItems(l[1..], [], at + 1);
        assert PadItems(l, [])[1..] == PadItems(l[1..], []);
        ErasedDiff(l[0], NOTHING, Index(at));
      }
    } else {
      PadDiffItems(l[1..], r[1..], at + 1);
      PadDiff(l[0], r[0]);
      assert PadItems(l, r)[1..] == PadItems(l[1..], r[1..]);
    }
  }

  lemma {:induction false} UniqueConcat(a: seq<Member>, b: seq<Member>)
    requires UniqueEntries(a) && UniqueEntries(b) && forall k :: Find(a, k).Some? ==> Find(b, k).None?
    ensures UniqueEntries(a + b)
  {
    if a == [] {
      assert a + b == b;
    } else {
      assert (a + b)[1..] == a[1..] + b;
      assert Find(a, a[0].key).Some?;
      forall k | Find(a[1..], k).Some? ensures Find(b, k).None? {
        assert Find(a, k).Some?;
      }
      UniqueConcat(a[1..], b);
      FindConcat(a[1..], b, a[0].key);
    }
  }

  lemma {:induction false} PadUnique(l: seq<Member>, r: seq<Member>)
    requires UniqueEntries(l) && UniqueEntries(r)
    ensures UniqueEntries(Padded(l, r))
    decreases r, 1
  {
    PadEntriesUnique(l, r);
    MissingUnique(l, r);
    forall k | Find(PadEntries(l, r), k).Some? ensures Find(Missing(l, r), k).None? {
      PadFind(l, r, k);
      MissingFind(l, r, k);
    }
    UniqueConcat(PadEntries(l, r), Missing(l, r));
  }

  lemma {:induction false} PadEntriesUnique(l: seq<Member>, r: seq<Member>)
    requires UniqueEntries(l) && UniqueEntries(r)
    ensures UniqueEntries(PadEntries(l, r))
    decreases r, 0
  {
    if r != [] {
      PadEntriesUnique(l, r[1..]);
      PadFind(l, r[1..], r[0].key);
      assert PadEntries(l, r)[1..] == PadEntries(l, r[1..]);
      if Find(l, r[0].key).Some? {
        FindIsUnique(l, r[0].key);
        PadDiff(Find(l, r[0].key).value, r[0].value);
      }
    }
  }

  lemma {:induction false} MissingUnique(l: seq<Member>, r: seq<Member>)
    requires UniqueEntries(l)
    ensures UniqueEntries(Missing(l, r))
  {
    if l != [] {
      MissingUnique(l[1..], r);
      MissingFind(l[1..], r, l[0].key);
      assert ([Member(l[0].key, NOTHING)] + Missing(l[1..], r))[1..] == Missing(l[1..], r);
    }
  }

  lemma {:induction false} PadDiffKeys(some: seq<Member>, l: seq<Member>, r: seq<Member>)
    requires UniqueEntries(some) && UniqueEntries(l) && UniqueEntries(r)
    requires forall k :: Find(some, k).Some? ==> Find(l, k) == Find(some, k)
    ensures DiffKeys(some, Padded(l, r)) == DiffKeys(some, r)
    decreases r, 0, some
  {
    if some != [] {
      var Member(key, v) := some[0];
      assert Find(some, key) == Some(v);
      forall k | Find(some[1..], k).Some? ensures Find(l, k) == Find(some[1..], k) {
        assert Find(some, k) == Find(some[1..], k);
      }
      PadDiffKeys(some[1..], l, r);
      PaddedFind(l, r, key);
      if Find(r, key).Some? {
        FindIsUnique(r, key);
        FindIsSmaller(r, key);
        PadDiff(v, Find(r, key).value);
      } else if v != NOTHING {
        ErasedDiff(v, NOTHING, Key(key));
      }
    }
  }

  lemma {:induction false} PadNewKeys(l: seq<Member>, r: seq<Member>)
    ensures NewKeys(l, PadEntries(l, r)) == NewKeys(l, r)
    decreases r
  {
    if r != [] {
      PadNewKeys(l, r[1..]);
      assert PadEntries(l, r)[1..] == PadEntries(l, r[1..]);
    }
  }

  lemma {:induction false} NewKeysConcat(l: seq<Member>, a: seq<Member>, b: seq<Member>)
    ensures NewKeys(l, a + b) == NewKeys(l, a) + NewKeys(l, b)
    decreases a
  {
    if a == [] {
      assert a + b == b;
    } else {
      assert (a + b)[1..] == a[1..] + b;
      NewKeysConcat(l, a[1..], b);
      var first := if Find(l, a[0].key).None? then [Entry([Key(a[0].key)], NOTHING, a[0].value)] else [];
      assert NewKeys(l, a + b) == first + NewKeys(l, a[1..] + b) && NewKeys(l, a) == first + NewKeys(l, a[1..]);
      Associates(first, NewKeys(l, a[1..]), NewKeys(l, b));
    }
  }

  lemma {:induction false} Associates(a: seq<Entry>, b: seq<Entry>, c: seq<Entry>)
    ensures a + (b + c) == (a + b) + c
  {}

  lemma {:induction false} MissingIsOld(l: seq<Member>, some: seq<Member>, r: seq<Member>)
    requires forall k :: Find(some, k).Some? ==> Find(l, k).Some?
    ensures NewKeys(l, Missing(some, r)) == []
    decreases some
  {
    if some != [] {
      assert Find(some, some[0].key).Some?;
      forall k | Find(some[1..], k).Some? ensures Find(l, k).Some? {
        assert Find(some, k).Some?;
      }
      MissingIsOld(l, some[1..], r);
      assert ([Member(some[0].key, NOTHING)] + Missing(some[1..], r))[1..] == Missing(some[1..], r);
    }
  }

  // ---------- They are different trees ----------

  lemma {:induction false} PadDiffers(l: Variant, r: Variant)
    requires Unique(l) && Unique(r) && !Full(l, r)
    ensures Meaning(Pad(l, r)) != Meaning(r)
    decreases r, 1
  {
    match r
    case Leaf(_) =>
    case Array(items) => PadItemsDiffer(l.items, items);
    case Object(entries) => PadEntriesDiffer(l.entries, entries);
  }

  lemma {:induction false} PadItemsDiffer(l: seq<Variant>, r: seq<Variant>)
    requires UniqueItems(l) && UniqueItems(r) && !FullItems(l, r)
    ensures ItemMeanings(PadItems(l, r)) != ItemMeanings(r)
    decreases r, 0
  {
    if r != [] {
      assert PadItems(l, r)[1..] == PadItems(l[1..], r[1..]);
      SameHeadAndTail(Meaning(Pad(l[0], r[0])), ItemMeanings(PadItems(l[1..], r[1..])), Meaning(r[0]), ItemMeanings(r[1..]));
      if Full(l[0], r[0]) {
        PadItemsDiffer(l[1..], r[1..]);
      } else {
        PadDiffers(l[0], r[0]);
      }
    }
  }

  lemma {:induction false} KeptOrMissing(l: seq<Member>, r: seq<Member>) returns (k: string)
    requires UniqueEntries(l) && !AllKept(l, r)
    ensures Find(l, k).Some? && Find(l, k).value != NOTHING && Find(r, k).None?
  {
    if l[0].value != NOTHING && Find(r, l[0].key).None? {
      k := l[0].key;
    } else {
      k := KeptOrMissing(l[1..], r);
    }
  }

  lemma {:induction false} NotFullAt(l: seq<Member>, r: seq<Member>) returns (k: string)
    requires UniqueEntries(r) && !FullEntries(l, r)
    ensures Find(l, k).Some? && Find(r, k).Some? && !Full(Find(l, k).value, Find(r, k).value)
    decreases r
  {
    if FullEntries(l, r[1..]) {
      k := r[0].key;
    } else {
      k := NotFullAt(l, r[1..]);
    }
  }

  lemma {:induction false} PadEntriesDiffer(l: seq<Member>, r: seq<Member>)
    requires UniqueEntries(l) && UniqueEntries(r) && !(AllKept(l, r) && FullEntries(l, r))
    ensures Members(PadEntries(l, r) + Missing(l, r)) != Members(r)
    decreases r, 0
  {
    var k: string;
    if !AllKept(l, r) {
      k := KeptOrMissing(l, r);
    } else {
      k := NotFullAt(l, r);
      FindIsUnique(l, k);
      FindIsUnique(r, k);
      FindIsSmaller(r, k);
      PadDiffers(Find(l, k).value, Find(r, k).value);
    }
    PaddedFind(l, r, k);
    HeldMembers(Padded(l, r), k);
    HeldMembers(r, k);
  }

  // ---------- A clear report has one reading ----------

  lemma {:induction false} KeptAt(l: seq<Member>, r: seq<Member>, k: string)
    requires AllKept(l, r) && Find(l, k).Some? && Find(l, k).value != NOTHING
    ensures Find(r, k).Some?
  {
    if l[0].key != k {
      KeptAt(l[1..], r, k);
    }
  }

  lemma {:induction false} FullAt(l: seq<Member>, r: seq<Member>, k: string)
    requires FullEntries(l, r) && Find(l, k).Some? && Find(r, k).Some?
    ensures Full(Find(l, k).value, Find(r, k).value)
    decreases r
  {
    if r[0].key != k {
      FullAt(l, r[1..], k);
    }
  }

  /** If the canonical tree of `other` means a full tree, then `other` has no nulls that read like removals. */
  lemma {:induction false} FullIsSafe(l: Variant, r: Variant, other: Variant)
    requires Unique(l) && Unique(r) && Unique(other) && Full(l, r) && Meaning(Canon(l, other)) == Meaning(r)
    ensures NullSafe(l, other)
    decreases other, 1
  {
    if KindOf(l) == KindOf(other) {
      match other
      case Leaf(_) =>
      case Array(items) => FullItemsSafe(l.items, r.items, items);
      case Object(entries) => FullEntriesSafe(l.entries, r.entries, entries, entries);
    }
  }

  lemma {:induction false} FullItemsSafe(l: seq<Variant>, r: seq<Variant>, other: seq<Variant>)
    requires UniqueItems(l) && UniqueItems(r) && UniqueItems(other) && FullItems(l, r)
    requires ItemMeanings(CanonItems(l, other)) == ItemMeanings(r)
    ensures SafeItems(l, other)
    decreases other, 0
  {
    if l != [] && other != [] {
      var rest := CanonItems(l[1..], other[1..]);
      assert ([NOTHING] + rest)[1..] == rest && ([Canon(l[0], other[0])] + rest)[1..] == rest;
      assert r != [];
      var first := if Erases(l[0], other[0]) then NOTHING else Canon(l[0], other[0]);
      SameHeadAndTail(Meaning(first), ItemMeanings(rest), Meaning(r[0]), ItemMeanings(r[1..]));
      FullItemsSafe(l[1..], r[1..], other[1..]);
      if !Erases(l[0], other[0]) {
        FullIsSafe(l[0], r[0], other[0]);
      }
    }
  }

  lemma {:induction false} FullEntriesSafe(l: seq<Member>, r: seq<Member>, other: seq<Member>, some: seq<Member>)
    requires UniqueEntries(l) && UniqueEntries(r) && UniqueEntries(other) && UniqueEntries(some)
    requires AllKept(l, r) && FullEntries(l, r) && Members(CanonEntries(l, other)) == Members(r)
    requires forall k :: Find(some, k).Some? ==> Find(other, k) == Find(some, k)
    ensures SafeEntries(l, some)
    decreases some, 0
  {
    if some != [] {
      var Member(key, w) := some[0];
      assert Find(some, key) == Some(w);
      forall k | Find(some[1..], k).Some? ensures Find(other, k) == Find(some[1..], k) {
        assert Find(some, k) == Find(some[1..], k);
      }
      FullEntriesSafe(l, r, other, some[1..]);
      if Find(l, key).Some? {
        var v := Find(l, key).value;
        CanonFind(l, other, key);
        HeldMembers(CanonEntries(l, other), key);
        HeldMembers(r, key);
        if v != NOTHING {
          KeptAt(l, r, key);
        }
        FindIsUnique(l, key);
        FindIsUnique(r, key);
        FullAt(l, r, key);
        FullIsSafe(v, Find(r, key).value, w);
      }
    }
  }

  /** The report determines the right tree if and only if it is clear. */
  lemma {:induction false} DeterminedExact(l: Variant, r: Variant)
    requires Unique(l) && Unique(r)
    ensures Determined(l, r) <==> Clear(l, r)
  {
    if !NullSafe(l, r) {
      var other := ReplayIsOptimal(l, r);
    } else if !Full(l, r) {
      PadDiff(l, r);
      PadDiffers(l, r);
    } else {
      forall other | Unique(other) && Diff(l, other) == Diff(l, r) ensures Meaning(other) == Meaning(r) {
        SameReport(l, r, other);
        CanonIsRight(l, r);
        FullIsSafe(l, r, other);
        CanonIsRight(l, other);
      }
    }
  }
}
