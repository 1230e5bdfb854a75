/** A diff carries enough to rebuild the right tree, as far as any report of null for "missing" can: replaying the
    reported entries on the left tree gives a tree with the same report, and it gives the right tree itself exactly if
    that holds no null where a removal would be reported alike. */
module VariantPatch {
  import opened VariantDiff
  import opened Options

  const NULL := TLeaf(Null)

  // ---------- The replay ----------

  /** Store `x` at `path`.  Null stored at a place that holds something empties it: a key goes, an array gets a hole.
      Where there is nothing it is stored like anything else. */
  function Put(t: Tree, path: seq<Segment>, x: Tree): (t': Tree)
    decreases |path|
  {
    if path == [] then x
    else
      match (t, path[0])
      case (TObject(m), Key(k)) =>
        if |path| > 1 then (if k in m then TObject(m[k := Put(m[k], path[1..], x)]) else t)
        else if x == NULL && k in m then TObject(m - {k})
        else TObject(m[k := x])
      case (TArray(items), Index(i)) =>
        if i < |items| then
          if |path| > 1 then TArray(items[i := Put(items[i], path[1..], x)])
          else TArray(items[i := if x == NULL then THole else x])
        else if i == |items| && |path| == 1 then TArray(items + [x])
        else t
      case _ => t
  }

  function Patch(t: Tree, out: seq<Entry>): (t': Tree)
    decreases |out|
  {
    if out == [] then t else Patch(Put(t, out[0].path, Meaning(out[0].right)), out[1..])
  }

  /** Holes at the end of an array shorten it, all others are null. */
  function Settle(t: Tree): (t': Tree)
    decreases t, 1
  {
    match t
    case TLeaf(_) => t
    case TArray(items) => TArray(SettleItems(items))
    case TObject(m) => TObject(map k | k in m :: Settle(m[k]))
    case THole => NULL
  }

  function SettleItems(items: seq<Tree>): (r: seq<Tree>)
    decreases items, 0
  {
    if items == [] then []
    else
      var rest := SettleItems(items[1..]);
      if items[0] == THole && rest == [] then [] else [Settle(items[0])] + rest
  }

  function Replay(t: Tree, out: seq<Entry>): (t': Tree) {
    Settle(Patch(t, out))
  }

  lemma {:induction false} PatchConcat(t: Tree, a: seq<Entry>, b: seq<Entry>)
    ensures Patch(t, a + b) == Patch(Patch(t, a), b)
    decreases |a|
  {
    if a == [] {
      assert a + b == b;
    } else {
      assert (a + b)[1..] == a[1..] + b;
      PatchConcat(Put(t, a[0].path, Meaning(a[0].right)), a[1..], b);
    }
  }

  lemma {:induction false} PatchOne(t: Tree, e: Entry)
    ensures Patch(t, [e]) == Put(t, e.path, Meaning(e.right))
  {}

  // ---------- What the replay gives ----------

  /** `w` is null and `v` is not: the entry for this child reads like a removal. */
  predicate Erases(v: Variant, w: Variant) {
    w == NOTHING && v != NOTHING
  }

  /** The right tree without the nulls that read like removals: those at keys of the left object, and those at the end
      of an array that is not longer than the left one. */
  function Canon(l: Variant, r: Variant): (c: Variant)
    decreases r, 1
  {
    if KindOf(l) != KindOf(r) then r
    else
      match r
      case Leaf(_) => r
      case Array(items) => Array(CanonItems(l.items, items))
      case Object(entries) => Object(CanonEntries(l.entries, entries))
  }

  function CanonItems(l: seq<Variant>, r: seq<Variant>): (c: seq<Variant>)
    decreases r, 0
  {
    if r == [] || l == [] then r
    else
      var rest := CanonItems(l[1..], r[1..]);
      if Erases(l[0], r[0]) then (if rest == [] then [] else [NOTHING] + rest) else [Canon(l[0], r[0])] + rest
  }

  function CanonEntries(l: seq<Member>, r: seq<Member>): (c: seq<Member>)
    decreases r, 0
  {
    if r == [] then []
    else
      var rest := CanonEntries(l, r[1..]);
      match Find(l, r[0].key)
      case None => [r[0]] + rest
      case Some(v) => if Erases(v, r[0].value) then rest else [Member(r[0].key, Canon(v, r[0].value))] + rest
  }

  /** No null of the right tree reads like a removal. */
  predicate NullSafe(l: Variant, r: Variant)
    decreases r, 1
  {
    if KindOf(l) != KindOf(r) then true
    else
      match r
      case Leaf(_) => true
      case Array(items) => SafeItems(l.items, items)
      case Object(entries) => SafeEntries(l.entries, entries)
  }

  /** The common items are safe, and the last right item, if the left array has one there, does not read like a
      removal. */
  predicate SafeItems(l: seq<Variant>, r: seq<Variant>)
    decreases r, 0
  {
    l == [] || r == [] ||
    (NullSafe(l[0], r[0]) && SafeItems(l[1..], r[1..]) && (|r| == 1 ==> !Erases(l[0], r[0])))
  }

  predicate SafeEntries(l: seq<Member>, r: seq<Member>)
    decreases r, 0
  {
    r == [] ||
    (SafeEntries(l, r[1..]) &&
     match Find(l, r[0].key)
     case None => true
     case Some(v) => !Erases(v, r[0].value) && NullSafe(v, r[0].value))
  }

  // ---------- Replaying the entries of one child ----------

  ghost predicate Inside(out: seq<Entry>) {
    forall i :: 0 <= i < |out| ==> out[i].path != []
  }

  lemma {:induction false} DiffShape(l: Variant, r: Variant)
    requires Unique(l) && Unique(r)
    ensures (Diff(l, r) == [Entry([], l, r)] && l != r) || (Inside(Diff(l, r)) && !Erases(l, r))
  {
    if KindOf(l) == KindOf(r) {
      match l
      case Leaf(_) =>
      case Array(items) => DiffItemsApart(items, r.items, 0);
      case Object(entries) =>
        DiffKeysApart(entries, r.entries);
        NewKeysApart(entries, r.entries);
    }
  }

  lemma {:induction false} UnderTail(segment: Segment, out: seq<Entry>)
    requires out != []
    ensures Under(segment, out)[1..] == Under(segment, out[1..])
    ensures Under(segment, out)[0] == out[0].(path := [segment] + out[0].path)
    ensures Under(segment, out) != []
  {}

  lemma {:induction false} UnderRoot(segment: Segment, v: Variant, w: Variant)
    ensures Under(segment, [Entry([], v, w)]) == [Entry([segment], v, w)]
  {
    assert [segment] + [] == [segment];
  }

  lemma {:induction false} PatchInsideKey(m: map<string, Tree>, k: string, out: seq<Entry>)
    requires k in m && Inside(out)
    ensures Patch(TObject(m), Under(Key(k), out)) == TObject(m[k := Patch(m[k], out)])
    decreases |out|
  {
    if out == [] {
      assert m[k := m[k]] == m;
    } else {
      UnderTail(Key(k), out);
      var x := Put(m[k], out[0].path, Meaning(out[0].right));
      assert ([Key(k)] + out[0].path)[1..] == out[0].path;
      assert Put(TObject(m), [Key(k)] + out[0].path, Meaning(out[0].right)) == TObject(m[k := x]);
      PatchInsideKey(m[k := x], k, out[1..]);
      var y := Patch(x, out[1..]);
      assert m[k := x][k := y] == m[k := y];
    }
  }

  lemma {:induction false} PatchInsideItem(items: seq<Tree>, i: nat, out: seq<Entry>)
    requires i < |items| && Inside(out)
    ensures Patch(TArray(items), Under(Index(i), out)) == TArray(items[i := Patch(items[i], out)])
    decreases |out|
  {
    if out == [] {
      assert items[i := items[i]] == items;
    } else {
      UnderTail(Index(i), out);
      var x := Put(items[i], out[0].path, Meaning(out[0].right));
      assert ([Index(i)] + out[0].path)[1..] == out[0].path;
      assert Put(TArray(items), [Index(i)] + out[0].path, Meaning(out[0].right)) == TArray(items[i := x]);
      PatchInsideItem(items[i := x], i, out[1..]);
      var y := Patch(x, out[1..]);
      assert items[i := x][i := y] == items[i := y];
    }
  }

  lemma {:induction false} PatchKey(m: map<string, Tree>, k: string, v: Variant, w: Variant)
    requires k in m && m[k] == Meaning(v) && Unique(v) && Unique(w)
    ensures Patch(TObject(m), Under(Key(k), Diff(v, w))) ==
      TObject(if Erases(v, w) then m - {k} else m[k := Patch(Meaning(v), Diff(v, w))])
  {
    DiffShape(v, w);
    if Diff(v, w) == [Entry([], v, w)] {
      UnderRoot(Key(k), v, w);
      PatchOne(TObject(m), Entry([Key(k)], v, w));
      PatchOne(Meaning(v), Entry([], v, w));
    } else {
      PatchInsideKey(m, k, Diff(v, w));
    }
  }

  lemma {:induction false} PatchItem(items: seq<Tree>, i: nat, v: Variant, w: Variant)
    requires i < |items| && items[i] == Meaning(v) && Unique(v) && Unique(w)
    ensures Patch(TArray(items), Under(Index(i), Diff(v, w))) ==
      TArray(items[i := if Erases(v, w) then THole else Patch(Meaning(v), Diff(v, w))])
  {
    DiffShape(v, w);
    if Diff(v, w) == [Entry([], v, w)] {
      UnderRoot(Index(i), v, w);
      PatchOne(TArray(items), Entry([Index(i)], v, w));
      PatchOne(Meaning(v), Entry([], v, w));
    } else {
      PatchInsideItem(items, i, Diff(v, w));
    }
  }

  // ---------- Objects ----------

  /** What `m` holds at `k`. */
  ghost function Held(m: map<string, Tree>, k: string): (t: Option<Tree>) {
    if k in m then Some(m[k]) else None
  }

  /** What the entries of a left key leave of it. */
  ghost function Left(v: Variant, w: Option<Variant>): (t: Option<Tree>) {
    if w.None? || Erases(v, w.value) then None else Some(Patch(Meaning(v), Diff(v, w.value)))
  }

  lemma {:induction false} FirstKeyPatched(l: seq<Member>, r: seq<Member>, m: map<string, Tree>)
    returns (m': map<string, Tree>)
    requires l != [] && UniqueEntries(l) && UniqueEntries(r) && Held(m, l[0].key) == Some(Meaning(l[0].value))
    ensures Patch(TObject(m), DiffKey(l[0], r)) == TObject(m')
    ensures forall k :: Held(m', k) == if k == l[0].key then Left(l[0].value, Find(r, k)) else Held(m, k)
  {
    var Member(key, value) := l[0];
    match Find(r, key)
    case None =>
      PatchOne(TObject(m), Entry([Key(key)], value, NOTHING));
      m' := m - {key};
    case Some(other) =>
      FindIsUnique(r, key);
      PatchKey(m, key, value, other);
      m' := if Erases(value, other) then m - {key} else m[key := Patch(Meaning(value), Diff(value, other))];
  }

  lemma {:induction false} KeysPatched(l: seq<Member>, r: seq<Member>, m: map<string, Tree>) returns (m': map<string, Tree>)
    requires UniqueEntries(l) && UniqueEntries(r)
    requires forall k :: Find(l, k).Some? ==> Held(m, k) == Some(Meaning(Find(l, k).value))
    ensures Patch(TObject(m), DiffKeys(l, r)) == TObject(m')
    ensures forall k :: Held(m', k) == if Find(l, k).Some? then Left(Find(l, k).value, Find(r, k)) else Held(m, k)
    decreases l
  {
    if l == [] {
      m' := m;
    } else {
      assert Find(l, l[0].key).Some?;
      var m1 := FirstKeyPatched(l, r, m);
      forall k | Find(l[1..], k).Some? ensures Held(m1, k) == Some(Meaning(Find(l[1..], k).value)) {
        assert Find(l, k) == Find(l[1..], k);
      }
      m' := KeysPatched(l[1..], r, m1);
      PatchConcat(TObject(m), DiffKey(l[0], r), DiffKeys(l[1..], r));
    }
  }

  /** What `m` holds at `k` once the new keys are added. */
  ghost function Grown(l: seq<Member>, r: seq<Member>, m: map<string, Tree>, k: string): (t: Option<Tree>) {
    if Find(r, k).Some? && Find(l, k).None? then Some(Meaning(Find(r, k).value)) else Held(m, k)
  }

  lemma {:induction false} GrownStep(l: seq<Member>, r: seq<Member>, m: map<string, Tree>, m1: map<string, Tree>, k: string)
    requires UniqueEntries(r) && r != []
    requires m1 == if Find(l, r[0].key).Some? then m else m[r[0].key := Meaning(r[0].value)]
    ensures Grown(l, r[1..], m1, k) == Grown(l, r, m, k)
  {}

  lemma {:induction false} NewKeyPatched(l: seq<Member>, r: seq<Member>, m: map<string, Tree>, m1: map<string, Tree>)
    requires r != [] && (Find(l, r[0].key).None? ==> r[0].key !in m)
    requires m1 == if Find(l, r[0].key).Some? then m else m[r[0].key := Meaning(r[0].value)]
    ensures Patch(TObject(m), NewKeys(l, r)) == Patch(TObject(m1), NewKeys(l, r[1..]))
  {
    if Find(l, r[0].key).Some? {
      assert [] + NewKeys(l, r[1..]) == NewKeys(l, r[1..]);
    } else {
      var first := [Entry([Key(r[0].key)], NOTHING, r[0].value)];
      PatchOne(TObject(m), first[0]);
      PatchConcat(TObject(m), first, NewKeys(l, r[1..]));
    }
  }

  lemma {:induction false} NewKeysPatched(l: seq<Member>, r: seq<Member>, m: map<string, Tree>) returns (m': map<string, Tree>)
    requires UniqueEntries(r) && forall k :: Find(r, k).Some? && Find(l, k).None? ==> k !in m
    ensures Patch(TObject(m), NewKeys(l, r)) == TObject(m')
    ensures forall k :: Held(m', k) == Grown(l, r, m, k)
    decreases r
  {
    if r == [] {
      m' := m;
    } else {
      assert Find(r, r[0].key).Some? && Find(r[1..], r[0].key).None?;
      var m1 := if Find(l, r[0].key).Some? then m else m[r[0].key := Meaning(r[0].value)];
      NewKeyPatched(l, r, m, m1);
      m' := NewKeysPatched(l, r[1..], m1);
      forall k ensures Held(m', k) == Grown(l, r, m, k) {
        GrownStep(l, r, m, m1, k);
      }
    }
  }

  /** Looking up a key of the canonical object. */
  lemma {:induction false} CanonFind(l: seq<Member>, r: seq<Member>, k: string)
    requires UniqueEntries(r)
    ensures Find(CanonEntries(l, r), k) ==
      match Find(r, k)
      case None => None
      case Some(w) =>
        (match Find(l, k)
         case None => Some(w)
         case Some(v) => if Erases(v, w) then None else Some(Canon(v, w)))
    decreases r
  {
    if r != [] {
      CanonFind(l, r[1..], k);
      CanonFind(l, r[1..], r[0].key);
      var rest := CanonEntries(l, r[1..]);
      assert ([r[0]] + rest)[1..] == rest;
      if Find(l, r[0].key).Some? {
        var c := Member(r[0].key, Canon(Find(l, r[0].key).value, r[0].value));
        assert ([c] + rest)[1..] == rest;
      }
    }
  }

  lemma {:induction false} SameHeld(a: map<string, Tree>, b: map<string, Tree>)
    requires forall k :: Held(a, k) == Held(b, k)
    ensures a == b
  {
    forall k ensures k in a <==> k in b { assert Held(a, k) == Held(b, k); }
    forall k | k in a ensures a[k] == b[k] { assert Held(a, k) == Held(b, k); }
  }

  lemma {:induction false} HeldMembers(entries: seq<Member>, k: string)
    ensures Held(Members(entries), k) == if Find(entries, k).Some? then Some(Meaning(Find(entries, k).value)) else None
  {
    FindIsMember(entries, k);
  }

  /** What the replay leaves at a key of an object. */
  ghost function Replayed(l: seq<Member>, r: seq<Member>, k: string): (t: Option<Tree>) {
    if Find(l, k).Some? then Left(Find(l, k).value, Find(r, k))
    else if Find(r, k).Some? then Some(Meaning(Find(r, k).value))
    else None
  }

  ghost function Settled(t: Option<Tree>): (t': Option<Tree>) {
    if t.Some? then Some(Settle(t.value)) else None
  }

  lemma {:induction false} KeyReplayed(l: seq<Member>, r: seq<Member>, k: string)
    requires UniqueEntries(l) && UniqueEntries(r)
    ensures Settled(Replayed(l, r, k)) == Held(Members(CanonEntries(l, r)), k)
    decreases r, 0
  {
    CanonFind(l, r, k);
    HeldMembers(CanonEntries(l, r), k);
    if Find(r, k).Some? {
      FindIsUnique(r, k);
      if Find(l, k).Some? {
        FindIsUnique(l, k);
        FindIsSmaller(r, k);
        ReplayIsCanon(Find(l, k).value, Find(r, k).value);
      } else {
        SettleMeaning(Find(r, k).value);
      }
    }
  }

  lemma {:induction false} ObjectPatched(l: seq<Member>, r: seq<Member>) returns (m: map<string, Tree>)
    requires UniqueEntries(l) && UniqueEntries(r)
    ensures Patch(TObject(Members(l)), DiffKeys(l, r) + NewKeys(l, r)) == TObject(m)
    ensures forall k :: Held(m, k) == Replayed(l, r, k)
  {
    forall k ensures Held(Members(l), k) == if Find(l, k).Some? then Some(Meaning(Find(l, k).value)) else None {
      HeldMembers(l, k);
    }
    var m1 := KeysPatched(l, r, Members(l));
    forall k | Find(r, k).Some? && Find(l, k).None? ensures k !in m1 {
      assert Held(m1, k) == Held(Members(l), k);
    }
    m := NewKeysPatched(l, r, m1);
    PatchConcat(TObject(Members(l)), DiffKeys(l, r), NewKeys(l, r));
    forall k ensures Held(m, k) == Replayed(l, r, k) {
      assert Held(m, k) == Grown(l, r, m1, k);
    }
  }

  /** Settling a replayed object gives the canonical one, key by key. */
  lemma {:induction false} ObjectReplayed(l: seq<Member>, r: seq<Member>)
    requires UniqueEntries(l) && UniqueEntries(r)
    ensures Replay(TObject(Members(l)), DiffKeys(l, r) + NewKeys(l, r)) == TObject(Members(CanonEntries(l, r)))
    decreases r, 1
  {
    var m := ObjectPatched(l, r);
    var settled := map k | k in m :: Settle(m[k]);
    forall k ensures Held(settled, k) == Held(Members(CanonEntries(l, r)), k) {
      KeyReplayed(l, r, k);
      assert Held(settled, k) == Settled(Held(m, k));
    }
    SameHeld(settled, Members(CanonEntries(l, r)));
  }

  lemma {:induction false} FindIsSmaller(entries: seq<Member>, k: string)
    requires Find(entries, k).Some?
    ensures exists i :: 0 <= i < |entries| && entries[i].value == Find(entries, k).value
  {
    if entries[0].key != k {
      FindIsSmaller(entries[1..], k);
      var i :| 0 <= i < |entries[1..]| && entries[1..][i].value == Find(entries[1..], k).value;
      assert entries[i + 1] == entries[1..][i];
    }
  }

  // ---------- Arrays ----------

  /** The items of an array after the replay: holes where something was removed or set to null. */
  ghost function DraftItems(l: seq<Variant>, r: seq<Variant>): (items: seq<Tree>) {
    if l == [] then ItemMeanings(r)
    else if r == [] then [THole] + DraftItems(l[1..], [])
    else [if Erases(l[0], r[0]) then THole else Patch(Meaning(l[0]), Diff(l[0], r[0]))] + DraftItems(l[1..], r[1..])
  }

  lemma {:induction false} ReplaceAfter(done: seq<Tree>, was: Tree, next: Tree, tail: seq<Tree>)
    ensures (done + ([was] + tail))[|done| := next] == (done + [next]) + tail
    ensures (done + [next]) + tail == done + ([next] + tail)
  {}

  /** Replaying the entries of one common or removed item. */
  lemma {:induction false} ItemPatched(done: seq<Tree>, l: seq<Variant>, r: seq<Variant>, next: Tree)
    requires l != [] && UniqueItems(l) && UniqueItems(r)
    requires next == if r == [] || Erases(l[0], r[0]) then THole else Patch(Meaning(l[0]), Diff(l[0], r[0]))
    ensures Patch(TArray(done + ItemMeanings(l)), DiffItems(l, r, |done|)) ==
      Patch(TArray((done + [next]) + ItemMeanings(l[1..])), DiffItems(l[1..], if r == [] then [] else r[1..], |done| + 1))
  {
    var items := done + ItemMeanings(l);
    ReplaceAfter(done, Meaning(l[0]), next, ItemMeanings(l[1..]));
    if r == [] {
      var e := Entry([Index(|done|)], l[0], NOTHING);
      PatchOne(TArray(items), e);
      PatchConcat(TArray(items), [e], DiffItems(l[1..], [], |done| + 1));
    } else {
      PatchItem(items, |done|, l[0], r[0]);
      PatchConcat(TArray(items), Under(Index(|done|), Diff(l[0], r[0])), DiffItems(l[1..], r[1..], |done| + 1));
    }
  }

  lemma {:induction false} AddedPatched(done: seq<Tree>, r: seq<Variant>)
    ensures Patch(TArray(done), DiffItems([], r, |done|)) == TArray(done + ItemMeanings(r))
    decreases r
  {
    if r != [] {
      var e := Entry([Index(|done|)], NOTHING, r[0]);
      PatchOne(TArray(done), e);
      PatchConcat(TArray(done), [e], DiffItems([], r[1..], |done| + 1));
      AddedPatched(done + [Meaning(r[0])], r[1..]);
      ReplaceAfter(done, THole, Meaning(r[0]), ItemMeanings(r[1..]));
    }
  }

  lemma {:induction false} ItemsPatched(done: seq<Tree>, l: seq<Variant>, r: seq<Variant>)
    requires UniqueItems(l) && UniqueItems(r)
    ensures Patch(TArray(done + ItemMeanings(l)), DiffItems(l, r, |done|)) == TArray(done + DraftItems(l, r))
    decreases l, r
  {
    var items := done + ItemMeanings(l);
    if l == [] {
      assert items == done;
      AddedPatched(done, r);
    } else {
      var r' := if r == [] then [] else r[1..];
      var next := if r == [] || Erases(l[0], r[0]) then THole else Patch(Meaning(l[0]), Diff(l[0], r[0]));
      ItemPatched(done, l, r, next);
      ItemsPatched(done + [next], l[1..], r');
      ReplaceAfter(done, THole, next, DraftItems(l[1..], r'));
    }
  }

  lemma {:induction false} HolesSettle(l: seq<Variant>)
    ensures SettleItems(DraftItems(l, [])) == []
  {
    if l != [] {
      HolesSettle(l[1..]);
      assert DraftItems(l, [])[1..] == DraftItems(l[1..], []);
    }
  }

  lemma {:induction false} ItemsReplayed(l: seq<Variant>, r: seq<Variant>)
    requires UniqueItems(l) && UniqueItems(r)
    ensures SettleItems(DraftItems(l, r)) == ItemMeanings(CanonItems(l, r))
    decreases r, 0
  {
    if r == [] {
      HolesSettle(l);
    } else if l == [] {
      SettleMeanings(r);
    } else {
      ItemsReplayed(l[1..], r[1..]);
      assert DraftItems(l, r)[1..] == DraftItems(l[1..], r[1..]);
      var rest := CanonItems(l[1..], r[1..]);
      assert ([NOTHING] + rest)[1..] == rest && ([Canon(l[0], r[0])] + rest)[1..] == rest;
      ReplayIsCanon(l[0], r[0]);
      NeverHole(l[0], r[0]);
    }
  }

  /** A replay never leaves a hole at the root. */
  lemma {:induction false} NeverHole(l: Variant, r: Variant)
    requires Unique(l) && Unique(r)
    ensures Patch(Meaning(l), Diff(l, r)) != THole
  {
    if KindOf(l) != KindOf(r) {
      PatchOne(Meaning(l), Entry([], l, r));
    } else {
      match l
      case Leaf(_) =>
        if l != r {
          PatchOne(Meaning(l), Entry([], l, r));
        }
      case Array(items) =>
        assert [] + ItemMeanings(items) == ItemMeanings(items);
        ItemsPatched([], items, r.items);
      case Object(entries) =>
        var m := ObjectPatched(entries, r.entries);
    }
  }

  // ---------- The replay gives the canonical tree ----------

  lemma {:induction false} SettleMeaning(v: Variant)
    ensures Settle(Meaning(v)) == Meaning(v)
    decreases v, 1
  {
    match v
    case Leaf(_) =>
    case Array(items) => SettleMeanings(items);
    case Object(entries) => SettleMembers(entries);
  }

  lemma {:induction false} SettleMeanings(items: seq<Variant>)
    ensures SettleItems(ItemMeanings(items)) == ItemMeanings(items)
    decreases items, 0
  {
    if items != [] {
      SettleMeaning(items[0]);
      SettleMeanings(items[1..]);
      assert ItemMeanings(items)[1..] == ItemMeanings(items[1..]);
    }
  }

  lemma {:induction false} SettleMembers(entries: seq<Member>)
    ensures (map k | k in Members(entries) :: Settle(Members(entries)[k])) == Members(entries)
    decreases entries, 0
  {
    if entries != [] {
      SettleMeaning(entries[0].value);
      SettleMembers(entries[1..]);
      var m, all := Members(entries[1..]), Members(entries);
      forall k | k in all ensures Settle(all[k]) == all[k] {
        if k != entries[0].key {
          assert (map k | k in m :: Settle(m[k]))[k] == m[k];
        }
      }
    }
  }

  /** Main result: the replay of a report always gives the canonical tree of that report. */
  lemma {:induction false} ReplayIsCanon(l: Variant, r: Variant)
    requires Unique(l) && Unique(r)
    ensures Replay(Meaning(l), Diff(l, r)) == Meaning(Canon(l, r))
    decreases r, 1
  {
    if KindOf(l) != KindOf(r) {
      PatchOne(Meaning(l), Entry([], l, r));
      SettleMeaning(r);
    } else {
      match r
      case Leaf(_) =>
        if l != r {
          PatchOne(Meaning(l), Entry([], l, r));
        }
      case Array(items) =>
        assert [] + ItemMeanings(l.items) == ItemMeanings(l.items);
        ItemsPatched([], l.items, items);
        assert [] + DraftItems(l.items, items) == DraftItems(l.items, items);
        ItemsReplayed(l.items, items);
      case Object(entries) =>
        ObjectReplayed(l.entries, entries);
    }
  }

  // ---------- The canonical tree has the same report ----------

  lemma {:induction false} ErasedDiff(v: Variant, w: Variant, segment: Segment)
    requires Erases(v, w)
    ensures Under(segment, Diff(v, w)) == [Entry([segment], v, NOTHING)]
  {
    assert KindOf(v) != NullKind;
    UnderRoot(segment, v, w);
  }

  lemma {:induction false} CanonDiff(l: Variant, r: Variant)
    requires Unique(l) && Unique(r)
    ensures Unique(Canon(l, r)) && Diff(l, Canon(l, r)) == Diff(l, r)
    decreases r, 1
  {
    if KindOf(l) == KindOf(r) {
      match r
      case Leaf(_) =>
      case Array(items) => CanonDiffItems(l.items, items, 0);
      case Object(entries) =>
        CanonUnique(l.entries, entries);
        CanonDiffKeys(l.entries, l.entries, entries);
        CanonNewKeys(l.entries, entries);
    }
  }

  lemma {:induction false} CanonDiffItems(l: seq<Variant>, r: seq<Variant>, at: nat)
    requires UniqueItems(l) && UniqueItems(r)
    ensures UniqueItems(CanonItems(l, r)) && DiffItems(l, CanonItems(l, r), at) == DiffItems(l, r, at)
    decreases r, 0
  {
    if l != [] && r != [] {
      CanonDiffItems(l[1..], r[1..], at + 1);
      CanonDiff(l[0], r[0]);
      var rest := CanonItems(l[1..], r[1..]);
      assert ([NOTHING] + rest)[1..] == rest && ([Canon(l[0], r[0])] + rest)[1..] == rest;
      if Erases(l[0], r[0]) {
        ErasedDiff(l[0], r[0], Index(at));
      }
    }
  }

  lemma {:induction false} CanonUnique(l: seq<Member>, r: seq<Member>)
    requires UniqueEntries(l) && UniqueEntries(r)
    ensures UniqueEntries(CanonEntries(l, r))
    decreases r, 0
  {
    if r != [] {
      var Member(key, w) := r[0];
      CanonUnique(l, r[1..]);
      CanonFind(l, r[1..], key);
      var rest := CanonEntries(l, r[1..]);
      assert ([r[0]] + rest)[1..] == rest;
      if Find(l, key).Some? {
        FindIsUnique(l, key);
        CanonDiff(Find(l, key).value, w);
        assert ([Member(key, Canon(Find(l, key).value, w))] + rest)[1..] == rest;
      }
    }
  }

  lemma {:induction false} CanonDiffKeys(some: seq<Member>, l: seq<Member>, r: seq<Member>)
    requires UniqueEntries(some) && UniqueEntries(l) && UniqueEntries(r)
    requires forall k :: Find(some, k).Some? ==> Find(l, k) == Find(some, k)
    ensures DiffKeys(some, CanonEntries(l, r)) == DiffKeys(some, r)
    decreases r, 0, some
  {
    if some != [] {
      var Member(key, v) := some[0];
      assert Find(some, key) == Some(v);
      forall k | Find(some[1..], k).Some? ensures Find(l, k) == Find(some[1..], k) {
        assert Find(some, k) == Find(some[1..], k);
      }
      CanonDiffKeys(some[1..], l, r);
      CanonFind(l, r, key);
      if Find(r, key).Some? {
        var w := Find(r, key).value;
        FindIsUnique(r, key);
        FindIsSmaller(r, key);
        CanonDiff(v, w);
        if Erases(v, w) {
          ErasedDiff(v, w, Key(key));
        }
      }
    }
  }

  lemma {:induction false} CanonNewKeys(l: seq<Member>, r: seq<Member>)
    ensures NewKeys(l, CanonEntries(l, r)) == NewKeys(l, r)
    decreases r
  {
    if r != [] {
      CanonNewKeys(l, r[1..]);
      var rest := CanonEntries(l, r[1..]);
      assert ([r[0]] + rest)[1..] == rest;
      if Find(l, r[0].key).Some? {
        assert ([Member(r[0].key, Canon(Find(l, r[0].key).value, r[0].value))] + rest)[1..] == rest;
      }
    }
  }

  // ---------- When the canonical tree is the right tree ----------

  lemma {:induction false} CanonIsRight(l: Variant, r: Variant)
    requires Unique(r)
    ensures Meaning(Canon(l, r)) == Meaning(r) <==> NullSafe(l, r)
    decreases r, 1
  {
    if KindOf(l) == KindOf(r) {
      match r
      case Leaf(_) =>
      case Array(items) => CanonItemsRight(l.items, items);
      case Object(entries) => CanonEntriesRight(l.entries, entries);
    }
  }

  lemma {:induction false} SameHeadAndTail(x: Tree, xs: seq<Tree>, y: Tree, ys: seq<Tree>)
    ensures [x] + xs == [y] + ys <==> x == y && xs == ys
  {
    assert ([x] + xs)[1..] == xs && ([y] + ys)[1..] == ys;
    assert ([x] + xs)[0] == x && ([y] + ys)[0] == y;
  }

  lemma {:induction false} CanonItemsRight(l: seq<Variant>, r: seq<Variant>)
    requires UniqueItems(r)
    ensures ItemMeanings(CanonItems(l, r)) == ItemMeanings(r) <==> SafeItems(l, r)
    decreases r, 0
  {
    if l != [] && r != [] {
      CanonItemsRight(l[1..], r[1..]);
      CanonIsRight(l[0], r[0]);
      var rest := CanonItems(l[1..], r[1..]);
      assert ([NOTHING] + rest)[1..] == rest && ([Canon(l[0], r[0])] + rest)[1..] == rest;
      SameHeadAndTail(Meaning(Canon(l[0], r[0])), ItemMeanings(rest), Meaning(r[0]), ItemMeanings(r[1..]));
      SameHeadAndTail(NULL, ItemMeanings(rest), Meaning(r[0]), ItemMeanings(r[1..]));
      assert |r| == 1 <==> r[1..] == [];
    }
  }

  lemma {:induction false} SameUpdate(a: map<string, Tree>, b: map<string, Tree>, k: string, x: Tree, y: Tree)
    requires k !in a && k !in b
    ensures a[k := x] == b[k := y] <==> x == y && a == b
  {
    if a[k := x] == b[k := y] {
      assert a[k := x][k] == b[k := y][k];
      assert a == a[k := x] - {k} == b[k := y] - {k} == b;
    }
  }

  lemma {:induction false} CanonEntriesRight(l: seq<Member>, r: seq<Member>)
    requires UniqueEntries(r)
    ensures Members(CanonEntries(l, r)) == Members(r) <==> SafeEntries(l, r)
    decreases r, 0
  {
    if r != [] {
      var Member(key, w) := r[0];
      CanonEntriesRight(l, r[1..]);
      CanonFind(l, r[1..], key);
      var rest := CanonEntries(l, r[1..]);
      FindIsMember(rest, key);
      FindIsMember(r[1..], key);
      assert ([r[0]] + rest)[1..] == rest && key in Members(r);
      var c := if Find(l, key).Some? then Canon(Find(l, key).value, w) else w;
      assert ([Member(key, c)] + rest)[1..] == rest;
      SameUpdate(Members(rest), Members(r[1..]), key, Meaning(c), Meaning(w));
      if Find(l, key).Some? {
        CanonIsRight(Find(l, key).value, w);
      }
    }
  }

  /** Replaying the report on the left tree gives the right tree exactly when that is null-safe. */
  lemma {:induction false} PatchExact(l: Variant, r: Variant)
    requires Unique(l) && Unique(r)
    ensures Replay(Meaning(l), Diff(l, r)) == Meaning(r) <==> NullSafe(l, r)
  {
    ReplayIsCanon(l, r);
    CanonIsRight(l, r);
  }

  /** No other replay can do better: a tree that this one does not rebuild has the same report as another tree, which
      this one does rebuild. */
  lemma {:induction false} ReplayIsOptimal(l: Variant, r: Variant) returns (other: Variant)
    requires Unique(l) && Unique(r) && !NullSafe(l, r)
    ensures Unique(other) && Diff(l, other) == Diff(l, r) && Meaning(other) != Meaning(r)
    ensures NullSafe(l, other) && Replay(Meaning(l), Diff(l, other)) == Meaning(other)
  {
    other := Canon(l, r);
    CanonDiff(l, r);
    CanonIsRight(l, r);
    ReplayIsCanon(l, r);
    PatchExact(l, other);
  }

  /** Trees with the same report have the same canonical tree. */
  lemma {:induction false} SameReport(l: Variant, r: Variant, r': Variant)
    requires Unique(l) && Unique(r) && Unique(r') && Diff(l, r) == Diff(l, r')
    ensures Meaning(Canon(l, r)) == Meaning(Canon(l, r'))
    ensures NullSafe(l, r) && NullSafe(l, r') ==> Meaning(r) == Meaning(r')
  {
    ReplayIsCanon(l, r);
    ReplayIsCanon(l, r');
    CanonIsRight(l, r);
    CanonIsRight(l, r');
  }

  // ---------- Trees without nulls ----------

  predicate NoNull(v: Variant)
    decreases v, 1
  {
    match v
    case Leaf(s) => s != Null
    case Array(items) => NoNullItems(items)
    case Object(entries) => NoNullEntries(entries)
  }

  predicate NoNullItems(items: seq<Variant>)
    decreases items, 0
  {
    items == [] || (NoNull(items[0]) && NoNullItems(items[1..]))
  }

  predicate NoNullEntries(entries: seq<Member>)
    decreases entries, 0
  {
    entries == [] || (NoNull(entries[0].value) && NoNullEntries(entries[1..]))
  }

  lemma {:induction false} NoNullIsSafe(l: Variant, r: Variant)
    requires NoNull(r)
    ensures NullSafe(l, r)
    decreases r, 1
  {
    if KindOf(l) == KindOf(r) {
      match r
      case Leaf(_) =>
      case Array(items) => NoNullItemsSafe(l.items, items);
      case Object(entries) => NoNullEntriesSafe(l.entries, entries);
    }
  }

  lemma {:induction false} NoNullItemsSafe(l: seq<Variant>, r: seq<Variant>)
    requires NoNullItems(r)
    ensures SafeItems(l, r)
    decreases r, 0
  {
    if l != [] && r != [] {
      NoNullIsSafe(l[0], r[0]);
      NoNullItemsSafe(l[1..], r[1..]);
    }
  }

  lemma {:induction false} NoNullEntriesSafe(l: seq<Member>, r: seq<Member>)
    requires NoNullEntries(r)
    ensures SafeEntries(l, r)
    decreases r, 0
  {
    if r != [] {
      NoNullEntriesSafe(l, r[1..]);
      if Find(l, r[0].key).Some? {
        NoNullIsSafe(Find(l, r[0].key).value, r[0].value);
      }
    }
  }

  /** Any left tree, any right tree without nulls: the report rebuilds the right one. */
  lemma {:induction false} PatchRebuilds(l: Variant, r: Variant)
    requires Unique(l) && Unique(r) && NoNull(r)
    ensures Replay(Meaning(l), Diff(l, r)) == Meaning(r)
  {
    NoNullIsSafe(l, r);
    PatchExact(l, r);
  }
}
