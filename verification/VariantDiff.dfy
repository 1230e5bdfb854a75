/** The structural diff of two variant trees.  `Diff` lists, in the order of the callbacks, the places
    where two trees differ; the list is empty exactly for equal trees, it names disjoint places, and it
    can be applied to the left tree to get the right one. */
module VariantDiff {
  import opened Options

  datatype Scalar =
    | Null
    | Int64(i: int)
    | UInt64(u: nat)
    | Double(d: real)
    | Bool(b: bool)
    | Text(s: string)
    | Blob(bytes: seq<bv8>)

  datatype Variant =
    | Leaf(scalar: Scalar)
    | Array(items: seq<Variant>)
    | Object(entries: seq<Member>)

  datatype Member = Member(key: string, value: Variant)

  const NOTHING := Leaf(Null)

  datatype Kind = NullKind | Int64Kind | UInt64Kind | DoubleKind | BoolKind | TextKind | BlobKind | ArrayKind | ObjectKind

  function KindOf(v: Variant): (k: Kind) {
    match v
    case Array(_) => ArrayKind
    case Object(_) => ObjectKind
    case Leaf(Null) => NullKind
    case Leaf(Int64(_)) => Int64Kind
    case Leaf(UInt64(_)) => UInt64Kind
    case Leaf(Double(_)) => DoubleKind
    case Leaf(Bool(_)) => BoolKind
    case Leaf(Text(_)) => TextKind
    case Leaf(Blob(_)) => BlobKind
  }

  // ---------- Objects as association lists ----------

  function Find(entries: seq<Member>, key: string): (v: Option<Variant>) {
    if entries == [] then None
    else if entries[0].key == key then Some(entries[0].value)
    else Find(entries[1..], key)
  }

  // ---------- The diff ----------

  datatype Segment = Key(key: string) | Index(index: nat)

  datatype Entry = Entry(path: seq<Segment>, left: Variant, right: Variant)

  /** The entries reported below one child, as the enclosing callback passes them on. */
  function Under(segment: Segment, entries: seq<Entry>): (r: seq<Entry>) {
    seq(|entries|, i requires 0 <= i < |entries| => entries[i].(path := [segment] + entries[i].path))
  }

  function Diff(l: Variant, r: Variant): (out: seq<Entry>)
    decreases l, 1
  {
    if KindOf(l) != KindOf(r) then [Entry([], l, r)]
    else if l.Object? then DiffKeys(l.entries, r.entries) + NewKeys(l.entries, r.entries)
    else if l.Array? then DiffItems(l.items, r.items, 0)
    else if l != r then [Entry([], l, r)]
    else []
  }

  /** The keys of the left object, in its order. */
  function DiffKeys(l: seq<Member>, r: seq<Member>): (out: seq<Entry>)
    decreases l, 0
  {
    if l == [] then [] else DiffKey(l[0], r) + DiffKeys(l[1..], r)
  }

  /** One key of the left object: missing on the right, or compared with the right value. */
  function DiffKey(m: Member, r: seq<Member>): (out: seq<Entry>)
    decreases m, 0
  {
    match Find(r, m.key)
    case None => [Entry([Key(m.key)], m.value, NOTHING)]
    case Some(other) => Under(Key(m.key), Diff(m.value, other))
  }

  /** The keys that only the right object has, in its order. */
  function NewKeys(l: seq<Member>, r: seq<Member>): (out: seq<Entry>) {
    if r == [] then []
    else
      (if Find(l, r[0].key).None? then [Entry([Key(r[0].key)], NOTHING, r[0].value)] else []) + NewKeys(l, r[1..])
  }

  /** Array items from position `at` of the whole arrays on: the common ones, then the longer array's rest. */
  function DiffItems(l: seq<Variant>, r: seq<Variant>, at: nat): (out: seq<Entry>)
    decreases l, 0, r
  {
    if l == [] && r == [] then []
    else if l == [] then [Entry([Index(at)], NOTHING, r[0])] + DiffItems([], r[1..], at + 1)
    else if r == [] then [Entry([Index(at)], l[0], NOTHING)] + DiffItems(l[1..], [], at + 1)
    else Under(Index(at), Diff(l[0], r[0])) + DiffItems(l[1..], r[1..], at + 1)
  }

  // ---------- What a variant means ----------

  /** A tree up to the order of object keys.  No variant means `THole`: a place of an array that was emptied and is
      not settled yet. */
  datatype Tree = TLeaf(scalar: Scalar) | TArray(items: seq<Tree>) | TObject(members: map<string, Tree>) | THole

  function Meaning(v: Variant): (t: Tree)
    decreases v, 1
  {
    match v
    case Leaf(s) => TLeaf(s)
    case Array(items) => TArray(ItemMeanings(items))
    case Object(entries) => TObject(Members(entries))
  }

  function ItemMeanings(items: seq<Variant>): (ts: seq<Tree>)
    ensures |ts| == |items|
    decreases items, 0
  {
    if items == [] then [] else [Meaning(items[0])] + ItemMeanings(items[1..])
  }

  function Members(entries: seq<Member>): (m: map<string, Tree>)
    decreases entries, 0
  {
    if entries == [] then map[] else Members(entries[1..])[entries[0].key := Meaning(entries[0].value)]
  }

  /** Object keys do not repeat, at any depth. */
  ghost predicate Unique(v: Variant)
    decreases v, 1
  {
    match v
    case Leaf(_) => true
    case Array(items) => UniqueItems(items)
    case Object(entries) => UniqueEntries(entries)
  }

  ghost predicate UniqueItems(items: seq<Variant>)
    decreases items, 0
  {
    items == [] || (Unique(items[0]) && UniqueItems(items[1..]))
  }

  ghost predicate UniqueEntries(entries: seq<Member>)
    decreases entries, 0
  {
    entries == [] || (Find(entries[1..], entries[0].key).None? && Unique(entries[0].value) && UniqueEntries(entries[1..]))
  }

  lemma {:induction false} FindIsMember(entries: seq<Member>, key: string)
    ensures Find(entries, key).Some? <==> key in Members(entries)
    ensures key in Members(entries) ==> Members(entries)[key] == Meaning(Find(entries, key).value)
  {
    if entries != [] {
      FindIsMember(entries[1..], key);
    }
  }

  lemma {:induction false} FindIsUnique(entries: seq<Member>, key: string)
    requires UniqueEntries(entries) && Find(entries, key).Some?
    ensures Unique(Find(entries, key).value)
  {
    if entries[0].key != key {
      FindIsUnique(entries[1..], key);
    }
  }

  // ---------- The diff is empty exactly for equal trees ----------

  lemma {:induction false} DiffExact(l: Variant, r: Variant)
    requires Unique(l) && Unique(r)
    ensures Diff(l, r) == [] <==> Meaning(l) == Meaning(r)
    decreases l, 1
  {
    if KindOf(l) == KindOf(r) {
      match l
      case Leaf(_) =>
      case Array(items) => DiffItemsExact(items, r.items, 0);
      case Object(entries) =>
        DiffKeysExact(entries, r.entries);
        NewKeysExact(entries, r.entries);
        EqualMaps(Members(entries), Members(r.entries));
    }
  }

  lemma {:induction false} EqualMaps(a: map<string, Tree>, b: map<string, Tree>)
    ensures TObject(a) == TObject(b) <==> Within(a, b) && b.Keys <= a.Keys
  {
    if Within(a, b) && b.Keys <= a.Keys {
      assert a == b;
    }
  }

  /** `b` holds everything that `a` holds. */
  ghost predicate Within(a: map<string, Tree>, b: map<string, Tree>) {
    forall k :: k in a ==> k in b && a[k] == b[k]
  }

  lemma {:induction false} DiffItemsExact(l: seq<Variant>, r: seq<Variant>, at: nat)
    requires UniqueItems(l) && UniqueItems(r)
    ensures DiffItems(l, r, at) == [] <==> ItemMeanings(l) == ItemMeanings(r)
    decreases l, 0
  {
    if l != [] && r != [] {
      DiffExact(l[0], r[0]);
      DiffItemsExact(l[1..], r[1..], at + 1);
      assert ItemMeanings(l)[1..] == ItemMeanings(l[1..]) && ItemMeanings(r)[1..] == ItemMeanings(r[1..]);
    }
  }

  lemma {:induction false} DiffKeysExact(l: seq<Member>, r: seq<Member>)
    requires UniqueEntries(l) && UniqueEntries(r)
    ensures DiffKeys(l, r) == [] <==> Within(Members(l), Members(r))
    decreases l, 0
  {
    if l != [] {
      var key := l[0].key;
      DiffKeysExact(l[1..], r);
      FindIsMember(r, key);
      FindIsMember(l[1..], key);
      if Find(r, key).Some? {
        FindIsUnique(r, key);
        DiffExact(l[0].value, Find(r, key).value);
      }
      assert key in Members(l) && Members(l)[key] == Meaning(l[0].value);
      forall k | k in Members(l[1..]) ensures k in Members(l) && Members(l)[k] == Members(l[1..])[k] {}
    }
  }

  lemma {:induction false} NewKeysExact(l: seq<Member>, r: seq<Member>)
    ensures NewKeys(l, r) == [] <==> Members(r).Keys <= Members(l).Keys
  {
    if r != [] {
      NewKeysExact(l, r[1..]);
      FindIsMember(l, r[0].key);
      assert r[0].key in Members(r);
      forall k | k in Members(r[1..]) ensures k in Members(r) {}
    }
  }

  // ---------- Every entry says what the two trees hold at its path ----------

  function At(v: Variant, path: seq<Segment>): (found: Option<Variant>)
    decreases |path|
  {
    if path == [] then Some(v)
    else
      match (v, path[0])
      case (Object(entries), Key(key)) =>
        (match Find(entries, key)
         case None => None
         case Some(child) => At(child, path[1..]))
      case (Array(items), Index(i)) => if i < |items| then At(items[i], path[1..]) else None
      case _ => None
  }

  ghost predicate Shows(v: Variant, path: seq<Segment>, shown: Variant) {
    At(v, path) == Some(shown) || (At(v, path) == None && shown == NOTHING)
  }

  /** `e` shows what is at its path on each side, and something is there on one side at least. */
  ghost predicate Tells(l: Variant, r: Variant, e: Entry) {
    Shows(l, e.path, e.left) && Shows(r, e.path, e.right) && (At(l, e.path).Some? || At(r, e.path).Some?)
  }

  /** One step down both trees, to the children `l'` and `r'`. */
  lemma {:induction false} TellsUnder(l: Variant, r: Variant, l': Variant, r': Variant, segment: Segment, out: seq<Entry>)
    requires forall p :: At(l, [segment] + p) == At(l', p)
    requires forall p :: At(r, [segment] + p) == At(r', p)
    requires forall e :: e in out ==> Tells(l', r', e)
    ensures forall e :: e in Under(segment, out) ==> Tells(l, r, e)
  {
    forall e | e in Under(segment, out) ensures Tells(l, r, e) {
      var i :| 0 <= i < |out| && e == out[i].(path := [segment] + out[i].path);
      assert Tells(l', r', out[i]);
    }
  }

  lemma {:induction false} AtChild(v: Variant, segment: Segment, child: Variant)
    requires At(v, [segment]) == Some(child)
    ensures forall p :: At(v, [segment] + p) == At(child, p)
  {
    forall p: seq<Segment> ensures At(v, [segment] + p) == At(child, p) {
      assert ([segment] + p)[1..] == p && [segment][1..] == [];
    }
  }

  lemma {:induction false} DiffTells(l: Variant, r: Variant)
    requires Unique(l) && Unique(r)
    ensures forall e :: e in Diff(l, r) ==> Tells(l, r, e)
    decreases l, 1
  {
    if KindOf(l) == KindOf(r) {
      match l
      case Leaf(_) =>
      case Array(items) => DiffItemsTell(l, r, items, r.items, 0);
      case Object(entries) =>
        DiffKeysTell(l, r, entries);
        NewKeysTell(l, r, r.entries);
    }
  }

  /** `rest` are the items of `v` from position `at` on. */
  ghost predicate RestOf(v: Variant, at: nat, rest: seq<Variant>)
    requires v.Array?
  {
    if at < |v.items| then rest == v.items[at..] else rest == []
  }

  lemma {:induction false} NextItem(v: Variant, at: nat, rest: seq<Variant>)
    requires v.Array? && RestOf(v, at, rest)
    ensures RestOf(v, at + 1, if rest == [] then [] else rest[1..])
    ensures At(v, [Index(at)]) == if rest == [] then None else Some(rest[0])
  {}

  /** The entries of the next item, common or not. */
  lemma {:induction false} ItemTells(l: Variant, r: Variant, lrest: seq<Variant>, rrest: seq<Variant>, at: nat) returns (first: seq<Entry>)
    requires l.Array? && r.Array? && (lrest != [] || rrest != [])
    requires At(l, [Index(at)]) == if lrest == [] then None else Some(lrest[0])
    requires At(r, [Index(at)]) == if rrest == [] then None else Some(rrest[0])
    requires lrest != [] && rrest != [] ==> forall e :: e in Diff(lrest[0], rrest[0]) ==> Tells(lrest[0], rrest[0], e)
    ensures DiffItems(lrest, rrest, at) ==
      first + DiffItems(if lrest == [] then [] else lrest[1..], if rrest == [] then [] else rrest[1..], at + 1)
    ensures forall e :: e in first ==> Tells(l, r, e)
  {
    if lrest == [] {
      first := [Entry([Index(at)], NOTHING, rrest[0])];
    } else if rrest == [] {
      first := [Entry([Index(at)], lrest[0], NOTHING)];
    } else {
      first := Under(Index(at), Diff(lrest[0], rrest[0]));
      AtChild(l, Index(at), lrest[0]);
      AtChild(r, Index(at), rrest[0]);
      TellsUnder(l, r, lrest[0], rrest[0], Index(at), Diff(lrest[0], rrest[0]));
    }
  }

  lemma {:induction false} DiffItemsTell(l: Variant, r: Variant, lrest: seq<Variant>, rrest: seq<Variant>, at: nat)
    requires l.Array? && r.Array? && UniqueItems(lrest) && UniqueItems(rrest)
    requires RestOf(l, at, lrest) && RestOf(r, at, rrest)
    ensures forall e :: e in DiffItems(lrest, rrest, at) ==> Tells(l, r, e)
    decreases lrest, 0, rrest
  {
    NextItem(l, at, lrest);
    NextItem(r, at, rrest);
    if lrest != [] || rrest != [] {
      var l', r' := if lrest == [] then [] else lrest[1..], if rrest == [] then [] else rrest[1..];
      if lrest != [] && rrest != [] {
        DiffTells(lrest[0], rrest[0]);
      }
      var first := ItemTells(l, r, lrest, rrest, at);
      DiffItemsTell(l, r, l', r', at + 1);
      TellConcat(l, r, first, DiffItems(l', r', at + 1));
    }
  }

  lemma {:induction false} TellConcat(l: Variant, r: Variant, a: seq<Entry>, b: seq<Entry>)
    requires (forall e :: e in a ==> Tells(l, r, e)) && (forall e :: e in b ==> Tells(l, r, e))
    ensures forall e :: e in a + b ==> Tells(l, r, e)
  {}

  /** `rest` is a final stretch of the entries of `v`, found by the same keys. */
  ghost predicate TailOf(v: Variant, rest: seq<Member>)
    requires v.Object?
  {
    forall key :: Find(rest, key).Some? ==> Find(v.entries, key) == Find(rest, key)
  }

  lemma {:induction false} NextEntry(v: Variant, rest: seq<Member>)
    requires v.Object? && TailOf(v, rest) && UniqueEntries(rest) && rest != []
    ensures TailOf(v, rest[1..])
    ensures At(v, [Key(rest[0].key)]) == Some(rest[0].value)
  {
    forall key | Find(rest[1..], key).Some? ensures Find(v.entries, key) == Find(rest[1..], key) {
      assert Find(rest, key) == Find(rest[1..], key);
    }
    assert Find(rest, rest[0].key).Some?;
  }

  lemma {:induction false} DiffKeysTell(l: Variant, r: Variant, rest: seq<Member>)
    requires l.Object? && r.Object? && UniqueEntries(rest) && Unique(r) && TailOf(l, rest)
    ensures forall e :: e in DiffKeys(rest, r.entries) ==> Tells(l, r, e)
    decreases rest, 0
  {
    if rest != [] {
      var Member(key, value) := rest[0];
      NextEntry(l, rest);
      DiffKeysTell(l, r, rest[1..]);
      match Find(r.entries, key)
      case None =>
      case Some(other) =>
        FindIsUnique(r.entries, key);
        DiffTells(value, other);
        AtChild(l, Key(key), value);
        AtChild(r, Key(key), other);
        TellsUnder(l, r, value, other, Key(key), Diff(value, other));
    }
  }

  lemma {:induction false} NewKeysTell(l: Variant, r: Variant, rest: seq<Member>)
    requires l.Object? && r.Object? && UniqueEntries(rest) && TailOf(r, rest)
    ensures forall e :: e in NewKeys(l.entries, rest) ==> Tells(l, r, e)
  {
    if rest != [] {
      NextEntry(r, rest);
      NewKeysTell(l, r, rest[1..]);
    }
  }

  // ---------- No entry lies inside another ----------

  ghost predicate Apart(a: seq<Segment>, b: seq<Segment>) {
    !(a <= b) && !(b <= a)
  }

  ghost predicate AllApart(out: seq<Entry>) {
    forall i, j :: 0 <= i < j < |out| ==> Apart(out[i].path, out[j].path)
  }

  /** Every path in `out` starts with one of `heads`. */
  ghost predicate StartIn(out: seq<Entry>, heads: iset<Segment>) {
    forall e :: e in out ==> e.path != [] && e.path[0] in heads
  }

  lemma {:induction false} ApartUnder(segment: Segment, out: seq<Entry>)
    requires AllApart(out)
    ensures AllApart(Under(segment, out)) && StartIn(Under(segment, out), iset{segment})
  {
    var u := Under(segment, out);
    forall i, j | 0 <= i < j < |u| ensures Apart(u[i].path, u[j].path) {
      assert Apart(out[i].path, out[j].path);
      assert u[i].path[1..] == out[i].path && u[j].path[1..] == out[j].path;
    }
  }

  lemma {:induction false} ApartConcat(a: seq<Entry>, b: seq<Entry>, heads: iset<Segment>, heads': iset<Segment>)
    requires AllApart(a) && AllApart(b) && StartIn(a, heads) && StartIn(b, heads') && heads !! heads'
    ensures AllApart(a + b) && StartIn(a + b, heads + heads')
  {
    forall i, j | 0 <= i < j < |a + b| ensures Apart((a + b)[i].path, (a + b)[j].path) {
      if i < |a| && j >= |a| {
        assert a[i] in a && b[j - |a|] in b;
      }
    }
  }

  ghost function KeysOf(entries: seq<Member>): (heads: iset<Segment>) {
    iset key | Find(entries, key).Some? :: Key(key)
  }

  ghost function IndexesFrom(at: nat): (heads: iset<Segment>) {
    iset i: nat | i >= at :: Index(i)
  }

  lemma {:induction false} DiffApart(l: Variant, r: Variant)
    requires Unique(l) && Unique(r)
    ensures AllApart(Diff(l, r))
    decreases l, 1
  {
    if KindOf(l) == KindOf(r) {
      match l
      case Leaf(_) =>
      case Array(items) => DiffItemsApart(items, r.items, 0);
      case Object(entries) =>
        DiffKeysApart(entries, r.entries);
        NewKeysApart(entries, r.entries);
        ApartConcat(DiffKeys(entries, r.entries), NewKeys(entries, r.entries), KeysOf(entries), KeysOf(r.entries) - KeysOf(entries));
    }
  }

  lemma {:induction false} DiffItemsApart(l: seq<Variant>, r: seq<Variant>, at: nat)
    requires UniqueItems(l) && UniqueItems(r)
    ensures AllApart(DiffItems(l, r, at)) && StartIn(DiffItems(l, r, at), IndexesFrom(at))
    decreases l, 0, r
  {
    if l != [] || r != [] {
      var l', r' := if l == [] then [] else l[1..], if r == [] then [] else r[1..];
      var first :=
        if l == [] then [Entry([Index(at)], NOTHING, r[0])]
        else if r == [] then [Entry([Index(at)], l[0], NOTHING)]
        else Under(Index(at), Diff(l[0], r[0]));
      if l != [] && r != [] {
        DiffApart(l[0], r[0]);
        ApartUnder(Index(at), Diff(l[0], r[0]));
      }
      DiffItemsApart(l', r', at + 1);
      ApartConcat(first, DiffItems(l', r', at + 1), iset{Index(at)}, IndexesFrom(at + 1));
    }
  }

  lemma {:induction false} DiffKeysApart(l: seq<Member>, r: seq<Member>)
    requires UniqueEntries(l) && UniqueEntries(r)
    ensures AllApart(DiffKeys(l, r)) && StartIn(DiffKeys(l, r), KeysOf(l))
    decreases l, 0
  {
    if l != [] {
      var key := l[0].key;
      var first := DiffKey(l[0], r);
      if Find(r, key).Some? {
        FindIsUnique(r, key);
        DiffApart(l[0].value, Find(r, key).value);
        ApartUnder(Key(key), Diff(l[0].value, Find(r, key).value));
      }
      DiffKeysApart(l[1..], r);
      ApartConcat(first, DiffKeys(l[1..], r), iset{Key(key)}, KeysOf(l[1..]));
      assert iset{Key(key)} + KeysOf(l[1..]) <= KeysOf(l);
    }
  }

  lemma {:induction false} NewKeysApart(l: seq<Member>, r: seq<Member>)
    requires UniqueEntries(r)
    ensures AllApart(NewKeys(l, r)) && StartIn(NewKeys(l, r), KeysOf(r) - KeysOf(l))
  {
    if r != [] {
      var key := r[0].key;
      NewKeysApart(l, r[1..]);
      assert KeysOf(r[1..]) <= KeysOf(r);
      if Find(l, key).None? {
        ApartConcat([Entry([Key(key)], NOTHING, r[0].value)], NewKeys(l, r[1..]), iset{Key(key)}, KeysOf(r[1..]) - KeysOf(l));
      }
    }
  }

  // ---------- The program ----------

  lemma {:induction false} MembersStep(l: seq<Member>, i: nat)
    requires i < |l|
    ensures Members(l[i..]).Keys == Members(l[i + 1..]).Keys + {l[i].key}
  {
    assert l[i..][0] == l[i] && l[i..][1..] == l[i + 1..];
  }

  lemma {:induction false} DiffKeysStep(l: seq<Member>, r: seq<Member>, i: nat)
    requires i < |l|
    ensures DiffKeys(l[i..], r) == DiffKey(l[i], r) + DiffKeys(l[i + 1..], r)
  {
    assert l[i..][0] == l[i] && l[i..][1..] == l[i + 1..];
  }

  lemma {:induction false} NewKeysStep(l: seq<Member>, r: seq<Member>, j: nat)
    requires j < |r|
    ensures NewKeys(l, r[j..]) ==
      (if Find(l, r[j].key).None? then [Entry([Key(r[j].key)], NOTHING, r[j].value)] else []) + NewKeys(l, r[j + 1..])
  {
    assert r[j..][0] == r[j] && r[j..][1..] == r[j + 1..];
  }

  lemma {:induction false} DiffItemsStep(l: seq<Variant>, r: seq<Variant>, i: nat)
    requires i < |l| && i < |r|
    ensures DiffItems(l[i..], r[i..], i) == Under(Index(i), Diff(l[i], r[i])) + DiffItems(l[i + 1..], r[i + 1..], i + 1)
  {
    assert l[i..][0] == l[i] && l[i..][1..] == l[i + 1..];
    assert r[i..][0] == r[i] && r[i..][1..] == r[i + 1..];
  }

  lemma {:induction false} MoreLeftStep(l: seq<Variant>, i: nat)
    requires i < |l|
    ensures DiffItems(l[i..], [], i) == [Entry([Index(i)], l[i], NOTHING)] + DiffItems(l[i + 1..], [], i + 1)
  {
    assert l[i..][0] == l[i] && l[i..][1..] == l[i + 1..];
  }

  lemma {:induction false} MoreRightStep(r: seq<Variant>, i: nat)
    requires i < |r|
    ensures DiffItems([], r[i..], i) == [Entry([Index(i)], NOTHING, r[i])] + DiffItems([], r[i + 1..], i + 1)
  {
    assert r[i..][0] == r[i] && r[i..][1..] == r[i + 1..];
  }

  /** The recursive walk, with the entries in the order in which the callback sees them. */
  method VariantDiff(l: Variant, r: Variant) returns (out: seq<Entry>)
    ensures out == Diff(l, r)
    decreases l, 2
  {
    if KindOf(l) != KindOf(r) {
      out := [Entry([], l, r)];
    } else if l.Object? {
      out := DiffObjects(l.entries, r.entries);
    } else if l.Array? {
      out := DiffArrays(l.items, r.items);
    } else if l != r {
      out := [Entry([], l, r)];
    } else {
      out := [];
    }
  }

  method DiffObjects(l: seq<Member>, r: seq<Member>) returns (out: seq<Entry>)
    ensures out == DiffKeys(l, r) + NewKeys(l, r)
    decreases l, 1
  {
    var keys;
    out, keys := DiffLeftKeys(l, r);
    ghost var kept := out;
    var j := 0;
    while j < |r|
      invariant 0 <= j <= |r|
      invariant out + NewKeys(l, r[j..]) == kept + NewKeys(l, r)
    {
      NewKeysStep(l, r, j);
      FindIsMember(l, r[j].key);
      if r[j].key !in keys {
        out := out + [Entry([Key(r[j].key)], NOTHING, r[j].value)];
      }
      j := j + 1;
    }
  }

  method DiffLeftKeys(l: seq<Member>, r: seq<Member>) returns (out: seq<Entry>, keys: set<string>)
    ensures out == DiffKeys(l, r)
    ensures keys == Members(l).Keys
    decreases l, 0
  {
    out, keys := [], {};
    var i := 0;
    while i < |l|
      invariant 0 <= i <= |l|
      invariant keys + Members(l[i..]).Keys == Members(l).Keys
      invariant out + DiffKeys(l[i..], r) == DiffKeys(l, r)
    {
      DiffKeysStep(l, r, i);
      MembersStep(l, i);
      var found := DiffOneKey(l[i], r);
      out := out + found;
      keys := keys + {l[i].key};
      i := i + 1;
    }
  }

  method DiffOneKey(m: Member, r: seq<Member>) returns (out: seq<Entry>)
    ensures out == DiffKey(m, r)
    decreases m, 0
  {
    match Find(r, m.key)
    case None =>
      out := [Entry([Key(m.key)], m.value, NOTHING)];
    case Some(other) =>
      var below := VariantDiff(m.value, other);
      out := Under(Key(m.key), below);
  }

  method DiffArrays(l: seq<Variant>, r: seq<Variant>) returns (out: seq<Entry>)
    ensures out == DiffItems(l, r, 0)
    decreases l, 1
  {
    var commonCount := if |l| <= |r| then |l| else |r|;
    out := DiffCommonItems(l, r, commonCount);
    assert |l| <= |r| ==> l[commonCount..] == [];
    assert |r| <= |l| ==> r[commonCount..] == [];
    out := DiffMoreLeft(out, l, commonCount);
    out := DiffMoreRight(out, r, commonCount);
  }

  method DiffMoreLeft(before: seq<Entry>, l: seq<Variant>, commonCount: nat) returns (out: seq<Entry>)
    requires commonCount <= |l|
    ensures out == before + DiffItems(l[commonCount..], [], commonCount)
  {
    out := before;
    var i := commonCount;
    while i < |l|
      invariant commonCount <= i <= |l|
      invariant out + DiffItems(l[i..], [], i) == before + DiffItems(l[commonCount..], [], commonCount)
    {
      MoreLeftStep(l, i);
      out := out + [Entry([Index(i)], l[i], NOTHING)];
      i := i + 1;
    }
  }

  method DiffMoreRight(before: seq<Entry>, r: seq<Variant>, commonCount: nat) returns (out: seq<Entry>)
    requires commonCount <= |r|
    ensures out == before + DiffItems([], r[commonCount..], commonCount)
  {
    out := before;
    var i := commonCount;
    while i < |r|
      invariant commonCount <= i <= |r|
      invariant out + DiffItems([], r[i..], i) == before + DiffItems([], r[commonCount..], commonCount)
    {
      MoreRightStep(r, i);
      out := out + [Entry([Index(i)], NOTHING, r[i])];
      i := i + 1;
    }
  }

  method DiffCommonItems(l: seq<Variant>, r: seq<Variant>, commonCount: nat) returns (out: seq<Entry>)
    requires commonCount <= |l| && commonCount <= |r|
    ensures out + DiffItems(l[commonCount..], r[commonCount..], commonCount) == DiffItems(l, r, 0)
    decreases l, 0
  {
    out := [];
    var i := 0;
    while i < commonCount
      invariant 0 <= i <= commonCount
      invariant out + DiffItems(l[i..], r[i..], i) == DiffItems(l, r, 0)
    {
      DiffItemsStep(l, r, i);
      var below := VariantDiff(l[i], r[i]);
      out := out + Under(Index(i), below);
      i := i + 1;
    }
  }
}
