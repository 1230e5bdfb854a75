/** Sequence vocabulary shared by the models: duplicate-freedom, removal of one
    occurrence, and removal of a whole set of elements. */
module Lists {

  ghost predicate Distinct<T>(s: seq<T>) {
    forall i, j :: 0 <= i < j < |s| ==> s[i] != s[j]
  }

  function Elements<T>(s: seq<T>): (r: set<T>) {
    set x | x in s
  }

  /** `list.remove(x)`: the first occurrence goes, the order of the rest stays. */
  function RemoveFirst<T(==)>(s: seq<T>, x: T): (r: seq<T>)
    requires x in s
  {
    if s[0] == x then s[1..] else [s[0]] + RemoveFirst(s[1..], x)
  }

  lemma {:induction false} RemoveFirstCounts<T>(s: seq<T>, x: T)
    requires x in s
    ensures multiset(RemoveFirst(s, x)) == multiset(s) - multiset{x}
  {
    assert s == [s[0]] + s[1..];
    if s[0] != x {
      RemoveFirstCounts(s[1..], x);
    }
  }

  lemma {:induction false} DistinctIsMultisetOne<T>(s: seq<T>)
    ensures Distinct(s) <==> forall x :: multiset(s)[x] <= 1
  {
    if |s| != 0 {
      var t := s[..|s| - 1];
      var last := s[|s| - 1];
      assert s == t + [last];
      DistinctIsMultisetOne(t);
      if Distinct(s) {
        assert last !in t;
        forall x ensures multiset(s)[x] <= 1 {}
      }
      if forall x :: multiset(s)[x] <= 1 {
        forall x ensures multiset(t)[x] <= 1 {
          assert multiset(t)[x] <= multiset(s)[x];
        }
        assert multiset(s)[last] <= 1;
        assert last !in t;
      }
    }
  }

  lemma {:induction false} RemoveFirstDistinct<T>(s: seq<T>, x: T)
    requires x in s && Distinct(s)
    ensures Distinct(RemoveFirst(s, x))
    ensures forall y :: y in RemoveFirst(s, x) <==> y in s && y != x
  {
    var r := RemoveFirst(s, x);
    RemoveFirstCounts(s, x);
    DistinctIsMultisetOne(s);
    forall y ensures multiset(r)[y] <= 1 {
      assert multiset(s)[y] <= 1;
    }
    DistinctIsMultisetOne(r);
    forall y ensures y in r <==> y in s && y != x {
      assert multiset(s)[y] <= 1;
      assert y in r <==> y in multiset(r);
      assert y in s <==> y in multiset(s);
    }
  }

  /** `s` with every element of `xs` dropped; the order of the others is kept. */
  function Without<T(==)>(s: seq<T>, xs: set<T>): (r: seq<T>) {
    if s == [] then []
    else Without(s[..|s| - 1], xs) + (if s[|s| - 1] in xs then [] else [s[|s| - 1]])
  }

  lemma {:induction false} WithoutElements<T>(s: seq<T>, xs: set<T>)
    ensures forall x :: x in Without(s, xs) <==> x in s && x !in xs
  {
    if s != [] {
      var t := s[..|s| - 1];
      assert s == t + [s[|s| - 1]];
      WithoutElements(t, xs);
    }
  }

  lemma {:induction false} WithoutAppend<T>(s: seq<T>, x: T, xs: set<T>)
    ensures Without(s + [x], xs) == Without(s, xs) + (if x in xs then [] else [x])
  {
    assert (s + [x])[..|s|] == s;
  }

  lemma {:induction false} WithoutConcat<T>(s: seq<T>, t: seq<T>, xs: set<T>)
    ensures Without(s + t, xs) == Without(s, xs) + Without(t, xs)
  {
    if t == [] {
      assert s + t == s;
    } else {
      var u, x := t[..|t| - 1], t[|t| - 1];
      assert t == u + [x];
      assert s + t == (s + u) + [x];
      WithoutConcat(s, u, xs);
      WithoutAppend(s + u, x, xs);
    }
  }

  lemma {:induction false} WithoutNothing<T>(s: seq<T>, xs: set<T>)
    requires forall x :: x in xs ==> x !in s
    ensures Without(s, xs) == s
  {
    if s != [] {
      assert s[|s| - 1] in s;
      WithoutNothing(s[..|s| - 1], xs);
      assert s == s[..|s| - 1] + [s[|s| - 1]];
    }
  }

  lemma {:induction false} WithoutDistinct<T>(s: seq<T>, xs: set<T>)
    requires Distinct(s)
    ensures Distinct(Without(s, xs))
  {
    if s != [] {
      WithoutDistinct(s[..|s| - 1], xs);
      WithoutElements(s[..|s| - 1], xs);
      assert s[|s| - 1] !in s[..|s| - 1];
    }
  }

  lemma {:induction false} WithoutTwice<T>(s: seq<T>, xs: set<T>, ys: set<T>)
    ensures Without(Without(s, xs), ys) == Without(s, xs + ys)
  {
    if s != [] {
      var t, x := s[..|s| - 1], s[|s| - 1];
      WithoutTwice(t, xs, ys);
      if x !in xs {
        WithoutAppend(Without(t, xs), x, ys);
      } else {
        assert Without(s, xs) == Without(t, xs);
      }
    }
  }

  lemma {:induction false} OnlyThere<T>(a: seq<T>, k: nat)
    requires Distinct(a) && k < |a|
    ensures a[k] !in a[..k] && a[k] !in a[k + 1..]
  {}

  lemma {:induction false} DropOne<T>(a: seq<T>, x: T, k: nat)
    requires k < |a| && a[k] == x && x !in a[..k] && x !in a[k + 1..]
    ensures Without(a, {x}) == a[..k] + a[k + 1..]
  {
    var front, back := a[..k], a[k + 1..];
    assert a == (front + [x]) + back;
    WithoutConcat(front + [x], back, {x});
    WithoutAppend(front, x, {x});
    WithoutNothing(front, {x});
    WithoutNothing(back, {x});
  }
}
