/** Sorting by a comparison, which stands for the C library's qsort: a sorted permutation, whenever
    the comparison orders the elements at hand. */
module Sorting {

  ghost predicate OrdersAll<T(!new)>(s: seq<T>, le: (T, T) -> bool) {
    && (forall a, b :: a in s && b in s ==> le(a, b) || le(b, a))
    && (forall a, b, c :: a in s && b in s && c in s && le(a, b) && le(b, c) ==> le(a, c))
  }

  ghost predicate IsSorted<T>(s: seq<T>, le: (T, T) -> bool) {
    forall i, j :: 0 <= i < j < |s| ==> le(s[i], s[j])
  }

  function Insert<T>(x: T, s: seq<T>, le: (T, T) -> bool): (r: seq<T>)
    ensures multiset(r) == multiset(s) + multiset{x}
  {
    if s == [] then [x]
    else if le(x, s[0]) then [x] + s
    else
      assert s == [s[0]] + s[1..];
      [s[0]] + Insert(x, s[1..], le)
  }

  function Sort<T>(s: seq<T>, le: (T, T) -> bool): (r: seq<T>)
    ensures multiset(r) == multiset(s)
  {
    if s == [] then []
    else
      assert s == [s[0]] + s[1..];
      Insert(s[0], Sort(s[1..], le), le)
  }

  ghost predicate Within<T>(s: seq<T>, all: seq<T>) {
    forall i :: 0 <= i < |s| ==> s[i] in all
  }

  lemma {:induction false} InsertKeepsSorted<T(!new)>(all: seq<T>, x: T, s: seq<T>, le: (T, T) -> bool)
    requires OrdersAll(all, le) && x in all && Within(s, all) && IsSorted(s, le)
    ensures IsSorted(Insert(x, s, le), le)
  {
    if s == [] {
    } else {
      if le(x, s[0]) {
        forall j | 0 <= j < |s|
          ensures le(x, s[j])
        {
          assert j == 0 || (le(s[0], s[j]) && s[0] in all && s[j] in all);
        }
      } else {
        InsertKeepsSorted(all, x, s[1..], le);
        var r := Insert(x, s[1..], le);
        forall j | 0 <= j < |r|
          ensures le(s[0], r[j])
        {
          assert r[j] in multiset(r);
          assert r[j] == x || r[j] in s[1..];
        }
      }
    }
  }

  lemma {:induction false} SortIsSorted<T(!new)>(s: seq<T>, le: (T, T) -> bool)
    requires OrdersAll(s, le)
    ensures IsSorted(Sort(s, le), le)
  {
    SortWithin(s, s, le);
  }

  lemma {:induction false} SortWithin<T(!new)>(all: seq<T>, s: seq<T>, le: (T, T) -> bool)
    requires OrdersAll(all, le) && Within(s, all)
    ensures IsSorted(Sort(s, le), le)
  {
    if s == [] {
    } else {
      SortWithin(all, s[1..], le);
      var r := Sort(s[1..], le);
      forall i | 0 <= i < |r|
        ensures r[i] in all
      {
        assert r[i] in multiset(r);
        assert r[i] in s[1..];
      }
      InsertKeepsSorted(all, s[0], r, le);
    }
  }

  lemma {:induction false} IndexOf<T>(s: seq<T>, x: T) returns (p: nat)
    requires x in multiset(s)
    ensures p < |s| && s[p] == x
  {
    p :| 0 <= p < |s| && s[p] == x;
  }

  // The bag of a sequence without one of its places.
  lemma WithoutPlace<T>(s: seq<T>, p: nat)
    requires p < |s|
    ensures multiset(s[..p] + s[p + 1..]) == multiset(s) - multiset{s[p]}
  {
    assert s == s[..p] + ([s[p]] + s[p + 1..]);
  }

  function Mapped<T, U>(f: T -> U, s: seq<T>): (r: seq<U>)
    ensures |r| == |s| && forall i :: 0 <= i < |s| ==> r[i] == f(s[i])
  {
    seq(|s|, i requires 0 <= i < |s| => f(s[i]))
  }

  /** The bag of the images is the image of the bag. */
  lemma {:induction false} MappedBag<T, U>(f: T -> U, a: seq<T>, b: seq<T>)
    requires multiset(a) == multiset(b)
    ensures multiset(Mapped(f, a)) == multiset(Mapped(f, b))
  {
    assert |a| == |multiset(a)| == |multiset(b)| == |b|;
    if a != [] {
      assert a[0] in multiset(b);
      var p := IndexOf(b, a[0]);
      var rest := b[..p] + b[p + 1..];
      assert multiset(a[1..]) == multiset(rest) by {
        Tail(a);
        WithoutPlace(b, p);
      }
      MappedBag(f, a[1..], rest);
      MappedTail(f, a);
      MappedWithout(f, b, p);
    } else {
      assert Mapped(f, a) == Mapped(f, b);
    }
  }

  lemma MappedTail<T, U>(f: T -> U, a: seq<T>)
    requires a != []
    ensures multiset(Mapped(f, a)) == multiset(Mapped(f, a[1..])) + multiset{f(a[0])}
  {
    assert Mapped(f, a) == [f(a[0])] + Mapped(f, a[1..]);
  }

  lemma MappedWithout<T, U>(f: T -> U, s: seq<T>, p: nat)
    requires p < |s|
    ensures multiset(Mapped(f, s)) == multiset(Mapped(f, s[..p] + s[p + 1..])) + multiset{f(s[p])}
  {
    var m := Mapped(f, s);
    assert m == m[..p] + ([f(s[p])] + m[p + 1..]);
    assert Mapped(f, s[..p] + s[p + 1..]) == m[..p] + m[p + 1..];
  }

  lemma Tail<T>(s: seq<T>)
    requires s != []
    ensures multiset(s[1..]) == multiset(s) - multiset{s[0]}
  {
    assert s == [s[0]] + s[1..];
  }

  /** Where the comparison tells any two elements apart, there is only one sorted permutation. */
  lemma {:induction false} SortedIsUnique<T>(s: seq<T>, t: seq<T>, le: (T, T) -> bool)
    requires multiset(s) == multiset(t) && IsSorted(s, le) && IsSorted(t, le)
    requires forall a, b :: a in s && b in s && le(a, b) && le(b, a) ==> a == b
    ensures s == t
  {
    assert |s| == |multiset(s)| == |multiset(t)| == |t|;
    if s == [] {
    } else {
      assert s[0] in multiset(t) && t[0] in multiset(s);
      var p := IndexOf(t, s[0]);
      var q := IndexOf(s, t[0]);
      assert s[0] == t[0];
      Tail(s);
      Tail(t);
      SortedIsUnique(s[1..], t[1..], le);
    }
  }
}
