/** Reachability in a graph given by its successor function, and when a walk that calls itself on
    every successor comes to an end. */
module Reachability {

  ghost predicate ReachesIn<T(!new)>(next: T -> seq<T>, a: T, b: T, n: nat)
    decreases n
  {
    if n == 0 then a == b else exists c :: c in next(a) && ReachesIn(next, c, b, n - 1)
  }

  ghost predicate Reaches<T(!new)>(next: T -> seq<T>, a: T, b: T) {
    exists n: nat :: ReachesIn(next, a, b, n)
  }

  /** A node reaches itself and whatever the nodes next to it reach. */
  lemma ReachesStep<T(!new)>(next: T -> seq<T>, a: T, b: T)
    ensures Reaches(next, a, b) <==> a == b || exists c :: c in next(a) && Reaches(next, c, b)
  {
    if Reaches(next, a, b) {
      var n: nat :| ReachesIn(next, a, b, n);
      if n > 0 {
        var c :| c in next(a) && ReachesIn(next, c, b, n - 1);
        assert Reaches(next, c, b);
      }
    }
    if a == b {
      assert ReachesIn(next, a, b, 0);
    }
    if c :| c in next(a) && Reaches(next, c, b) {
      var n: nat :| ReachesIn(next, c, b, n);
      assert ReachesIn(next, a, b, n + 1);
    }
  }

  lemma {:induction false} ReachesInTrans<T(!new)>(next: T -> seq<T>, a: T, b: T, c: T, m: nat, n: nat)
    requires ReachesIn(next, a, b, m) && ReachesIn(next, b, c, n)
    ensures ReachesIn(next, a, c, m + n)
    decreases m
  {
    if m == 0 {
    } else {
      var x :| x in next(a) && ReachesIn(next, x, b, m - 1);
      ReachesInTrans(next, x, b, c, m - 1, n);
    }
  }

  lemma ReachesTrans<T(!new)>(next: T -> seq<T>, a: T, b: T, c: T)
    requires Reaches(next, a, b) && Reaches(next, b, c)
    ensures Reaches(next, a, c)
  {
    var m: nat :| ReachesIn(next, a, b, m);
    var n: nat :| ReachesIn(next, b, c, n);
    ReachesInTrans(next, a, b, c, m, n);
  }

  /** What every edge keeps, every walk keeps. */
  lemma {:induction false} ReachesInKeeps<T(!new)>(next: T -> seq<T>, inv: T -> bool, a: T, b: T, n: nat)
    requires forall x, y :: inv(x) && y in next(x) ==> inv(y)
    requires inv(a) && ReachesIn(next, a, b, n)
    ensures inv(b)
    decreases n
  {
    if n == 0 {
    } else {
      var c :| c in next(a) && ReachesIn(next, c, b, n - 1);
      ReachesInKeeps(next, inv, c, b, n - 1);
    }
  }

  /** A walk along some of the edges is a walk. */
  lemma {:induction false} FewerEdges<T(!new)>(some: T -> seq<T>, next: T -> seq<T>, a: T, b: T, n: nat)
    requires forall x, c :: c in some(x) ==> c in next(x)
    requires ReachesIn(some, a, b, n)
    ensures ReachesIn(next, a, b, n)
    decreases n
  {
    if n == 0 {
    } else {
      var c :| c in some(a) && ReachesIn(some, c, b, n - 1);
      FewerEdges(some, next, c, b, n - 1);
    }
  }

  /** The calls made from `a` nest at most `d` deep, counting the call for `a`. */
  ghost predicate Grounded<T(!new)>(next: T -> seq<T>, a: T, d: nat)
    decreases d
  {
    d > 0 && forall c :: c in next(a) ==> Grounded(next, c, d - 1)
  }

  /** No cycle of calls can be reached from `a`. */
  ghost predicate Acyclic<T(!new)>(next: T -> seq<T>, a: T) {
    forall b: T, n: nat :: Reaches(next, a, b) && ReachesIn(next, b, b, n) ==> n == 0
  }

  // A chain of calls.
  ghost predicate IsWalk<T(!new)>(next: T -> seq<T>, p: seq<T>) {
    forall i, j :: 0 <= i < j == i + 1 < |p| ==> p[j] in next(p[i])
  }

  lemma {:induction false} UngroundedWalk<T(!new)>(next: T -> seq<T>, a: T, d: nat) returns (p: seq<T>)
    requires !Grounded(next, a, d)
    ensures |p| == d + 1 && p[0] == a && IsWalk(next, p)
    decreases d
  {
    if d == 0 {
      p := [a];
    } else {
      var c :| c in next(a) && !Grounded(next, c, d - 1);
      var q := UngroundedWalk(next, c, d - 1);
      p := [a] + q;
    }
  }

  lemma {:induction false} WalkReaches<T(!new)>(next: T -> seq<T>, p: seq<T>, i: nat, j: nat)
    requires IsWalk(next, p) && i <= j < |p|
    ensures ReachesIn(next, p[i], p[j], j - i)
    decreases j - i
  {
    if i == j {
    } else {
      WalkReaches(next, p, i + 1, j);
      assert p[i + 1] in next(p[i]);
    }
  }

  lemma {:induction false} GroundedAlong<T(!new)>(next: T -> seq<T>, a: T, b: T, d: nat, n: nat)
    requires Grounded(next, a, d) && ReachesIn(next, a, b, n)
    ensures n < d && Grounded(next, b, d - n)
    decreases n
  {
    if n == 0 {
    } else {
      var c :| c in next(a) && ReachesIn(next, c, b, n - 1);
      GroundedAlong(next, c, b, d - 1, n - 1);
    }
  }

  lemma {:induction false} GroundedNoCycle<T(!new)>(next: T -> seq<T>, b: T, d: nat, n: nat)
    requires Grounded(next, b, d) && ReachesIn(next, b, b, n)
    ensures n == 0
    decreases d
  {
    if n == 0 {
    } else {
      GroundedAlong(next, b, b, d, n);
      GroundedNoCycle(next, b, d - n, n);
    }
  }

  lemma {:induction false} GroundedMore<T(!new)>(next: T -> seq<T>, a: T, d: nat, e: nat)
    requires Grounded(next, a, d) && d <= e
    ensures Grounded(next, a, e)
    decreases d
  {
    forall c | c in next(a)
      ensures Grounded(next, c, e - 1)
    {
      GroundedMore(next, c, d - 1, e - 1);
    }
  }

  lemma GroundedIsAcyclic<T(!new)>(next: T -> seq<T>, a: T, d: nat)
    requires Grounded(next, a, d)
    ensures Acyclic(next, a)
  {
    forall b: T, n: nat | Reaches(next, a, b) && ReachesIn(next, b, b, n)
      ensures n == 0
    {
      var m: nat :| ReachesIn(next, a, b, m);
      GroundedAlong(next, a, b, d, m);
      GroundedNoCycle(next, b, d - m, n);
    }
  }

  // More positions than values: two positions hold the same value.
  lemma {:induction false} Pigeonhole(s: seq<int>, n: nat) returns (i: nat, j: nat)
    requires |s| > n && forall k :: 0 <= k < |s| ==> 0 <= s[k] < n
    ensures i < j < |s| && s[i] == s[j]
    decreases n
  {
    var last := |s| - 1;
    if k :| 0 <= k < last && s[k] == s[last] {
      return k, last;
    }
    // Rename the largest value to the one that only the last position holds.
    var t := seq(last, k requires 0 <= k < last => if s[k] == n - 1 then s[last] else s[k]);
    i, j := Pigeonhole(t, n - 1);
  }

  /** When the nodes on walks from `a` are among `n`, no cycle means no walk longer than `n`. */
  lemma AcyclicIsGrounded<T(!new)>(next: T -> seq<T>, a: T, code: T -> int, n: nat)
    requires Acyclic(next, a)
    requires forall b :: Reaches(next, a, b) ==> 0 <= code(b) < n
    requires forall b, c :: code(b) == code(c) ==> b == c
    ensures Grounded(next, a, n + 1)
  {
    if !Grounded(next, a, n + 1) {
      var p := UngroundedWalk(next, a, n + 1);
      var codes := seq(|p|, k requires 0 <= k < |p| => code(p[k]));
      forall k | 0 <= k < |p|
        ensures 0 <= codes[k] < n
      {
        WalkReaches(next, p, 0, k);
        assert Reaches(next, a, p[k]);
      }
      var i, j := Pigeonhole(codes, n);
      WalkReaches(next, p, 0, i);
      WalkReaches(next, p, i, j);
      assert Reaches(next, a, p[i]);
    }
  }
}
