/** A recursive walk that visits the successors of a node from left to right and returns at the first
    node it cannot handle.  Which calls are made depends on how the earlier ones came out, so such a
    walk may end on a graph with cycles. */
module EarlyReturn {
  import opened Reachability

  datatype Outcome = Passed | Unhandled | OutOfDepth

  /** The walk from `x`, cut off where calls nest more than `d` deep. */
  ghost function Walk<T(!new)>(next: T -> seq<T>, handled: T -> bool, x: T, d: nat): Outcome
    decreases d, 0
  {
    if d == 0 then OutOfDepth
    else if !handled(x) then Unhandled
    else WalkAll(next, handled, next(x), d - 1)
  }

  ghost function WalkAll<T(!new)>(next: T -> seq<T>, handled: T -> bool, nodes: seq<T>, d: nat): Outcome
    decreases d, 1 + |nodes|
  {
    if nodes == [] then Passed
    else
      match Walk(next, handled, nodes[0], d)
      case Passed => WalkAll(next, handled, nodes[1..], d)
      case other => other
  }

  ghost predicate Ends<T(!new)>(next: T -> seq<T>, handled: T -> bool, x: T, d: nat) {
    Walk(next, handled, x, d) != OutOfDepth
  }

  ghost predicate AllHandled<T(!new)>(next: T -> seq<T>, handled: T -> bool, x: T) {
    forall y :: Reaches(next, x, y) ==> handled(y)
  }

  lemma AllHandledStep<T(!new)>(next: T -> seq<T>, handled: T -> bool, x: T)
    ensures AllHandled(next, handled, x) <==> handled(x) && forall c :: c in next(x) ==> AllHandled(next, handled, c)
  {
    ReachesStep(next, x, x);
    if AllHandled(next, handled, x) {
      forall c, y | c in next(x) && Reaches(next, c, y)
        ensures handled(y)
      {
        ReachesStep(next, x, y);
      }
    }
    if handled(x) && forall c :: c in next(x) ==> AllHandled(next, handled, c) {
      forall y | Reaches(next, x, y)
        ensures handled(y)
      {
        ReachesStep(next, x, y);
      }
    }
  }

  ghost predicate AllPass<T(!new)>(next: T -> seq<T>, handled: T -> bool, nodes: seq<T>, d: nat) {
    forall c :: c in nodes ==> Grounded(next, c, d) && AllHandled(next, handled, c)
  }

  /** The walk passes exactly when it makes every call there is, none of them too deep, and can handle
      every node; and it only fails on a node it really meets. */
  lemma {:induction false} WalkPasses<T(!new)>(next: T -> seq<T>, handled: T -> bool, x: T, d: nat)
    ensures Walk(next, handled, x, d) == Passed <==> Grounded(next, x, d) && AllHandled(next, handled, x)
    ensures Walk(next, handled, x, d) == Unhandled ==> !AllHandled(next, handled, x)
    decreases d, 0
  {
    AllHandledStep(next, handled, x);
    if d == 0 {
    } else {
      WalkAllPasses(next, handled, next(x), d - 1);
    }
  }

  lemma {:induction false} WalkAllPasses<T(!new)>(next: T -> seq<T>, handled: T -> bool, nodes: seq<T>, d: nat)
    ensures WalkAll(next, handled, nodes, d) == Passed <==> AllPass(next, handled, nodes, d)
    ensures WalkAll(next, handled, nodes, d) == Unhandled ==> exists c :: c in nodes && !AllHandled(next, handled, c)
    decreases d, 1 + |nodes|
  {
    if nodes == [] {
    } else {
      WalkPasses(next, handled, nodes[0], d);
      WalkAllPasses(next, handled, nodes[1..], d);
      assert nodes == [nodes[0]] + nodes[1..];
    }
  }

  // A walk that ends passes if it can handle every node.
  lemma EndsAndPasses<T(!new)>(next: T -> seq<T>, handled: T -> bool, x: T, d: nat)
    requires Ends(next, handled, x, d) && AllHandled(next, handled, x)
    ensures Grounded(next, x, d)
  {
    WalkPasses(next, handled, x, d);
  }

  lemma {:induction false} GroundedEnds<T(!new)>(next: T -> seq<T>, handled: T -> bool, x: T, d: nat)
    requires Grounded(next, x, d)
    ensures Ends(next, handled, x, d)
    decreases d, 0
  {
    assert forall c :: c in next(x) ==> Grounded(next, c, d - 1);
    GroundedAllEnd(next, handled, next(x), d - 1);
  }

  lemma {:induction false} GroundedAllEnd<T(!new)>(next: T -> seq<T>, handled: T -> bool, nodes: seq<T>, d: nat)
    requires forall c :: c in nodes ==> Grounded(next, c, d)
    ensures WalkAll(next, handled, nodes, d) != OutOfDepth
    decreases d, 1 + |nodes|
  {
    if nodes == [] {
    } else {
      GroundedEnds(next, handled, nodes[0], d);
      GroundedAllEnd(next, handled, nodes[1..], d);
    }
  }

  /** When the walk from `x` ends and the first `j` successors pass, the walk from the next one ends. */
  lemma NextEnds<T(!new)>(next: T -> seq<T>, handled: T -> bool, x: T, d: nat, j: nat)
    requires Ends(next, handled, x, d) && handled(x) && j < |next(x)|
    requires forall i :: 0 <= i < j ==> AllHandled(next, handled, next(x)[i])
    ensures d > 0 && Ends(next, handled, next(x)[j], d - 1)
  {
    LaterEnds(next, handled, next(x), d - 1, j);
  }

  lemma {:induction false} LaterEnds<T(!new)>(next: T -> seq<T>, handled: T -> bool, nodes: seq<T>, d: nat, j: nat)
    requires WalkAll(next, handled, nodes, d) != OutOfDepth && j < |nodes|
    requires forall i :: 0 <= i < j ==> AllHandled(next, handled, nodes[i])
    ensures Ends(next, handled, nodes[j], d)
    decreases j
  {
    if j == 0 {
    } else {
      WalkPasses(next, handled, nodes[0], d);
      LaterEnds(next, handled, nodes[1..], d, j - 1);
    }
  }

  // The first `j` nodes having passed, what comes out is decided by the next one, unless it passes.
  lemma {:induction false} WalkAllAt<T(!new)>(next: T -> seq<T>, handled: T -> bool, nodes: seq<T>, d: nat, j: nat)
    requires j < |nodes| && WalkAll(next, handled, nodes[..j], d) == Passed
    ensures WalkAll(next, handled, nodes[..j + 1], d) == Walk(next, handled, nodes[j], d)
    ensures Walk(next, handled, nodes[j], d) != Passed ==>
            WalkAll(next, handled, nodes, d) == Walk(next, handled, nodes[j], d)
    decreases j
  {
    assert nodes[..j + 1][1..] == nodes[1..][..j];
    if j == 0 {
    } else {
      assert nodes[..j][1..] == nodes[1..][..j - 1];
      WalkAllAt(next, handled, nodes[1..], d, j - 1);
    }
  }

  // ---------- The calls that are made ----------

  // A node from which the walk passes.
  ghost predicate Clean<T(!new)>(next: T -> seq<T>, handled: T -> bool, x: T) {
    Acyclic(next, x) && AllHandled(next, handled, x)
  }

  // The successors up to the first that is not clean.
  ghost function Entered<T(!new)>(next: T -> seq<T>, handled: T -> bool, nodes: seq<T>): seq<T> {
    if nodes == [] then []
    else if Clean(next, handled, nodes[0]) then [nodes[0]] + Entered(next, handled, nodes[1..])
    else [nodes[0]]
  }

  /** The calls the walk makes from a node. */
  ghost function Made<T(!new)>(next: T -> seq<T>, handled: T -> bool): T -> seq<T> {
    (x: T) => if handled(x) then Entered(next, handled, next(x)) else []
  }

  /** The walk ends within depth `d` exactly when the calls it makes nest at most `d` deep. */
  lemma {:induction false} EndsIffMadeGrounded<T(!new)>(next: T -> seq<T>, handled: T -> bool, x: T, d: nat)
    ensures Ends(next, handled, x, d) <==> Grounded(Made(next, handled), x, d)
    decreases d, 0
  {
    var made := Made(next, handled);
    assert made(x) == if handled(x) then Entered(next, handled, next(x)) else [];
    if d > 0 && handled(x) {
      AllEndIffEnteredGrounded(next, handled, next(x), d - 1);
    }
  }

  lemma {:induction false} AllEndIffEnteredGrounded<T(!new)>(next: T -> seq<T>, handled: T -> bool, nodes: seq<T>, d: nat)
    ensures WalkAll(next, handled, nodes, d) != OutOfDepth <==>
            forall c :: c in Entered(next, handled, nodes) ==> Grounded(Made(next, handled), c, d)
    decreases d, 1 + |nodes|
  {
    if nodes == [] {
    } else {
      var c, rest := nodes[0], nodes[1..];
      EndsIffMadeGrounded(next, handled, c, d);
      AllEndIffEnteredGrounded(next, handled, rest, d);
      WalkPasses(next, handled, c, d);
      if Grounded(next, c, d) {
        GroundedIsAcyclic(next, c, d);
      }
      assert c in Entered(next, handled, nodes);
    }
  }

  lemma {:induction false} EnteredAmong<T(!new)>(next: T -> seq<T>, handled: T -> bool, nodes: seq<T>, c: T)
    requires c in Entered(next, handled, nodes)
    ensures c in nodes
  {
    if Clean(next, handled, nodes[0]) && c != nodes[0] {
      EnteredAmong(next, handled, nodes[1..], c);
    }
  }

  lemma MadeAmong<T(!new)>(next: T -> seq<T>, handled: T -> bool, a: T, c: T)
    requires c in Made(next, handled)(a)
    ensures c in next(a)
  {
    EnteredAmong(next, handled, next(a), c);
  }

  lemma MadeReaches<T(!new)>(next: T -> seq<T>, handled: T -> bool, a: T, b: T, n: nat)
    requires ReachesIn(Made(next, handled), a, b, n)
    ensures ReachesIn(next, a, b, n)
  {
    var made := Made(next, handled);
    forall x, c | c in made(x)
      ensures c in next(x)
    {
      MadeAmong(next, handled, x, c);
    }
    FewerEdges(made, next, a, b, n);
  }

  /** On finitely many nodes: the walk ends if and only if no cycle can be reached along the calls it
      makes.  No cycle at all is enough, and necessary where every node can be handled. */
  lemma EndsIffAcyclic<T(!new)>(next: T -> seq<T>, handled: T -> bool, a: T, code: T -> int, n: nat)
    requires forall b :: Reaches(next, a, b) ==> 0 <= code(b) < n
    requires forall b, c :: code(b) == code(c) ==> b == c
    ensures Acyclic(Made(next, handled), a) <==> exists d: nat :: Ends(next, handled, a, d)
    ensures Acyclic(Made(next, handled), a) ==> Ends(next, handled, a, n + 1)
    ensures Acyclic(next, a) ==> Acyclic(Made(next, handled), a)
    ensures AllHandled(next, handled, a) ==> (Acyclic(next, a) <==> Acyclic(Made(next, handled), a))
  {
    var made := Made(next, handled);
    if Acyclic(made, a) {
      forall b | Reaches(made, a, b)
        ensures 0 <= code(b) < n
      {
        var m: nat :| ReachesIn(made, a, b, m);
        MadeReaches(next, handled, a, b, m);
        assert Reaches(next, a, b);
      }
      AcyclicIsGrounded(made, a, code, n);
      EndsIffMadeGrounded(next, handled, a, n + 1);
      assert Ends(next, handled, a, n + 1);
    }
    if d: nat :| Ends(next, handled, a, d) {
      EndsIffMadeGrounded(next, handled, a, d);
      GroundedIsAcyclic(made, a, d);
      if AllHandled(next, handled, a) {
        EndsAndPasses(next, handled, a, d);
        GroundedIsAcyclic(next, a, d);
      }
    }
    if Acyclic(next, a) {
      AcyclicIsGrounded(next, a, code, n);
      GroundedEnds(next, handled, a, n + 1);
      assert Ends(next, handled, a, n + 1);
    }
  }
}
