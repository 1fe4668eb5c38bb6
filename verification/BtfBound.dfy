/** The ghost bound on the depth of the recursions in BtfGen only says that they end: once it is large
    enough, neither the outcome nor the marks of a relocation depend on it. */
module BtfBound {
  import opened BtfFormat
  import opened EarlyReturn
  import opened Reachability
  import opened BtfGraph
  import opened BtfGen

  lemma WalkEndsMore(src: TypeTable, x: Node, d: nat, e: nat)
    requires WalkEnds(src, x, d) && d <= e
    ensures WalkEnds(src, x, e)
  {
    EndsIffMadeGrounded(Calls(src), Handles(src), x, d);
    GroundedMore(CallsMade(src), x, d, e);
    EndsIffMadeGrounded(Calls(src), Handles(src), x, e);
  }

  // Where a walk has passed, so does the walk from the type a qualifier or typedef stands for.
  lemma TargetPassed(src: TypeTable, id: nat, d: nat)
    requires id < |src| && WalkPassed(src, id, d) && IsModOrTypedef(src[id])
    ensures d > 0 && src[id][SIZE_OR_TYPE] < |src| && WalkPassed(src, src[id][SIZE_OR_TYPE], d - 1)
  {
    var x, c := Node(id, Shallow), Node(src[id][SIZE_OR_TYPE], Shallow);
    AllSupportedStep(src, x);
    NextInGraph(src, x);
    assert ValidRecord(src[id], |src|);
    assert Next(src, x) == [c] && c in Next(src, x);
    EndsAndPasses(Calls(src), Handles(src), x, d);
    assert c in Calls(src)(x);
    GroundedEnds(Calls(src), Handles(src), c, d - 1);
  }

  lemma ElementPassed(src: TypeTable, id: nat, d: nat)
    requires id < |src| && WalkPassed(src, id, d) && Kind(src[id]) == BTF_KIND_ARRAY
    ensures |src[id]| == 6 && src[id][3] < |src| && WalkPassed(src, src[id][3], d)
  {
    var x, c := Node(id, Shallow), Node(src[id][3], Shallow);
    AllSupportedStep(src, x);
    NextInGraph(src, x);
    NextArray(src, x);
    assert Next(src, x)[0] == c && c in Next(src, x);
    EndsAndPasses(Calls(src), Handles(src), x, d);
    assert c in Calls(src)(x);
    GroundedEnds(Calls(src), Handles(src), c, d - 1);
    WalkEndsMore(src, c, d - 1, d);
  }

  /** Skipping qualifiers and typedefs comes to the same type, whose walk passes too. */
  lemma {:induction false} SkippedAgrees(src: TypeTable, id: nat, d: nat, e: nat)
    requires id < |src| && WalkPassed(src, id, d) && d <= e
    ensures Skipped(src, id, d) == Skipped(src, id, e) < |src|
    ensures WalkPassed(src, Skipped(src, id, d), d)
    decreases d
  {
    assert ValidRecord(src[id], |src|);
    if IsModOrTypedef(src[id]) {
      TargetPassed(src, id, d);
      var r := src[id][SIZE_OR_TYPE];
      SkippedAgrees(src, r, d - 1, e - 1);
      WalkEndsMore(src, Node(Skipped(src, r, d - 1), Shallow), d - 1, d);
    }
  }

  // So one step of an access string does not depend on the bound, ...
  lemma StepAgrees(src: TypeTable, id: nat, access: nat, d: nat, e: nat)
    requires id < |src| && WalkPassed(src, id, d) && StepFits(src, id, access, d) && d <= e
    ensures StepFits(src, id, access, e)
    ensures StepWorks(src, id, access, d) <==> StepWorks(src, id, access, e)
    ensures Stepped(src, id, access, d) <==> Stepped(src, id, access, e)
    ensures Stepped(src, id, access, d) ==> StepType(src, id, access, d) == StepType(src, id, access, e)
    ensures forall mk :: StepMark(src, id, access, d, mk) <==> StepMark(src, id, access, e, mk)
    ensures StepWorks(src, id, access, d) ==>
              StepType(src, id, access, d) < |src| && WalkPassed(src, StepType(src, id, access, d), d)
  {
    SkippedAgrees(src, id, d, e);
    var r := Skipped(src, id, d);
    if IsComposite(src[r]) {
      WalkEndsMore(src, Node(StepType(src, id, access, d), Shallow), d, e);
      IdInRange(src, r, MemberType(access));
    } else if Kind(src[r]) == BTF_KIND_ARRAY {
      ElementPassed(src, r, d);
    }
  }

  // ... nor does a whole one.
  lemma {:induction false} AccessAgrees(src: TypeTable, id: nat, accesses: seq<nat>, d: nat, e: nat)
    requires id < |src| && WalkPassed(src, id, d) && AccessFits(src, id, accesses, d) && d <= e
    ensures AccessFits(src, id, accesses, e)
    ensures AccessWorks(src, id, accesses, d) <==> AccessWorks(src, id, accesses, e)
    ensures AccessWorks(src, id, accesses, d) ==>
              forall mk :: AccessMark(src, id, accesses, d, mk) <==> AccessMark(src, id, accesses, e, mk)
    decreases |accesses|
  {
    if accesses == [] {
    } else {
      StepAgrees(src, id, accesses[0], d, e);
      if StepWorks(src, id, accesses[0], d) {
        AccessAgrees(src, StepType(src, id, accesses[0], d), accesses[1..], d, e);
      }
    }
  }

  /** A relocation whose recursions end within one bound is recorded in the same way under any larger
      one: it succeeds under both or neither, and then asks for the same marks. */
  lemma ReloAgrees(src: TypeTable, res: CoreSpec, d: nat, e: nat)
    requires ReloFits(src, res, d) && d <= e
    ensures ReloFits(src, res, e)
    ensures ReloWorks(src, res, d) <==> ReloWorks(src, res, e)
    ensures ReloWorks(src, res, d) ==> forall mk :: ReloMark(src, res, d, mk) <==> ReloMark(src, res, e, mk)
  {
    match res.kind
    case TypeIdLocal =>
    case TypeIdTarget | TypeExists | TypeSize => WalkEndsMore(src, Node(res.rootTypeId, Deep), d, e);
    case TypeMatches => WalkEndsMore(src, Node(res.rootTypeId, Front), d, e);
    case EnumvalExists | EnumvalValue => WalkEndsMore(src, Node(res.rootTypeId, Shallow), d, e);
    case _ =>
      WalkEndsMore(src, Node(res.rootTypeId, Shallow), d, e);
      if AllSupported(src, Node(res.rootTypeId, Shallow)) {
        AccessAgrees(src, res.rootTypeId, Tail(res.rawSpec), d, e);
      }
  }

  /** So what the minimiser does with its relocations is the same under any two bounds that are large
      enough. */
  lemma BoundDoesNotMatter(src: TypeTable, relos: seq<CoreSpec>, d: nat, e: nat)
    requires forall r :: r in relos ==> ReloFits(src, r, d) && ReloFits(src, r, e)
    ensures AllWork(src, relos, d) <==> AllWork(src, relos, e)
    ensures AllWork(src, relos, d) ==>
              forall mk :: AnyReloMark(src, relos, d, mk) <==> AnyReloMark(src, relos, e, mk)
  {
    forall r | r in relos
      ensures ReloWorks(src, r, d) <==> ReloWorks(src, r, e)
      ensures ReloWorks(src, r, d) ==> forall mk :: ReloMark(src, r, d, mk) <==> ReloMark(src, r, e, mk)
    {
      if d <= e {
        ReloAgrees(src, r, d, e);
      } else {
        ReloAgrees(src, r, e, d);
      }
    }
  }
}
