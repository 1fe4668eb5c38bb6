/** What relocations ask for.  An access string goes through types and steps on members, position by
    position; the other kinds differ in what they need behind the root type.  Records are read by word
    and kinds by number, as the BTF format lays them out. */
module BtfAccess {
  import opened BtfFormat
  import opened EarlyReturn
  import opened Reachability
  import opened BtfGraph
  import opened BtfMark
  import opened BtfGen
  import opened BtfBound

  // typedef, volatile, const, restrict and type tag
  predicate IsModifier(t: Record)
    requires |t| >= 3
  {
    t[1] / 0x100_0000 % 32 in {8, 9, 10, 11, 18}
  }

  predicate IsStruct(t: Record)
    requires |t| >= 3
  {
    t[1] / 0x100_0000 % 32 in {4, 5}
  }

  // After `n` modifiers and typedefs, type `a` comes down to type `s`.
  ghost predicate StandsFor(src: TypeTable, a: nat, s: nat, n: nat)
    decreases n
  {
    && a < |src| && |src[a]| >= 3
    && if n == 0 then a == s && !IsModifier(src[a]) else IsModifier(src[a]) && StandsFor(src, src[a][2], s, n - 1)
  }

  ghost predicate ComesDownTo(src: TypeTable, a: nat, s: nat) {
    exists n: nat :: StandsFor(src, a, s, n)
  }

  // From type `a`, which comes down to `s`, the access steps to type `b`: that of the member, or of
  // the elements of an array.
  ghost predicate StepsTo(src: TypeTable, a: nat, s: nat, access: nat, b: nat) {
    && ComesDownTo(src, a, s) && s < |src| && |src[s]| >= 3
    && if IsStruct(src[s]) then access < src[s][1] % 0x1_0000 && 4 + 3 * access < |src[s]| && b == src[s][4 + 3 * access]
       else src[s][1] / 0x100_0000 % 32 == 3 && |src[s]| >= 6 && b == src[s][3]
  }

  /** `types[j]` is the type that position `j` of the string has led to, and `down[j]` what the type
      before it comes down to.  Position 0 leads nowhere yet. */
  ghost predicate IsPath(src: TypeTable, raw: seq<nat>, types: seq<nat>, down: seq<nat>) {
    && |raw| == |types| == |down| >= 1
    && forall i, j {:trigger types[i], types[j]} :: 0 <= i < j == i + 1 < |raw| ==>
         StepsTo(src, types[i], down[j], raw[j], types[j])
  }

  // At some position the access is to this member of this struct.
  ghost predicate Accesses(src: TypeTable, raw: seq<nat>, down: seq<nat>, id: nat, k: nat)
    requires |raw| == |down|
  {
    exists j :: 1 <= j < |raw| && down[j] == id && raw[j] == k && id < |src| && |src[id]| >= 3 && IsStruct(src[id])
  }

  // At some position, or at the beginning, the walk from the type there makes the mark.
  ghost predicate MarksFrom(src: TypeTable, types: seq<nat>, mk: Mark) {
    exists j :: 0 <= j < |types| && ReachesMark(src, Node(types[j], Shallow), mk)
  }

  // ---------- One step ----------

  lemma ModifierKinds(t: Record)
    requires |t| >= 3
    ensures IsModifier(t) <==> IsModOrTypedef(t)
    ensures IsStruct(t) <==> IsComposite(t)
  {
  }

  lemma {:induction false} SkippedComesDown(src: TypeTable, id: nat, d: nat)
    requires id < |src| && WalkPassed(src, id, d)
    ensures forall s :: ComesDownTo(src, id, s) <==> s == Skipped(src, id, d)
    decreases d
  {
    assert ValidRecord(src[id], |src|);
    ModifierKinds(src[id]);
    if IsModOrTypedef(src[id]) {
      TargetPassed(src, id, d);
      var r := src[id][2];
      SkippedComesDown(src, r, d - 1);
      forall s
        ensures ComesDownTo(src, id, s) <==> ComesDownTo(src, r, s)
      {
        if n: nat :| StandsFor(src, id, s, n) {
          assert StandsFor(src, r, s, n - 1);
        }
        if n: nat :| StandsFor(src, r, s, n) {
          assert StandsFor(src, id, s, n + 1);
        }
      }
    } else {
      assert StandsFor(src, id, id, 0);
      forall s | ComesDownTo(src, id, s)
        ensures s == id
      {
        var n: nat :| StandsFor(src, id, s, n);
      }
    }
  }

  lemma StepByWords(src: TypeTable, a: nat, s: nat, access: nat, b: nat, d: nat)
    requires a < |src| && WalkPassed(src, a, d) && StepFits(src, a, access, d)
    ensures StepsTo(src, a, s, access, b) <==>
            Stepped(src, a, access, d) && s == Skipped(src, a, d) && b == StepType(src, a, access, d)
  {
    SkippedComesDown(src, a, d);
    SkippedAgrees(src, a, d, d);
    var r := Skipped(src, a, d);
    assert ValidRecord(src[r], |src|);
    ModifierKinds(src[r]);
    assert MemberType(access) == 4 + 3 * access;
  }

  // ---------- Whole strings ----------

  // The walks from all types on the path meet only kinds that are handled.
  ghost predicate AllPass(src: TypeTable, types: seq<nat>) {
    forall j :: 0 <= j < |types| ==> AllSupported(src, Node(types[j], Shallow))
  }

  // The first step of a path, and the path from there.
  lemma PathTail(src: TypeTable, raw: seq<nat>, types: seq<nat>, down: seq<nat>, d: nat)
    requires IsPath(src, raw, types, down) && |raw| > 1 && types[0] < |src| && WalkPassed(src, types[0], d)
    requires AccessFits(src, types[0], raw[1..], d)
    ensures StepFits(src, types[0], raw[1], d) && Stepped(src, types[0], raw[1], d)
    ensures down[1] == Skipped(src, types[0], d) && types[1] == StepType(src, types[0], raw[1], d)
    ensures IsPath(src, raw[1..], types[1..], down[1..])
    ensures StepWorks(src, types[0], raw[1], d) <==> AllSupported(src, Node(types[1], Shallow))
    ensures StepWorks(src, types[0], raw[1], d) ==>
              types[1] < |src| && WalkPassed(src, types[1], d) && AccessFits(src, types[1], raw[1..][1..], d)
  {
    assert StepsTo(src, types[0], down[1], raw[1], types[1]);
    StepByWords(src, types[0], down[1], raw[1], types[1], d);
    SkippedAgrees(src, types[0], d, d);
    if !IsComposite(src[down[1]]) {
      ElementPassed(src, down[1], d);
    }
    StepAgrees(src, types[0], raw[1], d, d);
  }

  lemma {:induction false} WorksByPosition(src: TypeTable, raw: seq<nat>, types: seq<nat>, down: seq<nat>, d: nat)
    requires IsPath(src, raw, types, down) && types[0] < |src| && WalkPassed(src, types[0], d)
    requires AccessFits(src, types[0], raw[1..], d)
    ensures AccessWorks(src, types[0], raw[1..], d) <==> AllPass(src, types)
    decreases |raw|
  {
    if |raw| > 1 {
      PathTail(src, raw, types, down, d);
      if StepWorks(src, types[0], raw[1], d) {
        WorksByPosition(src, raw[1..], types[1..], down[1..], d);
        assert forall j :: 1 <= j < |types| ==> types[j] == types[1..][j - 1];
        assert AllPass(src, types) <==> AllPass(src, types[1..]) by {
          if AllPass(src, types[1..]) {
            forall j | 0 <= j < |types|
              ensures AllSupported(src, Node(types[j], Shallow))
            {
              assert j > 0 ==> AllSupported(src, Node(types[1..][j - 1], Shallow));
            }
          }
        }
      }
    }
  }

  lemma {:induction false} MembersByPosition(src: TypeTable, raw: seq<nat>, types: seq<nat>, down: seq<nat>, d: nat, id: nat, k: nat)
    requires IsPath(src, raw, types, down) && types[0] < |src| && WalkPassed(src, types[0], d)
    requires AccessFits(src, types[0], raw[1..], d) && AccessWorks(src, types[0], raw[1..], d)
    ensures AccessMark(src, types[0], raw[1..], d, MemberMark(id, k)) <==> Accesses(src, raw, down, id, k)
    decreases |raw|
  {
    if |raw| > 1 {
      PathTail(src, raw, types, down, d);
      MembersByPosition(src, raw[1..], types[1..], down[1..], d, id, k);
      ShallowMarksNoMember(src, Node(types[1], Shallow), id, k);
      AccessesMore(src, raw, down, id, k);
      assert ValidRecord(src[down[1]], |src|);
      ModifierKinds(src[down[1]]);
    }
  }

  lemma AccessesMore(src: TypeTable, raw: seq<nat>, down: seq<nat>, id: nat, k: nat)
    requires |raw| == |down| > 1
    ensures Accesses(src, raw, down, id, k) <==>
            Accesses(src, raw[1..], down[1..], id, k)
            || (down[1] == id && raw[1] == k && id < |src| && |src[id]| >= 3 && IsStruct(src[id]))
  {
    if j :| 1 <= j < |raw| - 1 && down[1..][j] == id && raw[1..][j] == k {
      assert down[j + 1] == id && raw[j + 1] == k;
    }
    if j :| 1 <= j < |raw| && down[j] == id && raw[j] == k {
      assert j > 1 ==> down[1..][j - 1] == id && raw[1..][j - 1] == k;
    }
  }

  // Only the matching walk marks members by itself.
  lemma ShallowMarksNoMember(src: TypeTable, x: Node, id: nat, k: nat)
    requires x.mode.Shallow?
    ensures !ReachesMark(src, x, MemberMark(id, k))
  {
    if y :| Reaches(Calls(src), x, y) && Gives(src, y, MemberMark(id, k)) {
      var n: nat :| ReachesIn(Calls(src), x, y, n);
      ReachesInKeeps(Calls(src), (z: Node) => z.mode.Shallow?, x, y, n);
    }
  }

  lemma {:induction false} TypesByPosition(src: TypeTable, raw: seq<nat>, types: seq<nat>, down: seq<nat>, d: nat, i: nat)
    requires IsPath(src, raw, types, down) && types[0] < |src| && WalkPassed(src, types[0], d)
    requires AccessFits(src, types[0], raw[1..], d) && AccessWorks(src, types[0], raw[1..], d)
    ensures ReachesMark(src, Node(types[0], Shallow), TypeMark(i)) || AccessMark(src, types[0], raw[1..], d, TypeMark(i)) <==>
            MarksFrom(src, types, TypeMark(i))
    decreases |raw|
  {
    var mk := TypeMark(i);
    if |raw| == 1 {
      assert types == [types[0]];
    } else {
      PathTail(src, raw, types, down, d);
      TypesByPosition(src, raw[1..], types[1..], down[1..], d, i);
      MarksFromMore(src, types, mk);
      if !IsComposite(src[down[1]]) {
        ElementReached(src, types[0], down[1], mk, d);
      }
    }
  }

  lemma MarksFromMore(src: TypeTable, types: seq<nat>, mk: Mark)
    requires |types| > 0
    ensures MarksFrom(src, types, mk) <==> ReachesMark(src, Node(types[0], Shallow), mk) || MarksFrom(src, types[1..], mk)
  {
    if j :| 0 <= j < |types[1..]| && ReachesMark(src, Node(types[1..][j], Shallow), mk) {
      assert types[j + 1] == types[1..][j];
    }
    if j :| 0 <= j < |types| && ReachesMark(src, Node(types[j], Shallow), mk) {
      assert j > 0 ==> types[1..][j - 1] == types[j];
    }
  }

  // The elements of an array have been reached with the array.
  lemma ElementReached(src: TypeTable, a: nat, s: nat, mk: Mark, d: nat)
    requires a < |src| && WalkPassed(src, a, d) && s == Skipped(src, a, d) < |src| && Kind(src[s]) == BTF_KIND_ARRAY
    ensures |src[s]| == 6 && (ReachesMark(src, Node(src[s][3], Shallow), mk) ==> ReachesMark(src, Node(a, Shallow), mk))
  {
    SkippedReached(src, a, d);
    SkippedAgrees(src, a, d, d);
    NextArray(src, Node(s, Shallow));
    var c := Next(src, Node(s, Shallow))[0];
    assert c in Calls(src)(Node(s, Shallow));
    if y :| Reaches(Calls(src), c, y) && Gives(src, y, mk) {
      ReachesStep(Calls(src), Node(s, Shallow), y);
      ReachesTrans(Calls(src), Node(a, Shallow), Node(s, Shallow), y);
    }
  }

  lemma {:induction false} SkippedReached(src: TypeTable, a: nat, d: nat)
    requires a < |src| && WalkPassed(src, a, d)
    ensures Reaches(Calls(src), Node(a, Shallow), Node(Skipped(src, a, d), Shallow))
    decreases d
  {
    var x := Node(a, Shallow);
    assert ValidRecord(src[a], |src|);
    ReachesStep(Calls(src), x, x);
    if IsModOrTypedef(src[a]) {
      TargetPassed(src, a, d);
      ModStep(src, a, a);
      var c := src[a][SIZE_OR_TYPE];
      SkippedReached(src, c, d - 1);
      ReachesTrans(Calls(src), x, Node(c, Shallow), Node(Skipped(src, c, d - 1), Shallow));
    }
  }

  /** Every position of the string finds a type when the relocation is recorded. */
  lemma {:induction false} FindPath(src: TypeTable, raw: seq<nat>, id: nat, d: nat) returns (types: seq<nat>, down: seq<nat>)
    requires |raw| >= 1 && id < |src| && WalkPassed(src, id, d)
    requires AccessFits(src, id, raw[1..], d) && AccessWorks(src, id, raw[1..], d)
    ensures IsPath(src, raw, types, down) && types[0] == id
    decreases |raw|
  {
    if |raw| == 1 {
      types, down := [id], [0];
    } else {
      var s, b := Skipped(src, id, d), StepType(src, id, raw[1], d);
      StepAgrees(src, id, raw[1], d, d);
      StepByWords(src, id, s, raw[1], b, d);
      assert raw[1..][1..] == raw[2..];
      types, down := FindPath(src, raw[1..], b, d);
      types, down := [id] + types, [0, s] + down[1..];
    }
  }

  // ---------- Field relocations ----------

  /** A field relocation is recorded exactly when the walks from all types on the path of its access
      string pass.  It then marks the members that the positions of the string access, these and no
      others, and the types reached from the types on the path. */
  lemma FieldReloByPosition(src: TypeTable, spec: CoreSpec, d: nat, types: seq<nat>, down: seq<nat>)
    requires FieldReloFits(src, spec, d)
    requires IsPath(src, spec.rawSpec, types, down) && types[0] == spec.rootTypeId
    ensures FieldReloWorks(src, spec, d) <==> AllPass(src, types)
    ensures FieldReloWorks(src, spec, d) ==>
              forall id, k :: FieldReloMark(src, spec, d, MemberMark(id, k)) <==> Accesses(src, spec.rawSpec, down, id, k)
    ensures FieldReloWorks(src, spec, d) ==>
              forall i :: FieldReloMark(src, spec, d, TypeMark(i)) <==> MarksFrom(src, types, TypeMark(i))
  {
    var raw := spec.rawSpec;
    if AllSupported(src, Node(types[0], Shallow)) {
      assert Tail(raw) == raw[1..];
      WorksByPosition(src, raw, types, down, d);
      if FieldReloWorks(src, spec, d) {
        forall id, k
          ensures FieldReloMark(src, spec, d, MemberMark(id, k)) <==> Accesses(src, raw, down, id, k)
        {
          MembersByPosition(src, raw, types, down, d, id, k);
          ShallowMarksNoMember(src, Node(types[0], Shallow), id, k);
        }
        forall i
          ensures FieldReloMark(src, spec, d, TypeMark(i)) <==> MarksFrom(src, types, TypeMark(i))
        {
          TypesByPosition(src, raw, types, down, d, i);
        }
      }
    }
  }

  /** There is such a path whenever the relocation is recorded. */
  lemma FieldReloHasPath(src: TypeTable, spec: CoreSpec, d: nat) returns (types: seq<nat>, down: seq<nat>)
    requires FieldReloFits(src, spec, d) && FieldReloWorks(src, spec, d) && spec.rawSpec != []
    ensures IsPath(src, spec.rawSpec, types, down) && types[0] == spec.rootTypeId
  {
    assert Tail(spec.rawSpec) == spec.rawSpec[1..];
    types, down := FindPath(src, spec.rawSpec, spec.rootTypeId, d);
  }

  // ---------- The other kinds ----------

  lemma RootIsMarked(src: TypeTable, id: nat, mode: Mode)
    requires 0 < id < |src|
    ensures ReachesMark(src, Node(id, mode), TypeMark(id))
  {
    ReachesStep(Calls(src), Node(id, mode), Node(id, mode));
    MarkedIffReached(src, Node(id, mode), id, 0);
  }

  // The one next node of a type is marked with it.
  lemma NextIsMarkedToo(src: TypeTable, x: Node, c: Node)
    requires 0 < c.id < |src| && c in Next(src, x)
    ensures ReachesMark(src, x, TypeMark(c.id))
  {
    assert c in Calls(src)(x);
    ReachesStep(Calls(src), c, c);
    ReachesStep(Calls(src), x, c);
    assert Reaches(Calls(src), x, Node(c.id, c.mode));
    MarkedIffReached(src, x, c.id, 0);
  }

  /** By the kind of the relocation, for a root type that is not void: a local type id needs nothing, all
      others the root.  What a pointer (2) points to is needed to identify, size or match the type, not
      for an enumerator; the members of a struct are needed to match it. */
  lemma ReloNeeds(src: TypeTable, res: CoreSpec, d: nat, k: nat)
    requires ReloFits(src, res, d) && 0 < res.rootTypeId
    ensures res.kind.TypeIdLocal? ==> forall mk :: !ReloMark(src, res, d, mk)
    ensures !res.kind.TypeIdLocal? ==> ReloMark(src, res, d, TypeMark(res.rootTypeId))
    ensures var t := src[res.rootTypeId];
            t[1] / 0x100_0000 % 32 == 2 && 0 < t[2] && t[2] != res.rootTypeId ==>
              && (res.kind in {TypeIdTarget, TypeExists, TypeSize, TypeMatches} ==> ReloMark(src, res, d, TypeMark(t[2])))
              && (res.kind in {EnumvalExists, EnumvalValue} ==> !ReloMark(src, res, d, TypeMark(t[2])))
    ensures var t := src[res.rootTypeId];
            IsStruct(t) && k < t[1] % 0x1_0000 && res.kind.TypeMatches? ==> ReloMark(src, res, d, MemberMark(res.rootTypeId, k))
  {
    var id := res.rootTypeId;
    var t := src[id];
    assert ValidRecord(t, |src|);
    RootIsMarked(src, id, Shallow);
    RootIsMarked(src, id, Deep);
    RootIsMarked(src, id, Front);
    ModifierKinds(t);
    if Kind(t) == BTF_KIND_PTR && 0 < t[2] && t[2] != id {
      IdInRange(src, id, 2);
      NextIsMarkedToo(src, Node(id, Deep), Node(t[2], Deep));
      NextIsMarkedToo(src, Node(id, Front), Node(t[2], Behind));
      PointerIsShallow(src, id, t[2]);
    }
    if IsComposite(t) && k < Vlen(t) {
      ReachesStep(Calls(src), Node(id, Front), Node(id, Front));
      MarkedIffReached(src, Node(id, Front), id, k);
    }
  }

  lemma PointerIsShallow(src: TypeTable, id: nat, target: nat)
    requires 0 < id < |src| && Kind(src[id]) == BTF_KIND_PTR && target != id
    ensures !ReachesMark(src, Node(id, Shallow), TypeMark(target))
  {
    assert Next(src, Node(id, Shallow)) == [];
    ReachesMarkStep(src, Node(id, Shallow), TypeMark(target));
  }

  /** A first access to the first member of a list node marks that member. */
  lemma FirstMemberIsMarked(d: nat)
    requires d >= 2
    ensures var spec := CoreSpec(FieldByteOffset, 1, [0, 0]);
            && FieldReloFits(LIST_NODE, spec, d) && FieldReloWorks(LIST_NODE, spec, d)
            && FieldReloMark(LIST_NODE, spec, d, MemberMark(1, 0))
  {
    var src: TypeTable, spec := LIST_NODE, CoreSpec(FieldByteOffset, 1, [0, 0]);
    var next, handled := Calls(src), Handles(src);
    assert next(Node(1, Shallow)) == [] && next(Node(2, Shallow)) == [];
    AllHandledStep(next, handled, Node(1, Shallow));
    AllHandledStep(next, handled, Node(2, Shallow));
    assert WalkEnds(src, Node(1, Shallow), d) && WalkEnds(src, Node(2, Shallow), d);
    assert Tail(spec.rawSpec) == [0] && [0][1..] == [];
  }
}
