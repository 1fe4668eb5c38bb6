/** Recording relocations (lib/bpftool/src/gen.c, btfgen_mark_type to btfgen_record_reloc). */
module BtfGen {
  import opened BtfFormat
  import opened EarlyReturn
  import opened Reachability
  import opened BtfGraph
  import opened BtfMark

  datatype ReloKind =
    | FieldByteOffset | FieldByteSize | FieldExists | FieldSigned | FieldLshiftU64 | FieldRshiftU64
    | TypeIdLocal | TypeIdTarget | TypeExists | TypeSize | TypeMatches
    | EnumvalExists | EnumvalValue

  // The target of a relocation: a type and, for fields, the access string down to the field.
  datatype CoreSpec = CoreSpec(kind: ReloKind, rootTypeId: nat, rawSpec: seq<nat>)

  function ShallowOrDeep(follow: bool): Mode { if follow then Deep else Shallow }

  function FrontOrBehind(behindPtr: bool): Mode { if behindPtr then Behind else Front }

  class BtfgenInfo {
    const srcBtf: TypeTable
    var markedBtf: seq<Record>

    constructor (src: TypeTable)
      ensures srcBtf == src && Valid() && Closed(srcBtf, markedBtf)
      ensures forall mk :: !HasMark(srcBtf, markedBtf, mk)
    {
      srcBtf := src;
      markedBtf := src;
      new;
      FreshCloneUnmarked(src);
    }

    ghost predicate Valid()
      reads this
    {
      IsClone(srcBtf, markedBtf)
    }

    // Overwrites the name of a type.
    method MarkTypeName(id: nat)
      requires Valid() && 0 < id < |srcBtf|
      modifies `markedBtf
      ensures Valid()
      ensures forall mk :: HasMark(srcBtf, markedBtf, mk) <==> HasMark(srcBtf, old(markedBtf), mk) || mk == TypeMark(id)
    {
      MarkOneWord(srcBtf, markedBtf, TypeMark(id), NAME);
      markedBtf := markedBtf[id := Overwrite(markedBtf[id], NAME, MARKED)];
    }

    method MarkMember(id: nat, idx: nat)
      requires Valid() && InTable(srcBtf, MemberMark(id, idx))
      modifies `markedBtf
      ensures Valid()
      ensures forall mk :: HasMark(srcBtf, markedBtf, mk) <==>
                           HasMark(srcBtf, old(markedBtf), mk) || mk == MemberMark(id, idx)
    {
      MarkOneWord(srcBtf, markedBtf, MemberMark(id, idx), MemberName(idx));
      markedBtf := markedBtf[id := Overwrite(markedBtf[id], MemberName(idx), MARKED)];
    }

    /** Visits the `j`-th of the nodes to visit: the call that marks type `id`. */
    method Descend(id: nat, follow: bool, ghost mode: Mode, ghost e: nat, ghost nodes: seq<Node>, ghost j: nat,
            ghost own: set<Mark>, ghost was: seq<Record>)
      returns (ok: bool)
      requires Valid() && IsClone(srcBtf, was) && CanVisit(srcBtf, nodes, e) && mode == ShallowOrDeep(follow)
      requires j < |nodes| && nodes[j] == Node(id, mode) && FirstPass(srcBtf, nodes, j, e)
      requires Added(srcBtf, was, markedBtf, own, nodes[..j])
      modifies `markedBtf
      ensures Valid()
      ensures ok <==> FirstPass(srcBtf, nodes, j + 1, e)
      ensures !ok ==> !FirstPass(srcBtf, nodes, |nodes|, e)
      ensures ok ==> Added(srcBtf, was, markedBtf, own, nodes[..j + 1])
      decreases e, 5
    {
      ghost var before := markedBtf;
      OneMorePasses(srcBtf, nodes, e, j);
      ok := MarkType(id, follow, e);
      if ok {
        AddedThenVisited(srcBtf, was, before, markedBtf, own, nodes[..j], nodes[j]);
        assert nodes[..j] + [nodes[j]] == nodes[..j + 1];
      }
    }

    // Visits the last of the nodes.
    method MarkLast(id: nat, follow: bool, ghost mode: Mode, ghost e: nat, ghost nodes: seq<Node>, ghost j: nat,
            ghost own: set<Mark>, ghost was: seq<Record>)
      returns (ok: bool)
      requires Valid() && IsClone(srcBtf, was) && CanVisit(srcBtf, nodes, e) && mode == ShallowOrDeep(follow)
      requires j + 1 == |nodes| && nodes[j] == Node(id, mode) && FirstPass(srcBtf, nodes, j, e)
      requires Added(srcBtf, was, markedBtf, own, nodes[..j])
      modifies `markedBtf
      ensures Valid()
      ensures ok <==> FirstPass(srcBtf, nodes, |nodes|, e)
      ensures ok ==> Added(srcBtf, was, markedBtf, own, nodes)
      decreases e, 6
    {
      ok := Descend(id, follow, mode, e, nodes, j, own, was);
      if ok {
        AddedToEnd(srcBtf, was, markedBtf, own, nodes, j + 1);
      }
    }

    // A prototype: its return type, then its parameters.
    method MarkProto(typeId: nat, follow: bool, ghost mode: Mode, ghost e: nat, ghost nodes: seq<Node>, ghost was: seq<Record>)
      returns (ok: bool)
      requires Valid() && IsClone(srcBtf, was) && CanVisit(srcBtf, nodes, e) && mode == ShallowOrDeep(follow)
      requires 0 < typeId < |srcBtf| && IsProto(srcBtf[typeId], nodes, mode)
      requires Added(srcBtf, was, markedBtf, {TypeMark(typeId)}, [])
      modifies `markedBtf
      ensures Valid()
      ensures ok <==> FirstPass(srcBtf, nodes, |nodes|, e)
      ensures ok ==> Added(srcBtf, was, markedBtf, {TypeMark(typeId)}, nodes)
      decreases e, 7
    {
      assert nodes[..0] == [];
      ok := Descend(srcBtf[typeId][SIZE_OR_TYPE], follow, mode, e, nodes, 0, {TypeMark(typeId)}, was);
      if ok {
        ok := MarkParams(typeId, follow, mode, e, nodes, was);
      }
    }

    method MarkParams(typeId: nat, follow: bool, ghost mode: Mode, ghost e: nat, ghost nodes: seq<Node>, ghost was: seq<Record>)
      returns (ok: bool)
      requires Valid() && IsClone(srcBtf, was) && CanVisit(srcBtf, nodes, e) && mode == ShallowOrDeep(follow)
      requires 0 < typeId < |srcBtf| && IsProto(srcBtf[typeId], nodes, mode)
      requires FirstPass(srcBtf, nodes, 1, e)
      requires Added(srcBtf, was, markedBtf, {TypeMark(typeId)}, nodes[..1])
      modifies `markedBtf
      ensures Valid()
      ensures ok <==> FirstPass(srcBtf, nodes, |nodes|, e)
      ensures ok ==> Added(srcBtf, was, markedBtf, {TypeMark(typeId)}, nodes)
      decreases e, 6
    {
      var t := srcBtf[typeId];
      var i := 0;
      ghost var j := 1;
      ghost var own := {TypeMark(typeId)};
      while i < Vlen(t)
        invariant 0 <= i <= Vlen(t) && j == 1 + i
        invariant Valid() && Added(srcBtf, was, markedBtf, own, nodes[..j])
        invariant FirstPass(srcBtf, nodes, j, e)
      {
        ok := Descend(t[ParamType(i)], follow, mode, e, nodes, j, own, was);
        if !ok {
          return;
        }
        i, j := i + 1, j + 1;
      }
      AddedToEnd(srcBtf, was, markedBtf, own, nodes, j);
      ok := true;
    }

    // An array: its element type, then its index type.
    method MarkArray(typeId: nat, follow: bool, ghost mode: Mode, ghost e: nat, ghost nodes: seq<Node>, ghost was: seq<Record>)
      returns (ok: bool)
      requires Valid() && IsClone(srcBtf, was) && CanVisit(srcBtf, nodes, e) && mode == ShallowOrDeep(follow)
      requires 0 < typeId < |srcBtf| && IsArray(srcBtf[typeId], nodes, mode)
      requires Added(srcBtf, was, markedBtf, {TypeMark(typeId)}, [])
      modifies `markedBtf
      ensures Valid()
      ensures ok <==> FirstPass(srcBtf, nodes, |nodes|, e)
      ensures ok ==> Added(srcBtf, was, markedBtf, {TypeMark(typeId)}, nodes)
      decreases e, 7
    {
      var t := srcBtf[typeId];
      assert nodes[..0] == [];
      ghost var own := {TypeMark(typeId)};
      ok := Descend(t[3], follow, mode, e, nodes, 0, own, was);
      if !ok {
        return;
      }
      ok := MarkLast(t[4], follow, mode, e, nodes, 1, own, was);
    }

    // A qualifier, a typedef, or a pointer that is followed: the one type it refers to.
    method MarkTarget(typeId: nat, follow: bool, ghost mode: Mode, ghost e: nat, ghost nodes: seq<Node>, ghost was: seq<Record>)
      returns (ok: bool)
      requires Valid() && IsClone(srcBtf, was) && CanVisit(srcBtf, nodes, e) && mode == ShallowOrDeep(follow)
      requires 0 < typeId < |srcBtf| && |srcBtf[typeId]| >= 3
      requires nodes == [Node(srcBtf[typeId][SIZE_OR_TYPE], mode)]
      requires Added(srcBtf, was, markedBtf, {TypeMark(typeId)}, [])
      modifies `markedBtf
      ensures Valid()
      ensures ok <==> FirstPass(srcBtf, nodes, |nodes|, e)
      ensures ok ==> Added(srcBtf, was, markedBtf, {TypeMark(typeId)}, nodes)
      decreases e, 6
    {
      assert nodes[..0] == [] && nodes[..1] == nodes;
      ok := Descend(srcBtf[typeId][SIZE_OR_TYPE], follow, mode, e, nodes, 0, {TypeMark(typeId)}, was);
    }

    // The switch on the kind of a type whose own mark has been made.
    method MarkNeeded(typeId: nat, follow: bool, ghost mode: Mode, ghost e: nat, ghost nodes: seq<Node>, ghost was: seq<Record>)
      returns (ok: bool)
      requires Valid() && IsClone(srcBtf, was) && 0 < typeId < |srcBtf| && mode == ShallowOrDeep(follow)
      requires nodes == Next(srcBtf, Node(typeId, mode))
      requires NodeSupported(srcBtf, Node(typeId, mode)) ==> CanVisit(srcBtf, nodes, e)
      requires Added(srcBtf, was, markedBtf, {TypeMark(typeId)}, [])
      modifies `markedBtf
      ensures Valid()
      ensures ok <==> NodeSupported(srcBtf, Node(typeId, mode)) && FirstPass(srcBtf, nodes, |nodes|, e)
      ensures ok ==> Added(srcBtf, was, markedBtf, {TypeMark(typeId)}, nodes)
      decreases e, 8
    {
      var t := srcBtf[typeId];
      assert ValidRecord(t, |srcBtf|);
      var kind := Kind(t);
      if kind in {BTF_KIND_UNKN, BTF_KIND_INT, BTF_KIND_FLOAT, BTF_KIND_ENUM, BTF_KIND_ENUM64,
                  BTF_KIND_STRUCT, BTF_KIND_UNION} {
        ok := true;
      } else if kind == BTF_KIND_PTR {
        if follow {
          ok := MarkTarget(typeId, follow, mode, e, nodes, was);
        } else {
          ok := true;
        }
      } else if kind in {BTF_KIND_CONST, BTF_KIND_RESTRICT, BTF_KIND_VOLATILE, BTF_KIND_TYPEDEF} {
        ok := MarkTarget(typeId, follow, mode, e, nodes, was);
      } else if kind == BTF_KIND_ARRAY {
        NextArray(srcBtf, Node(typeId, mode));
        ok := MarkArray(typeId, follow, mode, e, nodes, was);
      } else if kind == BTF_KIND_FUNC_PROTO {
        NextProto(srcBtf, Node(typeId, mode));
        ok := MarkProto(typeId, follow, mode, e, nodes, was);
      } else {
        ok := false;
      }
    }

    /** btfgen_mark_type: succeeds exactly when every type that can be reached is of a kind it handles,
        and then has marked exactly these types. */
    method MarkType(typeId: nat, follow: bool, ghost d: nat) returns (ok: bool)
      requires Valid() && typeId < |srcBtf|
      requires WalkEnds(srcBtf, Node(typeId, ShallowOrDeep(follow)), d)
      modifies `markedBtf
      ensures Valid()
      ensures ok <==> AllSupported(srcBtf, Node(typeId, ShallowOrDeep(follow)))
      ensures ok ==> Visited(srcBtf, old(markedBtf), markedBtf, Node(typeId, ShallowOrDeep(follow)))
      decreases d, 4
    {
      ghost var x := Node(typeId, ShallowOrDeep(follow));
      ghost var was := markedBtf;
      PassesWhenNextDo(srcBtf, x, d);
      if typeId == 0 {
        AddedIsVisited(srcBtf, was, markedBtf, x);
        return true;
      }
      MarkTypeName(typeId);
      ok := MarkNeeded(typeId, follow, x.mode, d - 1, Next(srcBtf, x), was);
      if ok {
        AddedIsVisited(srcBtf, was, markedBtf, x);
      }
    }

    // ---------- btfgen_mark_type_match ----------

    /** The same on the matching walk. */
    method DescendMatch(id: nat, behindPtr: bool, ghost e: nat, ghost nodes: seq<Node>, ghost j: nat,
            ghost own: set<Mark>, ghost was: seq<Record>)
      returns (ok: bool)
      requires Valid() && IsClone(srcBtf, was) && CanVisit(srcBtf, nodes, e)
      requires j < |nodes| && nodes[j] == Node(id, FrontOrBehind(behindPtr)) && FirstPass(srcBtf, nodes, j, e)
      requires Added(srcBtf, was, markedBtf, own, nodes[..j])
      modifies `markedBtf
      ensures Valid()
      ensures ok <==> FirstPass(srcBtf, nodes, j + 1, e)
      ensures !ok ==> !FirstPass(srcBtf, nodes, |nodes|, e)
      ensures ok ==> Added(srcBtf, was, markedBtf, own, nodes[..j + 1])
      decreases e, 5
    {
      ghost var before := markedBtf;
      OneMorePasses(srcBtf, nodes, e, j);
      ok := MarkTypeMatch(id, behindPtr, e);
      if ok {
        AddedThenVisited(srcBtf, was, before, markedBtf, own, nodes[..j], nodes[j]);
        assert nodes[..j] + [nodes[j]] == nodes[..j + 1];
      }
    }

    // A struct or union that is not behind a pointer: each member and its type.
    method MatchMembers(typeId: nat, ghost e: nat, ghost nodes: seq<Node>, ghost was: seq<Record>) returns (ok: bool)
      requires Valid() && IsClone(srcBtf, was) && CanVisit(srcBtf, nodes, e)
      requires 0 < typeId < |srcBtf| && WellSized(srcBtf[typeId]) && IsComposite(srcBtf[typeId])
      requires nodes == MemberTypes(srcBtf[typeId], Front)
      requires Added(srcBtf, was, markedBtf, {TypeMark(typeId)}, [])
      modifies `markedBtf
      ensures Valid()
      ensures ok <==> FirstPass(srcBtf, nodes, |nodes|, e)
      ensures ok ==> Added(srcBtf, was, markedBtf, MarksUpTo(typeId, Vlen(srcBtf[typeId])), nodes)
      decreases e, 6
    {
      var t := srcBtf[typeId];
      var i := 0;
      assert nodes[..0] == [] && MarksUpTo(typeId, 0) == {TypeMark(typeId)};
      while i < Vlen(t)
        invariant 0 <= i <= Vlen(t)
        invariant Valid() && Added(srcBtf, was, markedBtf, MarksUpTo(typeId, i), nodes[..i])
        invariant FirstPass(srcBtf, nodes, i, e)
      {
        ghost var before := markedBtf;
        MarkMember(typeId, i);
        AddedMember(srcBtf, was, before, markedBtf, typeId, i, nodes[..i]);
        ok := DescendMatch(t[MemberType(i)], false, e, nodes, i, MarksUpTo(typeId, i + 1), was);
        if !ok {
          return;
        }
        i := i + 1;
      }
      AddedToEnd(srcBtf, was, markedBtf, MarksUpTo(typeId, i), nodes, i);
      ok := true;
    }

    // A prototype on the matching walk: what it takes and returns counts as in front of a pointer.
    method MatchProto(typeId: nat, ghost e: nat, ghost nodes: seq<Node>, ghost was: seq<Record>)
      returns (ok: bool)
      requires Valid() && IsClone(srcBtf, was) && CanVisit(srcBtf, nodes, e)
      requires 0 < typeId < |srcBtf| && IsProto(srcBtf[typeId], nodes, Front)
      requires Added(srcBtf, was, markedBtf, {TypeMark(typeId)}, [])
      modifies `markedBtf
      ensures Valid()
      ensures ok <==> FirstPass(srcBtf, nodes, |nodes|, e)
      ensures ok ==> Added(srcBtf, was, markedBtf, {TypeMark(typeId)}, nodes)
      decreases e, 7
    {
      assert nodes[..0] == [];
      ok := DescendMatch(srcBtf[typeId][SIZE_OR_TYPE], false, e, nodes, 0, {TypeMark(typeId)}, was);
      if ok {
        ok := MatchParams(typeId, e, nodes, was);
      }
    }

    method MatchParams(typeId: nat, ghost e: nat, ghost nodes: seq<Node>, ghost was: seq<Record>)
      returns (ok: bool)
      requires Valid() && IsClone(srcBtf, was) && CanVisit(srcBtf, nodes, e)
      requires 0 < typeId < |srcBtf| && IsProto(srcBtf[typeId], nodes, Front)
      requires FirstPass(srcBtf, nodes, 1, e)
      requires Added(srcBtf, was, markedBtf, {TypeMark(typeId)}, nodes[..1])
      modifies `markedBtf
      ensures Valid()
      ensures ok <==> FirstPass(srcBtf, nodes, |nodes|, e)
      ensures ok ==> Added(srcBtf, was, markedBtf, {TypeMark(typeId)}, nodes)
      decreases e, 6
    {
      var t := srcBtf[typeId];
      var i := 0;
      ghost var j := 1;
      ghost var own := {TypeMark(typeId)};
      while i < Vlen(t)
        invariant 0 <= i <= Vlen(t) && j == 1 + i
        invariant Valid() && Added(srcBtf, was, markedBtf, own, nodes[..j])
        invariant FirstPass(srcBtf, nodes, j, e)
      {
        ok := DescendMatch(t[ParamType(i)], false, e, nodes, j, own, was);
        if !ok {
          return;
        }
        i, j := i + 1, j + 1;
      }
      AddedToEnd(srcBtf, was, markedBtf, own, nodes, j);
      ok := true;
    }

    // An array: its element type, then its index type.
    method MatchArray(typeId: nat, ghost e: nat, ghost nodes: seq<Node>, ghost was: seq<Record>)
      returns (ok: bool)
      requires Valid() && IsClone(srcBtf, was) && CanVisit(srcBtf, nodes, e)
      requires 0 < typeId < |srcBtf| && IsArray(srcBtf[typeId], nodes, Front)
      requires Added(srcBtf, was, markedBtf, {TypeMark(typeId)}, [])
      modifies `markedBtf
      ensures Valid()
      ensures ok <==> FirstPass(srcBtf, nodes, |nodes|, e)
      ensures ok ==> Added(srcBtf, was, markedBtf, {TypeMark(typeId)}, nodes)
      decreases e, 6
    {
      var t := srcBtf[typeId];
      assert nodes[..0] == [];
      ok := DescendMatch(t[3], false, e, nodes, 0, {TypeMark(typeId)}, was);
      if ok {
        ok := DescendMatch(t[4], false, e, nodes, 1, {TypeMark(typeId)}, was);
        if ok {
          AddedToEnd(srcBtf, was, markedBtf, {TypeMark(typeId)}, nodes, 2);
        }
      }
    }

    // A qualifier, typedef or forward declaration keeps the flag; a pointer sets it.
    method MatchTarget(typeId: nat, behindPtr: bool, ghost e: nat, ghost nodes: seq<Node>, ghost was: seq<Record>)
      returns (ok: bool)
      requires Valid() && IsClone(srcBtf, was) && CanVisit(srcBtf, nodes, e)
      requires 0 < typeId < |srcBtf| && |srcBtf[typeId]| >= 3
      requires nodes == [Node(srcBtf[typeId][SIZE_OR_TYPE], FrontOrBehind(behindPtr || Kind(srcBtf[typeId]) == BTF_KIND_PTR))]
      requires Added(srcBtf, was, markedBtf, {TypeMark(typeId)}, [])
      modifies `markedBtf
      ensures Valid()
      ensures ok <==> FirstPass(srcBtf, nodes, |nodes|, e)
      ensures ok ==> Added(srcBtf, was, markedBtf, {TypeMark(typeId)}, nodes)
      decreases e, 6
    {
      assert nodes[..0] == [] && nodes[..1] == nodes;
      ok := DescendMatch(srcBtf[typeId][SIZE_OR_TYPE], behindPtr || Kind(srcBtf[typeId]) == BTF_KIND_PTR, e, nodes, 0,
                         {TypeMark(typeId)}, was);
    }

    // The switch on the kind of a type whose own mark has been made.
    method MatchNeeded(typeId: nat, behindPtr: bool, ghost mode: Mode, ghost e: nat, ghost nodes: seq<Node>, ghost was: seq<Record>)
      returns (ok: bool)
      requires Valid() && IsClone(srcBtf, was) && 0 < typeId < |srcBtf| && mode == FrontOrBehind(behindPtr)
      requires nodes == Next(srcBtf, Node(typeId, mode))
      requires NodeSupported(srcBtf, Node(typeId, mode)) ==> CanVisit(srcBtf, nodes, e)
      requires Added(srcBtf, was, markedBtf, {TypeMark(typeId)}, [])
      modifies `markedBtf
      ensures Valid()
      ensures ok <==> NodeSupported(srcBtf, Node(typeId, mode)) && FirstPass(srcBtf, nodes, |nodes|, e)
      ensures ok ==> Added(srcBtf, was, markedBtf, OwnMarks(srcBtf, Node(typeId, mode)), nodes)
      decreases e, 8
    {
      var t := srcBtf[typeId];
      assert ValidRecord(t, |srcBtf|);
      var kind := Kind(t);
      if kind in {BTF_KIND_UNKN, BTF_KIND_INT, BTF_KIND_FLOAT, BTF_KIND_ENUM, BTF_KIND_ENUM64} {
        ok := true;
      } else if kind in {BTF_KIND_STRUCT, BTF_KIND_UNION} {
        if behindPtr {
          ok := true;
        } else {
          ok := MatchMembers(typeId, e, nodes, was);
          assert MarksUpTo(typeId, Vlen(t)) == OwnMarks(srcBtf, Node(typeId, mode));
        }
      } else if kind in {BTF_KIND_CONST, BTF_KIND_FWD, BTF_KIND_RESTRICT, BTF_KIND_TYPEDEF, BTF_KIND_VOLATILE,
                         BTF_KIND_PTR} {
        ok := MatchTarget(typeId, behindPtr, e, nodes, was);
      } else if kind == BTF_KIND_ARRAY {
        NextArray(srcBtf, Node(typeId, mode));
        ok := MatchArray(typeId, e, nodes, was);
      } else if kind == BTF_KIND_FUNC_PROTO {
        NextProto(srcBtf, Node(typeId, mode));
        ok := MatchProto(typeId, e, nodes, was);
      } else {
        ok := false;
      }
    }

    /** btfgen_mark_type_match: the same for the matching walk, which also marks members. */
    method MarkTypeMatch(typeId: nat, behindPtr: bool, ghost d: nat) returns (ok: bool)
      requires Valid() && typeId < |srcBtf|
      requires WalkEnds(srcBtf, Node(typeId, FrontOrBehind(behindPtr)), d)
      modifies `markedBtf
      ensures Valid()
      ensures ok <==> AllSupported(srcBtf, Node(typeId, FrontOrBehind(behindPtr)))
      ensures ok ==> Visited(srcBtf, old(markedBtf), markedBtf, Node(typeId, FrontOrBehind(behindPtr)))
      decreases d, 4
    {
      ghost var x := Node(typeId, FrontOrBehind(behindPtr));
      ghost var was := markedBtf;
      PassesWhenNextDo(srcBtf, x, d);
      if typeId == 0 {
        AddedIsVisited(srcBtf, was, markedBtf, x);
        return true;
      }
      MarkTypeName(typeId);
      ok := MatchNeeded(typeId, behindPtr, x.mode, d - 1, Next(srcBtf, x), was);
      if ok {
        AddedIsVisited(srcBtf, was, markedBtf, x);
      }
    }

    // ---------- Relocations ----------

    // From a type to what its qualifiers and typedefs stand for.
    method SkipModsAndTypedefs(typeId: nat, ghost d: nat) returns (id: nat)
      requires Valid() && typeId < |srcBtf| && AllSupported(srcBtf, Node(typeId, Shallow))
      requires WalkEnds(srcBtf, Node(typeId, Shallow), d)
      ensures id < |srcBtf| && !IsModOrTypedef(srcBtf[id])
      ensures id == Skipped(srcBtf, typeId, d) && Reaches(Calls(srcBtf), Node(typeId, Shallow), Node(id, Shallow))
    {
      ghost var e: nat := d;
      id := typeId;
      EndsAndPasses(Calls(srcBtf), Handles(srcBtf), Node(typeId, Shallow), d);
      assert ValidRecord(srcBtf[id], |srcBtf|);
      ReachesStep(Calls(srcBtf), Node(typeId, Shallow), Node(typeId, Shallow));
      while IsModOrTypedef(srcBtf[id])
        invariant id < |srcBtf| && |srcBtf[id]| >= 3 && e <= d
        invariant Skipped(srcBtf, typeId, d) == Skipped(srcBtf, id, e)
        invariant Grounded(Calls(srcBtf), Node(id, Shallow), e)
        invariant Reaches(Calls(srcBtf), Node(typeId, Shallow), Node(id, Shallow))
        decreases e
      {
        ModStep(srcBtf, typeId, id);
        id := srcBtf[id][SIZE_OR_TYPE];
        e := e - 1;
        assert ValidRecord(srcBtf[id], |srcBtf|);
      }
    }

    /** One step down an access string: into a member, which is marked with its type, or into the
        elements of an array. */
    method StepInto(typeId: nat, access: nat, ghost d: nat) returns (ok: bool, next: nat)
      requires Valid() && Closed(srcBtf, markedBtf)
      requires typeId < |srcBtf| && StepFits(srcBtf, typeId, access, d)
      requires VoidOrMarked(srcBtf, markedBtf, typeId) && WalkPassed(srcBtf, typeId, d)
      modifies `markedBtf
      ensures Valid()
      ensures ok <==> StepWorks(srcBtf, typeId, access, d)
      ensures ok ==> Closed(srcBtf, markedBtf)
      ensures ok ==> Stepped(srcBtf, typeId, access, d) && next == StepType(srcBtf, typeId, access, d) < |srcBtf|
      ensures ok ==> VoidOrMarked(srcBtf, markedBtf, next) && WalkPassed(srcBtf, next, d)
      ensures ok ==> forall mk :: HasMark(srcBtf, markedBtf, mk) <==>
                       HasMark(srcBtf, old(markedBtf), mk) || StepMark(srcBtf, typeId, access, d, mk)
    {
      var id := SkipModsAndTypedefs(typeId, d);
      SkippedIsMarked(srcBtf, markedBtf, typeId, id, d);
      assert ValidRecord(srcBtf[id], |srcBtf|);
      var kind := Kind(srcBtf[id]);
      next := 0;
      if kind == BTF_KIND_STRUCT || kind == BTF_KIND_UNION {
        assert ValidRecord(srcBtf[0], |srcBtf|);
        ghost var m0 := markedBtf;
        MarkMember(id, access);
        ghost var m1 := markedBtf;
        next := srcBtf[id][MemberType(access)];
        ok := MarkType(next, false, d);
        if ok {
          MemberKeepsClosed(srcBtf, m0, m1, markedBtf, id, access);
          VisitedMarksRoot(srcBtf, m1, markedBtf, Node(next, Shallow));
        }
      } else if kind == BTF_KIND_ARRAY {
        ElementIsMarked(srcBtf, markedBtf, id, d);
        next := srcBtf[id][3];
        ok := true;
      } else {
        ok := false;
      }
    }

    /** btfgen_record_field_relo: marks the root type, then, down the access string, each member
        stepped through and its type. */
    method RecordFieldRelo(spec: CoreSpec, ghost d: nat) returns (ok: bool)
      requires Valid() && Closed(srcBtf, markedBtf) && FieldReloFits(srcBtf, spec, d)
      modifies `markedBtf
      ensures Valid()
      ensures ok <==> FieldReloWorks(srcBtf, spec, d)
      ensures ok ==> Closed(srcBtf, markedBtf)
      ensures ok ==> forall mk :: HasMark(srcBtf, markedBtf, mk) <==>
                       HasMark(srcBtf, old(markedBtf), mk) || FieldReloMark(srcBtf, spec, d, mk)
    {
      var typeId: nat := spec.rootTypeId;
      ghost var root := Node(typeId, Shallow);
      ok := MarkType(typeId, false, d);
      if !ok {
        return;
      }
      VisitKeepsClosed(srcBtf, old(markedBtf), markedBtf, root);
      VisitedMarksRoot(srcBtf, old(markedBtf), markedBtf, root);
      ghost var accesses := Tail(spec.rawSpec);
      var i := 1;
      while i < |spec.rawSpec|
        invariant ok && 1 <= i && (i <= |spec.rawSpec| || spec.rawSpec == [])
        invariant Valid() && Closed(srcBtf, markedBtf) && typeId < |srcBtf|
        invariant VoidOrMarked(srcBtf, markedBtf, typeId) && WalkPassed(srcBtf, typeId, d)
        invariant accesses == if i <= |spec.rawSpec| then spec.rawSpec[i..] else []
        invariant AccessFits(srcBtf, typeId, accesses, d)
        invariant FieldReloWorks(srcBtf, spec, d) <==> AccessWorks(srcBtf, typeId, accesses, d)
        invariant forall mk :: HasMark(srcBtf, old(markedBtf), mk) || FieldReloMark(srcBtf, spec, d, mk) <==>
                    HasMark(srcBtf, markedBtf, mk) || AccessMark(srcBtf, typeId, accesses, d, mk)
      {
        ok, typeId := StepInto(typeId, spec.rawSpec[i], d);
        if !ok {
          return;
        }
        accesses := accesses[1..];
        i := i + 1;
      }
    }

    /** btfgen_record_type_relo and btfgen_record_enumval_relo. */
    method RecordTypeRelo(spec: CoreSpec, follow: bool, ghost d: nat) returns (ok: bool)
      requires Valid() && Closed(srcBtf, markedBtf)
      requires spec.rootTypeId < |srcBtf| && WalkEnds(srcBtf, Node(spec.rootTypeId, ShallowOrDeep(follow)), d)
      modifies `markedBtf
      ensures Valid()
      ensures ok <==> AllSupported(srcBtf, Node(spec.rootTypeId, ShallowOrDeep(follow)))
      ensures ok ==> Closed(srcBtf, markedBtf)
      ensures ok ==> Visited(srcBtf, old(markedBtf), markedBtf, Node(spec.rootTypeId, ShallowOrDeep(follow)))
    {
      ok := MarkType(spec.rootTypeId, follow, d);
      if ok {
        VisitKeepsClosed(srcBtf, old(markedBtf), markedBtf, Node(spec.rootTypeId, ShallowOrDeep(follow)));
      }
    }

    method RecordTypeMatchRelo(spec: CoreSpec, ghost d: nat) returns (ok: bool)
      requires Valid() && Closed(srcBtf, markedBtf)
      requires spec.rootTypeId < |srcBtf| && WalkEnds(srcBtf, Node(spec.rootTypeId, Front), d)
      modifies `markedBtf
      ensures Valid()
      ensures ok <==> AllSupported(srcBtf, Node(spec.rootTypeId, Front))
      ensures ok ==> Closed(srcBtf, markedBtf)
      ensures ok ==> Visited(srcBtf, old(markedBtf), markedBtf, Node(spec.rootTypeId, Front))
    {
      ok := MarkTypeMatch(spec.rootTypeId, false, d);
      if ok {
        VisitKeepsClosed(srcBtf, old(markedBtf), markedBtf, Node(spec.rootTypeId, Front));
      }
    }

    /** btfgen_record_reloc: it succeeds exactly when the walks of the relocation do; a recorded
        relocation adds exactly its own marks and keeps the invariant. */
    method RecordReloc(res: CoreSpec, ghost d: nat) returns (ok: bool)
      requires Valid() && Closed(srcBtf, markedBtf)
      requires ReloFits(srcBtf, res, d)
      modifies `markedBtf
      ensures Valid()
      ensures ok <==> ReloWorks(srcBtf, res, d)
      ensures ok ==> Closed(srcBtf, markedBtf)
      ensures ok ==> forall mk :: HasMark(srcBtf, markedBtf, mk) <==>
                       HasMark(srcBtf, old(markedBtf), mk) || ReloMark(srcBtf, res, d, mk)
    {
      match res.kind {
        case FieldByteOffset | FieldByteSize | FieldExists | FieldSigned | FieldLshiftU64 | FieldRshiftU64 =>
          ok := RecordFieldRelo(res, d);
        case TypeIdLocal =>
          ok := true;
        case TypeIdTarget | TypeExists | TypeSize =>
          ok := RecordTypeRelo(res, true, d);
        case TypeMatches =>
          ok := RecordTypeMatchRelo(res, d);
        case EnumvalExists | EnumvalValue =>
          ok := RecordTypeRelo(res, false, d);
      }
    }

    // One round of the loop below.
    method RecordNext(relos: seq<CoreSpec>, i: nat, ghost was: seq<Record>, ghost d: nat) returns (ok: bool)
      requires Valid() && Closed(srcBtf, markedBtf) && IsClone(srcBtf, was)
      requires i < |relos| && ReloFits(srcBtf, relos[i], d)
      requires IsRecorded(srcBtf, was, markedBtf, relos[..i], d) && AllWork(srcBtf, relos[..i], d)
      modifies `markedBtf
      ensures Valid()
      ensures ok <==> AllWork(srcBtf, relos[..i + 1], d)
      ensures !ok ==> !AllWork(srcBtf, relos, d)
      ensures ok ==> Closed(srcBtf, markedBtf) && IsRecorded(srcBtf, was, markedBtf, relos[..i + 1], d)
    {
      ok := RecordReloc(relos[i], d);
      AllWorkMore(srcBtf, relos, i, d);
      if ok {
        RecordedMore(srcBtf, was, old(markedBtf), markedBtf, relos, i, d);
      }
    }

    /** The loop of btfgen_record_obj over an object's relocations, which stops at the first that
        fails: after any number of recorded relocations the marks are theirs and no others, and the
        invariant holds. */
    method RecordAll(relos: seq<CoreSpec>, ghost d: nat) returns (ok: bool)
      requires Valid() && Closed(srcBtf, markedBtf)
      requires forall r :: r in relos ==> ReloFits(srcBtf, r, d)
      modifies `markedBtf
      ensures Valid()
      ensures ok <==> AllWork(srcBtf, relos, d)
      ensures ok ==> Closed(srcBtf, markedBtf)
      ensures ok ==> forall mk :: HasMark(srcBtf, markedBtf, mk) <==>
                       HasMark(srcBtf, old(markedBtf), mk) || AnyReloMark(srcBtf, relos, d, mk)
    {
      var i := 0;
      while i < |relos|
        invariant 0 <= i <= |relos|
        invariant Valid() && Closed(srcBtf, markedBtf)
        invariant AllWork(srcBtf, relos[..i], d)
        invariant IsRecorded(srcBtf, old(markedBtf), markedBtf, relos[..i], d)
      {
        ok := RecordNext(relos, i, old(markedBtf), d);
        if !ok {
          return;
        }
        i := i + 1;
      }
      assert relos[..i] == relos;
      ok := true;
    }
  }

  // The nodes can be visited one after the other, until one of them fails ...
  ghost predicate CanVisit(src: TypeTable, nodes: seq<Node>, e: nat) {
    && (forall j {:trigger InGraph(src, nodes[j])} :: 0 <= j < |nodes| ==> InGraph(src, nodes[j]))
    && WalkAll(Calls(src), Handles(src), nodes, e) != OutOfDepth
  }

  // ... and none of the first `n` does.
  ghost predicate FirstPass(src: TypeTable, nodes: seq<Node>, n: nat, e: nat)
    requires n <= |nodes|
  {
    WalkAll(Calls(src), Handles(src), nodes[..n], e) == Passed
  }

  // The first `j` nodes having passed, the walk from the next one ends, and decides what comes out.
  lemma OneMorePasses(src: TypeTable, nodes: seq<Node>, e: nat, j: nat)
    requires CanVisit(src, nodes, e) && j < |nodes| && FirstPass(src, nodes, j, e)
    ensures InGraph(src, nodes[j]) && WalkEnds(src, nodes[j], e)
    ensures FirstPass(src, nodes, j + 1, e) <==> AllSupported(src, nodes[j])
    ensures !AllSupported(src, nodes[j]) ==> !FirstPass(src, nodes, |nodes|, e)
  {
    var next, handled := Calls(src), Handles(src);
    WalkAllAt(next, handled, nodes, e, j);
    WalkPasses(next, handled, nodes[j], e);
    assert nodes[..|nodes|] == nodes;
  }

  // A walk that ends passes exactly when its node does and all the next ones do.
  lemma PassesWhenNextDo(src: TypeTable, x: Node, d: nat)
    requires WalkEnds(src, x, d)
    ensures d > 0 && (NodeSupported(src, x) ==> CanVisit(src, Next(src, x), d - 1))
    ensures AllSupported(src, x) <==>
            NodeSupported(src, x) && FirstPass(src, Next(src, x), |Next(src, x)|, d - 1)
  {
    NextInGraph(src, x);
    assert Calls(src)(x) == Next(src, x) && Handles(src)(x) == NodeSupported(src, x);
    WalkPasses(Calls(src), Handles(src), x, d);
    assert Next(src, x)[..|Next(src, x)|] == Next(src, x);
  }

  // The marks of a struct and of its first `n` members.
  ghost function MarksUpTo(id: nat, n: nat): set<Mark> {
    {TypeMark(id)} + set k: nat | 0 <= k < n :: MemberMark(id, k)
  }

  lemma AddedMember(src: TypeTable, m: seq<Record>, m1: seq<Record>, m2: seq<Record>, id: nat, k: nat, nodes: seq<Node>)
    requires IsClone(src, m) && IsClone(src, m1) && IsClone(src, m2)
    requires Added(src, m, m1, MarksUpTo(id, k), nodes)
    requires forall mk :: HasMark(src, m2, mk) <==> HasMark(src, m1, mk) || mk == MemberMark(id, k)
    ensures Added(src, m, m2, MarksUpTo(id, k + 1), nodes)
  {
    assert MarksUpTo(id, k + 1) == MarksUpTo(id, k) + {MemberMark(id, k)};
  }

  lemma AddedToEnd(src: TypeTable, m: seq<Record>, m': seq<Record>, own: set<Mark>, nodes: seq<Node>, n: nat)
    requires IsClone(src, m) && IsClone(src, m') && n == |nodes| && Added(src, m, m', own, nodes[..n])
    ensures Added(src, m, m', own, nodes)
  {
    assert nodes[..n] == nodes;
  }

  // The record is a prototype, and these are the nodes to visit: what it returns, and its parameters.
  predicate IsProto(t: Record, nodes: seq<Node>, mode: Mode) {
    && WellSized(t) && Kind(t) == BTF_KIND_FUNC_PROTO
    && |nodes| == 1 + Vlen(t) && nodes[0] == Node(t[SIZE_OR_TYPE], mode)
    && forall j :: 1 <= j < |nodes| ==> nodes[j] == Node(t[ParamType(j - 1)], mode)
  }

  // The record is an array, and these are the nodes to visit: its element type and its index type.
  predicate IsArray(t: Record, nodes: seq<Node>, mode: Mode) {
    && WellSized(t) && Kind(t) == BTF_KIND_ARRAY
    && |nodes| == 2 && nodes[0] == Node(t[3], mode) && nodes[1] == Node(t[4], mode)
  }

  lemma NextArray(src: TypeTable, x: Node)
    requires 0 < x.id < |src| && Kind(src[x.id]) == BTF_KIND_ARRAY
    ensures IsArray(src[x.id], Next(src, x), Inner(x.mode))
  {
    assert ValidRecord(src[x.id], |src|);
  }

  lemma NextProto(src: TypeTable, x: Node)
    requires 0 < x.id < |src| && Kind(src[x.id]) == BTF_KIND_FUNC_PROTO
    ensures IsProto(src[x.id], Next(src, x), Inner(x.mode))
  {
    assert ValidRecord(src[x.id], |src|);
  }

  // ---------- Access strings ----------

  function Tail(s: seq<nat>): seq<nat> { if s == [] then [] else s[1..] }

  // What a type is once qualifiers and typedefs are skipped.
  function Skipped(src: TypeTable, id: nat, d: nat): nat
    decreases d
  {
    if d > 0 && id < |src| && |src[id]| >= 3 && IsModOrTypedef(src[id]) then Skipped(src, src[id][SIZE_OR_TYPE], d - 1)
    else id
  }

  // The walk from a type, following no pointers, has met nothing it cannot handle.
  ghost predicate WalkPassed(src: TypeTable, id: nat, d: nat) {
    WalkEnds(src, Node(id, Shallow), d) && AllSupported(src, Node(id, Shallow))
  }

  // One step of an access string stays inside the struct it steps into ...
  predicate StepInside(src: TypeTable, id: nat, access: nat, d: nat) {
    var r := Skipped(src, id, d);
    r < |src| && WellSized(src[r]) && (IsComposite(src[r]) ==> access < Vlen(src[r]))
  }

  // ... and the walk from the type of the member ends.
  ghost predicate StepFits(src: TypeTable, id: nat, access: nat, d: nat) {
    && StepInside(src, id, access, d)
    && (IsComposite(src[Skipped(src, id, d)]) ==> WalkEnds(src, Node(StepType(src, id, access, d), Shallow), d))
  }

  // There is something to step into ...
  predicate Stepped(src: TypeTable, id: nat, access: nat, d: nat) {
    var r := Skipped(src, id, d);
    StepInside(src, id, access, d) && (IsComposite(src[r]) || Kind(src[r]) == BTF_KIND_ARRAY)
  }

  // ... and this is its type.
  function StepType(src: TypeTable, id: nat, access: nat, d: nat): nat
    requires Stepped(src, id, access, d)
  {
    var t := src[Skipped(src, id, d)];
    if IsComposite(t) then t[MemberType(access)] else t[3]
  }

  // The marks of one step: a member, and what the member's type needs.
  ghost predicate StepMark(src: TypeTable, id: nat, access: nat, d: nat, mk: Mark) {
    var r := Skipped(src, id, d);
    && Stepped(src, id, access, d) && IsComposite(src[r])
    && (mk == MemberMark(r, access) || ReachesMark(src, Node(StepType(src, id, access, d), Shallow), mk))
  }

  // The step finds something, and the walk from a member's type meets only kinds it handles.
  ghost predicate StepWorks(src: TypeTable, id: nat, access: nat, d: nat) {
    && Stepped(src, id, access, d)
    && (IsComposite(src[Skipped(src, id, d)]) ==> AllSupported(src, Node(StepType(src, id, access, d), Shallow)))
  }

  ghost predicate AccessWorks(src: TypeTable, id: nat, accesses: seq<nat>, d: nat)
    decreases |accesses|
  {
    accesses == [] ||
    (StepWorks(src, id, accesses[0], d) && AccessWorks(src, StepType(src, id, accesses[0], d), accesses[1..], d))
  }

  ghost predicate FieldReloWorks(src: TypeTable, spec: CoreSpec, d: nat) {
    && AllSupported(src, Node(spec.rootTypeId, Shallow))
    && AccessWorks(src, spec.rootTypeId, Tail(spec.rawSpec), d)
  }

  /** The walks a relocation asks for meet nothing they cannot handle. */
  ghost predicate ReloWorks(src: TypeTable, res: CoreSpec, d: nat) {
    match res.kind
    case TypeIdLocal => true
    case TypeIdTarget | TypeExists | TypeSize => AllSupported(src, Node(res.rootTypeId, Deep))
    case TypeMatches => AllSupported(src, Node(res.rootTypeId, Front))
    case EnumvalExists | EnumvalValue => AllSupported(src, Node(res.rootTypeId, Shallow))
    case _ => FieldReloWorks(src, res, d)
  }

  // Every step that is taken fits.
  ghost predicate AccessFits(src: TypeTable, id: nat, accesses: seq<nat>, d: nat)
    decreases |accesses|
  {
    accesses == [] ||
    (StepFits(src, id, accesses[0], d) &&
     (StepWorks(src, id, accesses[0], d) ==> AccessFits(src, StepType(src, id, accesses[0], d), accesses[1..], d)))
  }

  ghost predicate FieldReloFits(src: TypeTable, spec: CoreSpec, d: nat) {
    && spec.rootTypeId < |src| && WalkEnds(src, Node(spec.rootTypeId, Shallow), d)
    && (AllSupported(src, Node(spec.rootTypeId, Shallow)) ==> AccessFits(src, spec.rootTypeId, Tail(spec.rawSpec), d))
  }

  /** The marks an access string asks for, starting at type `id`: those of its steps. */
  ghost predicate AccessMark(src: TypeTable, id: nat, accesses: seq<nat>, d: nat, mk: Mark)
    decreases |accesses|
  {
    && accesses != [] && Stepped(src, id, accesses[0], d)
    && (StepMark(src, id, accesses[0], d, mk)
        || AccessMark(src, StepType(src, id, accesses[0], d), accesses[1..], d, mk))
  }

  ghost predicate FieldReloMark(src: TypeTable, spec: CoreSpec, d: nat, mk: Mark) {
    || ReachesMark(src, Node(spec.rootTypeId, Shallow), mk)
    || AccessMark(src, spec.rootTypeId, Tail(spec.rawSpec), d, mk)
  }

  /** The marks a relocation asks for. */
  ghost predicate ReloMark(src: TypeTable, res: CoreSpec, d: nat, mk: Mark) {
    match res.kind
    case TypeIdLocal => false
    case TypeIdTarget | TypeExists | TypeSize => ReachesMark(src, Node(res.rootTypeId, Deep), mk)
    case TypeMatches => ReachesMark(src, Node(res.rootTypeId, Front), mk)
    case EnumvalExists | EnumvalValue => ReachesMark(src, Node(res.rootTypeId, Shallow), mk)
    case _ => FieldReloMark(src, res, d, mk)
  }

  // The relocation's own walks end, and its access string stays inside the structs.
  ghost predicate ReloFits(src: TypeTable, res: CoreSpec, d: nat) {
    res.rootTypeId < |src| &&
    match res.kind
    case TypeIdLocal => true
    case TypeIdTarget | TypeExists | TypeSize => WalkEnds(src, Node(res.rootTypeId, Deep), d)
    case TypeMatches => WalkEnds(src, Node(res.rootTypeId, Front), d)
    case EnumvalExists | EnumvalValue => WalkEnds(src, Node(res.rootTypeId, Shallow), d)
    case _ => FieldReloFits(src, res, d)
  }

  ghost predicate AnyReloMark(src: TypeTable, relos: seq<CoreSpec>, d: nat, mk: Mark) {
    exists r :: r in relos && ReloMark(src, r, d, mk)
  }

  ghost predicate AllWork(src: TypeTable, relos: seq<CoreSpec>, d: nat) {
    forall r {:trigger ReloWorks(src, r, d)} :: r in relos ==> ReloWorks(src, r, d)
  }

  lemma AllWorkMore(src: TypeTable, relos: seq<CoreSpec>, i: nat, d: nat)
    requires i < |relos|
    ensures AllWork(src, relos[..i + 1], d) <==> AllWork(src, relos[..i], d) && ReloWorks(src, relos[i], d)
    ensures AllWork(src, relos, d) ==> AllWork(src, relos[..i + 1], d)
  {
    assert relos[..i + 1] == relos[..i] + [relos[i]];
    assert forall r :: r in relos[..i + 1] ==> r in relos;
  }

  // From `m` to `m'`, the marks of the relocations were made.
  ghost predicate IsRecorded(src: TypeTable, m: seq<Record>, m': seq<Record>, relos: seq<CoreSpec>, d: nat)
    requires IsClone(src, m) && IsClone(src, m')
  {
    forall mk :: HasMark(src, m', mk) <==> HasMark(src, m, mk) || AnyReloMark(src, relos, d, mk)
  }

  lemma RecordedMore(src: TypeTable, m: seq<Record>, m1: seq<Record>, m2: seq<Record>,
                     relos: seq<CoreSpec>, i: nat, d: nat)
    requires IsClone(src, m) && IsClone(src, m1) && IsClone(src, m2) && i < |relos|
    requires IsRecorded(src, m, m1, relos[..i], d)
    requires forall mk :: HasMark(src, m2, mk) <==> HasMark(src, m1, mk) || ReloMark(src, relos[i], d, mk)
    ensures IsRecorded(src, m, m2, relos[..i + 1], d)
  {
    assert relos[..i + 1] == relos[..i] + [relos[i]];
  }

  lemma ModStep(src: TypeTable, root: nat, id: nat)
    requires id < |src| && |src[id]| >= 3 && IsModOrTypedef(src[id])
    requires AllSupported(src, Node(root, Shallow)) && Reaches(Calls(src), Node(root, Shallow), Node(id, Shallow))
    ensures var c := Node(src[id][SIZE_OR_TYPE], Shallow);
            c.id < |src| && c in Calls(src)(Node(id, Shallow)) && Reaches(Calls(src), Node(root, Shallow), c)
  {
    var x := Node(id, Shallow);
    assert ValidRecord(src[id], |src|);
    assert NodeSupported(src, x);
    var c := Node(src[id][SIZE_OR_TYPE], Shallow);
    assert Next(src, x) == [c] && c in Next(src, x);
    assert c in Calls(src)(x);
    ReachesStep(Calls(src), c, c);
    ReachesStep(Calls(src), x, c);
    ReachesTrans(Calls(src), Node(root, Shallow), x, c);
  }

  lemma VisitedMarksRoot(src: TypeTable, m: seq<Record>, m': seq<Record>, x: Node)
    requires IsClone(src, m) && IsClone(src, m') && Visited(src, m, m', x) && InGraph(src, x)
    ensures VoidOrMarked(src, m', x.id)
  {
    ReachesStep(Calls(src), x, x);
    if x.id != 0 {
      assert Gives(src, x, TypeMark(x.id)) && ReachesMark(src, x, TypeMark(x.id));
    }
  }

  lemma NextOfMarked(src: TypeTable, m: seq<Record>, a: Node, c: Node)
    requires IsClone(src, m) && Closed(src, m) && InGraph(src, a) && VoidOrMarked(src, m, a.id)
    requires a.mode.Shallow? && c in Next(src, a)
    ensures InGraph(src, c) && c.mode.Shallow? && VoidOrMarked(src, m, c.id)
  {
    NextInGraph(src, a);
    NextIsNeeded(src, a, c);
    assert NeedsMet(src, m, TypeMark(a.id));
  }

  // Along the references of a marked type, everything is marked.
  lemma ReachedIsMarked(src: TypeTable, m: seq<Record>, a: Node, b: Node)
    requires IsClone(src, m) && Closed(src, m) && InGraph(src, a) && VoidOrMarked(src, m, a.id)
    requires a.mode.Shallow? && Reaches(Calls(src), a, b)
    ensures InGraph(src, b) && VoidOrMarked(src, m, b.id)
  {
    var n: nat :| ReachesIn(Calls(src), a, b, n);
    var inv := (x: Node) => InGraph(src, x) && x.mode.Shallow? && IsClone(src, m) && VoidOrMarked(src, m, x.id);
    forall x, y | inv(x) && y in Calls(src)(x)
      ensures inv(y)
    {
      NextOfMarked(src, m, x, y);
    }
    ReachesInKeeps(Calls(src), inv, a, b, n);
  }

  lemma NextIsNeeded(src: TypeTable, a: Node, c: Node)
    requires a.mode.Shallow? && c in Next(src, a)
    ensures 0 < a.id < |src| && c.mode.Shallow? && WellSized(src[a.id]) && c.id in Needs(src[a.id])
  {
    var t := src[a.id];
    assert ValidRecord(t, |src|);
    var j :| 0 <= j < |Next(src, a)| && Next(src, a)[j] == c;
    if Kind(t) == BTF_KIND_FUNC_PROTO && j > 0 {
      assert Needs(t)[j] == c.id;
    } else if Kind(t) == BTF_KIND_ARRAY && j == 1 {
      assert Needs(t)[1] == c.id;
    } else {
      assert Needs(t)[0] == c.id;
    }
  }

  // What can be reached from a type whose walk has passed has passed too.
  lemma ReachedPassed(src: TypeTable, id: nat, r: nat, d: nat)
    requires WalkPassed(src, id, d) && Reaches(Calls(src), Node(id, Shallow), Node(r, Shallow))
    ensures WalkPassed(src, r, d)
  {
    var next, handled, a, b := Calls(src), Handles(src), Node(id, Shallow), Node(r, Shallow);
    EndsAndPasses(next, handled, a, d);
    var n: nat :| ReachesIn(next, a, b, n);
    GroundedAlong(next, a, b, d, n);
    GroundedMore(next, b, d - n, d);
    GroundedEnds(next, handled, b, d);
    forall y | Reaches(next, b, y)
      ensures handled(y)
    {
      ReachesTrans(next, a, b, y);
    }
  }

  lemma SkippedIsMarked(src: TypeTable, m: seq<Record>, id: nat, r: nat, d: nat)
    requires IsClone(src, m) && Closed(src, m) && id < |src| && VoidOrMarked(src, m, id)
    requires WalkPassed(src, id, d) && Reaches(Calls(src), Node(id, Shallow), Node(r, Shallow))
    ensures VoidOrMarked(src, m, r) && WalkPassed(src, r, d)
  {
    ReachedIsMarked(src, m, Node(id, Shallow), Node(r, Shallow));
    ReachedPassed(src, id, r, d);
  }

  lemma ElementIsMarked(src: TypeTable, m: seq<Record>, id: nat, d: nat)
    requires IsClone(src, m) && Closed(src, m) && 0 < id < |src| && VoidOrMarked(src, m, id)
    requires WalkPassed(src, id, d) && |src[id]| >= 6 && Kind(src[id]) == BTF_KIND_ARRAY
    ensures src[id][3] < |src| && VoidOrMarked(src, m, src[id][3]) && WalkPassed(src, src[id][3], d)
  {
    var x := Node(id, Shallow);
    NextArray(src, x);
    NextInGraph(src, x);
    var c := Next(src, x)[0];
    assert c in Calls(src)(x);
    ReachesStep(Calls(src), c, c);
    ReachesStep(Calls(src), x, c);
    ReachedPassed(src, id, c.id, d);
    assert NeedsMet(src, m, TypeMark(id)) && Needs(src[id])[0] == c.id;
  }
}
