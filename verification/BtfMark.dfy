/** The first half of the BTF minimiser (lib/bpftool/src/gen.c): marking the types and members
    that relocations need, by overwriting name words in a copy of the type table. */
module BtfMark {
  import opened BtfFormat
  import opened Reachability
  import opened BtfGraph

  // ---------- The copy and its marks ----------

  // Words of a record that a mark may overwrite.
  predicate MarkWord(t: Record, w: int)
    requires |t| >= 3
  {
    w == NAME || (IsComposite(t) && w >= 3 && (w - 3) % 3 == 0)
  }

  predicate IsCloneRecord(t: Record, c: Record) {
    && |c| == |t| >= 3
    && forall w :: 0 <= w < |t| ==> c[w] == t[w] || (MarkWord(t, w) && c[w] == MARKED)
  }

  /** A copy of the table in which nothing but marks has changed. */
  predicate IsClone(src: TypeTable, m: seq<Record>) {
    && |m| == |src| && m[0] == src[0]
    && forall i :: 0 <= i < |src| ==> IsCloneRecord(src[i], m[i])
  }

  datatype Mark = TypeMark(id: nat) | MemberMark(id: nat, k: nat)

  // The mark is for something that exists.
  predicate InTable(src: TypeTable, mk: Mark) {
    && 0 < mk.id < |src|
    && (mk.MemberMark? ==> IsComposite(src[mk.id]) && mk.k < Vlen(src[mk.id]))
  }

  predicate HasMark(src: TypeTable, m: seq<Record>, mk: Mark)
    requires IsClone(src, m)
  {
    InTable(src, mk) && m[mk.id][match mk case TypeMark(_) => NAME case MemberMark(_, k) => MemberName(k)] == MARKED
  }

  lemma FreshCloneUnmarked(src: TypeTable)
    ensures IsClone(src, src)
    ensures forall mk :: !HasMark(src, src, mk)
  {
    forall mk | InTable(src, mk)
      ensures !HasMark(src, src, mk)
    {
      assert ValidRecord(src[mk.id], |src|);
    }
  }

  /** Marks grow by exactly `mk` when its word is overwritten. */
  lemma MarkOneWord(src: TypeTable, m: seq<Record>, mk: Mark, w: nat)
    requires IsClone(src, m) && InTable(src, mk)
    requires w == match mk case TypeMark(_) => NAME case MemberMark(_, k) => MemberName(k)
    ensures w < |m[mk.id]|
    ensures var m' := m[mk.id := Overwrite(m[mk.id], w, MARKED)];
            IsClone(src, m') && forall x :: HasMark(src, m', x) <==> HasMark(src, m, x) || x == mk
  {
    assert ValidRecord(src[mk.id], |src|) && IsCloneRecord(src[mk.id], m[mk.id]);
    var m' := m[mk.id := Overwrite(m[mk.id], w, MARKED)];
    forall i | 0 <= i < |src|
      ensures IsCloneRecord(src[i], m'[i])
    {
      assert IsCloneRecord(src[i], m[i]);
    }
    forall x | InTable(src, x)
      ensures HasMark(src, m', x) <==> HasMark(src, m, x) || x == mk
    {
      assert ValidRecord(src[x.id], |src|);
    }
  }

  // ---------- What a visit is to mark ----------

  // The marks a node makes itself.
  ghost predicate Gives(src: TypeTable, x: Node, mk: Mark) {
    && InTable(src, mk) && mk.id == x.id
    && (mk.MemberMark? ==> x.mode.Front?)
  }

  // The marks made on the walk from a node.
  ghost predicate ReachesMark(src: TypeTable, x: Node, mk: Mark) {
    exists y :: Reaches(Calls(src), x, y) && Gives(src, y, mk)
  }

  lemma ReachesMarkStep(src: TypeTable, x: Node, mk: Mark)
    ensures ReachesMark(src, x, mk) <==>
            Gives(src, x, mk) || exists c :: c in Next(src, x) && ReachesMark(src, c, mk)
  {
    var next := Calls(src);
    if ReachesMark(src, x, mk) {
      var y :| Reaches(next, x, y) && Gives(src, y, mk);
      ReachesStep(next, x, y);
      if c :| c in next(x) && Reaches(next, c, y) {
        assert c in Next(src, x) && ReachesMark(src, c, mk);
      }
    }
    if Gives(src, x, mk) {
      ReachesStep(next, x, x);
    }
    if c :| c in Next(src, x) && ReachesMark(src, c, mk) {
      var y :| Reaches(next, c, y) && Gives(src, y, mk);
      assert c in next(x);
      ReachesStep(next, x, y);
    }
  }

  /** In other words, a type is marked when it is reached in whatever way, and a member when its struct
      is reached by the matching walk in front of a pointer. */
  lemma MarkedIffReached(src: TypeTable, x: Node, id: nat, k: nat)
    ensures ReachesMark(src, x, TypeMark(id)) <==>
            0 < id < |src| && exists mode :: Reaches(Calls(src), x, Node(id, mode))
    ensures ReachesMark(src, x, MemberMark(id, k)) <==>
            InTable(src, MemberMark(id, k)) && Reaches(Calls(src), x, Node(id, Front))
  {
    forall y | Reaches(Calls(src), x, y) && y.id == id
      ensures Reaches(Calls(src), x, Node(id, y.mode))
    {
      assert y == Node(id, y.mode);
    }
    if mode :| 0 < id < |src| && Reaches(Calls(src), x, Node(id, mode)) {
      assert Gives(src, Node(id, mode), TypeMark(id));
    }
    if InTable(src, MemberMark(id, k)) && Reaches(Calls(src), x, Node(id, Front)) {
      assert Gives(src, Node(id, Front), MemberMark(id, k));
    }
  }

  ghost predicate ListReaches(src: TypeTable, nodes: seq<Node>, mk: Mark) {
    exists i :: 0 <= i < |nodes| && ReachesMark(src, nodes[i], mk)
  }

  /** From `m` to `m'`, the marks in `own` and those on the walks from `nodes` were made. */
  ghost predicate Added(src: TypeTable, m: seq<Record>, m': seq<Record>, own: set<Mark>, nodes: seq<Node>)
    requires IsClone(src, m) && IsClone(src, m')
  {
    forall mk :: HasMark(src, m', mk) <==>
      HasMark(src, m, mk) || mk in own || ListReaches(src, nodes, mk)
  }

  /** The walk from `x` has been made. */
  ghost predicate Visited(src: TypeTable, m: seq<Record>, m': seq<Record>, x: Node)
    requires IsClone(src, m) && IsClone(src, m')
  {
    forall mk :: HasMark(src, m', mk) <==> HasMark(src, m, mk) || ReachesMark(src, x, mk)
  }

  lemma AddedThenVisited(src: TypeTable, m: seq<Record>, m1: seq<Record>, m2: seq<Record>,
                         own: set<Mark>, nodes: seq<Node>, x: Node)
    requires IsClone(src, m) && IsClone(src, m1) && IsClone(src, m2)
    requires Added(src, m, m1, own, nodes) && Visited(src, m1, m2, x)
    ensures Added(src, m, m2, own, nodes + [x])
  {
    forall mk
      ensures HasMark(src, m2, mk) <==> HasMark(src, m, mk) || mk in own || ListReaches(src, nodes + [x], mk)
    {
      if i :| 0 <= i < |nodes| && ReachesMark(src, nodes[i], mk) {
        assert (nodes + [x])[i] == nodes[i];
      }
      if ReachesMark(src, x, mk) {
        assert (nodes + [x])[|nodes|] == x;
      }
    }
  }

  // The marks of a node, as a set.
  ghost function OwnMarks(src: TypeTable, x: Node): set<Mark> {
    if 0 < x.id < |src| then
      {TypeMark(x.id)} +
      if x.mode.Front? && IsComposite(src[x.id]) then set k: nat | 0 <= k < Vlen(src[x.id]) :: MemberMark(x.id, k) else {}
    else {}
  }

  lemma AddedIsVisited(src: TypeTable, m: seq<Record>, m': seq<Record>, x: Node)
    requires IsClone(src, m) && IsClone(src, m')
    requires Added(src, m, m', OwnMarks(src, x), Next(src, x))
    ensures Visited(src, m, m', x)
  {
    forall mk
      ensures HasMark(src, m', mk) <==> HasMark(src, m, mk) || ReachesMark(src, x, mk)
    {
      ReachesMarkStep(src, x, mk);
      assert mk in OwnMarks(src, x) <==> Gives(src, x, mk);
    }
  }

  // ---------- What the marks must satisfy ----------

  /** The types without which a record of this kind means nothing.  A pointer can do without its
      target, and a struct without its members. */
  function Needs(t: Record): seq<nat>
    requires WellSized(t)
  {
    var kind := Kind(t);
    if IsModOrTypedef(t) || kind == BTF_KIND_FWD then [t[SIZE_OR_TYPE]]
    else if kind == BTF_KIND_ARRAY then [t[3], t[4]]
    else if kind == BTF_KIND_FUNC_PROTO then
      [t[SIZE_OR_TYPE]] + seq(Vlen(t), k requires 0 <= k < Vlen(t) => t[ParamType(k)])
    else []
  }

  predicate VoidOrMarked(src: TypeTable, m: seq<Record>, id: nat)
    requires IsClone(src, m)
  {
    id == 0 || HasMark(src, m, TypeMark(id))
  }

  ghost predicate NeedsMet(src: TypeTable, m: seq<Record>, mk: Mark)
    requires IsClone(src, m) && InTable(src, mk)
  {
    var t := src[mk.id];
    match mk
    case TypeMark(_) => Supported(Kind(t), Front) && forall r :: r in Needs(t) ==> VoidOrMarked(src, m, r)
    case MemberMark(id, k) => HasMark(src, m, TypeMark(id)) && VoidOrMarked(src, m, t[MemberType(k)])
  }

  /** The invariant of the marking: a marked member belongs to a marked struct and has a marked
      type; a marked modifier, typedef, array or prototype has all it needs marked. */
  ghost predicate Closed(src: TypeTable, m: seq<Record>)
    requires IsClone(src, m)
  {
    forall mk :: HasMark(src, m, mk) ==> NeedsMet(src, m, mk)
  }

  lemma ParamSlot(vlen: nat, k: nat)
    requires k < vlen
    ensures IsIdSlot(BTF_KIND_FUNC_PROTO, vlen, ParamType(k))
  {
    assert ParamType(k) - 3 == 2 * k + 1;
  }

  lemma ProtoNeeds(t: Record)
    requires WellSized(t) && Kind(t) == BTF_KIND_FUNC_PROTO
    ensures |Needs(t)| == 1 + Vlen(t) && Needs(t)[0] == t[SIZE_OR_TYPE] && IsIdSlot(Kind(t), Vlen(t), SIZE_OR_TYPE)
    ensures forall k :: 0 <= k < Vlen(t) ==>
              && ParamType(k) < |t| && Needs(t)[1 + k] == t[ParamType(k)] && IsIdSlot(Kind(t), Vlen(t), ParamType(k))
  {
    var n := Vlen(t);
    assert |t| == 3 + 2 * n;
    assert Needs(t) == [t[SIZE_OR_TYPE]] + seq(n, k requires 0 <= k < n => t[ParamType(k)]);
    forall k | 0 <= k < n
      ensures ParamType(k) < |t| && Needs(t)[1 + k] == t[ParamType(k)] && IsIdSlot(Kind(t), n, ParamType(k))
    {
      ParamSlot(n, k);
    }
  }

  // What a record needs stands in one of its words.
  lemma NeedIsInSlot(t: Record, r: nat) returns (w: nat)
    requires WellSized(t) && r in Needs(t)
    ensures Kind(t) !in {BTF_KIND_PTR, BTF_KIND_STRUCT, BTF_KIND_UNION}
    ensures w < |t| && IsIdSlot(Kind(t), Vlen(t), w) && t[w] == r
  {
    if Kind(t) == BTF_KIND_FUNC_PROTO {
      ProtoNeeds(t);
      var j :| 0 <= j < |Needs(t)| && Needs(t)[j] == r;
      w := if j == 0 then SIZE_OR_TYPE else ParamType(j - 1);
      assert j > 0 ==> Needs(t)[1 + (j - 1)] == r;
    } else {
      w := OtherNeedIsInSlot(t, r);
    }
  }

  lemma OtherNeedIsInSlot(t: Record, r: nat) returns (w: nat)
    requires WellSized(t) && r in Needs(t) && Kind(t) != BTF_KIND_FUNC_PROTO
    ensures Kind(t) !in {BTF_KIND_PTR, BTF_KIND_STRUCT, BTF_KIND_UNION}
    ensures w < |t| && IsIdSlot(Kind(t), Vlen(t), w) && t[w] == r
  {
    if Kind(t) == BTF_KIND_ARRAY {
      w := if t[3] == r then 3 else 4;
    } else {
      w := SIZE_OR_TYPE;
    }
  }

  lemma NeedsAreNext(src: TypeTable, y: Node, r: nat)
    requires 0 < y.id < |src| && NodeSupported(src, y) && r in Needs(src[y.id])
    ensures exists c :: c in Next(src, y) && c.id == r
  {
    var c := Node(r, ModeAfter(Kind(src[y.id]), y.mode));
    var w := NeedIsInSlot(src[y.id], r);
    NextByWords(src, y, c);
    assert c in Next(src, y);
  }

  lemma NextIsMarked(src: TypeTable, m: seq<Record>, m': seq<Record>, x: Node, y: Node, c: Node)
    requires IsClone(src, m) && IsClone(src, m') && Visited(src, m, m', x) && InGraph(src, x)
    requires Reaches(Calls(src), x, y) && c in Next(src, y)
    ensures VoidOrMarked(src, m', c.id)
  {
    assert c in Calls(src)(y);
    ReachesStep(Calls(src), c, c);
    ReachesStep(Calls(src), y, c);
    ReachesTrans(Calls(src), x, y, c);
    StaysInGraph(src, x, c);
    if c.id != 0 {
      assert Gives(src, c, TypeMark(c.id));
      assert ReachesMark(src, x, TypeMark(c.id));
    }
  }

  lemma NewMarkMet(src: TypeTable, m: seq<Record>, m': seq<Record>, x: Node, mk: Mark)
    requires IsClone(src, m) && IsClone(src, m') && Visited(src, m, m', x) && InGraph(src, x)
    requires AllSupported(src, x) && ReachesMark(src, x, mk)
    ensures NeedsMet(src, m', mk)
  {
    var y :| Reaches(Calls(src), x, y) && Gives(src, y, mk);
    assert NodeSupported(src, y);
    match mk
    case TypeMark(id) =>
      forall r | r in Needs(src[id])
        ensures VoidOrMarked(src, m', r)
      {
        NeedsAreNext(src, y, r);
        var c :| c in Next(src, y) && c.id == r;
        NextIsMarked(src, m, m', x, y, c);
      }
    case MemberMark(id, k) =>
      assert Gives(src, y, TypeMark(id)) && ReachesMark(src, x, TypeMark(id));
      assert ValidRecord(src[id], |src|);
      assert Next(src, y) == MemberTypes(src[id], Front);
      var c := Next(src, y)[k];
      NextIsMarked(src, m, m', x, y, c);
  }

  lemma NeedsMetGrow(src: TypeTable, m: seq<Record>, m': seq<Record>, mk: Mark)
    requires IsClone(src, m) && IsClone(src, m') && InTable(src, mk) && NeedsMet(src, m, mk)
    requires forall x :: HasMark(src, m, x) ==> HasMark(src, m', x)
    ensures NeedsMet(src, m', mk)
  {
    if mk.TypeMark? {
      forall r | r in Needs(src[mk.id])
        ensures VoidOrMarked(src, m', r)
      {
        assert VoidOrMarked(src, m, r);
      }
    } else {
      assert VoidOrMarked(src, m, src[mk.id][MemberType(mk.k)]);
    }
  }

  /** A completed walk keeps the invariant. */
  lemma VisitKeepsClosed(src: TypeTable, m: seq<Record>, m': seq<Record>, x: Node)
    requires IsClone(src, m) && IsClone(src, m') && Visited(src, m, m', x) && InGraph(src, x)
    requires AllSupported(src, x) && Closed(src, m)
    ensures Closed(src, m')
  {
    forall mk | HasMark(src, m', mk)
      ensures NeedsMet(src, m', mk)
    {
      if HasMark(src, m, mk) {
        NeedsMetGrow(src, m, m', mk);
      } else {
        NewMarkMet(src, m, m', x, mk);
      }
    }
  }

  /** So does marking a member of a marked struct and then visiting its type. */
  lemma MemberKeepsClosed(src: TypeTable, m: seq<Record>, m1: seq<Record>, m2: seq<Record>, id: nat, k: nat)
    requires IsClone(src, m) && IsClone(src, m1) && IsClone(src, m2)
    requires InTable(src, MemberMark(id, k)) && HasMark(src, m, TypeMark(id)) && Closed(src, m)
    requires forall mk :: HasMark(src, m1, mk) <==> HasMark(src, m, mk) || mk == MemberMark(id, k)
    requires var c := Node(src[id][MemberType(k)], Shallow); Visited(src, m1, m2, c) && AllSupported(src, c)
    ensures Closed(src, m2)
  {
    assert ValidRecord(src[id], |src|);
    var c := Node(src[id][MemberType(k)], Shallow);
    forall mk | HasMark(src, m2, mk)
      ensures NeedsMet(src, m2, mk)
    {
      if HasMark(src, m, mk) {
        NeedsMetGrow(src, m, m2, mk);
      } else if mk == MemberMark(id, k) {
        ReachesStep(Calls(src), c, c);
        if c.id != 0 {
          assert Gives(src, c, TypeMark(c.id)) && ReachesMark(src, c, TypeMark(c.id));
        }
      } else {
        NewMarkMet(src, m1, m2, c, mk);
      }
    }
  }
}
