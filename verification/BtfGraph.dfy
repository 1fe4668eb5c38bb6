/** The type graph that the BTF minimiser walks (lib/bpftool/src/gen.c, btfgen_mark_type and
    btfgen_mark_type_match).  A node is a type id together with the flag the walk carries; the
    edges out of a node are the calls a walk that meets no error makes from it, in their order.  A
    walk returns at the first type of a kind it does not handle, so it terminates exactly when no
    cycle can be reached along the calls it really makes. */
module BtfGraph {
  import opened Common
  import opened BtfFormat
  import opened EarlyReturn
  import opened Reachability

  const MARKED: u32 := 0xffff_ffff

  // A whole record that refers to types among the first `n`, with no name that is the mark.
  predicate ValidRecord(t: Record, n: int) {
    && WellSized(t) && t[NAME] != MARKED
    && (forall w :: 0 <= w < |t| && IsIdSlot(Kind(t), Vlen(t), w) ==> t[w] < n)
    && (forall w :: 0 <= w < |t| && IsNameSlot(Kind(t), Vlen(t), w) ==> t[w] != MARKED)
  }

  /** A parsed BTF object: record 0 is void, and every record is valid. */
  predicate ValidBtf(src: seq<Record>) {
    && 1 <= |src| <= BTF_MAX_NR_TYPES && src[0] == [0, 0, 0]
    && forall i :: 0 <= i < |src| ==> ValidRecord(src[i], |src|)
  }

  type TypeTable = src: seq<Record> | ValidBtf(src) witness [[0, 0, 0]]

  // btfgen_mark_type without and with follow_pointers; btfgen_mark_type_match in front of and
  // behind a pointer.
  datatype Mode = Shallow | Deep | Front | Behind

  datatype Node = Node(id: nat, mode: Mode)

  predicate InGraph(src: TypeTable, x: Node) { x.id < |src| }

  predicate IsMatch(mode: Mode) { mode.Front? || mode.Behind? }

  predicate Supported(kind: int, mode: Mode) {
    || kind in {BTF_KIND_UNKN, BTF_KIND_INT, BTF_KIND_FLOAT, BTF_KIND_ENUM, BTF_KIND_ENUM64, BTF_KIND_STRUCT,
                BTF_KIND_UNION, BTF_KIND_PTR, BTF_KIND_CONST, BTF_KIND_RESTRICT, BTF_KIND_VOLATILE,
                BTF_KIND_TYPEDEF, BTF_KIND_ARRAY, BTF_KIND_FUNC_PROTO}
    || (IsMatch(mode) && kind == BTF_KIND_FWD)
  }

  function Refs(t: Record, words: seq<int>, mode: Mode): seq<Node>
    requires forall i :: 0 <= i < |words| ==> 0 <= words[i] < |t|
  {
    seq(|words|, i requires 0 <= i < |words| => Node(t[words[i]], mode))
  }

  function MemberTypes(t: Record, mode: Mode): (s: seq<Node>)
    requires WellSized(t) && IsComposite(t)
    ensures |s| == Vlen(t) && forall k :: 0 <= k < |s| ==> s[k] == Node(t[MemberType(k)], mode)
  {
    seq(Vlen(t), k requires 0 <= k < Vlen(t) => Node(t[MemberType(k)], mode))
  }

  function ParamTypes(t: Record, mode: Mode): (s: seq<Node>)
    requires WellSized(t) && Kind(t) == BTF_KIND_FUNC_PROTO
    ensures |s| == Vlen(t) && forall k :: 0 <= k < |s| ==> s[k] == Node(t[ParamType(k)], mode)
  {
    seq(Vlen(t), k requires 0 <= k < Vlen(t) => Node(t[ParamType(k)], mode))
  }

  // The flag inside an array or a prototype: on the matching walk it is reset.
  function Inner(mode: Mode): Mode { if IsMatch(mode) then Front else mode }

  /** The nodes visited next, in order. */
  function Next(src: TypeTable, x: Node): seq<Node>
  {
    if x.id == 0 || x.id >= |src| then []
    else
      var t := src[x.id];
      var kind := Kind(t);
      var inner := Inner(x.mode);
      if !Supported(kind, x.mode) then []
      else if kind == BTF_KIND_STRUCT || kind == BTF_KIND_UNION then
        (if x.mode.Front? then MemberTypes(t, Front) else [])
      else if kind == BTF_KIND_PTR then
        (match x.mode
         case Shallow => []
         case Deep => [Node(t[SIZE_OR_TYPE], Deep)]
         case _ => [Node(t[SIZE_OR_TYPE], Behind)])
      else if kind in {BTF_KIND_CONST, BTF_KIND_RESTRICT, BTF_KIND_VOLATILE, BTF_KIND_TYPEDEF, BTF_KIND_FWD} then
        [Node(t[SIZE_OR_TYPE], x.mode)]
      else if kind == BTF_KIND_ARRAY then
        [Node(t[3], inner), Node(t[4], inner)]
      else if kind == BTF_KIND_FUNC_PROTO then
        [Node(t[SIZE_OR_TYPE], inner)] + ParamTypes(t, inner)
      else []
  }

  lemma IdInRange(src: TypeTable, id: nat, w: nat)
    requires id < |src| && w < |src[id]| && IsIdSlot(Kind(src[id]), Vlen(src[id]), w)
    ensures src[id][w] < |src|
  {
    assert ValidRecord(src[id], |src|);
  }

  lemma NextInGraph(src: TypeTable, x: Node)
    ensures forall c :: c in Next(src, x) ==> InGraph(src, c)
  {
    if 0 < x.id < |src| {
      var t := src[x.id];
      var kind := Kind(t);
      if IsComposite(t) {
        forall k | 0 <= k < Vlen(t)
          ensures t[MemberType(k)] < |src|
        {
          IdInRange(src, x.id, MemberType(k));
        }
      } else if kind == BTF_KIND_FUNC_PROTO {
        IdInRange(src, x.id, SIZE_OR_TYPE);
        forall k | 0 <= k < Vlen(t)
          ensures t[ParamType(k)] < |src|
        {
          IdInRange(src, x.id, ParamType(k));
        }
      } else if kind == BTF_KIND_ARRAY {
        IdInRange(src, x.id, 3);
        IdInRange(src, x.id, 4);
      } else if IsIdSlot(kind, Vlen(t), SIZE_OR_TYPE) {
        IdInRange(src, x.id, SIZE_OR_TYPE);
      }
    }
  }

  // ---------- The walk read off the format ----------

  // The kinds the walks handle, by number; only the matching walk takes a forward declaration (7).
  predicate IsHandledKind(kind: int, mode: Mode) {
    kind in {0, 1, 2, 3, 4, 5, 6, 8, 9, 10, 11, 13, 16, 19} || (kind == 7 && (mode.Front? || mode.Behind?))
  }

  // Members are visited by the matching walk in front of a pointer only, and what a pointer (2) points
  // to by all walks but the shallow one.
  predicate GoesThrough(kind: int, mode: Mode) {
    (kind in {4, 5} ==> mode.Front?) && (kind == 2 ==> !mode.Shallow?)
  }

  // The matching walk gets behind a pointer, and in front of it again in an array (3) or prototype (13).
  function ModeAfter(kind: int, mode: Mode): Mode {
    if mode.Shallow? || mode.Deep? then mode
    else if kind == 2 then Behind
    else if kind in {3, 13} then Front
    else mode
  }

  /** The nodes next to a type are the ids its record holds. */
  lemma NextByWords(src: TypeTable, x: Node, c: Node)
    requires 0 < x.id < |src|
    ensures var t := src[x.id];
            var kind := t[1] / 0x100_0000 % 32;
            && (NodeSupported(src, x) <==> IsHandledKind(kind, x.mode))
            && (c in Next(src, x) <==>
                  && IsHandledKind(kind, x.mode) && GoesThrough(kind, x.mode) && c.mode == ModeAfter(kind, x.mode)
                  && exists w :: 0 <= w < |t| && IsIdSlot(kind, t[1] % 0x1_0000, w) && t[w] == c.id)
  {
    var t := src[x.id];
    var kind := Kind(t);
    assert ValidRecord(t, |src|);
    if IsHandledKind(kind, x.mode) && GoesThrough(kind, x.mode) {
      if kind == BTF_KIND_STRUCT || kind == BTF_KIND_UNION {
        MembersByWords(t, c);
      } else if kind == BTF_KIND_FUNC_PROTO {
        ParamsByWords(t, Inner(x.mode), c);
      }
    }
  }

  lemma MembersByWords(t: Record, c: Node)
    requires WellSized(t) && IsComposite(t)
    ensures c in MemberTypes(t, Front) <==>
            c.mode.Front? && exists w :: 0 <= w < |t| && IsIdSlot(Kind(t), Vlen(t), w) && t[w] == c.id
  {
    if w :| 0 <= w < |t| && IsIdSlot(Kind(t), Vlen(t), w) && t[w] == c.id {
      assert MemberTypes(t, Front)[(w - 3) / 3].id == c.id;
    }
    if k :| 0 <= k < Vlen(t) && MemberTypes(t, Front)[k] == c {
      assert IsIdSlot(Kind(t), Vlen(t), MemberType(k)) && t[MemberType(k)] == c.id;
    }
  }

  lemma ParamsByWords(t: Record, mode: Mode, c: Node)
    requires WellSized(t) && Kind(t) == BTF_KIND_FUNC_PROTO
    ensures c in [Node(t[SIZE_OR_TYPE], mode)] + ParamTypes(t, mode) <==>
            c.mode == mode && exists w :: 0 <= w < |t| && IsIdSlot(Kind(t), Vlen(t), w) && t[w] == c.id
  {
    var nodes := [Node(t[SIZE_OR_TYPE], mode)] + ParamTypes(t, mode);
    if c.mode == mode {
      if w :| 0 <= w < |t| && IsIdSlot(Kind(t), Vlen(t), w) && t[w] == c.id {
        assert nodes[if w == SIZE_OR_TYPE then 0 else 1 + (w - 3) / 2] == c;
      }
    }
    if j :| 0 <= j < |nodes| && nodes[j] == c {
      var w := if j == 0 then SIZE_OR_TYPE else ParamType(j - 1);
      assert IsIdSlot(Kind(t), Vlen(t), w) && t[w] == c.id;
    }
  }

  // The edges, and the nodes a walk does not stop at, as functions, for the general theory of walks.
  function Calls(src: TypeTable): Node -> seq<Node> {
    (x: Node) => Next(src, x)
  }

  predicate NodeSupported(src: TypeTable, y: Node) {
    0 < y.id < |src| ==> Supported(Kind(src[y.id]), y.mode)
  }

  function Handles(src: TypeTable): Node -> bool {
    (x: Node) => NodeSupported(src, x)
  }

  // Every node that can be reached is of a kind the walk handles.
  ghost predicate AllSupported(src: TypeTable, x: Node) {
    AllHandled(Calls(src), Handles(src), x)
  }

  lemma AllSupportedStep(src: TypeTable, x: Node)
    ensures AllSupported(src, x) <==>
            NodeSupported(src, x) && forall c :: c in Next(src, x) ==> AllSupported(src, c)
  {
    AllHandledStep(Calls(src), Handles(src), x);
    assert Calls(src)(x) == Next(src, x) && Handles(src)(x) == NodeSupported(src, x);
  }

  // The walk from the node ends, its calls nesting at most `d` deep.
  ghost predicate WalkEnds(src: TypeTable, x: Node, d: nat) {
    Ends(Calls(src), Handles(src), x, d)
  }

  // The calls that are really made: those up to the first from which the walk fails or never ends.
  ghost function CallsMade(src: TypeTable): Node -> seq<Node> {
    Made(Calls(src), Handles(src))
  }

  // ---------- Termination ----------

  function DepthBound(src: TypeTable): nat { 4 * |src| + 1 }

  function Code(x: Node): int {
    4 * x.id + match x.mode case Shallow => 0 case Deep => 1 case Front => 2 case Behind => 3
  }

  lemma StaysInGraph(src: TypeTable, a: Node, b: Node)
    requires InGraph(src, a) && Reaches(Calls(src), a, b)
    ensures InGraph(src, b)
  {
    var n: nat :| ReachesIn(Calls(src), a, b, n);
    forall x, y | InGraph(src, x) && y in Calls(src)(x)
      ensures InGraph(src, y)
    {
      NextInGraph(src, x);
    }
    ReachesInKeeps(Calls(src), (x: Node) => InGraph(src, x), a, b, n);
  }

  /** The walk from a node terminates if and only if no cycle can be reached along the calls it makes;
      and then its depth is bounded by four times the number of types.  A graph without cycles is
      enough, and it is necessary when every type that can be reached is of a kind the walk handles. */
  lemma TerminatesIffAcyclic(src: TypeTable, a: Node)
    requires InGraph(src, a)
    ensures Acyclic(CallsMade(src), a) <==> exists d: nat :: WalkEnds(src, a, d)
    ensures Acyclic(CallsMade(src), a) ==> WalkEnds(src, a, DepthBound(src))
    ensures Acyclic(Calls(src), a) ==> Acyclic(CallsMade(src), a)
    ensures AllSupported(src, a) ==> (Acyclic(Calls(src), a) <==> exists d: nat :: WalkEnds(src, a, d))
  {
    forall b | Reaches(Calls(src), a, b)
      ensures 0 <= Code(b) < 4 * |src|
    {
      StaysInGraph(src, a, b);
    }
    EndsIffAcyclic(Calls(src), Handles(src), a, Code, 4 * |src|);
    assert Acyclic(CallsMade(src), a) ==> WalkEnds(src, a, DepthBound(src));
    assert (exists d: nat :: Ends(Calls(src), Handles(src), a, d)) <==> exists d: nat :: WalkEnds(src, a, d);
  }

  // ---------- Types on which the matching walk ends, goes on for ever, and is cut short ----------

  // Words for the examples: structs, a pointer, a tag, and a prototype with one parameter.
  function OneMemberStruct(typeId: u32): Record { [0, Info(BTF_KIND_STRUCT, 1, false), 8, 0, typeId, 0] }

  function TwoMemberStruct(type0: u32, type1: u32): Record {
    [0, Info(BTF_KIND_STRUCT, 2, false), 16, 0, type0, 0, 0, type1, 64]
  }

  function Pointer(typeId: u32): Record { [0, Info(BTF_KIND_PTR, 0, false), typeId] }

  function Tag(typeId: u32): Record { [0, Info(BTF_KIND_TYPE_TAG, 0, false), typeId] }

  function OneParamProto(typeId: u32): Record { [0, Info(BTF_KIND_FUNC_PROTO, 1, false), 0, 0, typeId] }

  lemma ExampleRecords(id: u32, n: int)
    requires id < n
    ensures ValidRecord(OneMemberStruct(id), n) && ValidRecord(Pointer(id), n) && ValidRecord(OneParamProto(id), n)
    ensures ValidRecord([0, 0, 0], n)
  {
    InfoParts(OneMemberStruct(id), BTF_KIND_STRUCT, 1, false);
    InfoParts(Pointer(id), BTF_KIND_PTR, 0, false);
    InfoParts(OneParamProto(id), BTF_KIND_FUNC_PROTO, 1, false);
  }

  lemma MoreExampleRecords(id: u32, id': u32, n: int)
    requires id < n && id' < n
    ensures ValidRecord(TwoMemberStruct(id, id'), n) && ValidRecord(Tag(id), n)
  {
    InfoParts(TwoMemberStruct(id, id'), BTF_KIND_STRUCT, 2, false);
    InfoParts(Tag(id), BTF_KIND_TYPE_TAG, 0, false);
  }

  // struct S { void (*f)(struct S); }
  const BY_VALUE_CALLBACK: TypeTable :=
    (ExampleRecords(1, 4);
     ExampleRecords(2, 4);
     ExampleRecords(3, 4);
     [[0, 0, 0], OneMemberStruct(2), Pointer(3), OneParamProto(1)])

  // struct S { struct S *next; }
  const LIST_NODE: TypeTable :=
    (ExampleRecords(1, 3);
     ExampleRecords(2, 3);
     [[0, 0, 0], OneMemberStruct(2), Pointer(1)])

  // struct S { a member whose type is a tag; void (*f)(struct S); }
  const TAGGED_CALLBACK: TypeTable :=
    (ExampleRecords(1, 5);
     ExampleRecords(4, 5);
     MoreExampleRecords(2, 3, 5);
     MoreExampleRecords(0, 0, 5);
     [[0, 0, 0], TwoMemberStruct(2, 3), Tag(0), Pointer(4), OneParamProto(1)])

  /** A struct behind a pointer is a leaf, so a list node is fine ... */
  lemma ListNodeTerminates()
    ensures WalkEnds(LIST_NODE, Node(1, Front), 3) && !WalkEnds(LIST_NODE, Node(1, Front), 2)
  {
    var src: TypeTable := LIST_NODE;
    var next, handled := Calls(src), Handles(src);
    assert next(Node(1, Front)) == [Node(2, Front)];
    assert next(Node(2, Front)) == [Node(1, Behind)];
    assert next(Node(1, Behind)) == [];
    SingleCall(next, handled, Node(1, Front), Node(2, Front), 3);
    SingleCall(next, handled, Node(2, Front), Node(1, Behind), 2);
    SingleCall(next, handled, Node(1, Front), Node(2, Front), 2);
    SingleCall(next, handled, Node(2, Front), Node(1, Behind), 1);
  }

  /** ... but the parameters of a function prototype are walked as if no pointer had been crossed,
      so a struct whose callback takes the struct by value is walked for ever. */
  lemma ByValueCallbackDiverges(d: nat)
    ensures !Acyclic(CallsMade(BY_VALUE_CALLBACK), Node(1, Front))
    ensures !WalkEnds(BY_VALUE_CALLBACK, Node(1, Front), d)
  {
    forall e: nat
      ensures !WalkEnds(BY_VALUE_CALLBACK, Node(1, Front), e)
    {
      ByValueRunsOut(e);
    }
    TerminatesIffAcyclic(BY_VALUE_CALLBACK, Node(1, Front));
  }

  lemma {:induction false} ByValueRunsOut(d: nat)
    ensures !WalkEnds(BY_VALUE_CALLBACK, Node(1, Front), d)
  {
    if WalkEnds(BY_VALUE_CALLBACK, Node(1, Front), d) {
      var next, handled := Calls(BY_VALUE_CALLBACK), Handles(BY_VALUE_CALLBACK);
      ByValueEdges();
      AllHandledStep(next, handled, Node(0, Front));
      NextEnds(next, handled, Node(1, Front), d, 0);
      NextEnds(next, handled, Node(2, Front), d - 1, 0);
      NextEnds(next, handled, Node(3, Behind), d - 2, 1);
      ByValueRunsOut(d - 3);
    }
  }

  lemma ByValueEdges()
    ensures Calls(BY_VALUE_CALLBACK)(Node(1, Front)) == [Node(2, Front)]
    ensures Calls(BY_VALUE_CALLBACK)(Node(2, Front)) == [Node(3, Behind)]
    ensures Calls(BY_VALUE_CALLBACK)(Node(3, Behind)) == [Node(0, Front), Node(1, Front)]
    ensures Calls(BY_VALUE_CALLBACK)(Node(0, Front)) == [] && NodeSupported(BY_VALUE_CALLBACK, Node(0, Front))
    ensures NodeSupported(BY_VALUE_CALLBACK, Node(1, Front)) && NodeSupported(BY_VALUE_CALLBACK, Node(2, Front))
    ensures NodeSupported(BY_VALUE_CALLBACK, Node(3, Behind))
  {
  }

  // A node with one successor comes out as its successor does.
  lemma SingleCall<T(!new)>(next: T -> seq<T>, handled: T -> bool, x: T, c: T, d: nat)
    requires next(x) == [c] && handled(x)
    ensures Walk(next, handled, x, d) == if d == 0 then OutOfDepth else Walk(next, handled, c, d - 1)
  {
    assert [c][1..] == [];
    assert d > 0 ==> WalkAll(next, handled, [], d - 1) == Passed;
  }

  /** A cycle does no harm when the walk fails before it gets there: here on the tag, which is not
      among the kinds the walk handles. */
  lemma TaggedCallbackStops()
    ensures Walk(Calls(TAGGED_CALLBACK), Handles(TAGGED_CALLBACK), Node(1, Front), 2) == Unhandled
    ensures WalkEnds(TAGGED_CALLBACK, Node(1, Front), 2) && !Acyclic(Calls(TAGGED_CALLBACK), Node(1, Front))
  {
    TaggedEdges();
    ThreeCycle(Calls(TAGGED_CALLBACK), Node(1, Front), Node(3, Front), Node(4, Behind));
  }

  lemma TaggedEdges()
    ensures Calls(TAGGED_CALLBACK)(Node(1, Front)) == [Node(2, Front), Node(3, Front)]
    ensures Calls(TAGGED_CALLBACK)(Node(3, Front)) == [Node(4, Behind)]
    ensures Calls(TAGGED_CALLBACK)(Node(4, Behind)) == [Node(0, Front), Node(1, Front)]
    ensures NodeSupported(TAGGED_CALLBACK, Node(1, Front)) && !NodeSupported(TAGGED_CALLBACK, Node(2, Front))
  {
  }

  lemma ThreeCycle<T(!new)>(next: T -> seq<T>, a: T, b: T, c: T)
    requires b in next(a) && c in next(b) && a in next(c)
    ensures !Acyclic(next, a)
  {
    assert ReachesIn(next, a, a, 0);
    assert ReachesIn(next, c, a, 1);
    assert ReachesIn(next, b, a, 2);
    assert Reaches(next, a, a) && ReachesIn(next, a, a, 3);
  }
}
