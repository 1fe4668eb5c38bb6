/** The field iterator of lib/libbpf/src/btf_iter.c: it walks the id words, or the name words, of
    one record.  Positions are byte offsets into the record, as in the C code. */
module BtfIter {
  import opened BtfFormat

  datatype IterKind = IterIds | IterStrs

  // Offsets seen once per type, and the size of a member and the offset seen once per member.
  datatype FieldDesc = FieldDesc(tOffs: seq<int>, mSz: nat, mOffs: seq<int>)

  const NO_FIELDS := FieldDesc([], 0, [])

  // The descriptor of a kind, or nothing for a kind the iterator does not know.
  datatype MaybeDesc = NoDesc | Desc(desc: FieldDesc)

  function DescOf(iterKind: IterKind, kind: int): MaybeDesc {
    match iterKind
    case IterIds =>
      if kind in {BTF_KIND_UNKN, BTF_KIND_INT, BTF_KIND_FLOAT, BTF_KIND_ENUM, BTF_KIND_ENUM64} then Desc(NO_FIELDS)
      else if kind in {BTF_KIND_FWD, BTF_KIND_CONST, BTF_KIND_VOLATILE, BTF_KIND_RESTRICT, BTF_KIND_PTR,
                       BTF_KIND_TYPEDEF, BTF_KIND_FUNC, BTF_KIND_VAR, BTF_KIND_DECL_TAG, BTF_KIND_TYPE_TAG} then
        Desc(FieldDesc([8], 0, []))
      else if kind == BTF_KIND_ARRAY then Desc(FieldDesc([SIZEOF_TYPE + 0, SIZEOF_TYPE + 4], 0, []))
      else if kind in {BTF_KIND_STRUCT, BTF_KIND_UNION} then Desc(FieldDesc([], SIZEOF_MEMBER, [4]))
      else if kind == BTF_KIND_FUNC_PROTO then Desc(FieldDesc([8], SIZEOF_PARAM, [4]))
      else if kind == BTF_KIND_DATASEC then Desc(FieldDesc([], SIZEOF_VAR_SECINFO, [0]))
      else NoDesc
    case IterStrs =>
      if kind == BTF_KIND_UNKN then Desc(NO_FIELDS)
      else if kind in {BTF_KIND_INT, BTF_KIND_FLOAT, BTF_KIND_FWD, BTF_KIND_ARRAY, BTF_KIND_CONST, BTF_KIND_VOLATILE,
                       BTF_KIND_RESTRICT, BTF_KIND_PTR, BTF_KIND_TYPEDEF, BTF_KIND_FUNC, BTF_KIND_VAR,
                       BTF_KIND_DECL_TAG, BTF_KIND_TYPE_TAG, BTF_KIND_DATASEC} then
        Desc(FieldDesc([0], 0, []))
      else if kind == BTF_KIND_ENUM then Desc(FieldDesc([0], SIZEOF_ENUM, [0]))
      else if kind == BTF_KIND_ENUM64 then Desc(FieldDesc([0], SIZEOF_ENUM64, [0]))
      else if kind in {BTF_KIND_STRUCT, BTF_KIND_UNION} then Desc(FieldDesc([0], SIZEOF_MEMBER, [0]))
      else if kind == BTF_KIND_FUNC_PROTO then Desc(FieldDesc([0], SIZEOF_PARAM, [0]))
      else NoDesc
  }

  // The byte offsets of a member's fields from the `off`-th on, the member being at `p`; then
  // those of the members after it, up to `left` in all.
  function MemberSlots(d: FieldDesc, p: int, off: nat, left: nat): seq<int>
    decreases left, if off < |d.mOffs| then |d.mOffs| - off else 0
  {
    if left == 0 then []
    else if off < |d.mOffs| then [p + d.mOffs[off]] + MemberSlots(d, p, off + 1, left)
    else MemberSlots(d, p + d.mSz, 0, left - 1)
  }

  function TypeSlots(d: FieldDesc, off: nat, vlen: nat): seq<int> {
    (if off < |d.tOffs| then d.tOffs[off..] else []) + if d.mSz == 0 then [] else MemberSlots(d, SIZEOF_TYPE, 0, vlen)
  }

  // ---------- The slots of each kind are the right ones, each once ----------

  predicate IsSlot(iterKind: IterKind, kind: int, vlen: nat, w: int) {
    match iterKind
    case IterIds => IsIdSlot(kind, vlen, w)
    case IterStrs => IsNameSlot(kind, vlen, w)
  }

  // Members of size `mSz` from `p` on, each with one field at `off`.
  lemma {:induction false} OneFieldPerMember(d: FieldDesc, p: int, left: nat)
    requires |d.mOffs| == 1
    ensures |MemberSlots(d, p, 0, left)| == left
    ensures forall i :: 0 <= i < left ==> MemberSlots(d, p, 0, left)[i] == p + i * d.mSz + d.mOffs[0]
    decreases left
  {
    if left == 0 {
    } else {
      OneFieldPerMember(d, p + d.mSz, left - 1);
      var rest := MemberSlots(d, p + d.mSz, 0, left - 1);
      assert MemberSlots(d, p, 0, left) == [p + d.mOffs[0]] + MemberSlots(d, p, 1, left);
      assert MemberSlots(d, p, 1, left) == rest;
      forall i | 0 <= i < left
        ensures ([p + d.mOffs[0]] + rest)[i] == p + i * d.mSz + d.mOffs[0]
      {
        if i > 0 {
          assert rest[i - 1] == p + d.mSz + (i - 1) * d.mSz + d.mOffs[0];
          assert d.mSz + (i - 1) * d.mSz == i * d.mSz;
        }
      }
    }
  }

  // In words, after the `n` slots of the header: member `i`, of three words or of two, has its
  // field at word `o` of its own.
  predicate TripleWords(s: seq<int>, n: nat, vlen: nat, o: int) {
    |s| == n + vlen && forall j :: n <= j < |s| ==> s[j] == 4 * (3 + 3 * (j - n) + o)
  }

  predicate PairWords(s: seq<int>, n: nat, vlen: nat, o: int) {
    |s| == n + vlen && forall j :: n <= j < |s| ==> s[j] == 4 * (3 + 2 * (j - n) + o)
  }

  lemma SlotsInWords(d: FieldDesc, vlen: nat)
    requires |d.mOffs| == 1 && d.mOffs[0] in {0, 4} && d.mSz > 0
    ensures d.mSz == 8 ==> PairWords(TypeSlots(d, 0, vlen), |d.tOffs|, vlen, d.mOffs[0] / 4)
    ensures d.mSz == 12 ==> TripleWords(TypeSlots(d, 0, vlen), |d.tOffs|, vlen, d.mOffs[0] / 4)
    ensures forall i :: 0 <= i < |d.tOffs| ==> TypeSlots(d, 0, vlen)[i] == d.tOffs[i]
  {
    OneFieldPerMember(d, SIZEOF_TYPE, vlen);
    if d.mSz == 8 {
      assert forall i :: 0 <= i < vlen ==> MemberSlots(d, SIZEOF_TYPE, 0, vlen)[i] == 12 + i * 8 + d.mOffs[0];
    } else if d.mSz == 12 {
      assert forall i :: 0 <= i < vlen ==> MemberSlots(d, SIZEOF_TYPE, 0, vlen)[i] == 12 + i * 12 + d.mOffs[0];
    }
  }

  // Word `w` of the header is one of the `header` slots, or word `w` is the one of its member.
  predicate InTriples(header: seq<int>, vlen: nat, o: int, w: int) {
    4 * w in header || (3 <= w < 3 + 3 * vlen && (w - 3) % 3 == o)
  }

  predicate InPairs(header: seq<int>, vlen: nat, o: int, w: int) {
    4 * w in header || (3 <= w < 3 + 2 * vlen && (w - 3) % 2 == o)
  }

  lemma TriplesExact(s: seq<int>, header: seq<int>, vlen: nat, o: int)
    requires |header| <= 1 && (forall i :: 0 <= i < |header| ==> header[i] in {0, 8}) && 0 <= o < 3
    requires TripleWords(s, |header|, vlen, o) && forall i :: 0 <= i < |header| ==> s[i] == header[i]
    ensures forall i, j :: 0 <= i < j < |s| ==> s[i] < s[j]
    ensures forall i :: 0 <= i < |s| ==> s[i] % 4 == 0 && InTriples(header, vlen, o, s[i] / 4)
    ensures forall w :: InTriples(header, vlen, o, w) ==> 4 * w in s
  {
    var n := |header|;
    forall w | InTriples(header, vlen, o, w)
      ensures 4 * w in s
    {
      if 4 * w in header {
        assert s[0] == 4 * w;
      } else {
        assert s[n + (w - 3) / 3] == 4 * w;
      }
    }
  }

  lemma PairsExact(s: seq<int>, header: seq<int>, vlen: nat, o: int)
    requires |header| <= 1 && (forall i :: 0 <= i < |header| ==> header[i] in {0, 8}) && 0 <= o < 2
    requires PairWords(s, |header|, vlen, o) && forall i :: 0 <= i < |header| ==> s[i] == header[i]
    ensures forall i, j :: 0 <= i < j < |s| ==> s[i] < s[j]
    ensures forall i :: 0 <= i < |s| ==> s[i] % 4 == 0 && InPairs(header, vlen, o, s[i] / 4)
    ensures forall w :: InPairs(header, vlen, o, w) ==> 4 * w in s
  {
    var n := |header|;
    forall w | InPairs(header, vlen, o, w)
      ensures 4 * w in s
    {
      if 4 * w in header {
        assert s[0] == 4 * w;
      } else {
        assert s[n + (w - 3) / 2] == 4 * w;
      }
    }
  }

  ghost predicate SlotsAreExact(s: seq<int>, iterKind: IterKind, kind: int, vlen: nat) {
    && (forall i, j :: 0 <= i < j < |s| ==> s[i] < s[j])
    && (forall i :: 0 <= i < |s| ==> s[i] % 4 == 0 && IsSlot(iterKind, kind, vlen, s[i] / 4))
    && (forall w :: IsSlot(iterKind, kind, vlen, w) ==> 4 * w in s)
  }

  /** For every kind the iterator knows, the slots it is to return are, in increasing order and so
      each once, exactly the words of the record that hold type ids (or names). */
  lemma SlotsExact(iterKind: IterKind, kind: int, vlen: nat)
    requires 0 <= kind < 32 && DescOf(iterKind, kind).Desc?
    ensures SlotsAreExact(TypeSlots(DescOf(iterKind, kind).desc, 0, vlen), iterKind, kind, vlen)
  {
    var d := DescOf(iterKind, kind).desc;
    if d.mSz == 0 {
      HeaderKindSlots(iterKind, kind, vlen);
    } else if d.mSz == 12 {
      TripleKindSlots(iterKind, kind, vlen);
    } else {
      PairKindSlots(iterKind, kind, vlen);
    }
  }

  // A list of words is exact if it names the slots and climbs.
  lemma WordsAreExact(words: seq<int>, s: seq<int>, iterKind: IterKind, kind: int, vlen: nat)
    requires |s| == |words| && forall i :: 0 <= i < |s| ==> s[i] == 4 * words[i]
    requires forall i, j :: 0 <= i < j < |words| ==> words[i] < words[j]
    requires forall w :: IsSlot(iterKind, kind, vlen, w) <==> w in words
    ensures SlotsAreExact(s, iterKind, kind, vlen)
  {
    forall w | IsSlot(iterKind, kind, vlen, w)
      ensures 4 * w in s
    {
      var i :| 0 <= i < |words| && words[i] == w;
      assert s[i] == 4 * w;
    }
  }

  lemma HeaderKindSlots(iterKind: IterKind, kind: int, vlen: nat)
    requires DescOf(iterKind, kind).Desc? && DescOf(iterKind, kind).desc.mSz == 0
    ensures SlotsAreExact(TypeSlots(DescOf(iterKind, kind).desc, 0, vlen), iterKind, kind, vlen)
  {
    var d := DescOf(iterKind, kind).desc;
    var words := if d.tOffs == [] then [] else if |d.tOffs| == 2 then [3, 4] else if iterKind.IterIds? then [2] else [0];
    assert forall w :: IsSlot(iterKind, kind, vlen, w) <==> w in words;
    assert TypeSlots(d, 0, vlen) == d.tOffs;
    WordsAreExact(words, d.tOffs, iterKind, kind, vlen);
  }

  lemma TripleKindSlots(iterKind: IterKind, kind: int, vlen: nat)
    requires DescOf(iterKind, kind).Desc? && DescOf(iterKind, kind).desc.mSz == 12
    ensures SlotsAreExact(TypeSlots(DescOf(iterKind, kind).desc, 0, vlen), iterKind, kind, vlen)
  {
    var d := DescOf(iterKind, kind).desc;
    SlotsInWords(d, vlen);
    TriplesExact(TypeSlots(d, 0, vlen), d.tOffs, vlen, d.mOffs[0] / 4);
    assert forall w :: IsSlot(iterKind, kind, vlen, w) <==> InTriples(d.tOffs, vlen, d.mOffs[0] / 4, w);
  }

  lemma PairKindSlots(iterKind: IterKind, kind: int, vlen: nat)
    requires DescOf(iterKind, kind).Desc? && DescOf(iterKind, kind).desc.mSz == 8
    ensures SlotsAreExact(TypeSlots(DescOf(iterKind, kind).desc, 0, vlen), iterKind, kind, vlen)
  {
    var d := DescOf(iterKind, kind).desc;
    var o := d.mOffs[0] / 4;
    assert forall w :: IsSlot(iterKind, kind, vlen, w) <==> InPairs(d.tOffs, vlen, o, w);
    SlotsInWords(d, vlen);
    PairsExact(TypeSlots(d, 0, vlen), d.tOffs, vlen, o);
  }

  /** The kinds the iterator does not know are those the format does not define. */
  lemma UnknownKinds(iterKind: IterKind, kind: int)
    requires 0 <= kind < 32
    ensures DescOf(iterKind, kind).NoDesc? <==> kind > BTF_KIND_ENUM64
  {
  }

  class FieldIter {
    var desc: FieldDesc
    var p: int          // byte offset into the record, or -1 for NULL
    var mIdx: int
    var offIdx: nat
    var vlen: nat

    // What calls of Next have yet to return.
    ghost function Remaining(): seq<int>
      reads this
    {
      if p < 0 then []
      else if mIdx < 0 then TypeSlots(desc, offIdx, vlen)
      else if desc.mSz == 0 then []
      else if mIdx < vlen then MemberSlots(desc, p, offIdx, vlen - mIdx)
      else []
    }

    ghost predicate Valid()
      reads this
    {
      && mIdx >= -1
      && (desc.mSz > 0 ==> |desc.mOffs| >= 1)
      && (p >= 0 && mIdx < 0 ==> p == 0 && offIdx <= |desc.tOffs|)
      && (p >= 0 && mIdx >= 0 ==> desc.mSz > 0 && p >= SIZEOF_TYPE && 1 <= offIdx <= |desc.mOffs| && mIdx < vlen)
    }

    constructor (t: Record, iterKind: IterKind)
      requires |t| >= 3
      ensures Valid()
      ensures match DescOf(iterKind, Kind(t))
        case NoDesc => p < 0
        case Desc(d) => p == 0 && Remaining() == TypeSlots(d, 0, Vlen(t))
    {
      p := -1;
      mIdx := -1;
      offIdx := 0;
      vlen := 0;
      desc := NO_FIELDS;
      new;
      match DescOf(iterKind, Kind(t)) {
        case NoDesc =>
        case Desc(d) =>
          desc := d;
          if desc.mSz != 0 {
            vlen := Vlen(t);
          }
          p := 0;
      }
    }

    /** The next slot, or -1 when there is none: each remaining slot is returned once, in order. */
    method Next() returns (slot: int)
      requires Valid()
      modifies this
      ensures Valid()
      ensures old(Remaining()) == [] ==> slot == -1 && Remaining() == []
      ensures old(Remaining()) != [] ==> slot == old(Remaining())[0] && Remaining() == old(Remaining())[1..]
    {
      if p < 0 {
        return -1;
      }
      if mIdx < 0 {
        if offIdx < |desc.tOffs| {
          slot := p + desc.tOffs[offIdx];
          offIdx := offIdx + 1;
          return;
        }
        mIdx := 0;
        p := p + SIZEOF_TYPE;
        offIdx := 0;
      }
      slot := NextOfMembers();
    }

    // The second half of Next: the fields of the members.
    method NextOfMembers() returns (slot: int)
      requires p >= SIZEOF_TYPE && mIdx >= 0 && (desc.mSz > 0 ==> |desc.mOffs| >= 1)
      requires desc.mSz > 0 ==> offIdx <= |desc.mOffs| && (mIdx < vlen || (mIdx == 0 && offIdx == 0))
      modifies this
      ensures Valid()
      ensures old(Remaining()) == [] ==> slot == -1 && Remaining() == []
      ensures old(Remaining()) != [] ==> slot == old(Remaining())[0] && Remaining() == old(Remaining())[1..]
    {
      if desc.mSz == 0 {
        p := -1;
        return -1;
      }
      if offIdx >= |desc.mOffs| {
        assert old(Remaining()) == MemberSlots(desc, p + desc.mSz, 0, vlen - mIdx - 1);
        mIdx := mIdx + 1;
        p := p + desc.mSz;
        offIdx := 0;
      }
      if mIdx < vlen {
        slot := p + desc.mOffs[offIdx];
        offIdx := offIdx + 1;
        return;
      }
      p := -1;
      return -1;
    }
  }
}
