/** The in-memory form of BTF types: 32-bit words laid out as in include/uapi/linux/btf.h.

    A type record is the words of its struct btf_type and whatever follows it.  A name word holds a
    string offset; here it stands for the string itself, so copying a record between BTF objects
    leaves its name words alone. */
module BtfFormat {
  import opened Common

  type Record = seq<u32>

  const BTF_KIND_UNKN := 0
  const BTF_KIND_INT := 1
  const BTF_KIND_PTR := 2
  const BTF_KIND_ARRAY := 3
  const BTF_KIND_STRUCT := 4
  const BTF_KIND_UNION := 5
  const BTF_KIND_ENUM := 6
  const BTF_KIND_FWD := 7
  const BTF_KIND_TYPEDEF := 8
  const BTF_KIND_VOLATILE := 9
  const BTF_KIND_CONST := 10
  const BTF_KIND_RESTRICT := 11
  const BTF_KIND_FUNC := 12
  const BTF_KIND_FUNC_PROTO := 13
  const BTF_KIND_VAR := 14
  const BTF_KIND_DATASEC := 15
  const BTF_KIND_FLOAT := 16
  const BTF_KIND_DECL_TAG := 17
  const BTF_KIND_TYPE_TAG := 18
  const BTF_KIND_ENUM64 := 19

  const BTF_MAX_NR_TYPES := 0x7fff_ffff

  // Sizes in bytes of the structs that make up records.
  const SIZEOF_TYPE := 12
  const SIZEOF_MEMBER := 12
  const SIZEOF_PARAM := 8
  const SIZEOF_VAR_SECINFO := 12
  const SIZEOF_ENUM := 8
  const SIZEOF_ENUM64 := 12

  // struct btf_type is { name_off; info; size or type }.
  const NAME := 0
  const INFO := 1
  const SIZE_OR_TYPE := 2

  function Kind(t: Record): int
    requires |t| >= 3
  {
    t[INFO] / 0x100_0000 % 32
  }

  function Vlen(t: Record): nat
    requires |t| >= 3
  {
    t[INFO] % 0x1_0000
  }

  function Kflag(t: Record): bool
    requires |t| >= 3
  {
    t[INFO] / 0x8000_0000 == 1
  }

  function Info(kind: int, vlen: int, kflag: bool): u32
    requires 0 <= kind < 32 && 0 <= vlen < 0x1_0000
  {
    (if kflag then 0x8000_0000 else 0) + kind * 0x100_0000 + vlen
  }

  lemma InfoParts(t: Record, kind: int, vlen: int, kflag: bool)
    requires |t| >= 3 && 0 <= kind < 32 && 0 <= vlen < 0x1_0000 && t[INFO] == Info(kind, vlen, kflag)
    ensures Kind(t) == kind && Vlen(t) == vlen && Kflag(t) == kflag
  {
  }

  // Words after the header.
  function ExtraWords(kind: int, vlen: nat): nat {
    if kind == BTF_KIND_INT || kind == BTF_KIND_VAR || kind == BTF_KIND_DECL_TAG then 1
    else if kind == BTF_KIND_ARRAY then 3
    else if kind == BTF_KIND_STRUCT || kind == BTF_KIND_UNION || kind == BTF_KIND_DATASEC || kind == BTF_KIND_ENUM64 then 3 * vlen
    else if kind == BTF_KIND_ENUM || kind == BTF_KIND_FUNC_PROTO then 2 * vlen
    else 0
  }

  predicate WellSized(t: Record) {
    |t| >= 3 && |t| == 3 + ExtraWords(Kind(t), Vlen(t))
  }

  predicate IsComposite(t: Record)
    requires |t| >= 3
  {
    Kind(t) == BTF_KIND_STRUCT || Kind(t) == BTF_KIND_UNION
  }

  // Qualifiers, tags and typedefs: a record that only points on to another.
  predicate IsModOrTypedef(t: Record)
    requires |t| >= 3
  {
    var k := Kind(t);
    k == BTF_KIND_VOLATILE || k == BTF_KIND_CONST || k == BTF_KIND_RESTRICT || k == BTF_KIND_TYPE_TAG || k == BTF_KIND_TYPEDEF
  }

  // Member `k` of a composite: the word index of its name, type and offset.
  function MemberName(k: nat): nat { 3 + 3 * k }

  function MemberType(k: nat): nat { 3 + 3 * k + 1 }

  function MemberOffset(k: nat): nat { 3 + 3 * k + 2 }

  function ParamType(k: nat): nat { 3 + 2 * k + 1 }

  // btf_member_bit_offset and btf_member_bitfield_size.
  function BitOffset(t: Record, k: nat): int
    requires WellSized(t) && IsComposite(t) && k < Vlen(t)
  {
    var off := t[MemberOffset(k)];
    if Kflag(t) then off % 0x100_0000 else off
  }

  function BitfieldSize(t: Record, k: nat): int
    requires WellSized(t) && IsComposite(t) && k < Vlen(t)
  {
    var off := t[MemberOffset(k)];
    if Kflag(t) then off / 0x100_0000 else 0
  }

  // The record with word `w` overwritten.
  function Overwrite(t: Record, w: nat, v: u32): (r: Record)
    requires w < |t|
    ensures |r| == |t| && r[w] == v && forall i :: 0 <= i < |t| && i != w ==> r[i] == t[i]
  {
    t[..w] + [v] + t[w + 1..]
  }

  // ---------- Where a record holds type ids ----------

  // Word `w` of the record holds the id of another type.  This is read off the struct definitions,
  // except that the third word of a forward declaration, which holds none, counts as the iterator has it.
  predicate IsIdSlot(kind: int, vlen: nat, w: int) {
    if kind == BTF_KIND_ARRAY then w == 3 || w == 4
    else if kind == BTF_KIND_STRUCT || kind == BTF_KIND_UNION then 3 <= w < 3 + 3 * vlen && (w - 3) % 3 == 1
    else if kind == BTF_KIND_DATASEC then 3 <= w < 3 + 3 * vlen && (w - 3) % 3 == 0
    else if kind == BTF_KIND_FUNC_PROTO then w == SIZE_OR_TYPE || (3 <= w < 3 + 2 * vlen && (w - 3) % 2 == 1)
    else if BTF_KIND_TYPEDEF <= kind <= BTF_KIND_FUNC
         || kind in {BTF_KIND_PTR, BTF_KIND_FWD, BTF_KIND_VAR, BTF_KIND_DECL_TAG, BTF_KIND_TYPE_TAG} then
      w == SIZE_OR_TYPE
    else false
  }

  // Word `w` of the record holds a name.
  predicate IsNameSlot(kind: int, vlen: nat, w: int) {
    kind != BTF_KIND_UNKN &&
    (w == NAME
    || (kind in {BTF_KIND_STRUCT, BTF_KIND_UNION, BTF_KIND_ENUM64} && 3 <= w < 3 + 3 * vlen && (w - 3) % 3 == 0)
    || (kind in {BTF_KIND_ENUM, BTF_KIND_FUNC_PROTO} && 3 <= w < 3 + 2 * vlen && (w - 3) % 2 == 0))
  }

  /** The same by the numbers of the kinds. */
  lemma SlotsByNumber(kind: int, vlen: nat, w: int)
    requires 0 <= kind < 32
    ensures IsIdSlot(kind, vlen, w) <==>
            || (kind in {2, 7, 8, 9, 10, 11, 12, 13, 14, 17, 18} && w == 2)
            || (kind == 3 && (w == 3 || w == 4))
            || (kind in {4, 5} && exists k :: 0 <= k < vlen && w == 3 + 1 + 3 * k)
            || (kind == 13 && exists k :: 0 <= k < vlen && w == 3 + 1 + 2 * k)
            || (kind == 15 && exists k :: 0 <= k < vlen && w == 3 + 0 + 3 * k)
    ensures IsNameSlot(kind, vlen, w) <==>
            || (kind != 0 && w == 0)
            || (kind in {4, 5, 19} && exists k :: 0 <= k < vlen && w == 3 + 0 + 3 * k)
            || (kind in {6, 13} && exists k :: 0 <= k < vlen && w == 3 + 0 + 2 * k)
  {
    Triples(vlen, w, 0);
    Triples(vlen, w, 1);
    Pairs(vlen, w, 0);
    Pairs(vlen, w, 1);
  }

  lemma Triples(vlen: nat, w: int, field: nat)
    requires field < 3
    ensures (exists k :: 0 <= k < vlen && w == 3 + field + 3 * k) <==> 3 <= w < 3 + 3 * vlen && (w - 3) % 3 == field
  {
    if 3 <= w < 3 + 3 * vlen && (w - 3) % 3 == field {
      var k := (w - 3) / 3;
      assert 0 <= k < vlen && w == 3 + field + 3 * k;
    }
  }

  lemma Pairs(vlen: nat, w: int, field: nat)
    requires field < 2
    ensures (exists k :: 0 <= k < vlen && w == 3 + field + 2 * k) <==> 3 <= w < 3 + 2 * vlen && (w - 3) % 2 == field
  {
    if 3 <= w < 3 + 2 * vlen && (w - 3) % 2 == field {
      var k := (w - 3) / 2;
      assert 0 <= k < vlen && w == 3 + field + 2 * k;
    }
  }

  lemma SlotInRecord(t: Record, w: int)
    requires WellSized(t)
    requires IsIdSlot(Kind(t), Vlen(t), w) || IsNameSlot(Kind(t), Vlen(t), w)
    ensures 0 <= w < |t|
  {
  }
}
