/** The second half of the BTF minimiser (lib/bpftool/src/gen.c, btfgen_get_btf): the marked types
    are copied to a new object and every type id in it is rewritten, in place. */
module BtfMinimise {
  import opened Common
  import opened BtfFormat
  import opened BtfGraph
  import opened BtfMark
  import opened BtfIter
  import BtfGen

  // ---------- Building types (lib/libbpf/src/btf.c) ----------

  // btf__add_field refuses a bitfield without a size or too far in, and an offset in a union.
  predicate FieldOk(t: Record, bitOffset: u32, bitSize: u32)
    requires |t| >= 3
  {
    && ((bitSize != 0 || bitOffset % 8 != 0) ==> 0 < bitSize <= 255 && bitOffset <= 0xff_ffff)
    && (Kind(t) == BTF_KIND_UNION ==> bitOffset == 0)
  }

  /** By the numbers: a struct takes a field of whole bytes, or a bitfield of 1 to 255 bits not further
      in than 24 bits can say; a union (kind 5) only what begins at 0. */
  predicate TakesField(kind: int, bitOffset: u32, bitSize: u32) {
    if kind == 5 then bitOffset == 0 && bitSize <= 255
    else (bitSize == 0 && bitOffset % 8 == 0) || (1 <= bitSize <= 255 && bitOffset <= 0xff_ffff)
  }

  function WithField(t: Record, name: u32, typeId: u32, bitOffset: u32, bitSize: u32): Record
    requires |t| >= 3 && Vlen(t) < 0xffff && FieldOk(t, bitOffset, bitSize)
  {
    var isBitfield := bitSize != 0 || bitOffset % 8 != 0;
    [t[NAME], Info(Kind(t), Vlen(t) + 1, isBitfield || Kflag(t)), t[SIZE_OR_TYPE]] + t[3..] +
    [name, typeId, bitOffset + bitSize * 0x100_0000]
  }

  class Btf {
    var types: seq<Record>

    constructor ()
      ensures types == [[0, 0, 0]]
    {
      types := [[0, 0, 0]];
    }

    method AddComposite(kind: int, name: u32, size: u32) returns (id: nat)
      requires kind == BTF_KIND_STRUCT || kind == BTF_KIND_UNION
      modifies this
      ensures types == old(types) + [[name, Info(kind, 0, false), size]] && id == |old(types)|
    {
      types := types + [[name, Info(kind, 0, false), size]];
      id := |types| - 1;
    }

    method AddField(name: u32, typeId: u32, bitOffset: u32, bitSize: u32) returns (ok: bool)
      requires |types| >= 2
      requires var t := types[|types| - 1]; |t| >= 3 && IsComposite(t) && Vlen(t) < 0xffff
      modifies this
      ensures ok <==> typeId <= BTF_MAX_NR_TYPES && FieldOk(old(types)[|old(types)| - 1], bitOffset, bitSize)
      ensures ok ==> types == old(types)[..|old(types)| - 1]
                              + [WithField(old(types)[|old(types)| - 1], name, typeId, bitOffset, bitSize)]
      ensures !ok ==> types == old(types)
      ensures var kind := old(types)[|old(types)| - 1][1] / 0x100_0000 % 32;
              ok <==> typeId <= 0x7fff_ffff && TakesField(kind, bitOffset, bitSize)
    {
      var t := types[|types| - 1];
      if typeId > BTF_MAX_NR_TYPES {
        return false;
      }
      var isBitfield := bitSize != 0 || bitOffset % 8 != 0;
      if isBitfield && (bitSize == 0 || bitSize > 255 || bitOffset > 0xff_ffff) {
        return false;
      }
      if Kind(t) == BTF_KIND_UNION && bitOffset != 0 {
        return false;
      }
      types := types[..|types| - 1] + [WithField(t, name, typeId, bitOffset, bitSize)];
      ok := true;
    }

    method AddType(t: Record) returns (id: nat)
      modifies this
      ensures types == old(types) + [t] && id == |old(types)|
    {
      types := types + [t];
      id := |types| - 1;
    }

    /** Rewrites the type ids of type `i`: each once, and nothing else. */
    method RenumberType(i: nat, ids: seq<u32>) returns (ok: bool)
      requires 0 < i < |types| && WellSized(types[i])
      requires forall w :: 0 <= w < |types[i]| && IsIdSlot(Kind(types[i]), Vlen(types[i]), w) ==> types[i][w] < |ids|
      modifies this
      ensures ok <==> DescOf(IterIds, Kind(old(types)[i])).Desc?
      ensures ok ==> |types| == |old(types)| && types == old(types)[i := types[i]] && IsRenumbered(old(types)[i], types[i], ids)
      ensures !ok ==> types == old(types)
    {
      var t;
      ok, t := RenumberRecord(types[i], ids);
      if ok {
        types := types[i := t];
      }
    }
  }

  // The loop over the id words of one record.
  method RenumberRecord(t: Record, ids: seq<u32>) returns (ok: bool, r: Record)
    requires WellSized(t)
    requires forall w :: 0 <= w < |t| && IsIdSlot(Kind(t), Vlen(t), w) ==> t[w] < |ids|
    ensures ok <==> DescOf(IterIds, Kind(t)).Desc?
    ensures ok ==> IsRenumbered(t, r, ids)
  {
    r := t;
    var it := new FieldIter(t, IterIds);
    if it.p < 0 {
      return false, r;
    }
    ghost var slots := TypeSlots(DescOf(IterIds, Kind(t)).desc, 0, Vlen(t));
    SlotsExact(IterIds, Kind(t), Vlen(t));
    forall k | 0 <= k < |slots|
      ensures SlotUsable(t, ids, slots[k])
    {
      SlotWord(t, slots, k);
    }
    r := RewriteSlots(it, t, ids, slots);
    AllSlotsRenumbered(t, r, ids, slots);
    ok := true;
  }

  // The slot is a whole word of the record, and holds an id that the map has.
  predicate SlotUsable(t: Record, ids: seq<u32>, slot: int) {
    var w := slot / 4;
    slot == 4 * w && 0 <= w < |t| && t[w] < |ids|
  }

  method RewriteSlots(it: FieldIter, t: Record, ids: seq<u32>, ghost slots: seq<int>) returns (r: Record)
    requires it.Valid() && it.Remaining() == slots
    requires forall i, j :: 0 <= i < j < |slots| ==> slots[i] < slots[j]
    requires forall k :: 0 <= k < |slots| ==> SlotUsable(t, ids, slots[k])
    modifies it
    ensures IsPartlyRenumbered(t, r, ids, slots, |slots|)
  {
    r := t;
    ghost var done: nat := 0;
    var slot := it.Next();
    while slot != -1
      invariant it.Valid() && done <= |slots|
      invariant slot == -1 ==> done == |slots|
      invariant slot != -1 ==> done < |slots| && slot == slots[done] && it.Remaining() == slots[done + 1..]
      invariant IsPartlyRenumbered(t, r, ids, slots, done)
      decreases |slots| - done
    {
      assert SlotUsable(t, ids, slots[done]);
      var w := slot / 4;
      RenumberSlot(t, r, ids, slots, done, w);
      r := Overwrite(r, w, ids[r[w]]);
      done := done + 1;
      assert done < |slots| ==> slots[done..][0] == slots[done] && slots[done..][1..] == slots[done + 1..];
      slot := it.Next();
    }
  }

  lemma SlotWord(t: Record, slots: seq<int>, k: nat)
    requires WellSized(t) && SlotsAreExact(slots, IterIds, Kind(t), Vlen(t)) && k < |slots|
    ensures 0 <= slots[k] / 4 < |t| && slots[k] == 4 * (slots[k] / 4) && IsIdSlot(Kind(t), Vlen(t), slots[k] / 4)
  {
    assert IsSlot(IterIds, Kind(t), Vlen(t), slots[k] / 4);
    SlotInRecord(t, slots[k] / 4);
  }

  // The slots before `done` have been rewritten.
  ghost predicate IsPartlyRenumbered(t: Record, r: Record, ids: seq<u32>, slots: seq<int>, done: nat)
    requires done <= |slots|
  {
    && |r| == |t|
    && forall w :: 0 <= w < |t| ==>
         if 4 * w in slots[..done] then t[w] < |ids| && r[w] == ids[t[w]] else r[w] == t[w]
  }

  lemma RenumberSlot(t: Record, r: Record, ids: seq<u32>, slots: seq<int>, done: nat, w: nat)
    requires done < |slots| && slots[done] == 4 * w && w < |t| && t[w] < |ids|
    requires forall i, j :: 0 <= i < j < |slots| ==> slots[i] < slots[j]
    requires IsPartlyRenumbered(t, r, ids, slots, done)
    ensures r[w] == t[w] && IsPartlyRenumbered(t, Overwrite(r, w, ids[r[w]]), ids, slots, done + 1)
  {
    assert 4 * w !in slots[..done];
    assert slots[..done + 1] == slots[..done] + [4 * w];
  }

  lemma AllSlotsRenumbered(t: Record, r: Record, ids: seq<u32>, slots: seq<int>)
    requires WellSized(t) && SlotsAreExact(slots, IterIds, Kind(t), Vlen(t))
    requires IsPartlyRenumbered(t, r, ids, slots, |slots|)
    ensures IsRenumbered(t, r, ids)
  {
    assert slots[..|slots|] == slots;
    forall w | 0 <= w < |t|
      ensures 4 * w in slots <==> IsIdSlot(Kind(t), Vlen(t), w)
    {
      if 4 * w in slots {
        var k :| 0 <= k < |slots| && slots[k] == 4 * w;
        assert IsSlot(IterIds, Kind(t), Vlen(t), slots[k] / 4);
      } else {
        assert !IsSlot(IterIds, Kind(t), Vlen(t), w);
      }
    }
  }

  /** Every type id of the record went through the map once; every other word is as it was. */
  predicate IsRenumbered(t: Record, r: Record, ids: seq<u32>)
    requires |t| >= 3
  {
    && |r| == |t|
    && forall w :: 0 <= w < |t| ==>
         if IsIdSlot(Kind(t), Vlen(t), w) then t[w] < |ids| && r[w] == ids[t[w]] else r[w] == t[w]
  }

  // ---------- Copying a marked struct ----------

  // The marked members among the first `n`, in order.
  function Kept(c: Record, n: nat): (s: seq<nat>)
    requires |c| >= 3 + 3 * n
    ensures forall j :: 0 <= j < |s| ==> s[j] < n && c[MemberName(s[j])] == MARKED
  {
    if n == 0 then []
    else Kept(c, n - 1) + if c[MemberName(n - 1)] == MARKED then [n - 1] else []
  }

  /** They are exactly the marked members, each once, in the order of the struct. */
  lemma {:induction false} KeptExact(c: Record, n: nat)
    requires |c| >= 3 + 3 * n
    ensures forall i, j :: 0 <= i < j < |Kept(c, n)| ==> Kept(c, n)[i] < Kept(c, n)[j]
    ensures forall k: nat :: k < n && c[MemberName(k)] == MARKED ==> k in Kept(c, n)
    ensures |Kept(c, n)| <= n
  {
    if n == 0 {
    } else {
      KeptExact(c, n - 1);
    }
  }

  // The copy accepts this member.
  predicate MemberOk(t: Record, k: nat)
    requires WellSized(t) && IsComposite(t) && k < Vlen(t)
  {
    FieldOk(t, BitOffset(t, k), BitfieldSize(t, k))
  }

  /** Member `j` of the copy is member `k` of the original, with the type id `typeId`. */
  predicate SameMember(t: Record, k: nat, r: Record, j: nat, typeId: int)
    requires WellSized(t) && IsComposite(t) && k < Vlen(t)
    requires WellSized(r) && IsComposite(r) && j < Vlen(r)
  {
    && r[MemberName(j)] == t[MemberName(k)] && r[MemberType(j)] == typeId
    && BitOffset(r, j) == BitOffset(t, k) && BitfieldSize(r, j) == BitfieldSize(t, k)
  }

  /** `r` is the struct or union `t` cut down to the members `kept`, type ids as they were. */
  predicate IsRestricted(t: Record, r: Record, kept: seq<nat>)
    requires WellSized(t) && IsComposite(t) && forall j :: 0 <= j < |kept| ==> kept[j] < Vlen(t)
  {
    && WellSized(r) && Kind(r) == Kind(t) && Vlen(r) == |kept|
    && r[NAME] == t[NAME] && r[SIZE_OR_TYPE] == t[SIZE_OR_TYPE]
    && (forall j :: 0 <= j < |kept| ==> SameMember(t, kept[j], r, j, t[MemberType(kept[j])]))
    && (Kflag(r) ==> Kflag(t))
    && (forall j :: 0 <= j < |kept| && BitfieldSize(t, kept[j]) != 0 ==> Kflag(r))
  }

  lemma EmptyIsRestricted(t: Record)
    requires WellSized(t) && IsComposite(t)
    ensures IsRestricted(t, [t[NAME], Info(Kind(t), 0, false), t[SIZE_OR_TYPE]], [])
  {
    InfoParts([t[NAME], Info(Kind(t), 0, false), t[SIZE_OR_TYPE]], Kind(t), 0, false);
  }

  // Adding a bitfield switches the encoding of all offsets; the ones already there still decode.
  lemma WithFieldIsRestricted(t: Record, r: Record, kept: seq<nat>, k: nat)
    requires WellSized(t) && IsComposite(t) && k < Vlen(t) && |kept| < 0xffff
    requires forall j :: 0 <= j < |kept| ==> kept[j] < Vlen(t)
    requires IsRestricted(t, r, kept) && MemberOk(t, k)
    ensures FieldOk(r, BitOffset(t, k), BitfieldSize(t, k))
    ensures IsRestricted(t, WithField(r, t[MemberName(k)], t[MemberType(k)], BitOffset(t, k), BitfieldSize(t, k)), kept + [k])
  {
    var off, size := BitOffset(t, k), BitfieldSize(t, k);
    var n := |kept|;
    var x := WithField(r, t[MemberName(k)], t[MemberType(k)], off, size);
    InfoParts(x, Kind(r), n + 1, (size != 0 || off % 8 != 0) || Kflag(r));
    forall j | 0 <= j < n
      ensures SameMember(t, kept[j], x, j, t[MemberType(kept[j])])
    {
      EarlierMember(t, kept[j], r, x, j);
    }
    assert x[MemberName(n)] == t[MemberName(k)] && x[MemberType(n)] == t[MemberType(k)];
    assert x[MemberOffset(n)] == off + size * 0x100_0000;
    forall j | 0 <= j < |kept + [k]|
      ensures SameMember(t, (kept + [k])[j], x, j, t[MemberType((kept + [k])[j])])
    {
      if j == n {
        assert (kept + [k])[j] == k;
      } else {
        assert (kept + [k])[j] == kept[j];
      }
    }
  }

  lemma EarlierMember(t: Record, k: nat, r: Record, x: Record, j: nat)
    requires WellSized(t) && IsComposite(t) && k < Vlen(t)
    requires WellSized(r) && IsComposite(r) && j < Vlen(r)
    requires WellSized(x) && IsComposite(x) && j < Vlen(x)
    requires forall w :: 3 <= w < |r| ==> w < |x| && x[w] == r[w]
    requires SameMember(t, k, r, j, t[MemberType(k)])
    requires Kflag(r) ==> Kflag(x)
    requires Kflag(x) ==> Kflag(t)
    requires BitfieldSize(t, k) != 0 ==> Kflag(r)
    ensures SameMember(t, k, x, j, t[MemberType(k)])
  {
    assert x[MemberOffset(j)] == r[MemberOffset(j)];
  }

  // ---------- New ids ----------

  predicate IsMarkedType(m: seq<Record>, i: nat) {
    0 < i < |m| && |m[i]| >= 3 && m[i][NAME] == MARKED
  }

  // How many of the types before `i` are marked.
  function Rank(m: seq<Record>, i: nat): nat {
    if i == 0 then 0 else Rank(m, i - 1) + if IsMarkedType(m, i - 1) then 1 else 0
  }

  /** The id of a type in the new object; 0, which is void, for a type that is left out. */
  function NewId(m: seq<Record>, i: nat): nat {
    if IsMarkedType(m, i) then 1 + Rank(m, i) else 0
  }

  lemma {:induction false} RankGrows(m: seq<Record>, i: nat, j: nat)
    requires i <= j
    ensures Rank(m, i) <= Rank(m, j)
    ensures i < j && IsMarkedType(m, i) ==> Rank(m, i) < Rank(m, j)
    ensures Rank(m, j) <= j
    decreases j
  {
    if i < j {
      RankGrows(m, i, j - 1);
    } else if j > 0 {
      RankGrows(m, j - 1, j - 1);
    }
  }

  /** New ids keep the order of the old ones ... */
  lemma NewIdsInOrder(m: seq<Record>, i: nat, j: nat)
    requires i < j && IsMarkedType(m, i) && IsMarkedType(m, j)
    ensures 1 <= NewId(m, i) < NewId(m, j) <= Rank(m, |m|)
  {
    RankGrows(m, i, j);
    RankGrows(m, j, |m|);
  }

  /** ... and are dense: each id from 1 up to the number of marked types belongs to one of them. */
  lemma {:induction false} NewIdsDense(m: seq<Record>, n: nat, v: nat) returns (i: nat)
    requires 1 <= v <= Rank(m, n)
    ensures i < n && IsMarkedType(m, i) && NewId(m, i) == v
    decreases n
  {
    if v == Rank(m, n) && IsMarkedType(m, n - 1) {
      i := n - 1;
    } else {
      i := NewIdsDense(m, n - 1, v);
    }
  }

  // ---------- The image of the marked graph ----------

  // What the first pass makes of a marked type.
  predicate IsCopy(t: Record, c: Record, r: Record)
    requires WellSized(t) && |c| == |t|
  {
    if IsComposite(t) then IsRestricted(t, r, Kept(c, Vlen(t))) else r == t
  }

  /** What the two passes make of a marked type: a struct or union keeps exactly its marked members,
      with their names, bit offsets and bitfield sizes; any other type keeps every word; and each
      type id in it, and nothing else, has become the new id of the same type. */
  predicate IsImage(t: Record, c: Record, r: Record, ids: seq<u32>)
    requires WellSized(t) && |c| == |t|
  {
    if IsComposite(t) then
      var kept := Kept(c, Vlen(t));
      && WellSized(r) && Kind(r) == Kind(t) && Vlen(r) == |kept|
      && r[NAME] == t[NAME] && r[SIZE_OR_TYPE] == t[SIZE_OR_TYPE]
      && forall j :: 0 <= j < |kept| ==>
           t[MemberType(kept[j])] < |ids| && SameMember(t, kept[j], r, j, ids[t[MemberType(kept[j])]])
    else IsRenumbered(t, r, ids)
  }

  lemma CopyRenumberedIsImage(t: Record, c: Record, q: Record, r: Record, ids: seq<u32>)
    requires WellSized(t) && |c| == |t| && IsCopy(t, c, q) && IsRenumbered(q, r, ids)
    ensures IsImage(t, c, r, ids)
  {
    if IsComposite(t) {
      var kept := Kept(c, Vlen(t));
      assert !IsIdSlot(Kind(q), Vlen(q), INFO) && !IsIdSlot(Kind(q), Vlen(q), NAME);
      assert r[INFO] == q[INFO] && r[NAME] == q[NAME] && r[SIZE_OR_TYPE] == q[SIZE_OR_TYPE];
      forall j | 0 <= j < |kept|
        ensures t[MemberType(kept[j])] < |ids| && SameMember(t, kept[j], r, j, ids[t[MemberType(kept[j])]])
      {
        assert SameMember(t, kept[j], q, j, t[MemberType(kept[j])]);
        assert IsIdSlot(Kind(q), Vlen(q), MemberType(j));
        assert !IsIdSlot(Kind(q), Vlen(q), MemberName(j)) && !IsIdSlot(Kind(q), Vlen(q), MemberOffset(j));
      }
    }
  }

  // The copy's type ids are type ids of the original, so the map has them.
  lemma CopyRefers(t: Record, c: Record, q: Record, n: int)
    requires ValidRecord(t, n) && |c| == |t| && IsCopy(t, c, q)
    ensures WellSized(q) && Kind(q) == Kind(t)
    ensures forall w :: 0 <= w < |q| && IsIdSlot(Kind(q), Vlen(q), w) ==> q[w] < n
  {
    if IsComposite(t) {
      var kept := Kept(c, Vlen(t));
      forall w | 0 <= w < |q| && IsIdSlot(Kind(q), Vlen(q), w)
        ensures q[w] < n
      {
        var j := (w - 3) / 3;
        assert w == MemberType(j);
        assert SameMember(t, kept[j], q, j, t[MemberType(kept[j])]);
        assert IsIdSlot(Kind(t), Vlen(t), MemberType(kept[j]));
      }
    }
  }

  // Every marked struct can be rebuilt.
  predicate Rebuildable(t: Record, c: Record)
    requires WellSized(t) && |c| == |t|
  {
    IsComposite(t) ==> forall k :: 0 <= k < Vlen(t) && c[MemberName(k)] == MARKED ==> MemberOk(t, k)
  }

  // ---------- btfgen_get_btf ----------

  // One marked member, appended to the struct being rebuilt, which is the last type.
  method CopyMember(btf: Btf, t: Record, k: nat, ghost kept: seq<nat>) returns (ok: bool)
    requires WellSized(t) && IsComposite(t) && k < Vlen(t) && t[MemberType(k)] <= BTF_MAX_NR_TYPES
    requires |kept| < 0xffff && forall j :: 0 <= j < |kept| ==> kept[j] < Vlen(t)
    requires |btf.types| >= 2 && IsRestricted(t, btf.types[|btf.types| - 1], kept)
    modifies btf
    ensures ok <==> MemberOk(t, k)
    ensures ok ==> |btf.types| == |old(btf.types)| && btf.types[..|btf.types| - 1] == old(btf.types)[..|btf.types| - 1]
    ensures ok ==> IsRestricted(t, btf.types[|btf.types| - 1], kept + [k])
  {
    ghost var r := btf.types[|btf.types| - 1];
    if MemberOk(t, k) {
      WithFieldIsRestricted(t, r, kept, k);
    } else {
      RefusedMember(t, r, kept, k);
    }
    ok := btf.AddField(t[MemberName(k)], t[MemberType(k)], BitOffset(t, k), BitfieldSize(t, k));
  }

  // A struct or union: the header, then every marked member.
  method CopyComposite(btf: Btf, t: Record, c: Record) returns (ok: bool)
    requires WellSized(t) && |c| == |t| && IsComposite(t)
    requires forall k :: 0 <= k < Vlen(t) ==> t[MemberType(k)] <= BTF_MAX_NR_TYPES
    requires |btf.types| >= 1
    modifies btf
    ensures ok <==> Rebuildable(t, c)
    ensures ok ==> |btf.types| == |old(btf.types)| + 1 && btf.types[..|old(btf.types)|] == old(btf.types)
    ensures ok ==> IsCopy(t, c, btf.types[|old(btf.types)|])
  {
    ghost var was := btf.types;
    var id := btf.AddComposite(Kind(t), t[NAME], t[SIZE_OR_TYPE]);
    EmptyIsRestricted(t);
    var idx := 0;
    while idx < Vlen(t)
      invariant 0 <= idx <= Vlen(t)
      invariant |btf.types| == |was| + 1 && btf.types[..|was|] == was
      invariant |Kept(c, idx)| <= idx && IsRestricted(t, btf.types[|was|], Kept(c, idx))
      invariant forall k :: 0 <= k < idx && c[MemberName(k)] == MARKED ==> MemberOk(t, k)
    {
      if c[MemberName(idx)] == MARKED {
        ok := CopyMember(btf, t, idx, Kept(c, idx));
        if !ok {
          return;
        }
      }
      idx := idx + 1;
    }
    ok := true;
  }

  lemma RefusedMember(t: Record, r: Record, kept: seq<nat>, k: nat)
    requires WellSized(t) && IsComposite(t) && k < Vlen(t)
    requires forall j :: 0 <= j < |kept| ==> kept[j] < Vlen(t)
    requires IsRestricted(t, r, kept) && !MemberOk(t, k)
    ensures !FieldOk(r, BitOffset(t, k), BitfieldSize(t, k))
  {
  }

  // The table of new ids after `n` types.
  predicate IsIdMap(m: seq<Record>, ids: seq<u32>, n: nat) {
    n <= |ids| && forall i :: 0 <= i < |ids| ==> ids[i] == if i < n then NewId(m, i) else 0
  }

  // The copies of the marked types before `n`, each at its new id.
  ghost predicate Copied(src: TypeTable, m: seq<Record>, types: seq<Record>, n: nat)
    requires IsClone(src, m) && n <= |src|
  {
    && |types| == 1 + Rank(m, n)
    && types[0] == [0, 0, 0]
    && forall i :: 0 <= i < n && IsMarkedType(m, i) ==>
         NewId(m, i) < |types| && WellSized(src[i]) && |m[i]| == |src[i]| && IsCopy(src[i], m[i], types[NewId(m, i)])
  }

  lemma CopiedMore(src: TypeTable, m: seq<Record>, types: seq<Record>, types': seq<Record>, n: nat)
    requires IsClone(src, m) && n < |src| && Copied(src, m, types, n) && IsMarkedType(m, n)
    requires |types'| == |types| + 1 && types'[..|types|] == types
    requires WellSized(src[n]) && |m[n]| == |src[n]| && IsCopy(src[n], m[n], types'[|types|])
    ensures Copied(src, m, types', n + 1)
  {
    forall i | 0 <= i < n + 1 && IsMarkedType(m, i)
      ensures NewId(m, i) < |types'| && WellSized(src[i]) && |m[i]| == |src[i]| && IsCopy(src[i], m[i], types'[NewId(m, i)])
    {
      if i < n {
        assert types'[NewId(m, i)] == types[NewId(m, i)];
      }
    }
  }

  // Type `i` is not in the way of the first pass.
  predicate CanCopy(src: TypeTable, m: seq<Record>, i: nat)
    requires i < |src| == |m|
  {
    IsMarkedType(m, i) ==> WellSized(src[i]) && |m[i]| == |src[i]| && Rebuildable(src[i], m[i])
  }

  // One marked type.
  method CopyType(btf: Btf, src: TypeTable, m: seq<Record>, i: nat) returns (ok: bool, newId: nat)
    requires IsClone(src, m) && i < |src| && IsMarkedType(m, i) && Copied(src, m, btf.types, i)
    modifies btf
    ensures ok <==> CanCopy(src, m, i)
    ensures ok ==> Copied(src, m, btf.types, i + 1) && newId == NewId(m, i)
  {
    var t, c := src[i], m[i];
    assert ValidRecord(t, |src|) && IsCloneRecord(t, c);
    ghost var was := btf.types;
    newId := |btf.types|;
    ok := true;
    if IsComposite(t) {
      MemberIdsSmall(t, |src|);
      ok := CopyComposite(btf, t, c);
    } else {
      newId := btf.AddType(t);
    }
    if ok {
      CopiedMore(src, m, was, btf.types, i);
    }
  }

  /** First pass: every marked type is copied, and its new id recorded. */
  method CopyMarked(btf: Btf, src: TypeTable, m: seq<Record>) returns (ok: bool, ids: seq<u32>)
    requires IsClone(src, m) && btf.types == [[0, 0, 0]]
    modifies btf
    ensures ok <==> forall i :: 0 <= i < |src| ==> CanCopy(src, m, i)
    ensures ok ==> |ids| == |src| && IsIdMap(m, ids, |src|) && Copied(src, m, btf.types, |src|)
  {
    ids := seq(|src|, _ => 0);
    var i := 1;
    while i < |src|
      invariant 1 <= i <= |src| == |ids|
      invariant IsIdMap(m, ids, i) && Copied(src, m, btf.types, i)
      invariant forall j :: 0 <= j < i ==> CanCopy(src, m, j)
    {
      assert IsCloneRecord(src[i], m[i]);
      if m[i][NAME] == MARKED {
        RankGrows(m, i, |src|);
        var newId;
        ok, newId := CopyType(btf, src, m, i);
        if !ok {
          return;
        }
        ids := Overwrite(ids, i, newId);
      }
      i := i + 1;
    }
    ok := true;
  }

  lemma MemberIdsSmall(t: Record, n: int)
    requires ValidRecord(t, n) && n <= BTF_MAX_NR_TYPES && IsComposite(t)
    ensures forall k :: 0 <= k < Vlen(t) ==> t[MemberType(k)] <= BTF_MAX_NR_TYPES
  {
    forall k | 0 <= k < Vlen(t)
      ensures t[MemberType(k)] <= BTF_MAX_NR_TYPES
    {
      assert IsIdSlot(Kind(t), Vlen(t), MemberType(k));
    }
  }

  // ---------- The second pass, and the whole ----------

  // The copies before `done` have had their type ids rewritten.
  ghost predicate PartlyRenumbered(first: seq<Record>, types: seq<Record>, ids: seq<u32>, done: nat) {
    && |types| == |first| && done <= |first|
    && (forall j :: 1 <= j < done ==> |first[j]| >= 3 && IsRenumbered(first[j], types[j], ids))
    && (forall j :: done <= j < |first| ==> types[j] == first[j])
    && (|first| > 0 && done > 0 ==> types[0] == first[0])
  }

  lemma CopiedIsKnown(src: TypeTable, m: seq<Record>, types: seq<Record>, v: nat)
    requires IsClone(src, m) && Closed(src, m) && Copied(src, m, types, |src|) && 1 <= v < |types|
    ensures WellSized(types[v]) && DescOf(IterIds, Kind(types[v])).Desc?
    ensures forall w :: 0 <= w < |types[v]| && IsIdSlot(Kind(types[v]), Vlen(types[v]), w) ==> types[v][w] < |src|
  {
    var i := NewIdsDense(m, |src|, v);
    assert ValidRecord(src[i], |src|) && IsCloneRecord(src[i], m[i]);
    CopyRefers(src[i], m[i], types[v], |src|);
    assert HasMark(src, m, TypeMark(i)) && NeedsMet(src, m, TypeMark(i));
  }

  /** Second pass: the type ids of every copy are rewritten; it cannot fail. */
  method RenumberAll(btf: Btf, ids: seq<u32>, ghost src: TypeTable, ghost m: seq<Record>) returns (ok: bool)
    requires IsClone(src, m) && Closed(src, m) && |ids| == |src| && Copied(src, m, btf.types, |src|)
    modifies btf
    ensures ok && PartlyRenumbered(old(btf.types), btf.types, ids, |btf.types|)
  {
    ghost var first := btf.types;
    var i := 1;
    while i < |btf.types|
      invariant 1 <= i <= |btf.types| == |first|
      invariant PartlyRenumbered(first, btf.types, ids, i)
    {
      CopiedIsKnown(src, m, first, i);
      ok := btf.RenumberType(i, ids);
      i := i + 1;
    }
    ok := true;
  }

  /** The minimised object is the exact image of the marked graph. */
  ghost predicate IsMinimised(src: TypeTable, m: seq<Record>, types: seq<Record>, ids: seq<u32>)
    requires IsClone(src, m)
  {
    && |types| == 1 + Rank(m, |src|) && types[0] == [0, 0, 0]
    && |ids| == |src| && IsIdMap(m, ids, |src|)
    && forall i :: 0 <= i < |src| && IsMarkedType(m, i) ==>
         && NewId(m, i) < |types| && WellSized(src[i]) && |m[i]| == |src[i]|
         && IsImage(src[i], m[i], types[NewId(m, i)], ids)
  }

  lemma RenumberedIsMinimised(src: TypeTable, m: seq<Record>, first: seq<Record>, types: seq<Record>, ids: seq<u32>)
    requires IsClone(src, m) && |ids| == |src| && IsIdMap(m, ids, |src|)
    requires Copied(src, m, first, |src|) && PartlyRenumbered(first, types, ids, |first|)
    ensures IsMinimised(src, m, types, ids)
  {
    forall i | 0 <= i < |src| && IsMarkedType(m, i)
      ensures NewId(m, i) < |types| && WellSized(src[i]) && |m[i]| == |src[i]|
      ensures IsImage(src[i], m[i], types[NewId(m, i)], ids)
    {
      var v := NewId(m, i);
      CopyRenumberedIsImage(src[i], m[i], first[v], types[v], ids);
    }
  }

  // ---------- Which members can be rebuilt, word by word ----------

  /** A member as the format lays it out: word 5 + 3k holds the offset in bits, and with the flag in the
      top bit of the second word also, in its upper byte, the width of a bitfield.  A member of a struct
      (kind 4) can be rebuilt if it is a bitfield with a width or lies on a byte boundary; a member of a
      union (kind 5), if it is at offset 0. */
  predicate FitsMember(t: Record, k: nat)
    requires 5 + 3 * k < |t|
  {
    var w, flag := t[5 + 3 * k], t[1] >= 0x8000_0000;
    var offset, width := if flag then w % 0x100_0000 else w, if flag then w / 0x100_0000 else 0;
    if t[1] / 0x100_0000 % 32 == 4 then width > 0 || offset % 8 == 0 else offset == 0
  }

  lemma MemberByWords(t: Record, k: nat)
    requires WellSized(t) && IsComposite(t) && k < Vlen(t)
    ensures 5 + 3 * k < |t|
    ensures BitOffset(t, k) == if t[1] >= 0x8000_0000 then t[5 + 3 * k] % 0x100_0000 else t[5 + 3 * k]
    ensures BitfieldSize(t, k) == if t[1] >= 0x8000_0000 then t[5 + 3 * k] / 0x100_0000 else 0
    ensures MemberOk(t, k) <==> FitsMember(t, k)
  {
    assert MemberOffset(k) == 5 + 3 * k;
  }

  ghost predicate AllMembersFit(src: TypeTable, m: seq<Record>)
    requires IsClone(src, m)
  {
    forall id: nat, k: nat :: HasMark(src, m, MemberMark(id, k)) ==> 5 + 3 * k < |src[id]| && FitsMember(src[id], k)
  }

  /** The marked types are no obstacle exactly when all marked members fit. */
  lemma CopiedIffMembersFit(src: TypeTable, m: seq<Record>)
    requires IsClone(src, m) && Closed(src, m)
    ensures (forall i :: 0 <= i < |src| ==> CanCopy(src, m, i)) <==> AllMembersFit(src, m)
  {
    forall id: nat, k: nat | HasMark(src, m, MemberMark(id, k)) && CanCopy(src, m, id)
      ensures 5 + 3 * k < |src[id]| && FitsMember(src[id], k)
    {
      assert ValidRecord(src[id], |src|) && IsCloneRecord(src[id], m[id]);
      assert NeedsMet(src, m, MemberMark(id, k));
      MemberByWords(src[id], k);
    }
    if AllMembersFit(src, m) {
      forall i | 0 <= i < |src|
        ensures CanCopy(src, m, i)
      {
        MarkedFits(src, m, i);
      }
    }
  }

  lemma MarkedFits(src: TypeTable, m: seq<Record>, i: nat)
    requires IsClone(src, m) && AllMembersFit(src, m) && i < |src|
    ensures CanCopy(src, m, i)
  {
    var t := src[i];
    assert ValidRecord(t, |src|) && IsCloneRecord(t, m[i]);
    if IsMarkedType(m, i) && IsComposite(t) {
      forall k: nat | k < Vlen(t) && m[i][MemberName(k)] == MARKED
        ensures MemberOk(t, k)
      {
        assert HasMark(src, m, MemberMark(i, k));
        MemberByWords(t, k);
      }
    }
  }

  /** btfgen_get_btf: it succeeds exactly when every marked member can be rebuilt (a bitfield with a
      size, and no offset inside a union), and then yields the image of the marked graph. */
  method GetBtf(src: TypeTable, m: seq<Record>) returns (ok: bool, btf: Btf, ghost ids: seq<u32>)
    requires IsClone(src, m) && Closed(src, m)
    ensures fresh(btf)
    ensures ok <==> AllMembersFit(src, m)
    ensures ok ==> IsMinimised(src, m, btf.types, ids)
  {
    CopiedIffMembersFit(src, m);
    btf := new Btf();
    var idMap;
    ok, idMap := CopyMarked(btf, src, m);
    ids := idMap;
    if ok {
      ghost var first := btf.types;
      ok := RenumberAll(btf, idMap, src, m);
      RenumberedIsMinimised(src, m, first, btf.types, ids);
    }
  }

  /** In the minimised object only a pointer may have lost its target: whatever else a kept type
      refers to is kept too, and a kept member keeps its type. */
  lemma OnlyPointersLoseTargets(src: TypeTable, m: seq<Record>, types: seq<Record>, ids: seq<u32>, i: nat, w: nat)
    requires IsClone(src, m) && Closed(src, m) && IsMinimised(src, m, types, ids)
    requires i < |src| && IsMarkedType(m, i)
    requires var r := types[NewId(m, i)];
             WellSized(src[i]) && |m[i]| == |src[i]| && |r| >= 3 && w < |r| &&
             IsIdSlot(Kind(r), Vlen(r), w) && r[w] == 0
    ensures Kind(src[i]) == BTF_KIND_PTR
         || (if IsComposite(src[i]) then var kept := Kept(m[i], Vlen(src[i]));
               (w - 3) / 3 < |kept| && src[i][MemberType(kept[(w - 3) / 3])] == 0
             else w < |src[i]| && src[i][w] == 0)
  {
    var t, c, r := src[i], m[i], types[NewId(m, i)];
    assert ValidRecord(t, |src|);
    var id := i;
    assert HasMark(src, m, TypeMark(id)) && NeedsMet(src, m, TypeMark(id));
    if IsComposite(t) {
      var j := (w - 3) / 3;
      var k := Kept(c, Vlen(t))[j];
      assert w == MemberType(j) && SameMember(t, k, r, j, ids[t[MemberType(k)]]);
      assert HasMark(src, m, MemberMark(id, k)) && NeedsMet(src, m, MemberMark(id, k));
    } else if Kind(t) != BTF_KIND_PTR {
      assert IsIdSlot(Kind(t), Vlen(t), w);
      SlotIsNeeded(t, w);
    }
  }

  lemma SlotIsNeeded(t: Record, w: nat)
    requires WellSized(t) && Supported(Kind(t), Front) && w < |t| && IsIdSlot(Kind(t), Vlen(t), w)
    requires !IsComposite(t) && Kind(t) != BTF_KIND_PTR
    ensures t[w] in Needs(t)
  {
    if Kind(t) == BTF_KIND_FUNC_PROTO && w >= 3 {
      var k := (w - 3) / 2;
      ProtoNeeds(t);
      assert w == ParamType(k) && Needs(t)[1 + k] == t[ParamType(k)];
    } else if Kind(t) == BTF_KIND_ARRAY && w == 4 {
      assert Needs(t)[1] == t[w];
    } else {
      assert Needs(t)[0] == t[w];
    }
  }

  /** minimize_btf: the relocations are recorded against an unmarked copy, and the object is built
      from the marks.  If the relocations can be recorded, the marks are exactly those they ask for, and
      it is these marks that decide whether there is an object. */
  method MinimizeBtf(src: TypeTable, relos: seq<BtfGen.CoreSpec>, ghost d: nat)
    returns (ok: bool, btf: Btf?, ghost m: seq<Record>, ghost ids: seq<u32>)
    requires forall r :: r in relos ==> BtfGen.ReloFits(src, r, d)
    ensures ok ==> BtfGen.AllWork(src, relos, d)
    ensures BtfGen.AllWork(src, relos, d) ==>
              && IsClone(src, m) && Closed(src, m)
              && (forall mk :: HasMark(src, m, mk) <==> BtfGen.AnyReloMark(src, relos, d, mk))
              && (ok <==> AllMembersFit(src, m))
    ensures ok ==> btf != null && IsMinimised(src, m, btf.types, ids)
  {
    var info := new BtfGen.BtfgenInfo(src);
    btf, ids := null, [];
    ok := info.RecordAll(relos, d);
    m := info.markedBtf;
    if ok {
      ok, btf, ids := GetBtf(src, info.markedBtf);
    }
  }
}
