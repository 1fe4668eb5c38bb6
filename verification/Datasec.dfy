/** The struct that mirrors a data section: codegen_datasec_def of lib/bpftool/src/gen.c. */
module Datasec {
  import opened Arithmetic

  /** A variable of the section: where the object file has it, and the alignment of its type as
      btf__align_of gives it (zero or less when it cannot tell). */
  datatype SecVar = SecVar(name: string, offset: nat, size: nat, align: int, isStatic: bool)

  // Offsets and sizes are kept in ints, and rounding adds up to three.
  predicate ValidVar(v: SecVar) { v.offset + v.size < 0x7fff_fffd }

  // A member of the emitted struct: char __padN[size], or the variable.
  datatype Member = Pad(index: nat, size: int) | Decl(v: SecVar)

  datatype Result = Err | Ok(members: seq<Member>)

  // ---------- How a C compiler lays out the struct ----------

  // The two kinds of target: where long and pointers are aligned to four bytes, and where every
  // type has its full alignment.
  datatype Abi = Abi32 | Abi64

  function AlignOn(v: SecVar, abi: Abi): (a: int)
    requires v.align > 0
    ensures a > 0
  {
    if abi.Abi32? && v.align > 4 then 4 else v.align
  }

  predicate ValidMember(m: Member) {
    m.Decl? ==> ValidVar(m.v) && m.v.align > 0
  }

  // Where a member after the first `k` starts, and where the first `k` members end.
  function StartOf(ms: seq<Member>, k: nat, abi: Abi): int
    requires k < |ms| && forall i :: 0 <= i < |ms| ==> ValidMember(ms[i])
    decreases k, 1
  {
    match ms[k]
    case Pad(_, _) => EndOf(ms, k, abi)
    case Decl(v) => RoundUp(EndOf(ms, k, abi), AlignOn(v, abi))
  }

  function EndOf(ms: seq<Member>, k: nat, abi: Abi): int
    requires k <= |ms| && forall i :: 0 <= i < |ms| ==> ValidMember(ms[i])
    decreases k, 0
  {
    if k == 0 then 0
    else StartOf(ms, k - 1, abi) + match ms[k - 1] case Pad(_, size) => size case Decl(v) => v.size
  }

  /** Every variable of the struct is where the object file has it. */
  ghost predicate IsFaithful(ms: seq<Member>, abi: Abi)
    requires forall i :: 0 <= i < |ms| ==> ValidMember(ms[i])
  {
    forall k :: 0 <= k < |ms| && ms[k].Decl? ==> StartOf(ms, k, abi) == ms[k].v.offset
  }

  // ---------- What the section must be like ----------

  function Exposed(vars: seq<SecVar>): seq<SecVar> {
    if vars == [] then []
    else Exposed(vars[..|vars| - 1]) + if vars[|vars| - 1].isStatic then [] else [vars[|vars| - 1]]
  }

  // The variables follow one another, and their alignments are known.
  predicate IsOrdered(vs: seq<SecVar>) {
    && (forall i :: 0 <= i < |vs| ==> ValidVar(vs[i]) && vs[i].align > 0)
    && (forall i, j :: 0 <= i < j == i + 1 < |vs| ==> vs[i].offset + vs[i].size <= vs[j].offset)
  }

  predicate IsAligned(vs: seq<SecVar>, abi: Abi)
    requires forall i :: 0 <= i < |vs| ==> ValidVar(vs[i]) && vs[i].align > 0
  {
    forall i :: 0 <= i < |vs| ==> vs[i].offset % AlignOn(vs[i], abi) == 0
  }

  function Decls(ms: seq<Member>): seq<SecVar> {
    if ms == [] then []
    else Decls(ms[..|ms| - 1]) + if ms[|ms| - 1].Decl? then [ms[|ms| - 1].v] else []
  }

  // Where the last variable ends.
  function LastEnd(vs: seq<SecVar>): nat {
    if vs == [] then 0 else vs[|vs| - 1].offset + vs[|vs| - 1].size
  }

  predicate ValidMembers(ms: seq<Member>) {
    forall i :: 0 <= i < |ms| ==> ValidMember(ms[i])
  }

  predicate PadsAreArrays(ms: seq<Member>) {
    forall i :: 0 <= i < |ms| && ms[i].Pad? ==> ms[i].size >= 0
  }

  // The variables at their places, so far.
  ghost predicate MirrorsOn(vs: seq<SecVar>, ms: seq<Member>, abi: Abi)
    requires IsOrdered(vs) && ValidMembers(ms)
  {
    && (IsFaithful(ms, abi) <==> IsAligned(vs, abi))
    && (IsAligned(vs, abi) ==> EndOf(ms, |ms|, abi) == LastEnd(vs))
  }

  ghost predicate Mirrors(vs: seq<SecVar>, ms: seq<Member>) {
    && IsOrdered(vs) && ValidMembers(ms) && PadsAreArrays(ms) && Decls(ms) == vs
    && MirrorsOn(vs, ms, Abi32) && MirrorsOn(vs, ms, Abi64)
  }

  // The members before one more variable, and with it.
  function Padded(ms: seq<Member>, off: int, padCnt: nat, v: SecVar): seq<Member>
    requires ValidVar(v) && v.align > 0
  {
    if RoundUp(off, AlignOn(v, Abi32)) != v.offset then ms + [Pad(padCnt, v.offset - off)] else ms
  }

  function Added(ms: seq<Member>, off: int, padCnt: nat, v: SecVar): seq<Member>
    requires ValidVar(v) && v.align > 0
  {
    Padded(ms, off, padCnt, v) + [Decl(v)]
  }

  lemma {:induction false} EndOfPrefix(ms: seq<Member>, more: seq<Member>, k: nat, abi: Abi)
    requires ValidMembers(ms) && ValidMembers(more) && k <= |ms| <= |more| && more[..|ms|] == ms
    ensures EndOf(more, k, abi) == EndOf(ms, k, abi)
    ensures k < |ms| ==> StartOf(more, k, abi) == StartOf(ms, k, abi)
  {
    assert forall i :: 0 <= i < |ms| ==> ms[i] == more[..|ms|][i] == more[i];
    if k == 0 {
    } else {
      EndOfPrefix(ms, more, k - 1, abi);
    }
  }

  function NextStart(ms: seq<Member>, v: SecVar, abi: Abi): int
    requires ValidMembers(ms) && ValidVar(v) && v.align > 0
  {
    RoundUp(EndOf(ms, |ms|, abi), AlignOn(v, abi))
  }

  // One more member: where it starts decides.
  lemma FaithfulMore(ms: seq<Member>, m: Member, abi: Abi)
    requires ValidMembers(ms) && ValidMember(m)
    ensures ValidMembers(ms + [m])
    ensures m.Pad? ==>
              && (IsFaithful(ms + [m], abi) <==> IsFaithful(ms, abi))
              && EndOf(ms + [m], |ms| + 1, abi) == EndOf(ms, |ms|, abi) + m.size
    ensures m.Decl? ==>
              && (IsFaithful(ms + [m], abi) <==> IsFaithful(ms, abi) && NextStart(ms, m.v, abi) == m.v.offset)
              && EndOf(ms + [m], |ms| + 1, abi) == NextStart(ms, m.v, abi) + m.v.size
  {
    var more := ms + [m];
    forall k | 0 <= k <= |ms|
      ensures EndOf(more, k, abi) == EndOf(ms, k, abi)
      ensures k < |ms| ==> StartOf(more, k, abi) == StartOf(ms, k, abi)
    {
      EndOfPrefix(ms, more, k, abi);
    }
    assert forall k :: 0 <= k < |ms| ==> more[k] == ms[k];
    if IsFaithful(more, abi) {
      forall k | 0 <= k < |ms| && ms[k].Decl?
        ensures StartOf(ms, k, abi) == ms[k].v.offset
      {
        assert StartOf(more, k, abi) == more[k].v.offset;
      }
    }
  }

  lemma MirrorsOnMore(vs: seq<SecVar>, ms: seq<Member>, padCnt: nat, v: SecVar, abi: Abi)
    requires IsOrdered(vs) && ValidMembers(ms) && MirrorsOn(vs, ms, abi) && IsOrdered(vs + [v])
    requires ValidVar(v) && v.align > 0 && LastEnd(vs) <= v.offset
    ensures var more := Added(ms, LastEnd(vs), padCnt, v); ValidMembers(more) && MirrorsOn(vs + [v], more, abi)
  {
    var off := LastEnd(vs);
    assert (vs + [v])[|vs|] == v;
    var a := AlignOn(v, abi);
    assert IsAligned(vs + [v], abi) <==> IsAligned(vs, abi) && v.offset % a == 0 by {
      assert forall i :: 0 <= i < |vs| ==> (vs + [v])[i] == vs[i];
    }
    RoundingUp(v.offset, a);
    RoundingUp(off, a);
    if a > 4 {
      RoundingFurther(off, 4, a);
    }
    if RoundUp(off, AlignOn(v, Abi32)) != v.offset {
      var pad := Pad(padCnt, v.offset - off);
      FaithfulMore(ms, pad, abi);
      FaithfulMore(ms + [pad], Decl(v), abi);
    } else {
      FaithfulMore(ms, Decl(v), abi);
    }
  }

  lemma OrderedMore(vs: seq<SecVar>, v: SecVar)
    requires IsOrdered(vs) && ValidVar(v) && v.align > 0 && LastEnd(vs) <= v.offset
    ensures IsOrdered(vs + [v])
  {
    forall i, j | 0 <= i < j == i + 1 < |vs| + 1
      ensures (vs + [v])[i].offset + (vs + [v])[i].size <= (vs + [v])[j].offset
    {
      assert j < |vs| ==> vs[i].offset + vs[i].size <= vs[j].offset;
    }
  }

  lemma PaddedMembers(ms: seq<Member>, off: int, padCnt: nat, v: SecVar)
    requires ValidVar(v) && v.align > 0 && off <= v.offset && ValidMembers(ms) && PadsAreArrays(ms)
    ensures var padded := Padded(ms, off, padCnt, v);
            ValidMembers(padded) && PadsAreArrays(padded) && Decls(padded) == Decls(ms)
  {
    var pad := Pad(padCnt, v.offset - off);
    var padded := Padded(ms, off, padCnt, v);
    if padded != ms {
      assert padded == ms + [pad];
      MembersMore(ms, pad);
    }
  }

  lemma AddedMembers(ms: seq<Member>, off: int, padCnt: nat, v: SecVar)
    requires ValidVar(v) && v.align > 0 && off <= v.offset && ValidMembers(ms) && PadsAreArrays(ms)
    ensures var more := Added(ms, off, padCnt, v);
            ValidMembers(more) && PadsAreArrays(more) && Decls(more) == Decls(ms) + [v]
  {
    PaddedMembers(ms, off, padCnt, v);
    MembersMore(Padded(ms, off, padCnt, v), Decl(v));
  }

  lemma MirrorsMore(vs: seq<SecVar>, ms: seq<Member>, padCnt: nat, v: SecVar)
    requires Mirrors(vs, ms) && ValidVar(v) && v.align > 0 && LastEnd(vs) <= v.offset
    ensures Mirrors(vs + [v], Added(ms, LastEnd(vs), padCnt, v))
  {
    OrderedMore(vs, v);
    AddedMembers(ms, LastEnd(vs), padCnt, v);
    MirrorsOnMore(vs, ms, padCnt, v, Abi32);
    MirrorsOnMore(vs, ms, padCnt, v, Abi64);
  }

  lemma MembersMore(ms: seq<Member>, m: Member)
    requires ValidMembers(ms) && PadsAreArrays(ms) && ValidMember(m) && (m.Pad? ==> m.size >= 0)
    ensures ValidMembers(ms + [m]) && PadsAreArrays(ms + [m])
    ensures Decls(ms + [m]) == Decls(ms) + if m.Decl? then [m.v] else []
  {
    assert (ms + [m])[..|ms|] == ms;
  }

  lemma {:induction false} ExposedPrefix(vars: seq<SecVar>, i: nat)
    requires i <= |vars|
    ensures Exposed(vars[..i]) <= Exposed(vars)
    decreases |vars|
  {
    if i < |vars| {
      ExposedPrefix(vars[..|vars| - 1], i);
      assert vars[..|vars| - 1][..i] == vars[..i];
    } else {
      assert vars[..i] == vars;
    }
  }

  lemma OrderedPrefix(some: seq<SecVar>, all: seq<SecVar>)
    requires some <= all && IsOrdered(all)
    ensures IsOrdered(some)
  {
    assert forall k :: 0 <= k < |some| ==> some[k] == all[k];
    forall p, q | 0 <= p < q == p + 1 < |some|
      ensures some[p].offset + some[p].size <= some[q].offset
    {
      assert all[p].offset + all[p].size <= all[q].offset;
    }
  }

  // A section that has gone wrong stays wrong.
  lemma StaysUnordered(vars: seq<SecVar>, i: nat)
    requires i <= |vars| && !IsOrdered(Exposed(vars[..i]))
    ensures !IsOrdered(Exposed(vars))
  {
    ExposedPrefix(vars, i);
    if IsOrdered(Exposed(vars)) {
      OrderedPrefix(Exposed(vars[..i]), Exposed(vars));
    }
  }

  lemma ExposedOneMore(vars: seq<SecVar>, i: nat)
    requires i < |vars|
    ensures Exposed(vars[..i + 1]) == Exposed(vars[..i]) + if vars[i].isStatic then [] else [vars[i]]
  {
    assert vars[..i + 1][..i] == vars[..i];
  }

  /** The exposed variables are those that are not static. */
  lemma {:induction false} ExposedExact(vars: seq<SecVar>, v: SecVar)
    ensures multiset(Exposed(vars))[v] == if v.isStatic then 0 else multiset(vars)[v]
    decreases |vars|
  {
    if vars == [] {
    } else {
      ExposedExact(vars[..|vars| - 1], v);
      assert vars == vars[..|vars| - 1] + [vars[|vars| - 1]];
    }
  }

  // No two pads carry the same number, and all numbers are below `n`.
  predicate PadsApart(ms: seq<Member>, n: nat) {
    && (forall i :: 0 <= i < |ms| && ms[i].Pad? ==> ms[i].index < n)
    && (forall i, j :: 0 <= i < j < |ms| && ms[i].Pad? && ms[j].Pad? ==> ms[i].index != ms[j].index)
  }

  // Where the variables declared by the first `k` members end.
  function EndBefore(ms: seq<Member>, k: nat): nat
    requires k <= |ms| && ValidMembers(ms)
  {
    DeclsValid(ms[..k]);
    LastEnd(Decls(ms[..k]))
  }

  lemma {:induction false} DeclsValid(ms: seq<Member>)
    requires ValidMembers(ms)
    ensures forall i :: 0 <= i < |Decls(ms)| ==> ValidVar(Decls(ms)[i])
    decreases |ms|
  {
    if ms == [] {
    } else {
      DeclsValid(ms[..|ms| - 1]);
    }
  }

  // From `end` on, the next multiple of the variable's alignment, or of four, is where it is to be.
  predicate FallsInPlace(end: nat, v: SecVar) {
    var a := if v.align > 4 then 4 else v.align;
    a > 0 && v.offset % a == 0 && end <= v.offset < end + a
  }

  ghost predicate PadFits(ms: seq<Member>, k: nat)
    requires k < |ms| && ValidMembers(ms) && ms[k].Decl?
  {
    if FallsInPlace(EndBefore(ms, k), ms[k].v) then k == 0 || ms[k - 1].Decl?
    else k > 0 && ms[k - 1].Pad? && ms[k - 1].size == ms[k].v.offset - EndBefore(ms, k)
  }

  predicate PadIsFollowed(ms: seq<Member>, k: nat) { k + 1 < |ms| && ms[k + 1].Decl? }

  /** There is padding before a variable exactly when the compiler would not put it in its place without,
      and then as much as there is room between it and the variable before; and nowhere else. */
  ghost predicate PadsWhereNeeded(ms: seq<Member>)
    requires ValidMembers(ms)
  {
    && (forall k {:trigger PadFits(ms, k)} :: 0 <= k < |ms| && ms[k].Decl? ==> PadFits(ms, k))
    && (forall k {:trigger PadIsFollowed(ms, k)} :: 0 <= k < |ms| && ms[k].Pad? ==> PadIsFollowed(ms, k))
  }

  /** After four bytes, eight bytes aligned to eight do not fall in place at offset 8: a 32-bit target
      would have them at 4. */
  lemma LongNeedsPadding()
    ensures !FallsInPlace(4, SecVar("b", 8, 8, 8, false)) && FallsInPlace(4, SecVar("b", 4, 4, 4, false))
  {
  }

  lemma RoundsToPlace(end: nat, v: SecVar)
    requires v.align > 0
    ensures RoundUp(end, AlignOn(v, Abi32)) == v.offset <==> FallsInPlace(end, v)
  {
    var a := AlignOn(v, Abi32);
    RoundingUp(end, a);
    if FallsInPlace(end, v) {
      if v.offset <= RoundUp(end, a) {
        NearMultiples(v.offset, RoundUp(end, a), a);
      } else {
        NearMultiples(RoundUp(end, a), v.offset, a);
      }
    }
  }

  lemma PadFitsStill(ms: seq<Member>, more: seq<Member>, k: nat)
    requires ValidMembers(ms) && ValidMembers(more) && k < |ms| && ms <= more && ms[k].Decl? && PadFits(ms, k)
    ensures PadFits(more, k)
  {
    assert more[..k] == ms[..k];
  }

  // The last variable of `more` has its padding, or none, and `ms` is what stands before.
  lemma OneMorePadFits(ms: seq<Member>, more: seq<Member>)
    requires ValidMembers(ms) && ValidMembers(more) && PadsWhereNeeded(ms) && ms <= more
    requires |ms| < |more| <= |ms| + 2 && more[|more| - 1].Decl? && PadFits(more, |more| - 1)
    requires |more| == |ms| + 2 ==> more[|ms|].Pad?
    ensures PadsWhereNeeded(more)
  {
    forall k | 0 <= k < |more| && more[k].Decl?
      ensures PadFits(more, k)
    {
      if k < |ms| {
        PadFitsStill(ms, more, k);
      }
    }
    forall k | 0 <= k < |more| && more[k].Pad?
      ensures PadIsFollowed(more, k)
    {
      assert k < |ms| ==> PadIsFollowed(ms, k);
    }
  }

  lemma PadsMore(ms: seq<Member>, off: nat, padCnt: nat, v: SecVar)
    requires ValidMembers(ms) && PadsAreArrays(ms) && PadsWhereNeeded(ms) && off == LastEnd(Decls(ms)) <= v.offset
    requires ValidVar(v) && v.align > 0
    ensures var more := Added(ms, off, padCnt, v); ValidMembers(more) && PadsWhereNeeded(more)
  {
    var more := Added(ms, off, padCnt, v);
    AddedMembers(ms, off, padCnt, v);
    LastPadFits(ms, off, padCnt, v);
    OneMorePadFits(ms, more);
  }

  lemma LastPadFits(ms: seq<Member>, off: nat, padCnt: nat, v: SecVar)
    requires ValidMembers(ms) && PadsAreArrays(ms) && PadsWhereNeeded(ms) && off == LastEnd(Decls(ms)) <= v.offset
    requires ValidVar(v) && v.align > 0 && ValidMembers(Added(ms, off, padCnt, v))
    ensures var more := Added(ms, off, padCnt, v); PadFits(more, |more| - 1)
  {
    var more := Added(ms, off, padCnt, v);
    PaddedMembers(ms, off, padCnt, v);
    RoundsToPlace(off, v);
    assert more[..|more| - 1] == Padded(ms, off, padCnt, v);
    assert ms != [] && ms[|ms| - 1].Pad? ==> PadIsFollowed(ms, |ms| - 1);
  }

  // One round of the loop, for a variable that is exposed.
  method EmitVar(ms: seq<Member>, off: int, padCnt: nat, v: SecVar, ghost vs: seq<SecVar>)
    returns (more: seq<Member>, cnt: nat)
    requires ValidVar(v) && v.align > 0 && Mirrors(vs, ms) && PadsApart(ms, padCnt) && PadsWhereNeeded(ms)
    requires off == LastEnd(vs) <= v.offset
    ensures Mirrors(vs + [v], more) && PadsApart(more, cnt) && PadsWhereNeeded(more)
  {
    MirrorsMore(vs, ms, padCnt, v);
    PadsMore(ms, off, padCnt, v);
    more, cnt := ms, padCnt;
    var align := if v.align > 4 then 4 else v.align;
    var alignOff := (off + align - 1) / align * align;
    if alignOff != v.offset {
      more := more + [Pad(padCnt, v.offset - off)];
      cnt := padCnt + 1;
    }
    more := more + [Decl(v)];
    assert more == Added(ms, off, padCnt, v);
  }

  /** The emitted struct declares exactly the variables that are not static, in order, and it has each
      of them at its place, both with full alignments and with alignments capped at four, if and only
      if the object file has them at multiples of those alignments.  Sections whose variables overlap
      or have no alignment are refused, and no others.  Padding members have different names and stand
      only where they are needed. */
  method CodegenDatasecDef(vars: seq<SecVar>) returns (r: Result)
    requires forall i :: 0 <= i < |vars| ==> ValidVar(vars[i])
    ensures r.Err? <==> !IsOrdered(Exposed(vars))
    ensures r.Ok? ==> Mirrors(Exposed(vars), r.members) && exists n :: PadsApart(r.members, n)
    ensures r.Ok? ==> PadsWhereNeeded(r.members)
  {
    var off, padCnt := 0, 0;
    var ms: seq<Member> := [];
    ghost var vs: seq<SecVar> := [];
    for i := 0 to |vars|
      invariant vs == Exposed(vars[..i]) && off == LastEnd(vs)
      invariant Mirrors(vs, ms) && PadsApart(ms, padCnt) && PadsWhereNeeded(ms)
    {
      var v := vars[i];
      ExposedOneMore(vars, i);
      if !v.isStatic {
        if off > v.offset || v.align <= 0 {
          RefusedIsUnordered(vs, v);
          StaysUnordered(vars, i + 1);
          return Err;
        }
        ms, padCnt := EmitVar(ms, off, padCnt, v, vs);
        off := v.offset + v.size;
        vs := vs + [v];
      }
    }
    assert vars[..|vars|] == vars;
    r := Ok(ms);
  }

  lemma RefusedIsUnordered(vs: seq<SecVar>, v: SecVar)
    requires LastEnd(vs) > v.offset || v.align <= 0
    ensures !IsOrdered(vs + [v])
  {
    var all := vs + [v];
    if v.align <= 0 {
      assert all[|vs|].align <= 0;
    } else {
      assert vs != [] && all[|vs| - 1] == vs[|vs| - 1] && all[|vs|] == v;
    }
  }

  const TWO_BYTES := SecVar("a", 0, 2, 2, false)
  const FOUR_BYTES_AT_2 := SecVar("b", 2, 4, 4, false)

  /** A four-byte integer right after two bytes: the struct for this section has it at offset 4, and
      nothing is refused. */
  lemma MisalignedVariableMoves(ms: seq<Member>)
    requires Mirrors([TWO_BYTES, FOUR_BYTES_AT_2], ms)
    ensures IsOrdered(Exposed([TWO_BYTES, FOUR_BYTES_AT_2]))
    ensures !IsFaithful(ms, Abi32) && !IsFaithful(ms, Abi64)
    ensures ms == [Decl(TWO_BYTES), Pad(0, 0), Decl(FOUR_BYTES_AT_2)] ==>
              StartOf(ms, 2, Abi32) == 4 && StartOf(ms, 2, Abi64) == 4
  {
    var vs := [TWO_BYTES, FOUR_BYTES_AT_2];
    ExposedOneMore(vs, 0);
    ExposedOneMore(vs, 1);
    assert vs[..0] == [] && vs[..2] == vs && Exposed(vs) == vs;
    assert vs[1].offset % AlignOn(vs[1], Abi32) == vs[1].offset % AlignOn(vs[1], Abi64) == 2;
    if ms == [Decl(TWO_BYTES), Pad(0, 0), Decl(FOUR_BYTES_AT_2)] {
      MovedStart(ms, Abi32);
      MovedStart(ms, Abi64);
    }
  }

  lemma MovedStart(ms: seq<Member>, abi: Abi)
    requires ms == [Decl(TWO_BYTES), Pad(0, 0), Decl(FOUR_BYTES_AT_2)]
    ensures ValidMembers(ms) && StartOf(ms, 2, abi) == 4
  {
    assert EndOf(ms, 0, abi) == 0;
    assert EndOf(ms, 1, abi) == 2;
    assert EndOf(ms, 2, abi) == 2;
  }
}
