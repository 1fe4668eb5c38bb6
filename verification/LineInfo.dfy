/** The line-info index of lib/libbpf/src/bpf_prog_linfo.c, and the cursor with which
    lib/bpftool/src/xlated_dumper.c prints source lines between instructions. */
module LineInfo {
  import opened Common

  datatype Found = NotFound | Record(index: nat)

  // ---------- Dissecting the jited records ----------

  // The unsigned 64-bit test that an address is inside the function's code.
  predicate InCode(addr: u64, ksym: u64, len: u32) {
    (addr - ksym + 1) % 0x1_0000_0000_0000_0000 <= len
  }

  // The records from `from` up to `to` climb, and none of them is the address `stop`.
  predicate Climbs(jited: seq<u64>, from: int, to: int, stop: u64) {
    0 <= from && to <= |jited| && forall i :: from < i < to ==> jited[i - 1] < jited[i] && jited[i] != stop
  }

  /** `idx` cuts the records by function: each part begins with its function's address, and every
      part but the last climbs up to the first record of the next function, inside its code. */
  ghost predicate IsDissection(jited: seq<u64>, ksyms: seq<u64>, lens: seq<u32>, idx: seq<int>) {
    && |idx| == |ksyms| == |lens| && |idx| > 0 && idx[0] == 0
    && (forall f :: 0 <= f < |idx| ==> 0 <= idx[f] < |jited| && jited[idx[f]] == ksyms[f])
    && (forall f, g {:trigger PartOk(jited, ksyms, lens, idx, f, g)} :: 0 <= f < g == f + 1 < |idx| ==>
          PartOk(jited, ksyms, lens, idx, f, g))
  }

  ghost predicate NoDissection(jited: seq<u64>, ksyms: seq<u64>, lens: seq<u32>) {
    forall idx :: !IsDissection(jited, ksyms, lens, idx)
  }

  predicate PartOk(jited: seq<u64>, ksyms: seq<u64>, lens: seq<u32>, idx: seq<int>, f: nat, g: nat)
    requires f < g < |idx| <= |ksyms| == |lens|
  {
    && 0 <= idx[f] < idx[g] < |jited|
    && Climbs(jited, idx[f], idx[g], ksyms[g])
    && InCode(jited[idx[g] - 1], ksyms[f], lens[f])
  }

  class ProgLinfo {
    const linfo: seq<u32>                   // insn_off of every record
    const jitedLinfo: seq<u64>              // address of every record, or nothing
    const nrJitedFunc: nat
    var nrJitedLinfoPerFunc: array<int>
    var jitedLinfoFuncIdx: array<int>

    constructor (linfo: seq<u32>, jitedLinfo: seq<u64>, nrJitedFunc: nat)
      ensures this.linfo == linfo && this.jitedLinfo == jitedLinfo && this.nrJitedFunc == nrJitedFunc
      ensures fresh(nrJitedLinfoPerFunc) && fresh(jitedLinfoFuncIdx) && nrJitedLinfoPerFunc != jitedLinfoFuncIdx
      ensures nrJitedLinfoPerFunc.Length == jitedLinfoFuncIdx.Length == nrJitedFunc
    {
      this.linfo, this.jitedLinfo, this.nrJitedFunc := linfo, jitedLinfo, nrJitedFunc;
      nrJitedLinfoPerFunc := new int[nrJitedFunc](_ => 0);
      jitedLinfoFuncIdx := new int[nrJitedFunc](_ => 0);
    }

    ghost predicate Valid()
      reads this
    {
      && |linfo| < 0x1_0000_0000 && |jitedLinfo| < 0x1_0000_0000
      && nrJitedLinfoPerFunc.Length == jitedLinfoFuncIdx.Length == nrJitedFunc
      && nrJitedLinfoPerFunc != jitedLinfoFuncIdx
    }

    /** Succeeds exactly when the records can be dissected, and then stores the dissection. */
    method DissectJitedFunc(ksymFunc: seq<u64>, ksymLen: seq<u32>) returns (ok: bool)
      requires Valid() && |jitedLinfo| >= 1
      requires |ksymFunc| == |ksymLen| == nrJitedFunc >= 1
      modifies nrJitedLinfoPerFunc, jitedLinfoFuncIdx
      ensures !ok ==> NoDissection(jitedLinfo, ksymFunc, ksymLen)
      ensures ok ==> IsDissection(jitedLinfo, ksymFunc, ksymLen, jitedLinfoFuncIdx[..])
      ensures ok ==> IsCounts(jitedLinfoFuncIdx[..], nrJitedLinfoPerFunc[..], |jitedLinfo|)
    {
      if ksymFunc[0] != jitedLinfo[0] {
        DissectedIsExact(jitedLinfo, ksymFunc, ksymLen);
        return false;
      }
      jitedLinfoFuncIdx[0] := 0;
      ghost var idx: seq<int>, counts: seq<int> := [0], [];
      var prevI, i, f := 0, 1, 1;
      while i < |jitedLinfo| && f < nrJitedFunc
        invariant 1 <= f == |idx| <= nrJitedFunc && 0 <= prevI == idx[f - 1] < i <= |jitedLinfo|
        invariant Dissected(jitedLinfo, ksymFunc, ksymLen, [0], 1) == Dissected(jitedLinfo, ksymFunc, ksymLen, idx, i)
        invariant jitedLinfoFuncIdx[..f] == idx
        invariant nrJitedLinfoPerFunc[..f - 1] == counts && IsClosedCounts(idx, counts)
      {
        if ksymFunc[f] == jitedLinfo[i] {
          jitedLinfoFuncIdx[f] := i;
          assert jitedLinfoFuncIdx[..f + 1] == idx + [i];
          if !InCode(jitedLinfo[i - 1], ksymFunc[f - 1], ksymLen[f - 1]) {
            DissectedIsExact(jitedLinfo, ksymFunc, ksymLen);
            return false;
          }
          nrJitedLinfoPerFunc[f - 1] := i - prevI;
          assert nrJitedLinfoPerFunc[..f] == counts + [i - prevI];
          ClosedOneMore(idx, counts, i);
          idx, counts := idx + [i], counts + [i - prevI];
          prevI := i;
          f := f + 1;
        } else if jitedLinfo[i] <= jitedLinfo[i - 1] {
          DissectedIsExact(jitedLinfo, ksymFunc, ksymLen);
          return false;
        }
        i := i + 1;
      }
      DissectedIsExact(jitedLinfo, ksymFunc, ksymLen);
      if f != nrJitedFunc {
        return false;
      }
      nrJitedLinfoPerFunc[nrJitedFunc - 1] := |jitedLinfo| - prevI;
      assert nrJitedLinfoPerFunc[..nrJitedFunc - 1] == counts;
      assert jitedLinfoFuncIdx[..] == idx;
      assert nrJitedLinfoPerFunc[..] == counts + [|jitedLinfo| - prevI];
      ok := true;
    }
  }

  datatype Cut = NoCut | Cut(idx: seq<int>)

  // What the search makes of the records from `i` on, once the parts `idx` have been found.
  function Dissected(jited: seq<u64>, ksyms: seq<u64>, lens: seq<u32>, idx: seq<int>, i: nat): Cut
    requires 0 < |idx| <= |ksyms| == |lens| && 0 < i <= |jited|
    decreases |jited| - i
  {
    if |idx| == |ksyms| then Cut(idx)
    else if i == |jited| then NoCut
    else if jited[i] == ksyms[|idx|] then
      if InCode(jited[i - 1], ksyms[|idx| - 1], lens[|idx| - 1])
      then Dissected(jited, ksyms, lens, idx + [i], i + 1)
      else NoCut
    else if jited[i] <= jited[i - 1] then NoCut
    else Dissected(jited, ksyms, lens, idx, i + 1)
  }

  lemma DissectedIsExact(jited: seq<u64>, ksyms: seq<u64>, lens: seq<u32>)
    requires |ksyms| == |lens| >= 1 && |jited| >= 1
    ensures ksyms[0] != jited[0] ==> NoDissection(jited, ksyms, lens)
    ensures ksyms[0] == jited[0] ==>
              match Dissected(jited, ksyms, lens, [0], 1)
              case NoCut => NoDissection(jited, ksyms, lens)
              case Cut(idx) => IsDissection(jited, ksyms, lens, idx)
  {
    if ksyms[0] == jited[0] {
      AgreeAtStart(jited, ksyms, lens);
      DissectedFrom(jited, ksyms, lens, [0], 1);
    }
  }

  lemma {:induction false} DissectedFrom(jited: seq<u64>, ksyms: seq<u64>, lens: seq<u32>, idx: seq<int>, i: nat)
    requires 0 < i && IsPartial(jited, ksyms, lens, idx, i) && Agrees(jited, ksyms, lens, idx, i)
    ensures match Dissected(jited, ksyms, lens, idx, i)
            case NoCut => NoDissection(jited, ksyms, lens)
            case Cut(d) => IsDissection(jited, ksyms, lens, d)
    decreases |jited| - i
  {
    if |idx| == |ksyms| {
      PartialIsDissection(jited, ksyms, lens, idx, i);
    } else if i == |jited| {
      NoneLeft(jited, ksyms, lens, idx);
    } else if jited[i] == ksyms[|idx|] {
      AgreeFound(jited, ksyms, lens, idx, i);
      if InCode(jited[i - 1], ksyms[|idx| - 1], lens[|idx| - 1]) {
        PartialFound(jited, ksyms, lens, idx, i);
        DissectedFrom(jited, ksyms, lens, idx + [i], i + 1);
      }
    } else {
      AgreeSkip(jited, ksyms, lens, idx, i);
      if jited[i - 1] < jited[i] {
        PartialSkip(jited, ksyms, lens, idx, i);
        DissectedFrom(jited, ksyms, lens, idx, i + 1);
      }
    }
  }

  // The lengths of the parts that have ended.
  predicate IsClosedCounts(idx: seq<int>, counts: seq<int>) {
    && |counts| + 1 == |idx|
    && forall f, g :: 0 <= f < g == f + 1 < |idx| ==> counts[f] == idx[g] - idx[f]
  }

  lemma ClosedOneMore(idx: seq<int>, counts: seq<int>, i: int)
    requires IsClosedCounts(idx, counts)
    ensures IsClosedCounts(idx + [i], counts + [i - idx[|idx| - 1]])
  {
  }

  // `counts` are the lengths of the parts that begin at `idx`.
  predicate IsCounts(idx: seq<int>, counts: seq<int>, n: nat) {
    && |counts| == |idx| > 0
    && (forall f, g :: 0 <= f < g == f + 1 < |idx| ==> counts[f] == idx[g] - idx[f])
    && counts[|idx| - 1] == n - idx[|idx| - 1]
  }

  // The parts found before record `i`; the last one still open.
  ghost predicate IsPartial(jited: seq<u64>, ksyms: seq<u64>, lens: seq<u32>, idx: seq<int>, i: nat) {
    && 0 < |idx| <= |ksyms| == |lens| && idx[0] == 0 && i <= |jited|
    && (forall f :: 0 <= f < |idx| ==> 0 <= idx[f] < i && jited[idx[f]] == ksyms[f])
    && (forall f, g {:trigger PartOk(jited, ksyms, lens, idx, f, g)} :: 0 <= f < g == f + 1 < |idx| ==>
          PartOk(jited, ksyms, lens, idx, f, g))
    && (|idx| < |ksyms| ==> Climbs(jited, idx[|idx| - 1], i, ksyms[|idx|]))
  }

  lemma PartialFound(jited: seq<u64>, ksyms: seq<u64>, lens: seq<u32>, idx: seq<int>, i: nat)
    requires IsPartial(jited, ksyms, lens, idx, i) && |idx| < |ksyms| && i < |jited|
    requires jited[i] == ksyms[|idx|] && InCode(jited[i - 1], ksyms[|idx| - 1], lens[|idx| - 1])
    ensures IsPartial(jited, ksyms, lens, idx + [i], i + 1)
  {
    var d := idx + [i];
    forall f, g | 0 <= f < g == f + 1 < |d|
      ensures PartOk(jited, ksyms, lens, d, f, g)
    {
      if g < |idx| {
        assert PartOk(jited, ksyms, lens, idx, f, g);
        assert d[f] == idx[f] && d[g] == idx[g];
      }
    }
  }

  lemma PartialSkip(jited: seq<u64>, ksyms: seq<u64>, lens: seq<u32>, idx: seq<int>, i: nat)
    requires IsPartial(jited, ksyms, lens, idx, i) && |idx| < |ksyms| && 0 < i < |jited|
    requires jited[i] != ksyms[|idx|] && jited[i - 1] < jited[i]
    ensures IsPartial(jited, ksyms, lens, idx, i + 1)
  {
  }

  lemma PartialIsDissection(jited: seq<u64>, ksyms: seq<u64>, lens: seq<u32>, idx: seq<int>, i: nat)
    requires IsPartial(jited, ksyms, lens, idx, i) && |idx| == |ksyms|
    ensures IsDissection(jited, ksyms, lens, idx)
  {
  }

  // No dissection is left once one function has not been found among all records.
  lemma NoneLeft(jited: seq<u64>, ksyms: seq<u64>, lens: seq<u32>, idx: seq<int>)
    requires |idx| < |ksyms| && Agrees(jited, ksyms, lens, idx, |jited|)
    ensures NoDissection(jited, ksyms, lens)
  {
  }

  // Whatever dissection there may be begins this way.
  ghost predicate Agrees(jited: seq<u64>, ksyms: seq<u64>, lens: seq<u32>, idx: seq<int>, i: nat) {
    forall d :: IsDissection(jited, ksyms, lens, d) ==>
      |idx| <= |d| && d[..|idx|] == idx && (|idx| < |d| ==> d[|idx|] >= i)
  }

  lemma AgreeAtStart(jited: seq<u64>, ksyms: seq<u64>, lens: seq<u32>)
    requires |ksyms| == |lens| >= 1 && |jited| >= 1
    ensures Agrees(jited, ksyms, lens, [0], 1)
  {
    forall d | IsDissection(jited, ksyms, lens, d)
      ensures d[..1] == [0] && (1 < |d| ==> d[1] >= 1)
    {
      if 1 < |d| {
        assert PartOk(jited, ksyms, lens, d, 0, 1);
      }
    }
  }

  // The next function begins at the first record with its address.
  lemma AgreeFound(jited: seq<u64>, ksyms: seq<u64>, lens: seq<u32>, idx: seq<int>, i: nat)
    requires 0 < |idx| < |ksyms| == |lens| && 0 <= idx[|idx| - 1] < i < |jited|
    requires Agrees(jited, ksyms, lens, idx, i) && jited[i] == ksyms[|idx|]
    ensures Agrees(jited, ksyms, lens, idx + [i], i + 1)
    ensures !InCode(jited[i - 1], ksyms[|idx| - 1], lens[|idx| - 1]) ==> NoDissection(jited, ksyms, lens)
  {
    var f := |idx|;
    forall d | IsDissection(jited, ksyms, lens, d)
      ensures d[..f + 1] == idx + [i] && (f + 1 < |d| ==> d[f + 1] >= i + 1)
      ensures InCode(jited[i - 1], ksyms[f - 1], lens[f - 1])
    {
      assert d[..f] == idx && d[f - 1] == idx[f - 1];
      assert PartOk(jited, ksyms, lens, d, f - 1, f);
      assert d[f] == i;
      if f + 1 < |d| {
        assert PartOk(jited, ksyms, lens, d, f, f + 1);
      }
    }
  }

  lemma AgreeSkip(jited: seq<u64>, ksyms: seq<u64>, lens: seq<u32>, idx: seq<int>, i: nat)
    requires 0 < |idx| < |ksyms| == |lens| && 0 <= idx[|idx| - 1] < i < |jited|
    requires Agrees(jited, ksyms, lens, idx, i) && jited[i] != ksyms[|idx|]
    ensures Agrees(jited, ksyms, lens, idx, i + 1)
    ensures jited[i] <= jited[i - 1] ==> NoDissection(jited, ksyms, lens)
  {
    var f := |idx|;
    forall d | IsDissection(jited, ksyms, lens, d)
      ensures d[f] >= i + 1 && jited[i - 1] < jited[i]
    {
      assert d[..f] == idx && d[f - 1] == idx[f - 1];
      assert PartOk(jited, ksyms, lens, d, f - 1, f);
    }
  }

  // ---------- What a dissection is good for ----------

  /** The parts partition the records: none is empty, and every record is in exactly one. */
  lemma PartsCoverRecords(jited: seq<u64>, ksyms: seq<u64>, lens: seq<u32>, idx: seq<int>, counts: seq<int>, i: nat)
    returns (f: nat)
    requires IsDissection(jited, ksyms, lens, idx) && IsCounts(idx, counts, |jited|) && i < |jited|
    ensures forall g :: 0 <= g < |idx| ==> counts[g] > 0
    ensures f < |idx| && idx[f] <= i < idx[f] + counts[f]
    ensures forall g :: 0 <= g < |idx| && idx[g] <= i < idx[g] + counts[g] ==> g == f
  {
    forall g | 0 <= g < |idx|
      ensures counts[g] > 0
    {
      if g + 1 < |idx| {
        assert PartOk(jited, ksyms, lens, idx, g, g + 1);
      }
    }
    f := 0;
    while f + 1 < |idx| && idx[f + 1] <= i
      invariant f < |idx| && idx[f] <= i
      decreases |idx| - f
    {
      f := f + 1;
    }
    forall g | 0 <= g < |idx| && idx[g] <= i < idx[g] + counts[g]
      ensures g == f
    {
      if g < f {
        StartsClimb(jited, ksyms, lens, idx, g + 1, f);
      } else if f < g {
        StartsClimb(jited, ksyms, lens, idx, f + 1, g);
      }
    }
  }

  /** There is at most one dissection. */
  lemma {:induction false} DissectionIsUnique(jited: seq<u64>, ksyms: seq<u64>, lens: seq<u32>, d: seq<int>, e: seq<int>, n: nat)
    requires IsDissection(jited, ksyms, lens, d) && IsDissection(jited, ksyms, lens, e) && n <= |d|
    ensures |d| == |e| && d[..n] == e[..n]
  {
    if n <= 1 {
    } else {
      DissectionIsUnique(jited, ksyms, lens, d, e, n - 1);
      assert d[n - 2] == d[..n - 1][n - 2] == e[..n - 1][n - 2] == e[n - 2];
      assert PartOk(jited, ksyms, lens, d, n - 2, n - 1) && PartOk(jited, ksyms, lens, e, n - 2, n - 1);
    }
  }

  lemma {:induction false} StartsClimb(jited: seq<u64>, ksyms: seq<u64>, lens: seq<u32>, idx: seq<int>, f: nat, g: nat)
    requires IsDissection(jited, ksyms, lens, idx) && f <= g < |idx|
    ensures idx[f] <= idx[g]
    decreases g - f
  {
    if f == g {
    } else {
      StartsClimb(jited, ksyms, lens, idx, f, g - 1);
      assert PartOk(jited, ksyms, lens, idx, g - 1, g);
    }
  }

  // Every record of part `f` lies in the code of its function.
  /** Within a part other than the last the addresses climb strictly, and none after the first is the
      address of the next function. */
  lemma PartsClimb(jited: seq<u64>, ksyms: seq<u64>, lens: seq<u32>, idx: seq<int>, f: nat, i: int, j: int)
    requires IsDissection(jited, ksyms, lens, idx) && f + 1 < |idx| && idx[f] <= i < j < idx[f + 1]
    ensures 0 <= i && j < |jited| && jited[i] < jited[j] && jited[j] != ksyms[f + 1]
  {
    assert PartOk(jited, ksyms, lens, idx, f, f + 1);
    ClimbStrictly(jited, idx[f], i, j, idx[f + 1], ksyms[f + 1]);
  }

  lemma {:induction false} ClimbStrictly(jited: seq<u64>, from: nat, i: nat, j: nat, to: nat, stop: u64)
    requires Climbs(jited, from, to, stop) && from <= i < j < to
    ensures jited[i] < jited[j] != stop
    decreases j - i
  {
    if j == i + 1 {
    } else {
      ClimbStrictly(jited, from, i, j - 1, to, stop);
    }
  }

  predicate IsPartInCode(jited: seq<u64>, ksyms: seq<u64>, lens: seq<u32>, idx: seq<int>, f: nat)
    requires IsDissection(jited, ksyms, lens, idx) && f + 1 < |idx|
  {
    forall i :: idx[f] <= i < idx[f + 1] ==> 0 <= i < |jited| && ksyms[f] <= jited[i] < ksyms[f] + lens[f]
  }

  // A function at address 0 whose last record, the one before `to`, is the last address.
  predicate Wraps(jited: seq<u64>, ksym: u64, to: int) {
    ksym == 0 && 0 < to <= |jited| && jited[to - 1] == 0xffff_ffff_ffff_ffff
  }

  /** Records of a function other than the last lie inside its code if and only if the records do not
      span the whole address space, where the 64-bit test wraps around. */
  lemma PartInCode(jited: seq<u64>, ksyms: seq<u64>, lens: seq<u32>, idx: seq<int>, f: nat)
    requires IsDissection(jited, ksyms, lens, idx) && f + 1 < |idx|
    ensures IsPartInCode(jited, ksyms, lens, idx, f) <==> !Wraps(jited, ksyms[f], idx[f + 1])
  {
    assert PartOk(jited, ksyms, lens, idx, f, f + 1);
    var last := idx[f + 1] - 1;
    ClimbOrder(jited, idx[f], last, idx[f + 1], ksyms[f + 1]);
    forall i | idx[f] <= i < idx[f + 1]
      ensures ksyms[f] <= jited[i] <= jited[last]
    {
      ClimbOrder(jited, idx[f], i, idx[f + 1], ksyms[f + 1]);
      ClimbFrom(jited, idx[f], i, last, idx[f + 1], ksyms[f + 1]);
    }
  }

  /** A caller can rule the wrap-around out before the call: no function at address 0. */
  lemma PartsInCode(jited: seq<u64>, ksyms: seq<u64>, lens: seq<u32>, idx: seq<int>)
    requires IsDissection(jited, ksyms, lens, idx) && forall f :: 0 <= f < |ksyms| ==> ksyms[f] > 0
    ensures forall f :: 0 <= f && f + 1 < |idx| ==> IsPartInCode(jited, ksyms, lens, idx, f)
  {
    forall f | 0 <= f && f + 1 < |idx|
      ensures IsPartInCode(jited, ksyms, lens, idx, f)
    {
      PartInCode(jited, ksyms, lens, idx, f);
    }
  }

  /** Records at both ends of the address space pass for a function of one byte. */
  lemma WrappedPart()
    ensures IsDissection([0, 0xffff_ffff_ffff_ffff, 5], [0, 5], [1, 1], [0, 2])
    ensures !IsPartInCode([0, 0xffff_ffff_ffff_ffff, 5], [0, 5], [1, 1], [0, 2], 0)
  {
    var jited: seq<u64>, ksyms: seq<u64>, lens: seq<u32>, idx: seq<int> := [0, 0xffff_ffff_ffff_ffff, 5], [0, 5], [1, 1], [0, 2];
    assert Climbs(jited, 0, 2, 5);
    assert InCode(jited[1], ksyms[0], lens[0]);
    assert PartOk(jited, ksyms, lens, idx, 0, 1);
    PartInCode(jited, ksyms, lens, idx, 0);
  }

  lemma {:induction false} ClimbFrom(jited: seq<u64>, from: nat, i: nat, j: nat, to: nat, stop: u64)
    requires Climbs(jited, from, to, stop) && from <= i <= j < to
    ensures jited[i] <= jited[j]
    decreases j - i
  {
    if i == j {
    } else {
      ClimbFrom(jited, from, i, j - 1, to, stop);
    }
  }

  lemma ClimbOrder(jited: seq<u64>, from: nat, i: nat, to: nat, stop: u64)
    requires Climbs(jited, from, to, stop) && from <= i < to
    ensures jited[from] <= jited[i]
  {
    ClimbFrom(jited, from, from, i, to, stop);
  }

  // ---------- The lookups ----------

  /** The last record of the longest run, from `from` on, of records not after `key`. */
  ghost predicate IsLastNotAfter(recs: seq<int>, from: nat, to: nat, key: int, r: Found) {
    match r
    case NotFound => from >= to || to > |recs| || key < recs[from]
    case Record(k) =>
      && from <= k < to <= |recs|
      && (forall j :: from <= j <= k ==> recs[j] <= key)
      && (k + 1 == to || key < recs[k + 1])
  }

  /** On sorted records that is the floor: the greatest record not after the key. */
  lemma LastNotAfterIsFloor(recs: seq<int>, from: nat, to: nat, key: int, r: Found)
    requires from < to <= |recs| && forall i, j :: from <= i < j < to ==> recs[i] <= recs[j]
    requires IsLastNotAfter(recs, from, to, key, r)
    ensures r.NotFound? ==> forall j :: from <= j < to ==> key < recs[j]
    ensures r.Record? ==> forall j :: from <= j < to ==> (recs[j] <= key <==> j <= r.index)
  {
  }

  /** bpf_prog_linfo__lfind */
  method Lfind(linfo: seq<u32>, insnOff: u32, nrSkip: nat) returns (r: Found)
    ensures IsLastNotAfter(linfo, nrSkip, |linfo|, insnOff, r)
  {
    if nrSkip >= |linfo| {
      return NotFound;
    }
    var cur := nrSkip;
    if insnOff < linfo[cur] {
      return NotFound;
    }
    var i := 0;
    while i < |linfo| - nrSkip
      invariant 0 <= i <= |linfo| - nrSkip && cur == nrSkip + i
      invariant forall j :: nrSkip <= j < cur ==> linfo[j] <= insnOff
    {
      if insnOff < linfo[cur] {
        break;
      }
      cur := cur + 1;
      i := i + 1;
    }
    r := Record(cur - 1);
  }

  /** bpf_prog_linfo__lfind_addr_func: the same by address, within the part of one function. */
  method LfindAddrFunc(pl: ProgLinfo, addr: u64, funcIdx: nat, nrSkip: nat) returns (r: Found)
    requires pl.Valid()
    requires funcIdx < pl.nrJitedFunc ==>
               0 <= pl.jitedLinfoFuncIdx[funcIdx] && 0 <= pl.nrJitedLinfoPerFunc[funcIdx] &&
               pl.jitedLinfoFuncIdx[funcIdx] + pl.nrJitedLinfoPerFunc[funcIdx] <= |pl.jitedLinfo|
    ensures funcIdx >= pl.nrJitedFunc ==> r == NotFound
    ensures funcIdx < pl.nrJitedFunc ==>
              var start := pl.jitedLinfoFuncIdx[funcIdx];
              IsLastNotAfter(pl.jitedLinfo, start + nrSkip, start + pl.nrJitedLinfoPerFunc[funcIdx], addr, r)
  {
    if funcIdx >= pl.nrJitedFunc {
      return NotFound;
    }
    var nrLinfo: int := pl.nrJitedLinfoPerFunc[funcIdx];
    if nrSkip >= nrLinfo {
      return NotFound;
    }
    var start := pl.jitedLinfoFuncIdx[funcIdx] + nrSkip;
    var cur := start;
    if addr < pl.jitedLinfo[cur] {
      return NotFound;
    }
    nrLinfo := nrLinfo - nrSkip;
    var i := 0;
    while i < nrLinfo
      invariant 0 <= i <= nrLinfo && cur == start + i
      invariant forall j :: start <= j < cur ==> pl.jitedLinfo[j] <= addr
    {
      if addr < pl.jitedLinfo[cur] {
        break;
      }
      cur := cur + 1;
      i := i + 1;
    }
    r := Record(cur - 1);
  }

  // ---------- The cursor ----------

  /** One printed instruction, and the record whose source text is printed right before it. */
  datatype Line = Line(insn: nat, src: Found)

  // The second half of a 16-byte load.
  predicate IsSecond(wide: seq<bool>, i: nat) {
    0 < i <= |wide| && wide[i - 1] && !IsSecond(wide, i - 1)
  }

  // How many of the first `p` lines show a record.
  function Shown(lines: seq<Line>, p: nat): nat
    requires p <= |lines|
  {
    if p == 0 then 0 else Shown(lines, p - 1) + if lines[p - 1].src.Record? then 1 else 0
  }

  ghost predicate HasSlot(lines: seq<Line>, i: int) {
    exists p :: 0 <= p < |lines| && lines[p].insn == i
  }

  ghost predicate HasRecord(lines: seq<Line>, n: nat, k: nat)
    requires n <= |lines|
  {
    exists p :: 0 <= p < n && lines[p].src == Record(k)
  }

  // The slots below `n` that begin an instruction, in order.
  ghost predicate ListsSlots(wide: seq<bool>, n: nat, lines: seq<Line>) {
    && (forall p, q :: 0 <= p < q < |lines| ==> lines[p].insn < lines[q].insn)
    && (forall p :: 0 <= p < |lines| ==> lines[p].insn < n && !IsSecond(wide, lines[p].insn))
    && (forall i {:trigger HasSlot(lines, i)} :: 0 <= i < n && !IsSecond(wide, i) ==> HasSlot(lines, i))
  }

  // Each line shows what the lookup finds, skipping as many records as have been shown before.
  ghost predicate UsesCursor(linfo: seq<u32>, lines: seq<Line>) {
    forall p {:trigger ShowsFound(linfo, lines, p)} :: 0 <= p < |lines| ==> ShowsFound(linfo, lines, p)
  }

  ghost predicate ShowsFound(linfo: seq<u32>, lines: seq<Line>, p: nat)
    requires p < |lines|
  {
    IsLastNotAfter(linfo, Shown(lines, p), |linfo|, lines[p].insn, lines[p].src)
  }

  /** The dump begins with the first slot, goes on by two slots after a 16-byte load and by one after
      any other instruction, and ends with the program. */
  ghost predicate GoesByWidth(wide: seq<bool>, lines: seq<Line>) {
    && (wide == [] <==> lines == [])
    && (lines != [] ==> lines[0].insn == 0)
    && (forall p, q :: 0 <= p < q == p + 1 <= |lines| && lines[p].insn < |wide| ==>
          if q < |lines| then lines[q].insn == lines[p].insn + Width(wide, lines[p].insn)
          else |wide| <= lines[p].insn + Width(wide, lines[p].insn))
    && (forall p :: 0 <= p < |lines| ==> lines[p].insn < |wide|)
  }

  function Width(wide: seq<bool>, i: nat): nat
    requires i < |wide|
  {
    if wide[i] then 2 else 1
  }

  lemma ListedGoesByWidth(wide: seq<bool>, lines: seq<Line>)
    requires ListsSlots(wide, |wide|, lines)
    ensures GoesByWidth(wide, lines)
  {
    if wide != [] {
      assert !IsSecond(wide, 0) && HasSlot(lines, 0);
      assert lines[0].insn == 0;
    } else {
      assert lines != [] ==> lines[0].insn < 0;
    }
    forall p, q | 0 <= p < q == p + 1 <= |lines| && lines[p].insn < |wide|
      ensures if q < |lines| then lines[q].insn == lines[p].insn + Width(wide, lines[p].insn)
              else |wide| <= lines[p].insn + Width(wide, lines[p].insn)
    {
      var next := lines[p].insn + Width(wide, lines[p].insn);
      assert !IsSecond(wide, lines[p].insn);
      assert IsSecond(wide, lines[p].insn + 1) <==> wide[lines[p].insn];
      assert !IsSecond(wide, next);
      if next < |wide| {
        assert HasSlot(lines, next);
      }
    }
  }

  method DumpXlated(wide: seq<bool>, linfo: seq<u32>) returns (lines: seq<Line>)
    requires |wide| < 0x1_0000_0000
    ensures ListsSlots(wide, |wide|, lines) && UsesCursor(linfo, lines)
    ensures GoesByWidth(wide, lines)
  {
    lines := [];
    var nrSkip := 0;
    var doubleInsn := false;
    for i := 0 to |wide|
      invariant doubleInsn == IsSecond(wide, i) && nrSkip == Shown(lines, |lines|)
      invariant ListsSlots(wide, i, lines) && UsesCursor(linfo, lines)
    {
      if doubleInsn {
        ListsNoMore(wide, i, lines);
        doubleInsn := false;
        continue;
      }
      var r := Lfind(linfo, i, nrSkip);
      ListsOneMore(wide, linfo, i, lines, r);
      if r.Record? {
        nrSkip := nrSkip + 1;
      }
      doubleInsn := wide[i];
      lines := lines + [Line(i, r)];
    }
    ListedGoesByWidth(wide, lines);
  }

  lemma {:induction false} ShownOfPrefix(lines: seq<Line>, more: seq<Line>, p: nat)
    requires p <= |lines| <= |more| && more[..|lines|] == lines
    ensures Shown(more, p) == Shown(lines, p)
  {
    if p == 0 {
    } else {
      assert more[p - 1] == more[..|lines|][p - 1];
      ShownOfPrefix(lines, more, p - 1);
    }
  }

  lemma ListsNoMore(wide: seq<bool>, i: nat, lines: seq<Line>)
    requires ListsSlots(wide, i, lines) && IsSecond(wide, i)
    ensures ListsSlots(wide, i + 1, lines)
  {
  }

  lemma ListsOneMore(wide: seq<bool>, linfo: seq<u32>, i: nat, lines: seq<Line>, r: Found)
    requires ListsSlots(wide, i, lines) && UsesCursor(linfo, lines) && !IsSecond(wide, i)
    requires IsLastNotAfter(linfo, Shown(lines, |lines|), |linfo|, i, r)
    ensures ListsSlots(wide, i + 1, lines + [Line(i, r)]) && UsesCursor(linfo, lines + [Line(i, r)])
    ensures Shown(lines + [Line(i, r)], |lines| + 1) == Shown(lines, |lines|) + if r.Record? then 1 else 0
  {
    var more := lines + [Line(i, r)];
    ShownOfPrefix(lines, more, |lines|);
    forall p | 0 <= p < |more|
      ensures ShowsFound(linfo, more, p)
    {
      ShownOfPrefix(lines, more, p);
      assert p < |lines| ==> ShowsFound(linfo, lines, p);
    }
    forall j | 0 <= j < i + 1 && !IsSecond(wide, j)
      ensures HasSlot(more, j)
    {
      if j == i {
        assert more[|lines|].insn == j;
      } else {
        assert HasSlot(lines, j);
        var p :| 0 <= p < |lines| && lines[p].insn == j;
        assert more[p].insn == j;
      }
    }
  }

  /** Every record is shown exactly once, and where it is shown it stands before its own
      instruction. */
  ghost predicate ShowsEachOnce(linfo: seq<u32>, lines: seq<Line>) {
    && (forall p :: 0 <= p < |lines| && lines[p].src.Record? ==>
          lines[p].src.index < |linfo| && linfo[lines[p].src.index] == lines[p].insn)
    && (forall k :: 0 <= k < |linfo| ==> HasRecord(lines, |lines|, k))
    && (forall p, q :: 0 <= p < q < |lines| && lines[p].src.Record? ==> lines[p].src != lines[q].src)
  }

  // The offsets climb strictly, stay in the program and name first slots.
  ghost predicate AreClean(wide: seq<bool>, linfo: seq<u32>) {
    && (forall j, k :: 0 <= j < k < |linfo| ==> linfo[j] < linfo[k])
    && (forall k :: 0 <= k < |linfo| ==> linfo[k] < |wide| && !IsSecond(wide, linfo[k]))
  }

  /** The moving cursor is right on exactly the clean record lists. */
  lemma ShowsEachOnceIffClean(wide: seq<bool>, linfo: seq<u32>, lines: seq<Line>)
    requires ListsSlots(wide, |wide|, lines) && UsesCursor(linfo, lines)
    ensures ShowsEachOnce(linfo, lines) <==> AreClean(wide, linfo)
  {
    if ShowsEachOnce(linfo, lines) {
      ShownOnceIsClean(wide, linfo, lines);
    }
    if AreClean(wide, linfo) {
      CleanIsShown(wide, linfo, lines, |lines|);
      forall k | 0 <= k < |linfo|
        ensures HasRecord(lines, |lines|, k)
      {
        assert linfo[k] < NextSlot(wide, lines, |lines|);
      }
    }
  }

  lemma ShownOnceIsClean(wide: seq<bool>, linfo: seq<u32>, lines: seq<Line>)
    requires ListsSlots(wide, |wide|, lines) && UsesCursor(linfo, lines)
    requires ShowsEachOnce(linfo, lines)
    ensures AreClean(wide, linfo)
  {
    ShownInOrder(linfo, lines, |lines|);
    forall k | 0 <= k < |linfo|
      ensures linfo[k] < |wide| && !IsSecond(wide, linfo[k])
      ensures forall j :: 0 <= j < k ==> linfo[j] < linfo[k]
    {
      assert HasRecord(lines, |lines|, k);
      var q :| 0 <= q < |lines| && lines[q].src == Record(k);
      assert linfo[lines[q].src.index] == lines[q].insn;
      forall j | 0 <= j < k
        ensures linfo[j] < linfo[k]
      {
        assert HasRecord(lines, |lines|, j);
        var p :| 0 <= p < |lines| && lines[p].src == Record(j);
        if q < p {
          ShownGrows(lines, q, p);
        }
      }
    }
  }

  lemma {:induction false} ShownGrows(lines: seq<Line>, p: nat, q: nat)
    requires p < q <= |lines|
    ensures Shown(lines, p) + (if lines[p].src.Record? then 1 else 0) <= Shown(lines, q)
  {
    if p < q - 1 {
      ShownGrows(lines, p, q - 1);
    }
  }

  // If every record is shown once, the cursor never jumps over one.
  lemma {:induction false} ShownInOrder(linfo: seq<u32>, lines: seq<Line>, n: nat)
    requires UsesCursor(linfo, lines) && ShowsEachOnce(linfo, lines) && n <= |lines|
    requires forall p, q :: 0 <= p < q < |lines| ==> lines[p].insn < lines[q].insn
    ensures forall p :: 0 <= p < n && lines[p].src.Record? ==> lines[p].src.index == Shown(lines, p)
  {
    if n == 0 {
    } else {
      ShownInOrder(linfo, lines, n - 1);
      var p := n - 1;
      var c := Shown(lines, p);
      assert ShowsFound(linfo, lines, p);
      if lines[p].src.Record? && lines[p].src.index != c {
        assert HasRecord(lines, |lines|, c);
        var q :| 0 <= q < |lines| && lines[q].src == Record(c);
        assert q < p;
        ShownGrows(lines, q, p);
      }
    }
  }

  // The slot of the next line to print.
  function NextSlot(wide: seq<bool>, lines: seq<Line>, p: nat): nat
    requires p <= |lines|
  {
    if p < |lines| then lines[p].insn else |wide|
  }

  // No record lies between two lines that follow one another.
  lemma NoRecordBetween(wide: seq<bool>, linfo: seq<u32>, lines: seq<Line>, p: nat, k: nat)
    requires ListsSlots(wide, |wide|, lines) && AreClean(wide, linfo) && p <= |lines| && k < |linfo|
    requires p > 0 ==> linfo[k] > lines[p - 1].insn
    ensures linfo[k] >= NextSlot(wide, lines, p)
  {
    assert HasSlot(lines, linfo[k]);
    var q :| 0 <= q < |lines| && lines[q].insn == linfo[k];
    assert q >= p;
  }

  lemma {:induction false} CleanIsShown(wide: seq<bool>, linfo: seq<u32>, lines: seq<Line>, n: nat)
    requires ListsSlots(wide, |wide|, lines) && UsesCursor(linfo, lines) && AreClean(wide, linfo) && n <= |lines|
    ensures Shown(lines, n) <= |linfo|
    ensures forall k :: 0 <= k < |linfo| ==> (k < Shown(lines, n) <==> linfo[k] < NextSlot(wide, lines, n))
    ensures forall k :: 0 <= k < Shown(lines, n) ==> HasRecord(lines, n, k)
    ensures forall p :: 0 <= p < n && lines[p].src.Record? ==>
              lines[p].src.index < Shown(lines, n) && linfo[lines[p].src.index] == lines[p].insn
  {
    if n == 0 {
      forall k | 0 <= k < |linfo|
        ensures linfo[k] >= NextSlot(wide, lines, 0)
      {
        NoRecordBetween(wide, linfo, lines, 0, k);
      }
    } else {
      var p := n - 1;
      CleanIsShown(wide, linfo, lines, p);
      var c := Shown(lines, p);
      var r := lines[p].src;
      assert ShowsFound(linfo, lines, p);
      assert r.Record? <==> c < |linfo| && linfo[c] == lines[p].insn;
      assert c + 1 < |linfo| ==> linfo[c] < linfo[c + 1];
      forall k | Shown(lines, n) <= k < |linfo|
        ensures linfo[k] >= NextSlot(wide, lines, n)
      {
        NoRecordBetween(wide, linfo, lines, n, k);
      }
      forall k | 0 <= k < Shown(lines, n)
        ensures HasRecord(lines, n, k)
      {
        if k < c {
          assert HasRecord(lines, p, k);
        } else {
          assert lines[p].src == Record(k);
        }
      }
    }
  }

  /** With two records for one instruction the cursor shows the second one twice and the first never. */
  lemma RepeatedOffsetIsLost()
    ensures var lines := [Line(0, Record(1)), Line(1, Record(1))];
            ListsSlots([false, false], 2, lines) && UsesCursor([0, 0], lines) && !ShowsEachOnce([0, 0], lines)
  {
    var wide, linfo: seq<u32>, lines := [false, false], [0, 0], [Line(0, Record(1)), Line(1, Record(1))];
    assert lines[0].insn == 0 && lines[1].insn == 1;
    assert HasSlot(lines, 0) && HasSlot(lines, 1);
    assert Shown(lines, 0) == 0 && Shown(lines, 1) == 1;
    assert ShowsFound(linfo, lines, 0) && ShowsFound(linfo, lines, 1);
    assert lines[0].src == lines[1].src;
  }
}
