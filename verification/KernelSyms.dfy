/** The kernel symbol table of lib/bpftool/src/xlated_dumper.c: sorted and searched with a comparison
    that cuts a 64-bit difference down to an int. */
module KernelSyms {
  import opened Common
  import opened Sorting

  datatype KernelSym = KernelSym(address: u64, name: string)

  // The conversion of an unsigned long to int.
  function ToInt(x: int): (r: int)
    ensures -0x8000_0000 <= r < 0x8000_0000 && (r - x) % 0x1_0000_0000 == 0
  {
    var low := x % 0x1_0000_0000;
    if low < 0x8000_0000 then low else low - 0x1_0000_0000
  }

  function Cmp(a: KernelSym, b: KernelSym): int {
    ToInt((a.address - b.address) % 0x1_0000_0000_0000_0000)
  }

  predicate NotAfter(a: KernelSym, b: KernelSym) { Cmp(a, b) <= 0 }

  // The comparison has the sign of the difference.
  predicate Agrees(a: u64, b: u64) {
    var c := Cmp(KernelSym(a, ""), KernelSym(b, ""));
    (c < 0 <==> a < b) && (c > 0 <==> a > b)
  }

  /** The comparison follows the order of the addresses on a whole range if and only if the range is
      narrower than 2^31. */
  lemma AgreesIffNarrow(lo: u64, hi: u64)
    requires lo <= hi
    ensures (forall a: u64, b: u64 :: lo <= a <= hi && lo <= b <= hi ==> Agrees(a, b)) <==> hi - lo < 0x8000_0000
  {
    if hi - lo < 0x8000_0000 {
      forall a: u64, b: u64 | lo <= a <= hi && lo <= b <= hi
        ensures Agrees(a, b)
      {
        CmpOfNear(KernelSym(a, ""), KernelSym(b, ""));
      }
    } else {
      assert !Agrees(lo, lo + 0x8000_0000) || !Agrees(lo + 0x8000_0000, lo) by {
        assert (0x8000_0000 as int) % 0x1_0000_0000_0000_0000 == 0x8000_0000;
        assert ToInt(0x8000_0000) == -0x8000_0000;
      }
    }
  }

  lemma CmpOfNear(a: KernelSym, b: KernelSym)
    requires -0x8000_0000 < a.address - b.address < 0x8000_0000
    ensures Cmp(a, b) == a.address - b.address
  {
    var d := a.address - b.address;
    if d >= 0 {
      assert d % 0x1_0000_0000_0000_0000 == d;
    } else {
      var w := d + 0x1_0000_0000_0000_0000;
      assert d % 0x1_0000_0000_0000_0000 == w;
      assert w == 0xffff_ffff * 0x1_0000_0000 + (d + 0x1_0000_0000);
      assert w % 0x1_0000_0000 == d + 0x1_0000_0000;
    }
  }

  ghost predicate IsNarrow(syms: seq<KernelSym>, key: u64) {
    && (forall s, t :: s in syms && t in syms ==> -0x8000_0000 < s.address - t.address < 0x8000_0000)
    && (forall s :: s in syms ==> -0x8000_0000 < s.address - key < 0x8000_0000)
  }

  lemma NarrowIsOrdered(syms: seq<KernelSym>, key: u64)
    requires IsNarrow(syms, key)
    ensures OrdersAll(syms, NotAfter)
    ensures forall s, t :: s in syms && t in syms ==> (NotAfter(s, t) <==> s.address <= t.address)
  {
    forall s, t | s in syms && t in syms
      ensures NotAfter(s, t) <==> s.address <= t.address
    {
      CmpOfNear(s, t);
    }
  }

  class DumpData {
    var symMapping: seq<KernelSym>

    /** kernel_syms_load: the symbols with an address, sorted; nothing when addresses are hidden. */
    constructor (lines: seq<KernelSym>)
      ensures HidesAddresses(lines) ==> symMapping == []
      ensures !HidesAddresses(lines) ==> multiset(symMapping) == multiset(WithAddress(lines))
      ensures OrdersAll(WithAddress(lines), NotAfter) ==> IsSorted(symMapping, NotAfter)
    {
      symMapping := [];
      new;
      var syms: seq<KernelSym> := [];
      for i := 0 to |lines|
        invariant symMapping == [] && syms == WithAddress(lines[..i]) && !HidesAddresses(lines[..i])
      {
        assert lines[..i + 1][..i] == lines[..i];
        if lines[i].name == "__bpf_call_base" && lines[i].address == 0 {
          return;
        }
        if lines[i].address != 0 {
          syms := syms + [lines[i]];
        }
      }
      assert lines[..|lines|] == lines;
      symMapping := Sort(syms, NotAfter);
      if OrdersAll(syms, NotAfter) {
        SortIsSorted(syms, NotAfter);
      }
    }

    /** kernel_syms_search: a binary search with the same comparison. */
    method Search(key: u64) returns (found: Option<KernelSym>)
      ensures found == Between(symMapping, key, 0, |symMapping|)
      ensures found.Some? ==> found.value in symMapping && Cmp(KernelSym(key, ""), found.value) == 0
      ensures IsSorted(symMapping, NotAfter) && IsNarrow(symMapping, key) ==>
                if found.Some? then found.value.address == key
                else forall s :: s in symMapping ==> s.address != key
    {
      var sym := KernelSym(key, "");
      var lo, hi := 0, |symMapping|;
      ghost var good := IsSorted(symMapping, NotAfter) && IsNarrow(symMapping, key);
      while lo < hi
        invariant 0 <= lo <= hi <= |symMapping|
        invariant Between(symMapping, key, 0, |symMapping|) == Between(symMapping, key, lo, hi)
        invariant good ==> forall i :: 0 <= i < |symMapping| && !(lo <= i < hi) ==> symMapping[i].address != key
      {
        var mid := (lo + hi) / 2;
        var c := Cmp(sym, symMapping[mid]);
        if good {
          Halved(symMapping, key, mid);
        }
        if c < 0 {
          hi := mid;
        } else if c > 0 {
          lo := mid + 1;
        } else {
          return Some(symMapping[mid]);
        }
      }
      found := None;
    }
  }

  // What halving the table finds from `lo` on and before `hi`.
  function Between(syms: seq<KernelSym>, key: u64, lo: nat, hi: nat): Option<KernelSym>
    requires lo <= hi <= |syms|
    decreases hi - lo
  {
    if lo == hi then None
    else
      var mid := (lo + hi) / 2;
      var c := Cmp(KernelSym(key, ""), syms[mid]);
      if c < 0 then Between(syms, key, lo, mid)
      else if c > 0 then Between(syms, key, mid + 1, hi)
      else Some(syms[mid])
  }

  // sysctl kernel.kptr_restrict prints zeros.
  predicate HidesAddresses(lines: seq<KernelSym>) {
    exists i :: 0 <= i < |lines| && lines[i].name == "__bpf_call_base" && lines[i].address == 0
  }

  function WithAddress(lines: seq<KernelSym>): seq<KernelSym> {
    if lines == [] then []
    else WithAddress(lines[..|lines| - 1]) + if lines[|lines| - 1].address != 0 then [lines[|lines| - 1]] else []
  }

  /** The table has every listed symbol whose address is not 0, as often as it is listed, and no other. */
  lemma {:induction false} WithAddressExact(lines: seq<KernelSym>, s: KernelSym)
    ensures multiset(WithAddress(lines))[s] == if s.address == 0 then 0 else multiset(lines)[s]
    decreases |lines|
  {
    if lines == [] {
    } else {
      WithAddressExact(lines[..|lines| - 1], s);
      assert lines == lines[..|lines| - 1] + [lines[|lines| - 1]];
    }
  }

  lemma Halved(syms: seq<KernelSym>, key: u64, mid: nat)
    requires IsSorted(syms, NotAfter) && IsNarrow(syms, key) && mid < |syms|
    ensures Cmp(KernelSym(key, ""), syms[mid]) == key - syms[mid].address
    ensures forall i :: mid <= i < |syms| ==> syms[mid].address <= syms[i].address
    ensures forall i :: 0 <= i <= mid ==> syms[i].address <= syms[mid].address
  {
    CmpOfNear(KernelSym(key, ""), syms[mid]);
    NarrowIsOrdered(syms, key);
  }

  /** Outside such a range the comparison is not even transitive, ... */
  lemma CmpIsNotTransitive()
    ensures var a, b, c := KernelSym(0x1000, ""), KernelSym(0x6000_1000, ""), KernelSym(0xc000_1000, "");
            Cmp(a, b) < 0 && Cmp(b, c) < 0 && Cmp(a, c) > 0
  {
  }

  /** ... and a search can return a symbol at another address. */
  lemma SearchConfusesAddresses(s: KernelSym)
    requires s.address + 0x1_0000_0000 < 0x1_0000_0000_0000_0000
    ensures Between([s], s.address + 0x1_0000_0000, 0, 1) == Some(s)
  {
    var x := s.address + 0x1_0000_0000;
    assert (x - s.address) % 0x1_0000_0000_0000_0000 == 0x1_0000_0000;
    assert Cmp(KernelSym(x, ""), [s][0]) == 0;
  }
}
