/** Relocatable bit-field access: lib/libbpf/src/bpf_core_read.h, little endian. */
module CoreBitfield {
  import opened Bits

  /** What the relocations tell about a field: its storage unit, and how far a 64-bit word is
      shifted so that only the field stays. */
  datatype Relo = Relo(byteOffset: nat, byteSize: nat, lshift: nat, rshift: nat, signed: bool)

  // The relocations of the field of `n` bits that starts at bit `o` of its storage unit.
  predicate Locates(r: Relo, o: nat, n: nat, memSize: nat) {
    && 1 <= n && o + n <= 8 * r.byteSize && r.byteSize in {1, 2, 4, 8}
    && r.byteOffset + r.byteSize <= memSize
    && r.lshift == 64 - (o + n) && r.rshift == 64 - n
  }

  /** Every field inside a storage unit of one, two, four or eight bytes has relocations. */
  lemma FieldHasRelo(at: nat, size: nat, o: nat, n: nat, signed: bool, memSize: nat)
    requires (size == 1 || size == 2 || size == 4 || size == 8) && at + size <= memSize && 1 <= n && o + n <= 8 * size
    ensures Locates(Relo(at, size, 64 - (o + n), 64 - n, signed), o, n, memSize)
  {
  }

  // The field as a 64-bit word.
  function Field(bits: seq<bool>, at: nat, n: nat, signed: bool): Word
    requires 1 <= n <= 64 && at + n <= |bits|
  {
    seq(64, k requires 0 <= k < 64 => if k < n then bits[at + k] else signed && bits[at + n - 1])
  }

  function Written(bits: seq<bool>, at: nat, n: nat, v: Word): (r: seq<bool>)
    requires 1 <= n <= 64 && at + n <= |bits|
    ensures |r| == |bits|
  {
    bits[..at] + v[..n] + bits[at + n..]
  }

  // The two shifts of a read leave the field alone.
  lemma ShiftsSelect(w: Word, lshift: nat, rshift: nat, o: nat, n: nat, signed: bool)
    requires 1 <= n && o + n <= 64 && lshift == 64 - (o + n) && rshift == 64 - n
    ensures (if signed then ShrSigned(Shl(w, lshift), rshift) else Shr(Shl(w, lshift), rshift)) == Field(w, o, n, signed)
  {
    var l := Shl(w, lshift);
    assert forall k :: lshift <= k < 64 ==> l[k] == w[k - lshift];
    var r := if signed then ShrSigned(l, rshift) else Shr(l, rshift);
    forall k | 0 <= k < 64
      ensures r[k] == Field(w, o, n, signed)[k]
    {
      assert k < n ==> r[k] == l[k + rshift];
      assert k >= n ==> r[k] == (signed && l[63]);
    }
  }

  // The mask of a write covers the field and nothing else.
  lemma MaskReplaces(w: Word, nval: Word, o: nat, n: nat)
    requires 1 <= n && o + n <= 64
    ensures var mask := Shr(Shl(Not(Zero()), 64 - n), 64 - (o + n));
            Or(And(w, Not(mask)), And(Shl(nval, o), mask)) == Written(w, o, n, nval)
  {
  }

  lemma LoadedField(bits: seq<bool>, loaded: Word, at: nat, size: nat, o: nat, n: nat, signed: bool)
    requires size <= 8 && 8 * (at + size) <= |bits| && 1 <= n && o + n <= 8 * size
    requires forall k :: 0 <= k < 8 * size ==> loaded[k] == bits[8 * at + k]
    ensures Field(loaded, o, n, signed) == Field(bits, 8 * at + o, n, signed)
  {
  }

  lemma StoredField(mem: seq<Byte>, at: nat, size: nat, o: nat, n: nat, v: Word)
    requires size <= 8 && at + size <= |mem| && 1 <= n && o + n <= 8 * size
    ensures MemBits(mem)[..8 * at] + Written(Load(mem, at, size), o, n, v)[..8 * size] + MemBits(mem)[8 * (at + size)..] ==
            Written(MemBits(mem), 8 * at + o, n, v)
  {
    WrittenInside(MemBits(mem), Load(mem, at, size), at, size, o, n, v);
  }

  lemma WrittenInside(bits: seq<bool>, loaded: Word, at: nat, size: nat, o: nat, n: nat, v: Word)
    requires size <= 8 && 8 * (at + size) <= |bits| && 1 <= n && o + n <= 8 * size
    requires forall k :: 0 <= k < 8 * size ==> loaded[k] == bits[8 * at + k]
    ensures bits[..8 * at] + Written(loaded, o, n, v)[..8 * size] + bits[8 * (at + size)..] == Written(bits, 8 * at + o, n, v)
  {
  }

  function ByteAt(val: Word, k: nat): Byte
    requires k < 8
  {
    val[8 * k..8 * k + 8]
  }

  // The value read, computed from the loaded word.
  lemma ReadSelects(mem: seq<Byte>, r: Relo, o: nat, n: nat)
    requires Locates(r, o, n, |mem|)
    ensures var w := Shl(Load(mem, r.byteOffset, r.byteSize), r.lshift);
            (if r.signed then ShrSigned(w, r.rshift) else Shr(w, r.rshift)) ==
            Field(MemBits(mem), 8 * r.byteOffset + o, n, r.signed)
  {
    var loaded := Load(mem, r.byteOffset, r.byteSize);
    assert Field(loaded, o, n, r.signed) == Field(MemBits(mem), 8 * r.byteOffset + o, n, r.signed) by {
      LoadedField(MemBits(mem), loaded, r.byteOffset, r.byteSize, o, n, r.signed);
    }
    ShiftsSelect(loaded, r.lshift, r.rshift, o, n, r.signed);
  }

  function StoredByte(mem: seq<Byte>, at: nat, size: nat, val: Word, k: nat): Byte
    requires size <= 8 && at + size <= |mem| && k < |mem|
  {
    if at <= k < at + size then ByteAt(val, k - at) else mem[k]
  }

  // The word of `size` bytes stored over the old ones.
  function Stored(mem: seq<Byte>, at: nat, size: nat, val: Word): (now: seq<Byte>)
    requires size <= 8 && at + size <= |mem|
    ensures |now| == |mem|
  {
    seq(|mem|, k requires 0 <= k < |mem| => StoredByte(mem, at, size, val, k))
  }

  // A store of `size` bytes replaces their bits and no others.
  lemma StoredBits(mem: seq<Byte>, at: nat, size: nat, val: Word)
    requires size <= 8 && at + size <= |mem|
    ensures MemBits(Stored(mem, at, size, val)) == MemBits(mem)[..8 * at] + val[..8 * size] + MemBits(mem)[8 * (at + size)..]
  {
  }

  // The word a write puts together.
  function Merged(w: Word, r: Relo, nval: Word): Word
    requires r.lshift <= r.rshift < 64
  {
    var mask := Shr(Shl(Not(Zero()), r.rshift), r.lshift);
    Or(And(w, Not(mask)), And(Shl(nval, r.rshift - r.lshift), mask))
  }

  lemma MergedReplaces(w: Word, r: Relo, nval: Word, o: nat, n: nat)
    requires 1 <= n && o + n <= 64 && r.lshift == 64 - (o + n) && r.rshift == 64 - n
    ensures Merged(w, r, nval) == Written(w, o, n, nval)
  {
    MaskReplaces(w, nval, o, n);
  }

  lemma Replaced(mem: seq<Byte>, at: nat, size: nat, o: nat, n: nat, v: Word, val: Word)
    requires size <= 8 && at + size <= |mem| && 1 <= n && o + n <= 8 * size
    requires val == Written(Load(mem, at, size), o, n, v)
    ensures MemBits(Stored(mem, at, size, val)) == Written(MemBits(mem), 8 * at + o, n, v)
  {
    StoredBits(mem, at, size, val);
    StoredField(mem, at, size, o, n, v);
  }

  lemma WriteReplaces(mem: seq<Byte>, r: Relo, nval: Word, o: nat, n: nat)
    requires Locates(r, o, n, |mem|)
    ensures var val := Merged(Load(mem, r.byteOffset, r.byteSize), r, nval);
            MemBits(Stored(mem, r.byteOffset, r.byteSize, val)) == Written(MemBits(mem), 8 * r.byteOffset + o, n, nval)
  {
    var loaded := Load(mem, r.byteOffset, r.byteSize);
    var val := Merged(loaded, r, nval);
    MergedReplaces(loaded, r, nval, o, n);
    Replaced(mem, r.byteOffset, r.byteSize, o, n, nval, val);
  }

  // Neither macro touches memory for a storage unit of any other size.
  predicate HasNoStorage(r: Relo) {
    r.byteSize !in {1, 2, 4, 8} && r.lshift <= r.rshift < 64
  }

  /** BPF_CORE_READ_BITFIELD */
  method ReadBitfield(mem: array<Byte>, r: Relo, ghost o: nat, ghost n: nat) returns (val: Word)
    requires Locates(r, o, n, mem.Length) || HasNoStorage(r)
    ensures HasNoStorage(r) ==> val == Zero()
    ensures !HasNoStorage(r) ==> val == Field(MemBits(mem[..]), 8 * r.byteOffset + o, n, r.signed)
  {
    if r.byteSize in {1, 2, 4, 8} {
      val := Load(mem[..], r.byteOffset, r.byteSize);
      ReadSelects(mem[..], r, o, n);
    } else {
      val := Zero();
    }
    val := Shl(val, r.lshift);
    if r.signed {
      val := ShrSigned(val, r.rshift);
    } else {
      val := Shr(val, r.rshift);
    }
  }

  // The store of 1, 2, 4 or 8 bytes.
  method Store(mem: array<Byte>, at: nat, size: nat, val: Word)
    requires size <= 8 && at + size <= mem.Length
    modifies mem
    ensures mem[..] == Stored(old(mem[..]), at, size, val)
  {
    forall k | 0 <= k < size {
      mem[at + k] := ByteAt(val, k);
    }
  }

  /** BPF_CORE_WRITE_BITFIELD: the bits of the field are replaced and all others stay. */
  method WriteBitfield(mem: array<Byte>, r: Relo, nval: Word, ghost o: nat, ghost n: nat)
    requires Locates(r, o, n, mem.Length) || HasNoStorage(r)
    modifies mem
    ensures HasNoStorage(r) ==> mem[..] == old(mem[..])
    ensures !HasNoStorage(r) ==> MemBits(mem[..]) == Written(old(MemBits(mem[..])), 8 * r.byteOffset + o, n, nval)
  {
    var rpad := r.rshift - r.lshift;
    // For any other size the word put together is stored nowhere.
    if r.byteSize in {1, 2, 4, 8} {
      var val := Load(mem[..], r.byteOffset, r.byteSize);
      var mask := Shr(Shl(Not(Zero()), r.rshift), r.lshift);
      WriteReplaces(mem[..], r, nval, o, n);
      val := Or(And(val, Not(mask)), And(Shl(nval, rpad), mask));
      Store(mem, r.byteOffset, r.byteSize, val);
    }
  }

  lemma LowBits(v: Word, n: nat)
    requires n <= 64
    ensures Val(v[..n]) == Val(v) % Pow2(n)
  {
    ValOfSlice(v, 0, n);
    assert v[0..0 + n] == v[..n];
    assert Val(v) / 1 == Val(v);
  }

  lemma FieldOfWritten(bits: seq<bool>, at: nat, n: nat, v: Word, signed: bool)
    requires 1 <= n <= 64 && at + n <= |bits|
    ensures Field(Written(bits, at, n, v), at, n, signed) == v[..n] + seq(64 - n, _ => signed && v[n - 1])
  {
  }

  // The value modulo 2^n, or its signed counterpart.
  function Kept(value: nat, n: nat, signed: bool): int
    requires n > 0
  {
    var rem := value % Pow2(n);
    if signed && rem >= Pow2(n - 1) then rem - Pow2(n) else rem
  }

  /** The field as a number: floor(D / 2^at) mod 2^n, where D is the value of memory, or its signed
      counterpart. */
  lemma FieldIsNumber(bits: seq<bool>, at: nat, n: nat, signed: bool)
    requires 1 <= n <= 64 && at + n <= |bits|
    ensures var got := Field(bits, at, n, signed);
            Kept(Val(bits) / Pow2(at), n, signed) == if signed then SignedVal(got) else Val(got)
  {
    var low := bits[at..at + n];
    ValOfSlice(bits, at, n);
    FieldExtends(bits, at, n, signed);
    if signed {
      SignedValIsWrapped(low);
      ValOfExtended(low, 64 - n);
    } else {
      ValOfPadded(low, 64 - n);
    }
  }

  lemma FieldExtends(bits: seq<bool>, at: nat, n: nat, signed: bool)
    requires 1 <= n <= 64 && at + n <= |bits|
    ensures var low, got := bits[at..at + n], Field(bits, at, n, signed);
            got == if signed then low + seq(64 - n, _ => low[|low| - 1]) else low + seq(64 - n, _ => false)
  {
  }

  /** Reading a field after writing it gives the value modulo 2^n, or its signed counterpart. */
  lemma ReadAfterWrite(bits: seq<bool>, at: nat, n: nat, v: Word, signed: bool)
    requires 1 <= n <= 64 && at + n <= |bits|
    ensures var got := Field(Written(bits, at, n, v), at, n, signed);
            Kept(Val(v), n, signed) == if signed then SignedVal(got) else Val(got)
  {
    var low := v[..n];
    LowBits(v, n);
    FieldOfWritten(bits, at, n, v, signed);
    if signed {
      SignedValIsWrapped(low);
      ValOfExtended(low, 64 - n);
      assert low[|low| - 1] == v[n - 1];
      assert seq(64 - n, _ => low[|low| - 1]) == seq(64 - n, _ => signed && v[n - 1]);
    } else {
      ValOfPadded(low, 64 - n);
      assert seq(64 - n, _ => false) == seq(64 - n, _ => signed && v[n - 1]);
    }
  }

  /** Writing back what was read changes nothing. */
  lemma WriteAfterRead(bits: seq<bool>, at: nat, n: nat, signed: bool)
    requires 1 <= n <= 64 && at + n <= |bits|
    ensures Written(bits, at, n, Field(bits, at, n, signed)) == bits
  {
    assert Field(bits, at, n, signed)[..n] == bits[at..at + n];
  }

  /** Writes to fields that do not overlap commute, and neither is seen through the other. */
  lemma DisjointFields(bits: seq<bool>, at: nat, n: nat, v: Word, at': nat, n': nat, v': Word, signed: bool)
    requires 1 <= n <= 64 && at + n <= |bits| && 1 <= n' <= 64 && at' + n' <= |bits|
    requires at + n <= at' || at' + n' <= at
    ensures Written(Written(bits, at, n, v), at', n', v') == Written(Written(bits, at', n', v'), at, n, v)
    ensures Field(Written(bits, at, n, v), at', n', signed) == Field(bits, at', n', signed)
  {
  }
}
