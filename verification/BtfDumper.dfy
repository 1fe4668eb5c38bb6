/** Printing an integer bit-field of up to 127 bits: lib/bpftool/src/btf_dumper.c, little endian. */
module BtfDumper {
  import opened Bits

  // The two words as one number, lower word first.
  function Wide(printNum: seq<Word>): (r: seq<bool>)
    requires |printNum| == 2
    ensures |r| == 128
  {
    var lower: seq<bool>, upper: seq<bool> := printNum[0], printNum[1];
    lower + upper
  }

  /** btf_int128_shift: a left shift and then a right shift of the 128-bit number. */
  method Int128Shift(printNum: array<Word>, leftShiftBits: nat, rightShiftBits: nat)
    requires printNum.Length == 2
    requires 1 <= leftShiftBits <= 127 && 1 <= rightShiftBits <= 127
    modifies printNum
    ensures forall k :: 0 <= k < 128 ==>
              var from := k + rightShiftBits - leftShiftBits;
              Wide(printNum[..])[k] == (k + rightShiftBits < 128 && 0 <= from && Wide(old(printNum[..]))[from])
  {
    var upper, lower := printNum[1], printNum[0];
    ghost var was: seq<bool> := Wide([lower, upper]);
    if leftShiftBits >= 64 {
      upper := Shl(lower, leftShiftBits - 64);
      lower := Zero();
    } else {
      upper := Or(Shl(upper, leftShiftBits), Shr(lower, 64 - leftShiftBits));
      lower := Shl(lower, leftShiftBits);
    }
    assert forall k :: 0 <= k < 128 ==> Wide([lower, upper])[k] == (k >= leftShiftBits && was[k - leftShiftBits]);
    ghost var mid: seq<bool> := Wide([lower, upper]);
    if rightShiftBits >= 64 {
      lower := Shr(upper, rightShiftBits - 64);
      upper := Zero();
    } else {
      lower := Or(Shr(lower, rightShiftBits), Shl(upper, 64 - rightShiftBits));
      upper := Shr(upper, rightShiftBits);
    }
    assert forall k :: 0 <= k < 128 ==> Wide([lower, upper])[k] == (k + rightShiftBits < 128 && mid[k + rightShiftBits]);
    printNum[0] := lower;
    printNum[1] := upper;
    assert printNum[..] == [lower, upper];
  }

  /** btf_dumper_bitfield: the number printed is made of the selected bits of the data. */
  method DumperBitfield(nrBits: nat, bitOffset: nat, data: seq<Byte>) returns (num: seq<bool>)
    requires 1 <= nrBits && bitOffset + nrBits <= 127 && bitOffset + nrBits <= 8 * |data|
    ensures num == MemBits(data)[bitOffset..bitOffset + nrBits] + seq(128 - nrBits, _ => false)
  {
    var bitsToCopy := bitOffset + nrBits;
    var bytesToCopy := bitsToCopy / 8 + if bitsToCopy % 8 != 0 then 1 else 0;
    var printNum := new Word[2](_ => Zero());
    printNum[0] := Load(data, 0, if bytesToCopy < 8 then bytesToCopy else 8);
    if bytesToCopy > 8 {
      printNum[1] := Load(data, 8, bytesToCopy - 8);
    }
    ghost var was := Wide(printNum[..]);
    assert forall k :: 0 <= k < bitsToCopy ==> was[k] == MemBits(data)[k];
    Int128Shift(printNum, 128 - bitsToCopy, 128 - nrBits);
    num := Wide(printNum[..]);
  }

  /** btf_dumper_int_bits: splitting the offset into bytes and bits selects the same bits of the
      whole buffer. */
  method DumperIntBits(nrBits: nat, intOffset: nat, bitOffset: nat, data: seq<Byte>) returns (num: seq<bool>)
    requires 1 <= nrBits && (bitOffset + intOffset) % 8 + nrBits <= 127
    requires bitOffset + intOffset + nrBits <= 8 * |data|
    ensures num == MemBits(data)[bitOffset + intOffset..bitOffset + intOffset + nrBits] + seq(128 - nrBits, _ => false)
  {
    var totalBitsOffset := bitOffset + intOffset;
    var rest := data[totalBitsOffset / 8..];
    assert MemBits(rest) == MemBits(data)[8 * (totalBitsOffset / 8)..];
    num := DumperBitfield(nrBits, totalBitsOffset % 8, rest);
  }

  /** The number printed is floor(D / 2^offset) mod 2^nr_bits, where D is the value of the buffer. */
  lemma PrintedValue(data: seq<Byte>, offset: nat, nrBits: nat, num: seq<bool>)
    requires 1 <= nrBits <= 127 && offset + nrBits <= 8 * |data|
    requires num == MemBits(data)[offset..offset + nrBits] + seq(128 - nrBits, _ => false)
    ensures Val(num) == Val(MemBits(data)) / Pow2(offset) % Pow2(nrBits)
  {
    ValOfSlice(MemBits(data), offset, nrBits);
    ValOfPadded(MemBits(data)[offset..offset + nrBits], 128 - nrBits);
  }
}
