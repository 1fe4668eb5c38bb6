/** Machine words as their bits, least significant first, and the numbers they stand for. */
module Bits {
  import opened Arithmetic

  type Byte = b: seq<bool> | |b| == 8 witness [false, false, false, false, false, false, false, false]
  type Word = w: seq<bool> | |w| == 64 witness seq(64, _ => false)

  // The shifts of C; shifting a 64-bit value by 64 or more is undefined.
  function Shl(w: Word, n: nat): Word
    requires n < 64
  {
    seq(64, k requires 0 <= k < 64 => k >= n && w[k - n])
  }

  function Shr(w: Word, n: nat): Word
    requires n < 64
  {
    seq(64, k requires 0 <= k < 64 => k + n < 64 && w[k + n])
  }

  // The shift of a signed value, which repeats the sign bit.
  function ShrSigned(w: Word, n: nat): Word
    requires n < 64
  {
    seq(64, k requires 0 <= k < 64 => if k + n < 64 then w[k + n] else w[63])
  }

  function Or(v: Word, w: Word): Word {
    seq(64, k requires 0 <= k < 64 => v[k] || w[k])
  }

  function And(v: Word, w: Word): Word {
    seq(64, k requires 0 <= k < 64 => v[k] && w[k])
  }

  function Not(w: Word): Word {
    seq(64, k requires 0 <= k < 64 => !w[k])
  }

  function Zero(): Word {
    seq(64, _ => false)
  }

  // Memory as one row of bits, little endian.
  function MemBits(mem: seq<Byte>): (r: seq<bool>)
    ensures |r| == 8 * |mem|
  {
    seq(8 * |mem|, j requires 0 <= j < 8 * |mem| => mem[j / 8][j % 8])
  }

  // The load of `size` bytes, with zeros above.
  function Load(mem: seq<Byte>, at: nat, size: nat): Word
    requires at + size <= |mem| && size <= 8
  {
    var bits := MemBits(mem);
    seq(64, k requires 0 <= k < 64 => k < 8 * size && bits[8 * at + k])
  }

  function Pow2(n: nat): (r: nat)
    ensures r > 0
  {
    if n == 0 then 1 else 2 * Pow2(n - 1)
  }

  // The unsigned value of a row of bits.
  function Val(b: seq<bool>): nat {
    if b == [] then 0 else (if b[0] then 1 else 0) + 2 * Val(b[1..])
  }

  // The value in two's complement.
  function SignedVal(b: seq<bool>): int
    requires |b| > 0
  {
    Val(b) - if b[|b| - 1] then Pow2(|b|) else 0
  }

  lemma {:induction false} ValOfSum(a: seq<bool>, b: seq<bool>)
    ensures Val(a + b) == Val(a) + Pow2(|a|) * Val(b)
    ensures Val(a) < Pow2(|a|)
  {
    if a == [] {
      assert a + b == b;
    } else {
      ValOfSum(a[1..], b);
      assert (a + b)[1..] == a[1..] + b;
      Doubled(Pow2(|a| - 1), Val(b));
    }
  }

  lemma Doubled(p: nat, v: nat)
    ensures (2 * p) * v == 2 * (p * v)
  {
  }

  lemma {:induction false} ValOfSame(x: bool, n: nat)
    ensures Val(seq(n, _ => x)) == if x then Pow2(n) - 1 else 0
  {
    var b := seq(n, _ => x);
    if n == 0 {
    } else {
      ValOfSame(x, n - 1);
      assert b[1..] == seq(n - 1, _ => x);
    }
  }

  lemma MiddlePart(x: nat, lo: nat, mid: nat, hi: nat, p: nat, q: nat)
    requires lo < p && mid < q && x == lo + p * (mid + q * hi)
    ensures x / p % q == mid
  {
    Euclid(mid + q * hi, lo, p);
    Euclid(hi, mid, q);
  }

  lemma ValOfMiddle(lo: seq<bool>, mid: seq<bool>, hi: seq<bool>)
    ensures Val(lo + (mid + hi)) / Pow2(|lo|) % Pow2(|mid|) == Val(mid)
  {
    ValOfSum(lo, mid + hi);
    ValOfSum(mid, hi);
    MiddlePart(Val(lo + (mid + hi)), Val(lo), Val(mid), Val(hi), Pow2(|lo|), Pow2(|mid|));
  }

  /** Selecting bits is dividing and taking the remainder. */
  lemma ValOfSlice(b: seq<bool>, o: nat, n: nat)
    requires o + n <= |b|
    ensures Val(b[o..o + n]) == Val(b) / Pow2(o) % Pow2(n)
  {
    var lo, mid, hi := b[..o], b[o..o + n], b[o + n..];
    assert b == lo + (mid + hi);
    assert |lo| == o && |mid| == n;
    ValOfMiddle(lo, mid, hi);
  }

  // Bits above the top one of a value do not change it, if they are zero or repeat the sign.
  lemma ValOfPadded(b: seq<bool>, n: nat)
    ensures Val(b + seq(n, _ => false)) == Val(b)
  {
    ValOfSum(b, seq(n, _ => false));
    ValOfSame(false, n);
    assert Pow2(|b|) * 0 == 0;
  }

  lemma ValOfExtended(b: seq<bool>, n: nat)
    requires |b| > 0
    ensures SignedVal(b + seq(n, _ => b[|b| - 1])) == SignedVal(b)
  {
    var x := b[|b| - 1];
    var w := b + seq(n, _ => x);
    assert w[|w| - 1] == x;
    ValOfSum(b, seq(n, _ => x));
    ValOfSame(x, n);
    if x {
      Pow2Sum(|b|, n);
      OneLess(Pow2(|b|), Pow2(n));
    } else {
      assert Pow2(|b|) * 0 == 0;
    }
  }

  lemma OneLess(p: int, q: int)
    ensures p * (q - 1) == p * q - p
  {
  }

  lemma {:induction false} Pow2Sum(m: nat, n: nat)
    ensures Pow2(m + n) == Pow2(m) * Pow2(n)
  {
    if n == 0 {
    } else {
      Pow2Sum(m, n - 1);
      Doubled(Pow2(n - 1), Pow2(m));
    }
  }

  /** The signed value of an n-bit field: the remainder, moved below zero when the top bit is set. */
  lemma SignedValIsWrapped(b: seq<bool>)
    requires |b| > 0
    ensures SignedVal(b) == if Val(b) < Pow2(|b| - 1) then Val(b) else Val(b) - Pow2(|b|)
    ensures 0 <= SignedVal(b) + Pow2(|b| - 1) < Pow2(|b|)
  {
    var n := |b| - 1;
    assert b == b[..n] + [b[n]];
    ValOfSum(b[..n], [b[n]]);
    assert Val([b[n]]) == if b[n] then 1 else 0;
    if b[n] {
      assert Pow2(n) * 1 == Pow2(n);
    }
  }

  /** Memory is little endian: the first byte counts once, those after it 256 times. */
  lemma MemIsLittleEndian(mem: seq<Byte>)
    requires mem != []
    ensures Val(MemBits(mem)) == Val(mem[0]) + 256 * Val(MemBits(mem[1..]))
  {
    var first: seq<bool> := mem[0];
    assert MemBits(mem) == first + MemBits(mem[1..]);
    ValOfSum(first, MemBits(mem[1..]));
    assert Pow2(8) == 256;
  }
}
