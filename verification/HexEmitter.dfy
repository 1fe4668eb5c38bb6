/** The string literal that bpftool gen emits for binary data: print_hex of lib/bpftool/src/gen.c,
    and how a C compiler reads it back (C11, sections 5.1.1.2 and 6.4.4.4). */
module HexEmitter {
  import opened Common

  type byte = x: int | 0 <= x < 0x100

  // ---------- The reader ----------

  // The pieces of the text between line continuations.
  function Lines(s: string): (ls: seq<string>)
    ensures |ls| > 0
  {
    if s == [] then [[]]
    else if |s| >= 2 && s[0] == '\\' && s[1] == '\n' then [[]] + Lines(s[2..])
    else
      Prepended(s[0], Lines(s[1..]))
  }

  function Prepended(c: char, ls: seq<string>): (r: seq<string>)
    requires |ls| > 0
    ensures |r| == |ls|
  {
    [[c] + ls[0]] + ls[1..]
  }

  function Extended(ls: seq<string>, more: string): (r: seq<string>)
    requires |ls| > 0
    ensures |r| == |ls|
  {
    ls[..|ls| - 1] + [ls[|ls| - 1] + more]
  }

  function Joined(ls: seq<string>): string {
    if ls == [] then [] else ls[0] + Joined(ls[1..])
  }

  // Translation phase 2: a backslash right before a new-line is deleted together with it.
  function Splice(s: string): string { Joined(Lines(s)) }

  function DigitValue(c: char): (v: int)
    ensures -1 <= v < 16
  {
    if '0' <= c <= '9' then (c as int) - ('0' as int)
    else if 'a' <= c <= 'f' then (c as int) - ('a' as int) + 10
    else if 'A' <= c <= 'F' then (c as int) - ('A' as int) + 10
    else -1
  }

  predicate IsDigit(c: char, base: int) { 0 <= DigitValue(c) < base }

  // How many digits the text begins with.
  function Run(s: string, base: int): (n: nat)
    ensures n <= |s| && (forall i :: 0 <= i < n ==> IsDigit(s[i], base)) && (n < |s| ==> !IsDigit(s[n], base))
  {
    if s != [] && IsDigit(s[0], base) then 1 + Run(s[1..], base) else 0
  }

  function Number(s: string, base: int): int
    requires forall i :: 0 <= i < |s| ==> IsDigit(s[i], base)
  {
    if s == [] then 0 else base * Number(s[..|s| - 1], base) + DigitValue(s[|s| - 1])
  }

  // Octal and hexadecimal escapes: up to three digits, and as many as follow.
  function Decode(s: string): Option<seq<byte>> {
    if s == [] then Some([])
    else if s[0] != '\\' then None
    else if |s| > 1 && s[1] == 'x' then
      var n := Run(s[2..], 16);
      if n == 0 then None else Cons(Number(s[2..][..n], 16), Decode(s[2 + n..]))
    else
      var run := Run(s[1..], 8);
      var n := if run < 3 then run else 3;
      if n == 0 then None else Cons(Number(s[1..][..n], 8), Decode(s[1 + n..]))
  }

  function Cons(v: int, rest: Option<seq<byte>>): Option<seq<byte>> {
    if rest.Some? && 0 <= v < 0x100 then Some([v] + rest.value) else None
  }

  // ---------- The emitter ----------

  function HexDigit(v: int): (c: char)
    requires 0 <= v < 16
    ensures DigitValue(c) == v && c != '\n' && c != '\\'
  {
    if v < 10 then (v + '0' as int) as char else (v - 10 + 'a' as int) as char
  }

  // printf("\\x%02x") for a byte.
  function Escape(b: byte): string {
    if b == 0 then ['\\', '0'] else ['\\', 'x', HexDigit(b / 16), HexDigit(b % 16)]
  }

  function Escaped(data: seq<byte>): string {
    if data == [] then [] else Escape(data[0]) + Escaped(data[1..])
  }

  const MAX_LINE := 78

  ghost predicate FitsLines(s: string) {
    forall k :: 0 <= k < |Lines(s)| ==> |Lines(s)[k]| <= MAX_LINE
  }

  // The text does not end inside an escape.
  predicate IsWhole(s: string) { s == [] || s[|s| - 1] != '\\' }

  /** The literal decodes to the data, and no line of it is longer than 78 characters before its
      continuation. */
  method PrintHex(data: seq<byte>) returns (out: string)
    ensures Decode(Splice(out)) == Some(data)
    ensures FitsLines(out)
  {
    out := [];
    var len := 0;
    for i := 0 to |data|
      invariant Emits(out, data[..i], len)
    {
      var w := if data[i] != 0 then 4 else 2;
      len := len + w;
      if len > MAX_LINE {
        EmitsBreak(out, data[..i], len - w);
        out := out + ['\\', '\n'];
        len := w;
      }
      EmitsOneMore(out, data[..i], len - w, data[i]);
      if data[i] == 0 {
        out := out + ['\\', '0'];
      } else {
        out := out + ['\\', 'x', HexDigit(data[i] / 16), HexDigit(data[i] % 16)];
      }
      assert data[..i + 1] == data[..i] + [data[i]];
    }
    assert data[..|data|] == data;
    DecodeEscaped(data);
  }

  // The text so far stands for `data`, and its last line has `len` characters.
  ghost predicate Emits(out: string, data: seq<byte>, len: nat) {
    FitsLines(out) && len == |LastLine(out)| && IsWhole(out) && Splice(out) == Escaped(data)
  }

  lemma EmitsBreak(out: string, data: seq<byte>, len: nat)
    requires Emits(out, data, len)
    ensures Emits(out + ['\\', '\n'], data, 0)
  {
    LinesBreak(out);
  }

  lemma EmitsOneMore(out: string, data: seq<byte>, len: nat, b: byte)
    requires Emits(out, data, len) && len + |Escape(b)| <= MAX_LINE
    ensures Emits(out + Escape(b), data + [b], len + |Escape(b)|)
  {
    LinesExtend(out, Escape(b));
    EscapedOneMore(data, b);
  }

  function LastLine(s: string): string {
    var ls := Lines(s);
    ls[|ls| - 1]
  }

  lemma {:induction false} JoinedSum(a: seq<string>, b: seq<string>)
    ensures Joined(a + b) == Joined(a) + Joined(b)
  {
    if a == [] {
      assert a + b == b;
    } else {
      assert (a + b)[1..] == a[1..] + b;
      JoinedSum(a[1..], b);
    }
  }

  lemma LinesBreak(s: string)
    requires IsWhole(s)
    ensures LastLine(s + ['\\', '\n']) == []
    ensures FitsLines(s) ==> FitsLines(s + ['\\', '\n'])
    ensures Splice(s + ['\\', '\n']) == Splice(s)
  {
    LinesOfBreak(s);
    JoinedSum(Lines(s), [[]]);
  }

  lemma {:induction false} LinesOfBreak(s: string)
    requires IsWhole(s)
    ensures Lines(s + ['\\', '\n']) == Lines(s) + [[]]
  {
    var t := s + ['\\', '\n'];
    if s == [] {
      assert Lines(t[2..]) == [[]];
    } else if |s| >= 2 && s[0] == '\\' && s[1] == '\n' {
      assert t[2..] == s[2..] + ['\\', '\n'];
      LinesOfBreak(s[2..]);
    } else {
      assert t[1..] == s[1..] + ['\\', '\n'];
      LinesOfBreak(s[1..]);
    }
  }

  // Text without new-lines extends the last line, after a continuation too.
  lemma LinesExtend(s: string, more: string)
    requires IsWhole(s) && '\n' !in more
    ensures LastLine(s + more) == LastLine(s) + more
    ensures FitsLines(s) && |LastLine(s) + more| <= MAX_LINE ==> FitsLines(s + more)
    ensures Splice(s + more) == Splice(s) + more
  {
    LinesOfExtended(s, more);
    JoinedExtended(Lines(s), more);
  }

  lemma {:induction false} JoinedExtended(ls: seq<string>, more: string)
    requires |ls| > 0
    ensures Joined(Extended(ls, more)) == Joined(ls) + more
  {
    if |ls| > 1 {
      assert Extended(ls, more)[1..] == Extended(ls[1..], more);
      JoinedExtended(ls[1..], more);
    } else {
      assert Joined(ls[1..]) == [] && Joined(Extended(ls, more)[1..]) == [];
    }
  }

  lemma {:induction false} LinesOfExtended(s: string, more: string)
    requires IsWhole(s) && '\n' !in more
    ensures Lines(s + more) == Extended(Lines(s), more)
  {
    var t := s + more;
    if s == [] {
      assert t == more;
      LinesOfPlain(more);
    } else if |s| >= 2 && s[0] == '\\' && s[1] == '\n' {
      assert t[2..] == s[2..] + more;
      LinesOfExtended(s[2..], more);
      assert [[]] + Extended(Lines(s[2..]), more) == Extended([[]] + Lines(s[2..]), more);
    } else {
      assert t[1..] == s[1..] + more;
      LinesOfExtended(s[1..], more);
      PrependExtend(s[0], Lines(s[1..]), more);
    }
  }

  lemma PrependExtend(c: char, ls: seq<string>, more: string)
    requires |ls| > 0
    ensures Prepended(c, Extended(ls, more)) == Extended(Prepended(c, ls), more)
  {
    assert ([c] + ls[0]) + more == [c] + (ls[0] + more);
  }

  lemma {:induction false} LinesOfPlain(s: string)
    requires '\n' !in s
    ensures Lines(s) == [s]
  {
    if s == [] {
    } else {
      LinesOfPlain(s[1..]);
      assert [s[0]] + s[1..] == s;
    }
  }

  lemma {:induction false} EscapedOneMore(data: seq<byte>, b: byte)
    ensures Escaped(data + [b]) == Escaped(data) + Escape(b)
  {
    if data == [] {
    } else {
      EscapedOneMore(data[1..], b);
      assert (data + [b])[1..] == data[1..] + [b];
    }
  }

  lemma RunEnds(digits: string, rest: string, base: int)
    requires (forall i :: 0 <= i < |digits| ==> IsDigit(digits[i], base)) && (rest == [] || rest[0] == '\\')
    ensures Run(digits + rest, base) == |digits|
  {
    var s := digits + rest;
    assert forall i :: 0 <= i < |digits| ==> s[i] == digits[i];
    assert rest != [] ==> s[|digits|] == '\\';
    assert Run(s, base) <= |s|;
  }

  lemma DecodeHex(h: char, l: char, rest: string)
    requires IsDigit(h, 16) && IsDigit(l, 16) && (rest == [] || rest[0] == '\\')
    ensures Decode(['\\', 'x', h, l] + rest) == Cons(16 * DigitValue(h) + DigitValue(l), Decode(rest))
  {
    var s := ['\\', 'x', h, l] + rest;
    RunEnds([h, l], rest, 16);
    NumberOfTwo(h, l, 16);
    assert s[2..] == [h, l] + rest && s[2..][..2] == [h, l] && s[2 + 2..] == rest;
  }

  lemma DecodeOctal(rest: string)
    requires rest == [] || rest[0] == '\\'
    ensures Decode(['\\', '0'] + rest) == Cons(0, Decode(rest))
  {
    var s := ['\\', '0'] + rest;
    RunEnds(['0'], rest, 8);
    NumberOfOne('0', 8);
    assert s[1..] == ['0'] + rest && s[1..][..1] == ['0'] && s[1 + 1..] == rest;
  }

  lemma EscapeOfNonZero(b: byte) returns (h: char, l: char)
    requires b != 0
    ensures Escape(b) == ['\\', 'x', h, l]
    ensures IsDigit(h, 16) && IsDigit(l, 16) && 16 * DigitValue(h) + DigitValue(l) == b
  {
    h, l := HexDigit(b / 16), HexDigit(b % 16);
  }

  /** An escape is read as its byte, whatever escape follows. */
  lemma DecodeEscape(b: byte, rest: string)
    requires rest == [] || rest[0] == '\\'
    ensures Decode(Escape(b) + rest) == Cons(b, Decode(rest))
  {
    if b == 0 {
      assert Escape(b) == ['\\', '0'];
      DecodeOctal(rest);
    } else {
      var h, l := EscapeOfNonZero(b);
      DecodeHex(h, l, rest);
    }
  }

  lemma NumberOfOne(c: char, base: int)
    requires IsDigit(c, base)
    ensures Number([c], base) == DigitValue(c)
  {
    assert [c][..0] == [];
    assert base * 0 == 0;
  }

  lemma NumberOfTwo(c: char, d: char, base: int)
    requires IsDigit(c, base) && IsDigit(d, base)
    ensures Number([c, d], base) == base * DigitValue(c) + DigitValue(d)
  {
    NumberOfOne(c, base);
    assert [c, d][..1] == [c];
  }

  lemma {:induction false} DecodeEscaped(data: seq<byte>)
    ensures Decode(Escaped(data)) == Some(data)
  {
    if data == [] {
    } else {
      DecodeEscaped(data[1..]);
      DecodeEscape(data[0], Escaped(data[1..]));
      assert [data[0]] + data[1..] == data;
    }
  }
}
