/** Exactly which strings, characters and numbers survive the JSON writer. */
module JsonScalars {
  import opened Common
  import opened JsonText
  import opened JsonWriter
  import opened JsonRoundTrip
  import opened JsonExact

  // The text of a document made by one call.
  function Written(call: Call): string
    requires !call.EndObject? && !call.EndArray?
  {
    Step(FRESH, call).out
  }

  // ---------- Strings ----------

  // The document of one string is that string.
  lemma OneCall(call: Call, s: string)
    requires call == Call.String(s) || call == Enquote(s)
    ensures DocRun(NOTHING, [call]) == Some(Doc([], Some(Str(s)))) && WriterRun(FRESH, [call]) == Some(Step(FRESH, call))
  {
    assert [call][1..] == [];
  }

  /** jsonw_string: a string reads back if and only if its control characters are among the five
      that are escaped; any other makes the text no JSON at all. */
  lemma StringReadsBackIffClean(value: string)
    ensures Parse(Written(String(value))) == if Clean(value) then Some(Str(value)) else None
  {
    var calls := [Call.String(value)];
    OneCall(calls[0], value);
    ReadsBackIffCallsOk(calls, Str(value));
    assert CallOk(calls[0]) <==> Clean(value);
  }

  /** jsonw_vprintf_enquote adds quotes and escapes nothing: what it writes reads back as the
      formatted text if and only if that text needs no escaping. */
  lemma EnquoteReadsBackIffPlain(text: string)
    ensures Parse(Written(Enquote(text))) == Some(Str(text)) <==> Plain(text)
  {
    var calls := [Enquote(text)];
    OneCall(calls[0], text);
    ReadsBackIffCallsOk(calls, Str(text));
    assert CallOk(calls[0]) <==> Plain(text);
  }

  // ---------- Text with its own quotes ----------

  function Quoted(body: string): string { "\"" + body + "\"" }

  // What a quoted text denotes is what its body reads as inside a string.
  lemma QuotedValue(body: string, s: string)
    requires FeedAll(Lex([], InStr("")), body) == Lex([], InStr(s))
    ensures PrintedValue(Quoted(body)) == Some(Str(s))
  {
    var none: seq<Token> := [];
    ReadsQuoted("", none, body, s);
    assert "" + "\"" + body + "\"" == Quoted(body) && none + [StrTok(s)] == [StrTok(s)];
    assert Quoted(body)[0] == '"';
    if ScalarValue(Quoted(body)).Some? {
      ScalarChars(Quoted(body));
    }
  }

  /** A caller of jsonw_printf that writes the quotes itself, as the dumpers do for hexadecimal
      numbers, is read back as it meant if its text needs no escaping. */
  lemma PlainQuotedValue(body: string)
    requires Plain(body)
    ensures PrintedValue(Quoted(body)) == Some(Str(body))
    ensures forall w :: Step(w, Printf(Quoted(body))) == Step(w, Enquote(body))
  {
    FeedPlain([], "", body);
    assert "" + body == body;
    QuotedValue(body, body);
    forall w
      ensures Step(w, Printf(Quoted(body))) == Step(w, Enquote(body))
    {
      SameText(w, body);
    }
  }

  lemma SameText(w: WriterState, body: string)
    ensures Step(w, Printf(Quoted(body))) == Step(w, Enquote(body))
  {
    var out := AfterEor(w).out;
    assert out + Quoted(body) == out + "\"" + body + "\"";
  }

  function HexDigit(d: nat): char
    requires d < 16
  {
    if d < 10 then ('0' as nat + d) as char else ('a' as nat + d - 10) as char
  }

  // What btf_dumper_int prints for a character in JSON: itself if it is printable, else an escape.
  function CharText(c: nat): string
    requires c < 256
  {
    Quoted(if 0x20 <= c < 0x7f then [c as char] else "\\u00" + [HexDigit(c / 16), HexDigit(c % 16)])
  }

  /** A dumped character reads back as itself if and only if it is neither a quotation mark nor a
      backslash: these two are printable and are not escaped. */
  lemma CharReadsBackIff(c: nat)
    requires c < 256
    ensures Parse(Written(Printf(CharText(c)))) == Some(Str([c as char])) <==> c as char != '"' && c as char != '\\'
  {
    var s := [c as char];
    if 0x20 <= c < 0x7f {
      SameText(FRESH, s);
      EnquoteReadsBackIffPlain(s);
      assert Plain(s) <==> !IsControl(s[0]) && s[0] != '"' && s[0] != '\\';
    } else {
      HexEscape(c);
      QuotedValue("\\u00" + [HexDigit(c / 16), HexDigit(c % 16)], s);
      assert [Printf(CharText(c))][1..] == [];
      RoundTrip([Printf(CharText(c))], Str(s));
    }
  }

  lemma HexEscape(c: nat)
    requires c < 256
    ensures var body := "\\u00" + [HexDigit(c / 16), HexDigit(c % 16)];
            FeedAll(Lex([], InStr("")), body) == Lex([], InStr([c as char]))
  {
    var hi, lo := HexDigit(c / 16), HexDigit(c % 16);
    assert HexValue(hi) == Some(c / 16) && HexValue(lo) == Some(c % 16);
    var st := Lex([], InStr(""));
    FeedAppend(st, "\\u00", [hi, lo]);
    assert FeedAll(st, "\\u00") == Lex([], InHex("", 2, 0)) by {
      assert "\\u00"[1..] == "u00" && "u00"[1..] == "00" && "00"[1..] == "0" && "0"[1..] == "";
    }
    assert [hi, lo][1..] == [lo] && [lo][1..] == "";
    var third := Lex([], InHex("", 2, 0)).Feed(hi);
    assert third == Lex([], InHex("", 3, c / 16));
    FeedOne(third, lo);
    assert FeedAll(Lex([], InHex("", 2, 0)), [hi, lo]) == FeedAll(third, [lo]);
    assert third.Feed(lo) == Lex([], InStr("" + [c as char]));
    assert "" + [c as char] == [c as char];
  }

  // ---------- Strings that do not survive ----------

  /** Two strings that do not survive: a control character that is not escaped, and a quote in a
      formatted text. */
  lemma StringsThatAreLost()
    ensures Parse(Written(String([1 as char]))) == None
    ensures Parse(Written(Enquote("\""))) != Some(Str("\""))
  {
    StringReadsBackIffClean([1 as char]);
    EnquoteReadsBackIffPlain("\"");
    assert !Clean([1 as char]) && !Plain("\"") by {
      assert !CleanChar([1 as char][0]) && "\""[0] == '"';
    }
  }

  // ---------- Integers ----------

  function Digit(d: nat): char
    requires d < 10
  {
    ('0' as int + d) as char
  }

  // What %u and its wider relatives print.
  function Decimal(n: nat): string {
    if n < 10 then [Digit(n)] else Decimal(n / 10) + [Digit(n % 10)]
  }

  // What %d and its wider relatives print.
  function SignedDecimal(n: int): string {
    if n < 0 then "-" + Decimal(-n) else Decimal(n)
  }

  function DecimalValue(text: string): int
    requires forall i :: 0 <= i < |text| ==> IsDigit(text[i])
  {
    if text == "" then 0
    else 10 * DecimalValue(text[..|text| - 1]) + (text[|text| - 1] as int - '0' as int)
  }

  function SignedValue(text: string): int
    requires text != "" && forall i :: 0 <= i < |text| ==> IsDigit(text[i]) || (i == 0 && text[0] == '-')
  {
    if text[0] == '-' then -DecimalValue(text[1..]) else DecimalValue(text)
  }

  lemma {:induction false} NumRunAppend(s: NumState, a: string, b: string)
    ensures NumRun(s, a + b) == NumRun(NumRun(s, a), b)
    decreases a
  {
    if a == "" {
      assert a + b == b;
    } else {
      NumRunAppend(NumStep(s, a[0]), a[1..], b);
      assert (a + b)[1..] == a[1..] + b;
    }
  }

  lemma {:induction false} DecimalReads(n: nat, s: NumState)
    requires s == NumState.Begin || s == Minus
    ensures NumRun(s, Decimal(n)) == if n == 0 then Zero else Int
    ensures forall i :: 0 <= i < |Decimal(n)| ==> IsDigit(Decimal(n)[i])
    ensures Decimal(n) != "" && DecimalValue(Decimal(n)) == n
    decreases n
  {
    var d := Digit(n % 10);
    if n < 10 {
      assert Decimal(n) == [d] && [d][1..] == "" && [d][..0] == "";
    } else {
      DecimalReads(n / 10, s);
      NumRunAppend(s, Decimal(n / 10), [d]);
      assert [d][1..] == "";
      assert Decimal(n)[..|Decimal(n)| - 1] == Decimal(n / 10);
    }
  }

  /** jsonw_int and its relatives: every integer is written as a JSON number that denotes it. */
  lemma IntegerReadsBack(n: int)
    ensures var text := SignedDecimal(n);
            Parse(Written(Printf(text))) == Some(Num(text)) &&
            text != "" && (forall i :: 0 <= i < |text| ==> IsDigit(text[i]) || (i == 0 && text[0] == '-')) &&
            SignedValue(text) == n
  {
    var text := SignedDecimal(n);
    if n < 0 {
      DecimalReads(-n, Minus);
      assert text[1..] == Decimal(-n);
    } else {
      DecimalReads(n, NumState.Begin);
    }
    NumberIsScalar(text);
    RoundTrip([Printf(text)], Num(text));
  }
}
