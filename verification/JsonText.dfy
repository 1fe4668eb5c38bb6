/** A reader for JSON texts, after sections 2 to 7 of RFC 8259, independent of the writer: a
    one-character-at-a-time lexer and a recursive-descent parser.  It is strict where the writer and
    its callers need nothing more: an escape for half a surrogate pair is not accepted, so whatever it
    accepts is a JSON text. */
module JsonText {
  import opened Common

  // ---------- Values ----------

  // A number is kept as the text that denotes it.
  datatype Json =
    | Null
    | Bool(b: bool)
    | Num(text: string)
    | Str(s: string)
    | Arr(elems: seq<Json>)
    | Obj(fields: seq<Field>)

  datatype Field = Field(key: string, value: Json)

  // ---------- Tokens ----------

  datatype Token =
    | LBrace | RBrace | LBracket | RBracket | Colon | Comma
    | StrTok(s: string)
    | ScalarTok(text: string)

  predicate IsWs(c: char) { c == ' ' || c == '\t' || c == '\n' || c == '\r' }

  predicate IsPunct(c: char) { c in "{}[]:," }

  function PunctTok(c: char): Token
    requires IsPunct(c)
  {
    if c == '{' then LBrace else if c == '}' then RBrace
    else if c == '[' then LBracket else if c == ']' then RBracket
    else if c == ':' then Colon else Comma
  }

  predicate IsControl(c: char) { (c as int) < 0x20 }

  // The characters that may follow a backslash, and what they stand for.
  function Unescape(c: char): Option<char> {
    if c == '"' || c == '\\' || c == '/' then Some(c)
    else if c == 'b' then Some(8 as char)
    else if c == 'f' then Some(12 as char)
    else if c == 'n' then Some('\n')
    else if c == 'r' then Some('\r')
    else if c == 't' then Some('\t')
    else None
  }

  function HexValue(c: char): Option<nat> {
    if '0' <= c <= '9' then Some(c as nat - '0' as nat)
    else if 'a' <= c <= 'f' then Some(c as nat - 'a' as nat + 10)
    else if 'A' <= c <= 'F' then Some(c as nat - 'A' as nat + 10)
    else None
  }

  // Where the lexer is: between tokens (with the letters of an unfinished number or literal),
  // inside a string, just after a backslash in one, among the digits after \u, or past an error.
  datatype Mode =
    | Ground(pending: string)
    | InStr(acc: string)
    | InEsc(acc: string)
    | InHex(acc: string, digits: nat, value: nat)
    | Bad

  // The fourth digit completes the character, unless it is half a surrogate pair.
  function AfterDigit(acc: string, digits: nat, value: nat): Mode {
    if digits < 4 then InHex(acc, digits, value)
    else if value < 0xd800 || 0xe000 <= value <= 0xffff then InStr(acc + [value as char])
    else Bad
  }

  datatype Lex = Lex(tokens: seq<Token>, mode: Mode) {
    // The tokens read, counting an unfinished number or literal as finished.
    function Flushed(): seq<Token>
      requires mode.Ground?
    {
      if mode.pending == "" then tokens else tokens + [ScalarTok(mode.pending)]
    }

    function Feed(c: char): Lex {
      match mode
      case Ground(p) =>
        if IsWs(c) then Lex(Flushed(), Ground(""))
        else if IsPunct(c) then Lex(Flushed() + [PunctTok(c)], Ground(""))
        else if c == '"' then Lex(Flushed(), InStr(""))
        else Lex(tokens, Ground(p + [c]))
      case InStr(acc) =>
        if c == '"' then Lex(tokens + [StrTok(acc)], Ground(""))
        else if c == '\\' then Lex(tokens, InEsc(acc))
        else if IsControl(c) then Lex(tokens, Bad)
        else Lex(tokens, InStr(acc + [c]))
      case InEsc(acc) =>
        (match Unescape(c)
         case None => Lex(tokens, if c == 'u' then InHex(acc, 0, 0) else Bad)
         case Some(d) => Lex(tokens, InStr(acc + [d])))
      case InHex(acc, digits, value) =>
        (match HexValue(c)
         case None => Lex(tokens, Bad)
         case Some(d) => Lex(tokens, AfterDigit(acc, digits + 1, 16 * value + d)))
      case Bad => this
    }
  }

  function FeedAll(st: Lex, text: string): Lex
    decreases text
  {
    if text == "" then st else FeedAll(st.Feed(text[0]), text[1..])
  }

  lemma {:induction false} FeedAppend(st: Lex, a: string, b: string)
    ensures FeedAll(st, a + b) == FeedAll(FeedAll(st, a), b)
    decreases a
  {
    if a == "" {
      assert a + b == b;
    } else {
      FeedAppend(st.Feed(a[0]), a[1..], b);
      assert (a + b)[1..] == a[1..] + b;
    }
  }

  const START := Lex([], Ground(""))

  function Tokens(text: string): Option<seq<Token>> {
    var st := FeedAll(START, text);
    if st.mode.Ground? then Some(st.Flushed()) else None
  }

  // ---------- Numbers (section 6) ----------

  datatype NumState = Begin | Minus | Zero | Int | Dot | Frac | Exp | ExpSign | ExpInt | NotANumber

  predicate IsDigit(c: char) { '0' <= c <= '9' }

  function NumStep(s: NumState, c: char): NumState {
    match s
    case Begin => if c == '-' then Minus else if c == '0' then Zero else if IsDigit(c) then Int else NotANumber
    case Minus => if c == '0' then Zero else if IsDigit(c) then Int else NotANumber
    case Zero => if c == '.' then Dot else if c == 'e' || c == 'E' then Exp else NotANumber
    case Int => if IsDigit(c) then Int else if c == '.' then Dot else if c == 'e' || c == 'E' then Exp else NotANumber
    case Dot => if IsDigit(c) then Frac else NotANumber
    case Frac => if IsDigit(c) then Frac else if c == 'e' || c == 'E' then Exp else NotANumber
    case Exp => if c == '+' || c == '-' then ExpSign else if IsDigit(c) then ExpInt else NotANumber
    case ExpSign => if IsDigit(c) then ExpInt else NotANumber
    case ExpInt => if IsDigit(c) then ExpInt else NotANumber
    case NotANumber => NotANumber
  }

  function NumRun(s: NumState, text: string): NumState
    decreases text
  {
    if text == "" then s else NumRun(NumStep(s, text[0]), text[1..])
  }

  predicate IsNumber(text: string) {
    NumRun(Begin, text) in {Zero, Int, Frac, ExpInt}
  }

  function ScalarValue(text: string): Option<Json> {
    if text == "null" then Some(Null)
    else if text == "true" then Some(Bool(true))
    else if text == "false" then Some(Bool(false))
    else if IsNumber(text) then Some(Num(text))
    else None
  }

  // ---------- The parser ----------

  datatype Parsed<T> = Fail | Ok(value: T, rest: seq<Token>)

  function ParseValue(ts: seq<Token>): (r: Parsed<Json>)
    ensures r.Ok? ==> |r.rest| < |ts|
    decreases |ts|, 1
  {
    if ts == [] then Fail
    else match ts[0]
      case StrTok(s) => Ok(Str(s), ts[1..])
      case ScalarTok(text) =>
        (match ScalarValue(text)
         case None => Fail
         case Some(v) => Ok(v, ts[1..]))
      case LBracket =>
        if |ts| > 1 && ts[1] == RBracket then Ok(Arr([]), ts[2..])
        else
          (match ParseElems(ts[1..])
           case Fail => Fail
           case Ok(elems, rest) => Ok(Arr(elems), rest))
      case LBrace =>
        if |ts| > 1 && ts[1] == RBrace then Ok(Obj([]), ts[2..])
        else
          (match ParseFields(ts[1..])
           case Fail => Fail
           case Ok(fields, rest) => Ok(Obj(fields), rest))
      case _ => Fail
  }

  // One element or more, up to and including the closing bracket.
  function ParseElems(ts: seq<Token>): (r: Parsed<seq<Json>>)
    ensures r.Ok? ==> |r.rest| < |ts|
    decreases |ts|, 2
  {
    match ParseValue(ts)
    case Fail => Fail
    case Ok(v, rest) =>
      if rest == [] then Fail
      else if rest[0] == RBracket then Ok([v], rest[1..])
      else if rest[0] != Comma then Fail
      else
        match ParseElems(rest[1..])
        case Fail => Fail
        case Ok(more, rest') => Ok([v] + more, rest')
  }

  // One name/value pair or more, up to and including the closing brace.
  function ParseFields(ts: seq<Token>): (r: Parsed<seq<Field>>)
    ensures r.Ok? ==> |r.rest| < |ts|
    decreases |ts|, 2
  {
    if |ts| < 2 || !ts[0].StrTok? || ts[1] != Colon then Fail
    else
      match ParseValue(ts[2..])
      case Fail => Fail
      case Ok(v, rest) =>
        if rest == [] then Fail
        else if rest[0] == RBrace then Ok([Field(ts[0].s, v)], rest[1..])
        else if rest[0] != Comma then Fail
        else
          match ParseFields(rest[1..])
          case Fail => Fail
          case Ok(more, rest') => Ok([Field(ts[0].s, v)] + more, rest')
  }

  /** The value a JSON text denotes, if it is one. */
  function Parse(text: string): Option<Json> {
    match Tokens(text)
    case None => None
    case Some(ts) =>
      match ParseValue(ts)
      case Fail => None
      case Ok(v, rest) => if rest == [] then Some(v) else None
  }

  // ---------- The tokens of a value, and that they parse back ----------

  predicate ValidJson(j: Json) {
    match j
    case Null => true
    case Bool(_) => true
    case Num(text) => IsNumber(text)
    case Str(_) => true
    case Arr(elems) => forall i :: 0 <= i < |elems| ==> ValidJson(elems[i])
    case Obj(fields) => forall i :: 0 <= i < |fields| ==> ValidJson(fields[i].value)
  }

  function Toks(j: Json): (ts: seq<Token>)
    ensures |ts| >= 1 && ts[0] != RBracket
    decreases j, 1
  {
    match j
    case Null => [ScalarTok("null")]
    case Bool(b) => [ScalarTok(if b then "true" else "false")]
    case Num(text) => [ScalarTok(text)]
    case Str(s) => [StrTok(s)]
    case Arr(elems) => [LBracket] + ElemToks(elems) + [RBracket]
    case Obj(fields) => [LBrace] + FieldToks(fields) + [RBrace]
  }

  // Elements separated by commas.
  function ElemToks(elems: seq<Json>): seq<Token>
    decreases elems, 0
  {
    if elems == [] then []
    else if |elems| == 1 then Toks(elems[0])
    else Toks(elems[0]) + [Comma] + ElemToks(elems[1..])
  }

  function FieldToks(fields: seq<Field>): seq<Token>
    decreases fields, 0
  {
    if fields == [] then []
    else
      var f := fields[0];
      var first := [StrTok(f.key), Colon] + Toks(f.value);
      if |fields| == 1 then first else first + [Comma] + FieldToks(fields[1..])
  }

  lemma NumberIsScalar(text: string)
    requires IsNumber(text)
    ensures ScalarValue(text) == Some(Num(text))
  {
    assert NumStep(Begin, 'n') == NumStep(Begin, 't') == NumStep(Begin, 'f') == NotANumber;
    if text != "" {
      StuckNumber(text[1..]);
    }
  }

  lemma {:induction false} StuckNumber(text: string)
    ensures NumRun(NotANumber, text) == NotANumber
  {
    if text == "" {
    } else {
      StuckNumber(text[1..]);
    }
  }

  lemma ElemsLast(ts: seq<Token>, v: Json, rest: seq<Token>)
    requires ParseValue(ts) == Ok(v, [RBracket] + rest)
    ensures ParseElems(ts) == Ok([v], rest)
  {
    assert ([RBracket] + rest)[1..] == rest;
  }

  lemma ElemsMore(ts: seq<Token>, v: Json, ts': seq<Token>, more: seq<Json>, rest: seq<Token>)
    requires ParseValue(ts) == Ok(v, [Comma] + ts') && ParseElems(ts') == Ok(more, rest)
    ensures ParseElems(ts) == Ok([v] + more, rest)
  {
    assert ([Comma] + ts')[1..] == ts';
  }

  lemma FieldsLast(key: string, ts: seq<Token>, v: Json, rest: seq<Token>)
    requires ParseValue(ts) == Ok(v, [RBrace] + rest)
    ensures ParseFields([StrTok(key), Colon] + ts) == Ok([Field(key, v)], rest)
  {
    assert ([StrTok(key), Colon] + ts)[2..] == ts;
    assert ([RBrace] + rest)[1..] == rest;
  }

  lemma FieldsMore(key: string, ts: seq<Token>, v: Json, ts': seq<Token>, more: seq<Field>, rest: seq<Token>)
    requires ParseValue(ts) == Ok(v, [Comma] + ts') && ParseFields(ts') == Ok(more, rest)
    ensures ParseFields([StrTok(key), Colon] + ts) == Ok([Field(key, v)] + more, rest)
  {
    assert ([StrTok(key), Colon] + ts)[2..] == ts;
    assert ([Comma] + ts')[1..] == ts';
  }

  lemma ArrValue(elems: seq<Json>, ts: seq<Token>, rest: seq<Token>)
    requires ParseElems(ts) == Ok(elems, rest) && |ts| > 0 && ts[0] != RBracket
    ensures ParseValue([LBracket] + ts) == Ok(Arr(elems), rest)
  {
    assert ([LBracket] + ts)[1..] == ts;
  }

  lemma ObjValue(fields: seq<Field>, ts: seq<Token>, rest: seq<Token>)
    requires ParseFields(ts) == Ok(fields, rest)
    ensures ParseValue([LBrace] + ts) == Ok(Obj(fields), rest)
  {
    assert ([LBrace] + ts)[1..] == ts;
    assert |ts| > 0 && ts[0].StrTok?;
  }

  // How the tokens of a sequence come apart, before whatever follows them.
  lemma ElemToksOne(x: Json, after: seq<Token>)
    ensures ElemToks([x]) + after == Toks(x) + after
  {
  }

  lemma ElemToksCons(elems: seq<Json>, after: seq<Token>)
    requires |elems| >= 2
    ensures ElemToks(elems) + after == Toks(elems[0]) + ([Comma] + (ElemToks(elems[1..]) + after))
  {
  }

  lemma FieldToksOne(f: Field, after: seq<Token>)
    ensures FieldToks([f]) + after == [StrTok(f.key), Colon] + (Toks(f.value) + after)
  {
  }

  lemma Assoc5<T>(a: seq<T>, b: seq<T>, c: seq<T>, d: seq<T>, e: seq<T>)
    ensures ((a + b) + c + d) + e == a + (b + (c + (d + e)))
  {
  }

  lemma FieldToksCons(fields: seq<Field>, after: seq<Token>)
    requires |fields| >= 2
    ensures FieldToks(fields) + after ==
            [StrTok(fields[0].key), Colon] + (Toks(fields[0].value) + ([Comma] + (FieldToks(fields[1..]) + after)))
  {
    Assoc5([StrTok(fields[0].key), Colon], Toks(fields[0].value), [Comma], FieldToks(fields[1..]), after);
  }

  lemma ArrToks(elems: seq<Json>, rest: seq<Token>)
    ensures Toks(Arr(elems)) + rest == [LBracket] + (ElemToks(elems) + ([RBracket] + rest))
  {
  }

  lemma ObjToks(fields: seq<Field>, rest: seq<Token>)
    ensures Toks(Obj(fields)) + rest == [LBrace] + (FieldToks(fields) + ([RBrace] + rest))
  {
  }

  lemma EmptyArrValue(rest: seq<Token>)
    ensures ParseValue(Toks(Arr([])) + rest) == Ok(Arr([]), rest)
  {
    assert Toks(Arr([])) + rest == [LBracket, RBracket] + rest;
    assert ([LBracket, RBracket] + rest)[2..] == rest;
  }

  lemma EmptyObjValue(rest: seq<Token>)
    ensures ParseValue(Toks(Obj([])) + rest) == Ok(Obj([]), rest)
  {
    assert Toks(Obj([])) + rest == [LBrace, RBrace] + rest;
    assert ([LBrace, RBrace] + rest)[2..] == rest;
  }

  lemma ScalarToks(j: Json, rest: seq<Token>)
    requires ValidJson(j) && !j.Arr? && !j.Obj?
    ensures ParseValue(Toks(j) + rest) == Ok(j, rest)
  {
    if j.Num? {
      NumberIsScalar(j.text);
    }
    assert (Toks(j) + rest)[1..] == rest;
  }

  lemma ElemToksHead(elems: seq<Json>, after: seq<Token>)
    requires |elems| >= 1
    ensures |ElemToks(elems) + after| > 0 && (ElemToks(elems) + after)[0] != RBracket
  {
    assert ElemToks(elems)[0] == Toks(elems[0])[0];
  }

  /** Parsing undoes Toks, whatever follows. */
  lemma {:induction false} ParseToks(j: Json, rest: seq<Token>)
    requires ValidJson(j)
    ensures ParseValue(Toks(j) + rest) == Ok(j, rest)
    decreases j, 1
  {
    match j
    case Arr(elems) =>
      if elems == [] {
        EmptyArrValue(rest);
      } else {
        ParseElemToks(elems, rest);
        ArrToks(elems, rest);
        ElemToksHead(elems, [RBracket] + rest);
        ArrValue(elems, ElemToks(elems) + ([RBracket] + rest), rest);
      }
    case Obj(fields) =>
      if fields == [] {
        EmptyObjValue(rest);
      } else {
        ParseFieldToks(fields, rest);
        ObjToks(fields, rest);
        ObjValue(fields, FieldToks(fields) + ([RBrace] + rest), rest);
      }
    case _ => ScalarToks(j, rest);
  }

  lemma {:induction false} ParseElemToks(elems: seq<Json>, rest: seq<Token>)
    requires |elems| >= 1 && forall i :: 0 <= i < |elems| ==> ValidJson(elems[i])
    ensures ParseElems(ElemToks(elems) + ([RBracket] + rest)) == Ok(elems, rest)
    decreases elems, 0
  {
    var x, after := elems[0], [RBracket] + rest;
    if |elems| == 1 {
      assert elems == [x];
      ParseToks(x, after);
      ElemToksOne(x, after);
      ElemsLast(Toks(x) + after, x, rest);
    } else {
      var more := ElemToks(elems[1..]) + after;
      ParseToks(x, [Comma] + more);
      ParseElemToks(elems[1..], rest);
      ElemToksCons(elems, after);
      ElemsMore(Toks(x) + ([Comma] + more), x, more, elems[1..], rest);
      assert elems == [x] + elems[1..];
    }
  }

  lemma {:induction false} ParseFieldToks(fields: seq<Field>, rest: seq<Token>)
    requires |fields| >= 1 && forall i :: 0 <= i < |fields| ==> ValidJson(fields[i].value)
    ensures ParseFields(FieldToks(fields) + ([RBrace] + rest)) == Ok(fields, rest)
    decreases fields, 0
  {
    var f, after := fields[0], [RBrace] + rest;
    if |fields| == 1 {
      assert fields == [f];
      ParseToks(f.value, after);
      FieldToksOne(f, after);
      FieldsLast(f.key, Toks(f.value) + after, f.value, rest);
    } else {
      var more := FieldToks(fields[1..]) + after;
      ParseToks(f.value, [Comma] + more);
      ParseFieldToks(fields[1..], rest);
      FieldToksCons(fields, after);
      FieldsMore(f.key, Toks(f.value) + ([Comma] + more), f.value, more, fields[1..], rest);
      assert fields == [f] + fields[1..];
    }
  }
}
