/** What the JSON writer writes reads back: for every well-nested sequence of calls, in either
    mode and with the mode switched at any point, the text parses to the value that was written. */
module JsonRoundTrip {
  import opened Common
  import opened JsonText
  import opened JsonWriter

  // ---------- What a sequence of calls describes ----------

  // A container that has been begun and not ended.
  datatype Frame =
    | ArrFrame(elems: seq<Json>)
    | ObjFrame(fields: seq<Field>, key: Option<string>)

  // The open containers, outermost first, and the value once it is complete.
  datatype Doc = Doc(stack: seq<Frame>, done: Option<Json>) {
    function Top(): Frame
      requires stack != []
    {
      stack[|stack| - 1]
    }

    function Below(): Doc
      requires stack != []
    {
      Doc(stack[..|stack| - 1], done)
    }

    predicate TakesValue() {
      if stack == [] then done.None? else Top().ArrFrame? || Top().key.Some?
    }

    // Nothing has been written since the last opening bracket or name.
    predicate IsFresh() {
      if stack == [] then done.None?
      else match Top()
        case ArrFrame(elems) => elems == []
        case ObjFrame(fields, key) => key.Some? || fields == []
    }
  }

  const NOTHING := Doc([], None)

  function PutValue(d: Doc, v: Json): Doc
    requires d.TakesValue()
  {
    if d.stack == [] then Doc([], Some(v))
    else
      var top' :=
        match d.Top()
        case ArrFrame(elems) => ArrFrame(elems + [v])
        case ObjFrame(fields, key) => ObjFrame(fields + [Field(key.value, v)], None);
      Doc(d.stack[..|d.stack| - 1] + [top'], d.done)
  }

  function NamedDoc(d: Doc, name: string): Doc
    requires d.stack != [] && d.Top().ObjFrame?
  {
    Doc(d.stack[..|d.stack| - 1] + [ObjFrame(d.Top().fields, Some(name))], d.done)
  }

  // What a caller's own text denotes: a number, a literal or a string with its quotes.
  function PrintedValue(text: string): Option<Json> {
    var st := FeedAll(START, text);
    if ScalarValue(text).Some? then ScalarValue(text)
    else if |st.tokens| == 1 && st.tokens[0].StrTok? && st.mode == Ground("") then Some(Str(st.tokens[0].s))
    else None
  }

  /** One call's effect on the document, or None where the call is out of place. */
  function DocStep(d: Doc, call: Call): Option<Doc> {
    match call
    case StartObject => if d.TakesValue() then Some(Doc(d.stack + [ObjFrame([], None)], d.done)) else None
    case StartArray => if d.TakesValue() then Some(Doc(d.stack + [ArrFrame([])], d.done)) else None
    case EndArray =>
      if d.stack != [] && d.Top().ArrFrame? && d.Below().TakesValue() then
        Some(PutValue(d.Below(), Arr(d.Top().elems)))
      else None
    case EndObject =>
      if d.stack != [] && d.Top().ObjFrame? && d.Top().key.None? && d.Below().TakesValue() then
        Some(PutValue(d.Below(), Obj(d.Top().fields)))
      else None
    case Name(name) =>
      if d.stack != [] && d.Top().ObjFrame? && d.Top().key.None? then
        Some(NamedDoc(d, name))
      else None
    case String(value) => if d.TakesValue() then Some(PutValue(d, Str(value))) else None
    case Enquote(text) => if d.TakesValue() then Some(PutValue(d, Str(text))) else None
    case Printf(text) =>
      if d.TakesValue() && PrintedValue(text).Some? then Some(PutValue(d, PrintedValue(text).value)) else None
    case Pretty(_) => Some(d)
  }

  function DocRun(d: Doc, calls: seq<Call>): Option<Doc>
    decreases calls
  {
    if calls == [] then Some(d)
    else
      match DocStep(d, calls[0])
      case None => None
      case Some(d') => DocRun(d', calls[1..])
  }

  // The writer over a sequence of calls; None if one of its assertions is tripped.
  function WriterRun(w: WriterState, calls: seq<Call>): Option<WriterState>
    decreases calls
  {
    if calls == [] then Some(w)
    else if (calls[0].EndObject? || calls[0].EndArray?) && w.depth == 0 then None
    else WriterRun(Step(w, calls[0]), calls[1..])
  }

  // ---------- Text a caller may pass ----------

  // The writer escapes five of the control characters and leaves the others as they are.
  predicate CleanChar(c: char) {
    !IsControl(c) || c == '\t' || c == '\n' || c == '\r' || c == 12 as char || c == 8 as char
  }

  predicate Clean(s: string) {
    forall i :: 0 <= i < |s| ==> CleanChar(s[i])
  }

  // Text that needs no escaping.
  predicate Plain(s: string) {
    forall i :: 0 <= i < |s| ==> !IsControl(s[i]) && s[i] != '"' && s[i] != '\\'
  }

  predicate CallOk(call: Call) {
    match call
    case Name(name) => Clean(name)
    case String(value) => Clean(value)
    case Enquote(text) => Plain(text)
    case _ => true
  }

  // ---------- Lexing what each piece of output adds ----------

  function Lexed(text: string): Lex { FeedAll(START, text) }

  lemma LexedAppend(a: string, b: string)
    ensures Lexed(a + b) == FeedAll(Lexed(a), b)
  {
    FeedAppend(START, a, b);
  }

  lemma FeedOne(st: Lex, c: char)
    ensures FeedAll(st, [c]) == st.Feed(c)
  {
    assert [c][1..] == "";
  }

  // The text is at a token boundary, and these are its tokens.
  predicate Reads(text: string, ts: seq<Token>) {
    Lexed(text).mode.Ground? && Lexed(text).Flushed() == ts
  }

  // ... and no number or literal is left unfinished at its end.
  predicate ReadsClosed(text: string, ts: seq<Token>) {
    Lexed(text) == Lex(ts, Ground(""))
  }

  lemma ReadsPunct(text: string, ts: seq<Token>, c: char)
    requires Reads(text, ts) && IsPunct(c)
    ensures ReadsClosed(text + [c], ts + [PunctTok(c)])
  {
    LexedAppend(text, [c]);
    FeedOne(Lexed(text), c);
  }

  lemma ReadsWs(text: string, ts: seq<Token>, c: char)
    requires Reads(text, ts) && IsWs(c)
    ensures ReadsClosed(text + [c], ts)
  {
    LexedAppend(text, [c]);
    FeedOne(Lexed(text), c);
  }

  lemma {:induction false} ReadsSpaces(text: string, ts: seq<Token>, depth: nat)
    requires ReadsClosed(text, ts)
    ensures ReadsClosed(text + Spaces(depth), ts)
  {
    if depth == 0 {
      assert text + "" == text;
    } else {
      var t := text + Spaces(depth - 1);
      ReadsSpaces(text, ts, depth - 1);
      ReadsWs(t, ts, ' ');
      ReadsWs(t + " ", ts, ' ');
      ReadsWs(t + " " + " ", ts, ' ');
      ReadsWs(t + " " + " " + " ", ts, ' ');
      assert text + Spaces(depth) == t + " " + " " + " " + " ";
    }
  }

  lemma ReadsEol(w: WriterState, ts: seq<Token>)
    requires Reads(w.out, ts)
    ensures Reads(AfterEol(w).out, ts)
    ensures ReadsClosed(w.out, ts) ==> ReadsClosed(AfterEol(w).out, ts)
  {
    if w.pretty {
      ReadsWs(w.out, ts, '\n');
      ReadsSpaces(w.out + "\n", ts, w.depth);
    }
  }

  lemma FeedEscape(ts: seq<Token>, acc: string, c: char)
    ensures CleanChar(c) ==> FeedAll(Lex(ts, InStr(acc)), Escape(c)) == Lex(ts, InStr(acc + [c]))
    ensures !CleanChar(c) ==> FeedAll(Lex(ts, InStr(acc)), Escape(c)) == Lex(ts, Bad)
  {
    var st := Lex(ts, InStr(acc));
    var e := Escape(c);
    if |e| == 1 {
      FeedOne(st, e[0]);
    } else {
      assert e == [e[0]] + [e[1]];
      FeedAppend(st, [e[0]], [e[1]]);
      FeedOne(st, e[0]);
      FeedOne(st.Feed(e[0]), e[1]);
    }
  }

  lemma {:induction false} FeedBad(ts: seq<Token>, text: string)
    ensures FeedAll(Lex(ts, Bad), text) == Lex(ts, Bad)
    decreases text
  {
    if text == "" {
    } else {
      FeedBad(ts, text[1..]);
    }
  }

  // A string's escaped characters decode to the string, if it is clean, and to nothing otherwise.
  lemma {:induction false} FeedEscaped(ts: seq<Token>, s: string)
    ensures FeedAll(Lex(ts, InStr("")), Escaped(s)) == if Clean(s) then Lex(ts, InStr(s)) else Lex(ts, Bad)
    decreases |s|
  {
    if s == "" {
    } else {
      var init, c := s[..|s| - 1], s[|s| - 1];
      assert init + [c] == s;
      FeedEscaped(ts, init);
      FeedAppend(Lex(ts, InStr("")), Escaped(init), Escape(c));
      if Clean(init) {
        FeedEscape(ts, init, c);
        assert Clean(s) <==> CleanChar(c);
      } else {
        FeedBad(ts, Escape(c));
        assert !Clean(s);
      }
    }
  }

  lemma {:induction false} FeedPlain(ts: seq<Token>, acc: string, s: string)
    requires Plain(s)
    ensures FeedAll(Lex(ts, InStr(acc)), s) == Lex(ts, InStr(acc + s))
    decreases |s|
  {
    if s == "" {
      assert acc + s == acc;
    } else {
      FeedPlain(ts, acc + [s[0]], s[1..]);
      assert acc + s == acc + [s[0]] + s[1..];
    }
  }

  // Quotes around text that lexes, inside a string, to `s`.
  lemma ReadsQuoted(text: string, ts: seq<Token>, body: string, s: string)
    requires Reads(text, ts)
    requires FeedAll(Lex(ts, InStr("")), body) == Lex(ts, InStr(s))
    ensures ReadsClosed(text + "\"" + body + "\"", ts + [StrTok(s)])
  {
    LexedAppend(text, "\"");
    FeedOne(Lexed(text), '"');
    LexedAppend(text + "\"", body);
    LexedAppend(text + "\"" + body, "\"");
    FeedOne(Lex(ts, InStr(s)), '"');
  }

  lemma ReadsPuts(w: WriterState, ts: seq<Token>, s: string)
    requires Reads(w.out, ts) && Clean(s)
    ensures ReadsClosed(AfterPuts(w, s).out, ts + [StrTok(s)])
  {
    FeedEscaped(ts, s);
    ReadsQuoted(w.out, ts, Escaped(s), s);
  }

  // Characters that numbers and literals are made of.
  predicate ScalarChar(c: char) { !IsWs(c) && !IsPunct(c) && c != '"' }

  lemma {:induction false} NumberChars(s: NumState, text: string)
    requires NumRun(s, text) != NotANumber
    ensures forall i :: 0 <= i < |text| ==> ScalarChar(text[i])
    decreases text
  {
    if text == "" {
    } else {
      if NumStep(s, text[0]) == NotANumber {
        StuckNumber(text[1..]);
      }
      NumberChars(NumStep(s, text[0]), text[1..]);
    }
  }

  lemma ScalarChars(text: string)
    requires ScalarValue(text).Some?
    ensures text != "" && forall i :: 0 <= i < |text| ==> ScalarChar(text[i])
    ensures Toks(ScalarValue(text).value) == [ScalarTok(text)] && ValidJson(ScalarValue(text).value)
  {
    if IsNumber(text) {
      NumberChars(NumState.Begin, text);
    }
  }

  lemma {:induction false} FeedScalar(ts: seq<Token>, p: string, text: string)
    requires forall i :: 0 <= i < |text| ==> ScalarChar(text[i])
    ensures FeedAll(Lex(ts, Ground(p)), text) == Lex(ts, Ground(p + text))
    decreases text
  {
    if text == "" {
      assert p + text == p;
    } else {
      FeedScalar(ts, p + [text[0]], text[1..]);
      assert p + text == p + [text[0]] + text[1..];
    }
  }

  // ---------- The tokens of an unfinished document ----------

  function FrameToks(f: Frame): seq<Token> {
    match f
    case ArrFrame(elems) => [LBracket] + ElemToks(elems)
    case ObjFrame(fields, key) =>
      [LBrace] + FieldToks(fields) +
      (match key
       case None => []
       case Some(k) => (if fields == [] then [] else [Comma]) + [StrTok(k), Colon])
  }

  // A frame's tokens up to the place of its next value.
  function LeadOf(f: Frame): seq<Token> {
    FrameToks(f) + if f.ArrFrame? && f.elems != [] then [Comma] else []
  }

  function StackLead(stack: seq<Frame>): seq<Token> {
    if stack == [] then [] else StackLead(stack[..|stack| - 1]) + LeadOf(stack[|stack| - 1])
  }

  function DocToks(d: Doc): seq<Token> {
    if d.stack != [] then StackLead(d.Below().stack) + FrameToks(d.Top())
    else match d.done
      case None => []
      case Some(v) => Toks(v)
  }

  lemma {:induction false} ElemToksAppend(elems: seq<Json>, v: Json)
    ensures ElemToks(elems + [v]) == (if elems == [] then [] else ElemToks(elems) + [Comma]) + Toks(v)
    decreases |elems|
  {
    if |elems| == 0 {
      assert elems + [v] == [v];
    } else {
      ElemToksAppend(elems[1..], v);
      assert (elems + [v])[1..] == elems[1..] + [v];
      if |elems| == 1 {
        assert elems[1..] == [];
      }
    }
  }

  lemma {:induction false} FieldToksAppend(fields: seq<Field>, f: Field)
    ensures FieldToks(fields + [f]) ==
            (if fields == [] then [] else FieldToks(fields) + [Comma]) + [StrTok(f.key), Colon] + Toks(f.value)
    decreases |fields|
  {
    if |fields| == 0 {
      assert fields + [f] == [f];
    } else {
      var rest := fields[1..];
      var first := [StrTok(fields[0].key), Colon] + Toks(fields[0].value);
      FieldToksAppend(rest, f);
      assert (fields + [f])[1..] == rest + [f];
      if |fields| == 1 {
        assert rest == [];
        AssocLong(first, [Comma], [StrTok(f.key), Colon], Toks(f.value));
      } else {
        Assoc(first + [Comma], FieldToks(rest), [Comma]);
        AssocLong(first + [Comma], FieldToks(rest) + [Comma], [StrTok(f.key), Colon], Toks(f.value));
      }
    }
  }

  lemma Assoc<T>(a: seq<T>, b: seq<T>, c: seq<T>)
    ensures a + (b + c) == a + b + c
  {
  }

  lemma AssocLong<T>(a: seq<T>, b: seq<T>, c: seq<T>, d: seq<T>)
    ensures a + (b + c + d) == a + b + c + d
  {
  }

  lemma ArrFrameToks(elems: seq<Json>, v: Json)
    ensures FrameToks(ArrFrame(elems + [v])) == LeadOf(ArrFrame(elems)) + Toks(v)
  {
    ElemToksAppend(elems, v);
    var lead := if elems == [] then [] else ElemToks(elems) + [Comma];
    Assoc([LBracket], lead, Toks(v));
    if elems != [] {
      Assoc([LBracket], ElemToks(elems), [Comma]);
    }
  }

  lemma ObjFrameToks(fields: seq<Field>, key: string, v: Json)
    ensures FrameToks(ObjFrame(fields + [Field(key, v)], None)) == LeadOf(ObjFrame(fields, Some(key))) + Toks(v)
  {
    FieldToksAppend(fields, Field(key, v));
  }

  // Where a value is due, it comes right after the lead.
  lemma ValueToks(d: Doc, v: Json)
    requires d.TakesValue()
    ensures DocToks(PutValue(d, v)) == StackLead(d.stack) + Toks(v)
  {
    if d.stack != [] {
      var below, top := d.stack[..|d.stack| - 1], d.Top();
      var top' := PutValue(Doc([top], None), v).Top();
      assert d.stack == below + [top];
      assert PutValue(d, v) == Doc(below + [top'], d.done);
      TopValueToks(top, v);
      StackValueToks(below, top, top', v, d.done);
    }
  }

  lemma TopValueToks(top: Frame, v: Json)
    requires top.ArrFrame? || top.key.Some?
    ensures FrameToks(PutValue(Doc([top], None), v).Top()) == LeadOf(top) + Toks(v)
  {
    match top {
      case ArrFrame(elems) => ArrFrameToks(elems, v);
      case ObjFrame(fields, key) => ObjFrameToks(fields, key.value, v);
    }
  }

  lemma StackValueToks(below: seq<Frame>, top: Frame, top': Frame, v: Json, done: Option<Json>)
    requires FrameToks(top') == LeadOf(top) + Toks(v)
    ensures DocToks(Doc(below + [top'], done)) == StackLead(below + [top]) + Toks(v)
  {
    assert (below + [top'])[..|below|] == below && (below + [top])[..|below|] == below;
    Assoc(StackLead(below), LeadOf(top), Toks(v));
  }

  // A finished container is its frame and the closing bracket.
  lemma ClosedToks(d: Doc, v: Json, c: char)
    requires d.stack != []
    requires (c == ']' && d.Top().ArrFrame? && v == Arr(d.Top().elems))
          || (c == '}' && d.Top().ObjFrame? && d.Top().key.None? && v == Obj(d.Top().fields))
    ensures DocToks(d) + [PunctTok(c)] == StackLead(d.Below().stack) + Toks(v)
  {
    assert FrameToks(d.Top()) + [PunctTok(c)] == Toks(v);
  }

  lemma LeadToks(d: Doc)
    requires d.TakesValue()
    ensures StackLead(d.stack) == DocToks(d) + if d.IsFresh() then [] else [Comma]
  {
  }

  // ---------- The invariant ----------

  predicate ValidFrame(f: Frame) {
    match f
    case ArrFrame(elems) => ValidJson(Arr(elems))
    case ObjFrame(fields, _) => ValidJson(Obj(fields))
  }

  predicate ValidDoc(d: Doc) {
    && (forall i :: 0 <= i < |d.stack| ==> ValidFrame(d.stack[i]))
    && (d.done.Some? ==> ValidJson(d.done.value))
  }

  /** The writer's state tells where it is in the document, and its output is the document so far. */
  predicate Inv(w: WriterState, d: Doc) {
    && w.depth == |d.stack|
    && w.sep == (if d.IsFresh() then NUL else ',')
    && Reads(w.out, DocToks(d))
    && (d.IsFresh() ==> ReadsClosed(w.out, DocToks(d)))
    && ValidDoc(d)
  }

  // The separator is what stands between the document so far and the next value.
  lemma ReadsEor(w: WriterState, d: Doc)
    requires Inv(w, d) && d.TakesValue()
    ensures ReadsClosed(AfterEor(w).out, StackLead(d.stack))
  {
    LeadToks(d);
    if d.IsFresh() {
      assert DocToks(d) == StackLead(d.stack);
    } else {
      ReadsPunct(w.out, DocToks(d), ',');
    }
  }

  lemma BeginKeeps(w: WriterState, d: Doc, c: char, f: Frame)
    requires Inv(w, d) && d.TakesValue()
    requires (c == '[' && f == ArrFrame([])) || (c == '{' && f == ObjFrame([], None))
    ensures Inv(AfterBegin(w, c), Doc(d.stack + [f], d.done))
  {
    ReadsEor(w, d);
    ReadsPunct(AfterEor(w).out, StackLead(d.stack), c);
    var d' := Doc(d.stack + [f], d.done);
    assert d'.Below().stack == d.stack;
    assert DocToks(d') == StackLead(d.stack) + [PunctTok(c)];
  }

  lemma PutValueValid(d: Doc, v: Json)
    requires ValidDoc(d) && ValidJson(v) && d.TakesValue()
    ensures ValidDoc(PutValue(d, v))
  {
  }

  lemma ReadsEnd(w: WriterState, ts: seq<Token>, c: char)
    requires w.depth > 0 && Reads(w.out, ts) && IsPunct(c)
    ensures ReadsClosed(AfterEnd(w, c).out, ts + [PunctTok(c)])
  {
    var u := w.(depth := w.depth - 1);
    var x := if u.sep != NUL then AfterEol(u) else u;
    ReadsEol(u, ts);
    ReadsPunct(x.out, ts, c);
  }

  lemma EndKeeps(w: WriterState, d: Doc, c: char, v: Json)
    requires Inv(w, d) && d.stack != [] && d.Below().TakesValue()
    requires (c == ']' && d.Top().ArrFrame? && v == Arr(d.Top().elems))
          || (c == '}' && d.Top().ObjFrame? && d.Top().key.None? && v == Obj(d.Top().fields))
    ensures Inv(AfterEnd(w, c), PutValue(d.Below(), v))
  {
    ReadsEnd(w, DocToks(d), c);
    ClosedToks(d, v, c);
    ValueToks(d.Below(), v);
    assert ValidFrame(d.Top());
    PutValueValid(d.Below(), v);
  }

  lemma NameFrameToks(fields: seq<Field>, name: string)
    ensures FrameToks(ObjFrame(fields, Some(name))) ==
            FrameToks(ObjFrame(fields, None)) + ((if fields == [] then [] else [Comma]) + [StrTok(name), Colon])
  {
    assert [LBrace] + FieldToks(fields) + [] == [LBrace] + FieldToks(fields);
  }

  lemma AssocName<T>(a: seq<T>, b: seq<T>, x: seq<T>, s: T, c: T)
    ensures a + (b + (x + [s, c])) == (a + b) + x + [s] + [c]
  {
  }

  lemma NameToks(d: Doc, name: string)
    requires d.stack != [] && d.Top().ObjFrame? && d.Top().key.None?
    ensures DocToks(NamedDoc(d, name)) ==
            DocToks(d) + (if d.IsFresh() then [] else [Comma]) + [StrTok(name)] + [Colon]
  {
    var d' := NamedDoc(d, name);
    var fields := d.Top().fields;
    assert d'.Below() == d.Below() && d'.Top() == ObjFrame(fields, Some(name));
    NameFrameToks(fields, name);
    AssocName(StackLead(d.Below().stack), FrameToks(d.Top()), if fields == [] then [] else [Comma], StrTok(name), Colon);
  }

  lemma ReadsName(w: WriterState, ts: seq<Token>, name: string)
    requires Reads(AfterEor(w).out, ts) && Clean(name)
    ensures ReadsClosed(AfterName(w, name).out, ts + [StrTok(name)] + [Colon])
  {
    var v := AfterEor(w);
    ReadsEol(v, ts);
    var x := AfterEol(v).(sep := NUL);
    ReadsPuts(x, ts, name);
    var y := AfterPuts(x, name);
    ReadsPunct(y.out, ts + [StrTok(name)], ':');
    ReadsWs(y.out + ":", ts + [StrTok(name)] + [Colon], ' ');
  }

  lemma ReadsSep(w: WriterState, ts: seq<Token>)
    requires Reads(w.out, ts) && (w.sep == NUL || w.sep == ',')
    ensures Reads(AfterEor(w).out, ts + if w.sep == NUL then [] else [Comma])
  {
    if w.sep == NUL {
      assert ts + [] == ts;
    } else {
      ReadsPunct(w.out, ts, ',');
    }
  }

  lemma ReadsComma(w: WriterState, d: Doc)
    requires Inv(w, d)
    ensures Reads(AfterEor(w).out, DocToks(d) + if d.IsFresh() then [] else [Comma])
  {
    ReadsSep(w, DocToks(d));
  }

  lemma NamedValid(d: Doc, name: string)
    requires ValidDoc(d) && d.stack != [] && d.Top().ObjFrame?
    ensures ValidDoc(NamedDoc(d, name)) && NamedDoc(d, name).IsFresh()
  {
    assert ValidFrame(d.Top());
  }

  lemma NameKeeps(w: WriterState, d: Doc, name: string)
    requires Inv(w, d) && d.stack != [] && d.Top().ObjFrame? && d.Top().key.None? && Clean(name)
    ensures Inv(AfterName(w, name), NamedDoc(d, name))
  {
    var ts := DocToks(d) + if d.IsFresh() then [] else [Comma];
    ReadsComma(w, d);
    ReadsName(w, ts, name);
    NameToks(d, name);
    NamedValid(d, name);
  }

  // Appending a value's text where a value is due.
  lemma ValueKeeps(w: WriterState, w': WriterState, d: Doc, v: Json)
    requires Inv(w, d) && d.TakesValue() && ValidJson(v)
    requires w' == AfterEor(w).(out := w'.out)
    requires Reads(w'.out, StackLead(d.stack) + Toks(v))
    ensures Inv(w', PutValue(d, v))
  {
    ValueToks(d, v);
    PutValueValid(d, v);
  }

  lemma StringKeeps(w: WriterState, d: Doc, value: string)
    requires Inv(w, d) && d.TakesValue() && Clean(value)
    ensures Inv(AfterPuts(AfterEor(w), value), PutValue(d, Str(value)))
  {
    ReadsEor(w, d);
    ReadsPuts(AfterEor(w), StackLead(d.stack), value);
    ValueKeeps(w, AfterPuts(AfterEor(w), value), d, Str(value));
  }

  lemma EnquoteKeeps(w: WriterState, d: Doc, text: string)
    requires Inv(w, d) && d.TakesValue() && Plain(text)
    ensures Inv(Step(w, Enquote(text)), PutValue(d, Str(text)))
  {
    ReadsEor(w, d);
    FeedPlain(StackLead(d.stack), "", text);
    assert "" + text == text;
    ReadsQuoted(AfterEor(w).out, StackLead(d.stack), text, text);
    ValueKeeps(w, Step(w, Enquote(text)), d, Str(text));
  }

  // Tokens that were read before do not matter to the lexer.
  lemma {:induction false} FeedShift(ts: seq<Token>, st: Lex, text: string)
    ensures FeedAll(Lex(ts + st.tokens, st.mode), text) ==
            Lex(ts + FeedAll(st, text).tokens, FeedAll(st, text).mode)
    decreases text
  {
    if text == "" {
    } else {
      var st' := st.Feed(text[0]);
      FeedOneShift(ts, st, text[0]);
      FeedShift(ts, st', text[1..]);
    }
  }

  lemma FeedOneShift(ts: seq<Token>, st: Lex, c: char)
    ensures Lex(ts + st.tokens, st.mode).Feed(c) == Lex(ts + st.Feed(c).tokens, st.Feed(c).mode)
  {
    var shifted := Lex(ts + st.tokens, st.mode);
    if st.mode.Ground? {
      assert shifted.Flushed() == ts + st.Flushed();
      assert IsPunct(c) ==> ts + st.Flushed() + [PunctTok(c)] == ts + (st.Flushed() + [PunctTok(c)]);
    } else if st.mode.InStr? {
      assert ts + st.tokens + [StrTok(st.mode.acc)] == ts + (st.tokens + [StrTok(st.mode.acc)]);
    }
  }

  lemma ReadsPrinted(text: string, ts: seq<Token>, more: string)
    requires ReadsClosed(text, ts) && PrintedValue(more).Some?
    ensures Reads(text + more, ts + Toks(PrintedValue(more).value)) && ValidJson(PrintedValue(more).value)
  {
    LexedAppend(text, more);
    if ScalarValue(more).Some? {
      ScalarChars(more);
      FeedScalar(ts, "", more);
      assert "" + more == more;
    } else {
      FeedShift(ts, START, more);
      assert ts + [] == ts;
    }
  }

  lemma PrintfKeeps(w: WriterState, d: Doc, text: string)
    requires Inv(w, d) && d.TakesValue() && PrintedValue(text).Some?
    ensures Inv(Step(w, Printf(text)), PutValue(d, PrintedValue(text).value))
  {
    ReadsEor(w, d);
    ReadsPrinted(AfterEor(w).out, StackLead(d.stack), text);
    ValueKeeps(w, Step(w, Printf(text)), d, PrintedValue(text).value);
  }

  /** Every call in its place keeps the invariant, and no end is written without its beginning. */
  lemma StepKeeps(w: WriterState, d: Doc, call: Call)
    requires Inv(w, d) && CallOk(call) && DocStep(d, call).Some?
    ensures call.EndObject? || call.EndArray? ==> w.depth > 0
    ensures Inv(Step(w, call), DocStep(d, call).value)
  {
    match call
    case StartObject => BeginKeeps(w, d, '{', ObjFrame([], None));
    case StartArray => BeginKeeps(w, d, '[', ArrFrame([]));
    case EndObject => EndKeeps(w, d, '}', Obj(d.Top().fields));
    case EndArray => EndKeeps(w, d, ']', Arr(d.Top().elems));
    case Name(name) => NameKeeps(w, d, name);
    case String(value) => StringKeeps(w, d, value);
    case Enquote(text) => EnquoteKeeps(w, d, text);
    case Printf(text) => PrintfKeeps(w, d, text);
    case Pretty(_) =>
  }

  /** Any run of well-placed calls, finished or not, leaves the writer in step with the document:
      in particular its depth is the number of open containers and no assertion is tripped. */
  lemma {:induction false} RunKeeps(w: WriterState, d: Doc, calls: seq<Call>)
    requires Inv(w, d) && DocRun(d, calls).Some?
    requires forall i :: 0 <= i < |calls| ==> CallOk(calls[i])
    ensures WriterRun(w, calls).Some?
    ensures Inv(WriterRun(w, calls).value, DocRun(d, calls).value)
    decreases calls
  {
    if calls == [] {
    } else {
      StepKeeps(w, d, calls[0]);
      RunKeeps(Step(w, calls[0]), DocStep(d, calls[0]).value, calls[1..]);
    }
  }

  /** The round trip. */
  lemma RoundTrip(calls: seq<Call>, t: Json)
    requires DocRun(NOTHING, calls) == Some(Doc([], Some(t)))
    requires forall i :: 0 <= i < |calls| ==> CallOk(calls[i])
    ensures WriterRun(FRESH, calls).Some?
    ensures var w := WriterRun(FRESH, calls).value; w.depth == 0 && Parse(w.out) == Some(t)
  {
    RunKeeps(FRESH, NOTHING, calls);
    ParseToks(t, []);
    assert Toks(t) + [] == Toks(t);
  }
}
