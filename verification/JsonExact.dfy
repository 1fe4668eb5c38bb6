/** Exactly when what the JSON writer writes reads back: if every string it is given survives.  A
    string that does not leaves the lexer in a state from which the tokens of the intended value can
    no longer come out, whatever is written afterwards. */
module JsonExact {
  import opened Common
  import opened JsonText
  import opened JsonWriter
  import opened JsonRoundTrip

  // ---------- The parser accepts nothing but the tokens of the value it returns ----------

  lemma {:induction false} ParseSound(ts: seq<Token>)
    ensures var r := ParseValue(ts); r.Ok? ==> ts == Toks(r.value) + r.rest
    decreases |ts|, 1
  {
    var r := ParseValue(ts);
    if r.Ok? {
      assert ts == [ts[0]] + ts[1..];
      match ts[0]
      case StrTok(_) =>
      case ScalarTok(text) => ScalarChars(text);
      case LBracket =>
        if |ts| > 1 && ts[1] == RBracket {
          assert ts == [LBracket] + ElemToks([]) + [RBracket] + r.rest;
        } else {
          ElemsSound(ts[1..]);
          assert ts == [LBracket] + ElemToks(r.value.elems) + [RBracket] + r.rest;
        }
      case LBrace =>
        if |ts| > 1 && ts[1] == RBrace {
          assert ts == [LBrace] + FieldToks([]) + [RBrace] + r.rest;
        } else {
          FieldsSound(ts[1..]);
          assert ts == [LBrace] + FieldToks(r.value.fields) + [RBrace] + r.rest;
        }
    }
  }

  lemma {:induction false} ElemsSound(ts: seq<Token>)
    ensures var r := ParseElems(ts); r.Ok? ==> r.value != [] && ts == ElemToks(r.value) + ([RBracket] + r.rest)
    decreases |ts|, 2
  {
    var r := ParseElems(ts);
    if r.Ok? {
      ParseSound(ts);
      var v, rest := ParseValue(ts).value, ParseValue(ts).rest;
      assert rest == [rest[0]] + rest[1..];
      if rest[0] == RBracket {
        assert r.value == [v];
      } else {
        ElemsSound(rest[1..]);
        var more := ParseElems(rest[1..]).value;
        assert r.value[0] == v && r.value[1..] == more;
        ElemToksCons(r.value, [RBracket] + r.rest);
      }
    }
  }

  lemma {:induction false} FieldsSound(ts: seq<Token>)
    ensures var r := ParseFields(ts); r.Ok? ==> r.value != [] && ts == FieldToks(r.value) + ([RBrace] + r.rest)
    decreases |ts|, 2
  {
    var r := ParseFields(ts);
    if r.Ok? {
      var body := ts[2..];
      ParseSound(body);
      var f := Field(ts[0].s, ParseValue(body).value);
      var rest := ParseValue(body).rest;
      assert ts == [StrTok(f.key), Colon] + body;
      assert rest == [rest[0]] + rest[1..];
      if rest[0] == RBrace {
        assert r.value == [f];
        FieldToksOne(f, [RBrace] + r.rest);
      } else {
        FieldsSound(rest[1..]);
        var more := ParseFields(rest[1..]).value;
        assert r.value[0] == f && r.value[1..] == more;
        FieldToksCons(r.value, [RBrace] + r.rest);
      }
    }
  }

  /** A text denotes a value only if its tokens are those of the value. */
  lemma ParsedTokens(text: string, t: Json)
    requires Parse(text) == Some(t)
    ensures Reads(text, Toks(t))
  {
    var ts := Lexed(text).Flushed();
    ParseSound(ts);
    assert Toks(t) + [] == Toks(t);
  }

  // ---------- Spoiled text ----------

  /** From here the lexer cannot come to have read `goal`: it has met an error, or read a token that
      is not in `goal`, or is inside a string that does not begin as the one due. */
  predicate IsSpoiled(st: Lex, goal: seq<Token>) {
    || st.mode.Bad?
    || !(st.tokens <= goal)
    || (!st.mode.Ground? && |st.tokens| < |goal| && goal[|st.tokens|].StrTok?
        && !(st.mode.acc <= goal[|st.tokens|].s))
  }

  lemma PrefixTrans<T>(a: seq<T>, b: seq<T>, c: seq<T>)
    requires a <= b
    ensures b <= c ==> a <= c
  {
    if b <= c {
      assert forall i :: 0 <= i < |a| ==> a[i] == b[i] == c[i];
    }
  }

  lemma FeedSpoiled(st: Lex, goal: seq<Token>, c: char)
    requires IsSpoiled(st, goal)
    ensures IsSpoiled(st.Feed(c), goal)
  {
    var st' := st.Feed(c);
    if !(st.tokens <= goal) {
      PrefixTrans(st.tokens, st'.tokens, goal);
    } else if !st.mode.Bad? {
      var acc := st.mode.acc;
      if st'.tokens != st.tokens {
        assert st'.tokens[|st.tokens|] == StrTok(acc);
      } else if !st'.mode.Bad? {
        PrefixTrans(acc, st'.mode.acc, goal[|st.tokens|].s);
      }
    }
  }

  lemma SpoiledNeverReads(text: string, goal: seq<Token>)
    requires IsSpoiled(Lexed(text), goal)
    ensures !Reads(text, goal)
  {
    var st := Lexed(text);
    if st.mode.Ground? {
      PrefixTrans(st.tokens, st.Flushed(), goal);
    }
  }

  lemma {:induction false} FeedAllSpoiled(st: Lex, goal: seq<Token>, text: string)
    requires IsSpoiled(st, goal)
    ensures IsSpoiled(FeedAll(st, text), goal)
    decreases text
  {
    if text == "" {
    } else {
      FeedSpoiled(st, goal, text[0]);
      FeedAllSpoiled(st.Feed(text[0]), goal, text[1..]);
    }
  }

  // ---------- Unescaped text in quotes ----------

  lemma FirstNotPlain(text: string) returns (i: nat)
    requires !Plain(text)
    ensures i < |text| && Plain(text[..i])
    ensures IsControl(text[i]) || text[i] == '"' || text[i] == '\\'
  {
    i := 0;
    while i < |text| && !IsControl(text[i]) && text[i] != '"' && text[i] != '\\'
      invariant 0 <= i <= |text|
      invariant forall j :: 0 <= j < i ==> !IsControl(text[j]) && text[j] != '"' && text[j] != '\\'
    {
      i := i + 1;
    }
  }

  // The string that is due is `text`, and no quotation mark has been read of it.
  predicate IsDue(ts: seq<Token>, text: string, goal: seq<Token>, p: nat) {
    && |ts| < |goal| && ts <= goal && goal[|ts|] == StrTok(text)
    && p <= |text| && forall j :: 0 <= j < p ==> text[j] != '"'
  }

  // Once an escape has been read the string is shorter than its text, and stays so.
  lemma {:induction false} ShorterSpoils(ts: seq<Token>, text: string, goal: seq<Token>, acc: string, p: nat)
    requires IsDue(ts, text, goal, p) && |acc| < p
    ensures IsSpoiled(FeedAll(Lex(ts, InStr(acc)), text[p..] + "\""), goal)
    decreases |text| - p
  {
    var st, rest := Lex(ts, InStr(acc)), text[p..] + "\"";
    var c := rest[0];
    if c == '"' {
      assert st.Feed(c).tokens[|ts|] == StrTok(acc);
      FeedAllSpoiled(st.Feed(c), goal, rest[1..]);
    } else if c == '\\' {
      EscapeSpoils(ts, text, goal, acc, p);
    } else if IsControl(c) {
      FeedAllSpoiled(st.Feed(c), goal, rest[1..]);
    } else {
      assert rest[1..] == text[p + 1..] + "\"";
      ShorterSpoils(ts, text, goal, acc + [c], p + 1);
    }
  }

  lemma {:induction false} HexSpoils(ts: seq<Token>, text: string, goal: seq<Token>, mode: Mode, p: nat)
    requires IsDue(ts, text, goal, p) && mode.InHex? && |mode.acc| + 1 < p
    ensures IsSpoiled(FeedAll(Lex(ts, mode), text[p..] + "\""), goal)
    decreases |text| - p
  {
    var st, rest := Lex(ts, mode), text[p..] + "\"";
    var st' := st.Feed(rest[0]);
    if st'.mode.Bad? {
      FeedAllSpoiled(st', goal, rest[1..]);
    } else {
      assert rest[1..] == text[p + 1..] + "\"";
      if st'.mode.InStr? {
        ShorterSpoils(ts, text, goal, st'.mode.acc, p + 1);
      } else {
        HexSpoils(ts, text, goal, st'.mode, p + 1);
      }
    }
  }

  // At a backslash: what is escaped is a quotation mark, of which there was none before, or the string
  // falls behind its text.
  lemma {:induction false} EscapeSpoils(ts: seq<Token>, text: string, goal: seq<Token>, acc: string, p: nat)
    requires IsDue(ts, text, goal, p) && |acc| <= p < |text| && text[p] == '\\'
    ensures IsSpoiled(FeedAll(Lex(ts, InStr(acc)), text[p..] + "\""), goal)
    decreases |text| - p, 0
  {
    var st, rest := Lex(ts, InStr(acc)), text[p..] + "\"";
    var st' := st.Feed(rest[0]).Feed(rest[1]);
    assert rest[1..][0] == rest[1] && rest[1..][1..] == rest[2..];
    if rest[1] == '"' {
      assert (acc + ['"'])[|acc|] == '"' && text[|acc|] != '"';
      FeedAllSpoiled(st', goal, rest[2..]);
    } else if st'.mode.Bad? {
      FeedAllSpoiled(st', goal, rest[2..]);
    } else {
      assert rest[2..] == text[p + 2..] + "\"";
      if st'.mode.InStr? {
        ShorterSpoils(ts, text, goal, st'.mode.acc, p + 2);
      } else {
        HexSpoils(ts, text, goal, st'.mode, p + 2);
      }
    }
  }

  /** Text that needs escaping, put in quotes as it is, is never read as itself. */
  lemma NotPlainSpoils(ts: seq<Token>, text: string, goal: seq<Token>)
    requires !Plain(text) && |ts| < |goal| && ts <= goal && goal[|ts|] == StrTok(text)
    ensures IsSpoiled(FeedAll(Lex(ts, InStr("")), text + "\""), goal)
  {
    var i := FirstNotPlain(text);
    var u, rest := text[..i], text[i..] + "\"";
    assert text + "\"" == u + rest;
    FeedAppend(Lex(ts, InStr("")), u, rest);
    FeedPlain(ts, "", u);
    assert "" + u == u;
    if text[i] == '\\' {
      EscapeSpoils(ts, text, goal, u, i);
    } else {
      var st := Lex(ts, InStr(u)).Feed(text[i]);
      assert text[i] == '"' ==> st.tokens[|ts|] == StrTok(u) && |u| < |text|;
      assert rest[0] == text[i];
      FeedAllSpoiled(st, goal, rest[1..]);
    }
  }

  // ---------- A call that is not in order ----------

  // The text after a call whose string does not survive.
  lemma BadCallSpoils(w: WriterState, d: Doc, call: Call, goal: seq<Token>)
    requires Inv(w, d) && !CallOk(call) && DocStep(d, call).Some?
    requires DocToks(DocStep(d, call).value) <= goal
    ensures IsSpoiled(Lexed(Step(w, call).out), goal)
    ensures !call.Enquote? ==> Lexed(Step(w, call).out).mode.Bad?
  {
    match call
    case Name(name) =>
      ReadsComma(w, d);
      UncleanName(w, DocToks(d) + if d.IsFresh() then [] else [Comma], name);
    case String(value) =>
      ReadsEor(w, d);
      UncleanIsBad(AfterEor(w).out, StackLead(d.stack), value);
    case Enquote(text) =>
      ReadsEor(w, d);
      ValueToks(d, Str(text));
      EnquoteSpoils(AfterEor(w).out, StackLead(d.stack), text, goal);
  }

  lemma UncleanIsBad(text: string, ts: seq<Token>, s: string)
    requires Reads(text, ts) && !Clean(s)
    ensures Lexed(text + "\"" + Escaped(s) + "\"").mode.Bad?
  {
    LexedAppend(text, "\"");
    FeedOne(Lexed(text), '"');
    LexedAppend(text + "\"", Escaped(s));
    FeedEscaped(ts, s);
    LexedAppend(text + "\"" + Escaped(s), "\"");
    FeedBad(ts, "\"");
  }

  lemma UncleanName(w: WriterState, ts: seq<Token>, name: string)
    requires Reads(AfterEor(w).out, ts) && !Clean(name)
    ensures Lexed(AfterName(w, name).out).mode.Bad?
  {
    var v := AfterEor(w);
    ReadsEol(v, ts);
    var x := AfterEol(v).(sep := NUL);
    UncleanIsBad(x.out, ts, name);
    var y := AfterPuts(x, name);
    BadStays(y.out, ":");
    BadStays(y.out + ":", " ");
  }

  lemma BadStays(text: string, more: string)
    requires Lexed(text).mode.Bad?
    ensures Lexed(text + more).mode.Bad?
  {
    LexedAppend(text, more);
    FeedBad(Lexed(text).tokens, more);
  }

  lemma EnquoteSpoils(before: string, ts: seq<Token>, text: string, goal: seq<Token>)
    requires ReadsClosed(before, ts) && !Plain(text) && ts + [StrTok(text)] <= goal
    ensures IsSpoiled(Lexed(before + "\"" + text + "\""), goal)
  {
    LexedAppend(before, "\"");
    FeedOne(Lexed(before), '"');
    assert before + "\"" + text + "\"" == before + "\"" + (text + "\"");
    LexedAppend(before + "\"", text + "\"");
    assert goal[|ts|] == (ts + [StrTok(text)])[|ts|];
    assert ts <= goal by {
      assert forall i :: 0 <= i < |ts| ==> goal[i] == (ts + [StrTok(text)])[i];
    }
    NotPlainSpoils(ts, text, goal);
  }

  // ---------- Whole runs ----------

  // The writer only appends, and its depth follows the document whatever the strings are.
  lemma StepAppends(w: WriterState, call: Call) returns (more: string)
    requires call.EndObject? || call.EndArray? ==> w.depth > 0
    ensures Step(w, call).out == w.out + more
  {
    var out := Step(w, call).out;
    more := out[|w.out|..];
    assert w.out <= out;
  }

  lemma StepDepth(w: WriterState, d: Doc, call: Call)
    requires w.depth == |d.stack| && DocStep(d, call).Some?
    ensures call.EndObject? || call.EndArray? ==> w.depth > 0
    ensures Step(w, call).depth == |DocStep(d, call).value.stack|
  {
  }

  lemma {:induction false} RunAppends(w: WriterState, d: Doc, calls: seq<Call>) returns (more: string)
    requires w.depth == |d.stack| && DocRun(d, calls).Some?
    ensures WriterRun(w, calls).Some? && WriterRun(w, calls).value.out == w.out + more
    decreases calls
  {
    if calls == [] {
      more := "";
    } else {
      StepDepth(w, d, calls[0]);
      var v := Step(w, calls[0]);
      var first := StepAppends(w, calls[0]);
      var rest := RunAppends(v, DocStep(d, calls[0]).value, calls[1..]);
      more := first + rest;
      assert v.out + rest == w.out + (first + rest);
    }
  }

  // The tokens of the document only grow.
  lemma StepGrows(d: Doc, call: Call)
    requires DocStep(d, call).Some?
    ensures DocToks(d) <= DocToks(DocStep(d, call).value)
  {
    match call
    case StartObject => StartGrows(d, ObjFrame([], None));
    case StartArray => StartGrows(d, ArrFrame([]));
    case EndObject =>
      ClosedToks(d, Obj(d.Top().fields), '}');
      ValueToks(d.Below(), Obj(d.Top().fields));
    case EndArray =>
      ClosedToks(d, Arr(d.Top().elems), ']');
      ValueToks(d.Below(), Arr(d.Top().elems));
    case Name(name) => NameToks(d, name);
    case String(value) => PutGrows(d, Str(value));
    case Enquote(text) => PutGrows(d, Str(text));
    case Printf(text) => PutGrows(d, PrintedValue(text).value);
    case Pretty(_) =>
  }

  lemma PutGrows(d: Doc, v: Json)
    requires d.TakesValue()
    ensures DocToks(d) <= DocToks(PutValue(d, v))
  {
    LeadToks(d);
    ValueToks(d, v);
  }

  lemma StartGrows(d: Doc, f: Frame)
    requires d.TakesValue()
    ensures DocToks(d) <= DocToks(Doc(d.stack + [f], d.done))
  {
    var d' := Doc(d.stack + [f], d.done);
    LeadToks(d);
    assert d'.Below().stack == d.stack && d'.Top() == f;
  }

  lemma {:induction false} RunGrows(d: Doc, calls: seq<Call>)
    requires DocRun(d, calls).Some?
    ensures DocToks(d) <= DocToks(DocRun(d, calls).value)
    decreases calls
  {
    if calls == [] {
    } else {
      var d' := DocStep(d, calls[0]).value;
      StepGrows(d, calls[0]);
      RunGrows(d', calls[1..]);
      PrefixTrans(DocToks(d), DocToks(d'), DocToks(DocRun(d, calls).value));
    }
  }

  lemma {:induction false} RunSpoils(w: WriterState, d: Doc, calls: seq<Call>)
    requires Inv(w, d) && DocRun(d, calls).Some?
    requires exists i :: 0 <= i < |calls| && !CallOk(calls[i])
    ensures WriterRun(w, calls).Some?
    ensures IsSpoiled(Lexed(WriterRun(w, calls).value.out), DocToks(DocRun(d, calls).value))
    ensures (forall i :: 0 <= i < |calls| && calls[i].Enquote? ==> CallOk(calls[i])) ==>
              Lexed(WriterRun(w, calls).value.out).mode.Bad?
    decreases calls
  {
    var d', goal := DocStep(d, calls[0]).value, DocToks(DocRun(d, calls).value);
    if CallOk(calls[0]) {
      StepKeeps(w, d, calls[0]);
      var i :| 0 <= i < |calls| && !CallOk(calls[i]);
      assert calls[1..][i - 1] == calls[i];
      RunSpoils(Step(w, calls[0]), d', calls[1..]);
    } else {
      StepDepth(w, d, calls[0]);
      var v := Step(w, calls[0]);
      RunGrows(d', calls[1..]);
      BadCallSpoils(w, d, calls[0], goal);
      var more := RunAppends(v, d', calls[1..]);
      LexedAppend(v.out, more);
      FeedAllSpoiled(Lexed(v.out), goal, more);
      if !calls[0].Enquote? {
        BadStays(v.out, more);
      }
    }
  }

  /** For every complete, well-nested sequence of calls: the text denotes the value that was written if
      and only if every string and name has no control characters but the five that are escaped and
      every quoted text needs no escaping.  Where it is a string or a name that does not survive, the
      text is no JSON at all. */
  lemma ReadsBackIffCallsOk(calls: seq<Call>, t: Json)
    requires DocRun(NOTHING, calls) == Some(Doc([], Some(t)))
    ensures WriterRun(FRESH, calls).Some? && WriterRun(FRESH, calls).value.depth == 0
    ensures var out := WriterRun(FRESH, calls).value.out;
            && (Parse(out) == Some(t) <==> forall i :: 0 <= i < |calls| ==> CallOk(calls[i]))
            && ((forall i :: 0 <= i < |calls| && calls[i].Enquote? ==> CallOk(calls[i])) ==>
                  Parse(out) == if forall i :: 0 <= i < |calls| ==> CallOk(calls[i]) then Some(t) else None)
  {
    RunDepth(FRESH, NOTHING, calls);
    if forall i :: 0 <= i < |calls| ==> CallOk(calls[i]) {
      RoundTrip(calls, t);
    } else {
      RunSpoils(FRESH, NOTHING, calls);
      var out := WriterRun(FRESH, calls).value.out;
      SpoiledNeverReads(out, Toks(t));
      if Parse(out) == Some(t) {
        ParsedTokens(out, t);
      }
    }
  }

  lemma {:induction false} RunDepth(w: WriterState, d: Doc, calls: seq<Call>)
    requires w.depth == |d.stack| && DocRun(d, calls).Some?
    ensures WriterRun(w, calls).Some? && WriterRun(w, calls).value.depth == |DocRun(d, calls).value.stack|
    decreases calls
  {
    if calls == [] {
    } else {
      StepDepth(w, d, calls[0]);
      RunDepth(Step(w, calls[0]), DocStep(d, calls[0]).value, calls[1..]);
    }
  }
}
