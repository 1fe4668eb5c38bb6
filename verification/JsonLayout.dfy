/** What the writer's output looks like: for any value, written by the calls that spell it out, the text
    is the usual compact or indented one, character by character. */
module JsonLayout {
  import opened Common
  import opened JsonText
  import opened JsonWriter
  import opened JsonRoundTrip
  import opened JsonExact

  // ---------- The calls that write a value ----------

  function Spelled(t: Json): seq<Call>
    decreases t, 1
  {
    match t
    case Null => [Printf("null")]
    case Bool(b) => [Printf(if b then "true" else "false")]
    case Num(text) => [Printf(text)]
    case Str(s) => [Call.String(s)]
    case Arr(elems) => [StartArray] + ElemCalls(elems) + [EndArray]
    case Obj(fields) => [StartObject] + FieldCalls(fields) + [EndObject]
  }

  function ElemCalls(elems: seq<Json>): seq<Call>
    decreases elems, 0
  {
    if elems == [] then [] else Spelled(elems[0]) + ElemCalls(elems[1..])
  }

  function FieldCalls(fields: seq<Field>): seq<Call>
    decreases fields, 0
  {
    if fields == [] then []
    else
      var f := fields[0];
      [Name(f.key)] + Spelled(f.value) + FieldCalls(fields[1..])
  }

  // ---------- The text ----------

  // The start of a line, four spaces in for each open container; nothing in compact output.
  function NewLine(pretty: bool, depth: nat): string {
    if pretty then "\n" + seq(4 * depth, _ => ' ') else ""
  }

  /** Elements stay on one line and are separated by commas; every field begins a line; the closing
      bracket of a container that is not empty begins a line. */
  function Text(t: Json, pretty: bool, depth: nat): string
    decreases t, 1
  {
    match t
    case Null => "null"
    case Bool(b) => if b then "true" else "false"
    case Num(text) => text
    case Str(s) => "\"" + Escaped(s) + "\""
    case Arr(elems) =>
      "[" + ElemsText(elems, pretty, depth + 1) + (if elems == [] then "" else NewLine(pretty, depth)) + "]"
    case Obj(fields) =>
      "{" + FieldsText(fields, pretty, depth + 1) + (if fields == [] then "" else NewLine(pretty, depth)) + "}"
  }

  function ElemsText(elems: seq<Json>, pretty: bool, depth: nat): string
    decreases elems, 0
  {
    if elems == [] then ""
    else Text(elems[0], pretty, depth) + (if |elems| == 1 then "" else ",") + ElemsText(elems[1..], pretty, depth)
  }

  // A name begins a line, and has a space after its colon there.
  function Named(pretty: bool, depth: nat, name: string): string {
    NewLine(pretty, depth) + "\"" + Escaped(name) + "\":" + (if pretty then " " else "")
  }

  function FieldsText(fields: seq<Field>, pretty: bool, depth: nat): string
    decreases fields, 0
  {
    if fields == [] then ""
    else
      Named(pretty, depth, fields[0].key) + Text(fields[0].value, pretty, depth) + (if |fields| == 1 then "" else ",") + FieldsText(fields[1..], pretty, depth)
  }

  // ---------- The writer writes that text ----------

  lemma {:induction false} RunAppend(w: WriterState, a: seq<Call>, b: seq<Call>)
    requires WriterRun(w, a).Some?
    ensures WriterRun(w, a + b) == WriterRun(WriterRun(w, a).value, b)
    decreases |a|
  {
    if a == [] {
      assert a + b == b;
    } else {
      assert (a + b)[1..] == a[1..] + b;
      RunAppend(Step(w, a[0]), a[1..], b);
    }
  }

  lemma RunOne(w: WriterState, call: Call)
    requires call.EndObject? || call.EndArray? ==> w.depth > 0
    ensures WriterRun(w, [call]) == Some(Step(w, call))
  {
    assert [call][1..] == [];
  }

  lemma {:induction false} SpacesAre(depth: nat)
    ensures Spaces(depth) == seq(4 * depth, _ => ' ')
  {
    if depth == 0 {
    } else {
      SpacesAre(depth - 1);
      assert seq(4 * depth, _ => ' ') == seq(4 * (depth - 1), _ => ' ') + "    ";
    }
  }

  lemma EolIsNewLine(w: WriterState)
    ensures AfterEol(w) == w.(out := w.out + NewLine(w.pretty, w.depth))
  {
    SpacesAre(w.depth);
    assert w.out + "\n" + Spaces(w.depth) == w.out + ("\n" + Spaces(w.depth));
    assert w.out + "" == w.out;
  }

  // The separator that is due.
  function Due(w: WriterState): string { if w.sep == NUL then "" else [w.sep] }

  lemma EorIsDue(w: WriterState)
    ensures AfterEor(w) == w.(out := w.out + Due(w), sep := ',')
  {
    assert w.out + "" == w.out;
  }

  // What the writer has after some text of a value.
  function With(w: WriterState, text: string): WriterState { w.(out := w.out + text, sep := ',') }

  lemma QuotedText(out: string, body: string)
    ensures out + "\"" + body + "\"" == out + ("\"" + body + "\"")
  {
  }

  /** Wherever a value may stand, its calls write the separator that is due and its text. */
  lemma {:induction false} ValueText(w: WriterState, t: Json)
    ensures WriterRun(w, Spelled(t)) == Some(With(AfterEor(w), Text(t, w.pretty, w.depth)))
    decreases t, 1
  {
    match t
    case Null => RunOne(w, Printf("null"));
    case Bool(b) => RunOne(w, Printf(if b then "true" else "false"));
    case Num(text) => RunOne(w, Printf(text));
    case Str(s) =>
      RunOne(w, Call.String(s));
      QuotedText(AfterEor(w).out, Escaped(s));
    case Arr(elems) => ArrText(w, elems);
    case Obj(fields) => ObjText(w, fields);
  }

  lemma {:induction false} ArrText(w: WriterState, elems: seq<Json>)
    ensures WriterRun(w, Spelled(Arr(elems))) == Some(With(AfterEor(w), Text(Arr(elems), w.pretty, w.depth)))
    decreases elems, 1
  {
    RunOne(w, StartArray);
    ElemsWrite(AfterBegin(w, '['), elems);
    Bracketed(w, '[', ElemCalls(elems), ElemsText(elems, w.pretty, w.depth + 1), elems == [], EndArray, ']');
    assert Text(Arr(elems), w.pretty, w.depth) ==
           ['['] + ElemsText(elems, w.pretty, w.depth + 1) + (if elems == [] then "" else NewLine(w.pretty, w.depth)) + [']'];
    assert Spelled(Arr(elems)) == [StartArray] + (ElemCalls(elems) + [EndArray]);
    RunAppend(w, [StartArray], ElemCalls(elems) + [EndArray]);
  }

  lemma {:induction false} ObjText(w: WriterState, fields: seq<Field>)
    ensures WriterRun(w, Spelled(Obj(fields))) == Some(With(AfterEor(w), Text(Obj(fields), w.pretty, w.depth)))
    decreases fields, 1
  {
    RunOne(w, StartObject);
    FieldsWrite(AfterBegin(w, '{'), fields);
    Bracketed(w, '{', FieldCalls(fields), FieldsText(fields, w.pretty, w.depth + 1), fields == [], EndObject, '}');
    assert Text(Obj(fields), w.pretty, w.depth) ==
           ['{'] + FieldsText(fields, w.pretty, w.depth + 1) + (if fields == [] then "" else NewLine(w.pretty, w.depth)) + ['}'];
    assert Spelled(Obj(fields)) == [StartObject] + (FieldCalls(fields) + [EndObject]);
    RunAppend(w, [StartObject], FieldCalls(fields) + [EndObject]);
  }

  // The writer inside a container: after nothing yet, or after something.
  function Inside(v: WriterState, text: string, empty: bool): WriterState {
    v.(out := v.out + text, sep := if empty then v.sep else ',')
  }

  // One more element or field, and what comes after it.
  lemma OneMoreText(v: WriterState, sep: string, first: string, comma: string, rest: string)
    ensures v.out + sep + first + (comma + rest) == v.out + (sep + (first + comma + rest))
  {
  }

  lemma {:induction false} ElemsWrite(v: WriterState, elems: seq<Json>)
    ensures WriterRun(v, ElemCalls(elems)) ==
            Some(Inside(v, (if elems == [] then "" else Due(v)) + ElemsText(elems, v.pretty, v.depth), elems == []))
    decreases elems, 0
  {
    if elems == [] {
      assert v.out + ("" + "") == v.out;
    } else {
      var t, rest := elems[0], elems[1..];
      var u := With(AfterEor(v), Text(t, v.pretty, v.depth));
      ValueText(v, t);
      RunAppend(v, Spelled(t), ElemCalls(rest));
      ElemsWrite(u, rest);
      EorIsDue(v);
      OneMoreText(v, Due(v), Text(t, v.pretty, v.depth), if rest == [] then "" else ",", ElemsText(rest, v.pretty, v.depth));
    }
  }

  lemma NameText(v: WriterState, name: string)
    ensures AfterName(v, name) == v.(out := v.out + Due(v) + Named(v.pretty, v.depth, name), sep := NUL)
  {
    EorIsDue(v);
    EolIsNewLine(AfterEor(v));
    NamePieces(v.out + Due(v), NewLine(v.pretty, v.depth), Escaped(name), if v.pretty then " " else "");
  }

  lemma NamePieces(out: string, line: string, body: string, space: string)
    ensures out + line + "\"" + body + "\"" + ":" + space == out + (line + "\"" + body + "\":" + space)
    ensures out + line + "\"" + body + "\"" + ":" + "" == out + line + "\"" + body + "\"" + ":"
  {
  }

  lemma {:induction false} FieldsWrite(v: WriterState, fields: seq<Field>)
    ensures WriterRun(v, FieldCalls(fields)) ==
            Some(Inside(v, (if fields == [] then "" else Due(v)) + FieldsText(fields, v.pretty, v.depth), fields == []))
    decreases fields, 0
  {
    if fields == [] {
      assert v.out + ("" + "") == v.out;
    } else {
      var f, rest := fields[0], fields[1..];
      var named := AfterName(v, f.key);
      var first := Text(f.value, v.pretty, v.depth);
      RunOne(v, Name(f.key));
      NameText(v, f.key);
      ValueText(named, f.value);
      EorIsDue(named);
      RunAppend(v, [Name(f.key)], Spelled(f.value));
      RunAppend(v, [Name(f.key)] + Spelled(f.value), FieldCalls(rest));
      FieldsWrite(With(AfterEor(named), first), rest);
      FieldPieces(v.out, Due(v), Named(v.pretty, v.depth, f.key), first, if rest == [] then "" else ",",
                  FieldsText(rest, v.pretty, v.depth));
    }
  }

  lemma FieldPieces(out: string, sep: string, name: string, first: string, comma: string, rest: string)
    ensures out + sep + name + "" + first + (comma + rest) == out + (sep + (name + first + comma + rest))
  {
  }

  lemma Bracketed(w: WriterState, open: char, calls: seq<Call>, text: string, empty: bool, end: Call, close: char)
    requires (end == EndArray && close == ']') || (end == EndObject && close == '}')
    requires empty ==> text == ""
    requires WriterRun(AfterBegin(w, open), calls) == Some(Inside(AfterBegin(w, open), "" + text, empty))
    ensures WriterRun(AfterBegin(w, open), calls + [end]) ==
            Some(With(AfterEor(w), [open] + text + (if empty then "" else NewLine(w.pretty, w.depth)) + [close]))
  {
    var u := Inside(AfterBegin(w, open), "" + text, empty);
    RunAppend(AfterBegin(w, open), calls, [end]);
    RunOne(u, end);
    EndText(u, close);
    EndPieces(AfterEor(w).out, [open], text, if empty then "" else NewLine(w.pretty, w.depth), [close]);
  }

  lemma EndText(u: WriterState, close: char)
    requires u.depth > 0
    ensures AfterEnd(u, close) ==
            u.(out := u.out + (if u.sep == NUL then "" else NewLine(u.pretty, u.depth - 1)) + [close], depth := u.depth - 1, sep := ',')
  {
    EolIsNewLine(u.(depth := u.depth - 1));
    assert u.out + "" == u.out;
  }

  lemma EndPieces(out: string, open: string, text: string, line: string, close: string)
    ensures out + open + ("" + text) + line + close == out + (open + text + line + close)
  {
  }

  /** For a whole document: the calls are in order and write the value, and the text is its text. */
  lemma DocumentText(t: Json, pretty: bool)
    requires ValidJson(t)
    ensures DocRun(NOTHING, Spelled(t)) == Some(Doc([], Some(t)))
    ensures WriterRun(FRESH.(pretty := pretty), Spelled(t)) ==
            Some(WriterState(Text(t, pretty, 0), 0, pretty, ','))
  {
    SpelledPuts(NOTHING, t);
    ValueText(FRESH.(pretty := pretty), t);
    assert "" + Text(t, pretty, 0) == Text(t, pretty, 0);
  }

  /** Either text of a value, compact or indented, denotes it if its strings and names are clean, and is
      no JSON otherwise. */
  lemma TextReadsBackIffClean(t: Json, pretty: bool)
    requires ValidJson(t)
    ensures Parse(Text(t, pretty, 0)) == if forall i :: 0 <= i < |Spelled(t)| ==> CallOk(Spelled(t)[i]) then Some(t) else None
  {
    var calls := [Pretty(pretty)] + Spelled(t);
    DocumentText(t, pretty);
    assert calls[1..] == Spelled(t);
    ReadsBackIffCallsOk(calls, t);
    NothingEnquoted(t);
    assert forall i :: 1 <= i < |calls| ==> calls[i] == Spelled(t)[i - 1];
    assert (forall i :: 0 <= i < |calls| ==> CallOk(calls[i])) <==> forall i :: 0 <= i < |Spelled(t)| ==> CallOk(Spelled(t)[i]) by {
      if forall i :: 0 <= i < |calls| ==> CallOk(calls[i]) {
        assert forall i :: 0 <= i < |Spelled(t)| ==> Spelled(t)[i] == calls[i + 1];
      }
    }
  }

  lemma {:induction false} NothingEnquoted(t: Json)
    ensures forall i :: 0 <= i < |Spelled(t)| ==> !Spelled(t)[i].Enquote?
    decreases t, 1
  {
    match t
    case Arr(elems) => NoElemEnquoted(elems);
    case Obj(fields) => NoFieldEnquoted(fields);
    case _ =>
  }

  lemma {:induction false} NoElemEnquoted(elems: seq<Json>)
    ensures forall i :: 0 <= i < |ElemCalls(elems)| ==> !ElemCalls(elems)[i].Enquote?
    decreases elems, 0
  {
    if elems == [] {
    } else {
      NothingEnquoted(elems[0]);
      NoElemEnquoted(elems[1..]);
    }
  }

  lemma {:induction false} NoFieldEnquoted(fields: seq<Field>)
    ensures forall i :: 0 <= i < |FieldCalls(fields)| ==> !FieldCalls(fields)[i].Enquote?
    decreases fields, 0
  {
    if fields == [] {
    } else {
      NothingEnquoted(fields[0].value);
      NoFieldEnquoted(fields[1..]);
    }
  }

  // ---------- The calls are in order ----------

  lemma {:induction false} DocRunAppend(d: Doc, a: seq<Call>, b: seq<Call>)
    requires DocRun(d, a).Some?
    ensures DocRun(d, a + b) == DocRun(DocRun(d, a).value, b)
    decreases |a|
  {
    if a == [] {
      assert a + b == b;
    } else {
      assert (a + b)[1..] == a[1..] + b;
      DocRunAppend(DocStep(d, a[0]).value, a[1..], b);
    }
  }

  lemma DocRunOne(d: Doc, call: Call)
    ensures DocRun(d, [call]) == DocStep(d, call)
  {
    assert [call][1..] == [];
  }

  lemma {:induction false} SpelledPuts(d: Doc, t: Json)
    requires d.TakesValue() && ValidJson(t)
    ensures DocRun(d, Spelled(t)) == Some(PutValue(d, t))
    decreases t, 1
  {
    match t
    case Null => DocRunOne(d, Printf("null"));
    case Bool(b) => DocRunOne(d, Printf(if b then "true" else "false"));
    case Num(text) =>
      NumberIsScalar(text);
      DocRunOne(d, Printf(text));
    case Str(s) => DocRunOne(d, Call.String(s));
    case Arr(elems) => ArrPuts(d, elems);
    case Obj(fields) => ObjPuts(d, fields);
  }

  lemma {:induction false} ArrPuts(d: Doc, elems: seq<Json>)
    requires d.TakesValue() && ValidJson(Arr(elems))
    ensures DocRun(d, Spelled(Arr(elems))) == Some(PutValue(d, Arr(elems)))
    decreases elems, 1
  {
    var e := Doc(d.stack + [ArrFrame([])], d.done);
    DocRunOne(d, StartArray);
    DocRunAppend(d, [StartArray], ElemCalls(elems));
    ElemsPut(e, [], elems);
    assert [] + elems == elems;
    DocRunAppend(d, [StartArray] + ElemCalls(elems), [EndArray]);
    DocRunOne(WithElems(e, elems), EndArray);
    assert WithElems(e, elems).Below() == d;
  }

  lemma {:induction false} ObjPuts(d: Doc, fields: seq<Field>)
    requires d.TakesValue() && ValidJson(Obj(fields))
    ensures DocRun(d, Spelled(Obj(fields))) == Some(PutValue(d, Obj(fields)))
    decreases fields, 1
  {
    var e := Doc(d.stack + [ObjFrame([], None)], d.done);
    DocRunOne(d, StartObject);
    DocRunAppend(d, [StartObject], FieldCalls(fields));
    FieldsPut(e, [], fields);
    assert [] + fields == fields;
    DocRunAppend(d, [StartObject] + FieldCalls(fields), [EndObject]);
    DocRunOne(WithFields(e, fields), EndObject);
    assert WithFields(e, fields).Below() == d;
  }

  function WithElems(d: Doc, elems: seq<Json>): Doc
    requires d.stack != []
  {
    Doc(d.stack[..|d.stack| - 1] + [ArrFrame(elems)], d.done)
  }

  function WithFields(d: Doc, fields: seq<Field>): Doc
    requires d.stack != []
  {
    Doc(d.stack[..|d.stack| - 1] + [ObjFrame(fields, None)], d.done)
  }

  lemma {:induction false} ElemsPut(d: Doc, before: seq<Json>, elems: seq<Json>)
    requires d.stack != [] && d.Top() == ArrFrame(before) && forall i :: 0 <= i < |elems| ==> ValidJson(elems[i])
    ensures DocRun(d, ElemCalls(elems)) == Some(WithElems(d, before + elems))
    decreases elems, 0
  {
    if elems == [] {
      assert before + elems == before && WithElems(d, before) == d;
    } else {
      SpelledPuts(d, elems[0]);
      DocRunAppend(d, Spelled(elems[0]), ElemCalls(elems[1..]));
      ElemsPut(PutValue(d, elems[0]), before + [elems[0]], elems[1..]);
      assert before + [elems[0]] + elems[1..] == before + elems;
    }
  }

  lemma {:induction false} FieldsPut(d: Doc, before: seq<Field>, fields: seq<Field>)
    requires d.stack != [] && d.Top() == ObjFrame(before, None)
    requires forall i :: 0 <= i < |fields| ==> ValidJson(fields[i].value)
    ensures DocRun(d, FieldCalls(fields)) == Some(WithFields(d, before + fields))
    decreases fields, 0
  {
    if fields == [] {
      assert before + fields == before && WithFields(d, before) == d;
    } else {
      var f := fields[0];
      DocRunOne(d, Name(f.key));
      DocRunAppend(d, [Name(f.key)], Spelled(f.value));
      SpelledPuts(NamedDoc(d, f.key), f.value);
      DocRunAppend(d, [Name(f.key)] + Spelled(f.value), FieldCalls(fields[1..]));
      FieldsPut(PutValue(NamedDoc(d, f.key), f.value), before + [f], fields[1..]);
      assert before + [f] + fields[1..] == before + fields;
    }
  }
}
