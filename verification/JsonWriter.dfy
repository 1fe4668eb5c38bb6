/** The streaming JSON writer of lib/bpftool/src/json_writer.c.

    WriterState says what each call does to the writer's four fields, the output stream being the
    text written so far; the class makes the calls, in place, and is proved against it.  What the
    text means is the subject of JsonRoundTrip. */
module JsonWriter {

  // sep is '\0' or ','.
  datatype WriterState = WriterState(out: string, depth: nat, pretty: bool, sep: char)

  const NUL: char := '\0'

  datatype Call =
    | StartObject | EndObject | StartArray | EndArray
    | Name(name: string)
    | String(value: string)
    | Printf(text: string)      // a number, a literal or a string in its quotes, already formatted
    | Enquote(text: string)     // already formatted text, to be put between quotes as it is
    | Pretty(on: bool)

  function Spaces(depth: nat): string {
    if depth == 0 then "" else Spaces(depth - 1) + "    "
  }

  // How jsonw_puts writes one character of a string.
  function Escape(c: char): string {
    if c == '\t' then "\\t"
    else if c == '\n' then "\\n"
    else if c == '\r' then "\\r"
    else if c == 12 as char then "\\f"
    else if c == 8 as char then "\\b"
    else if c == '\\' then "\\\\"
    else if c == '"' then "\\\""
    else [c]
  }

  function Escaped(s: string): string {
    if s == "" then "" else Escaped(s[..|s| - 1]) + Escape(s[|s| - 1])
  }

  function AfterEol(w: WriterState): WriterState {
    if w.pretty then w.(out := w.out + "\n" + Spaces(w.depth)) else w
  }

  function AfterEor(w: WriterState): WriterState {
    w.(out := if w.sep != NUL then w.out + [w.sep] else w.out, sep := ',')
  }

  function AfterPuts(w: WriterState, s: string): WriterState {
    w.(out := w.out + "\"" + Escaped(s) + "\"")
  }

  function Put(w: WriterState, s: string): WriterState { w.(out := w.out + s) }

  function AfterBegin(w: WriterState, c: char): WriterState {
    var v := Put(AfterEor(w), [c]);
    v.(depth := v.depth + 1, sep := NUL)
  }

  function AfterEnd(w: WriterState, c: char): WriterState
    requires w.depth > 0
  {
    var v := w.(depth := w.depth - 1);
    Put(if v.sep != NUL then AfterEol(v) else v, [c]).(sep := ',')
  }

  function AfterName(w: WriterState, name: string): WriterState {
    var v := Put(AfterPuts(AfterEol(AfterEor(w)).(sep := NUL), name), ":");
    if v.pretty then Put(v, " ") else v
  }

  /** One call; ending what was never begun trips the writer's own assertion. */
  function Step(w: WriterState, call: Call): WriterState
    requires call.EndObject? || call.EndArray? ==> w.depth > 0
  {
    match call
    case StartObject => AfterBegin(w, '{')
    case EndObject => AfterEnd(w, '}')
    case StartArray => AfterBegin(w, '[')
    case EndArray => AfterEnd(w, ']')
    case Name(name) => AfterName(w, name)
    case String(value) => AfterPuts(AfterEor(w), value)
    case Printf(text) => Put(AfterEor(w), text)
    case Enquote(text) => Put(Put(Put(AfterEor(w), "\""), text), "\"")
    case Pretty(on) => w.(pretty := on)
  }

  const FRESH := WriterState("", 0, false, NUL)

  class JsonWriter {
    var out: string
    var depth: nat
    var pretty: bool
    var sep: char

    ghost function State(): WriterState
      reads this
    {
      WriterState(out, depth, pretty, sep)
    }

    constructor ()
      ensures State() == FRESH
    {
      out, depth, pretty, sep := "", 0, false, NUL;
    }

    method Indent()
      modifies `out
      ensures out == old(out) + Spaces(depth)
    {
      var i := 0;
      while i < depth
        invariant 0 <= i <= depth
        invariant out == old(out) + Spaces(i)
      {
        out := out + "    ";
        i := i + 1;
      }
    }

    method Eol()
      modifies `out
      ensures State() == AfterEol(old(State()))
    {
      if !pretty {
        return;
      }
      out := out + "\n";
      Indent();
    }

    method Eor()
      modifies `out, `sep
      ensures State() == AfterEor(old(State()))
    {
      if sep != NUL {
        out := out + [sep];
      }
      sep := ',';
    }

    method Puts(s: string)
      modifies `out
      ensures State() == AfterPuts(old(State()), s)
    {
      out := out + "\"";
      var i := 0;
      while i < |s|
        invariant 0 <= i <= |s|
        invariant out == old(out) + "\"" + Escaped(s[..i])
      {
        assert s[..i + 1][..i] == s[..i];
        match s[i] {
          case '\t' => out := out + "\\t";
          case '\n' => out := out + "\\n";
          case '\r' => out := out + "\\r";
          case '\\' => out := out + "\\\\";
          case '"' => out := out + "\\\"";
          case c =>
            if c == 12 as char {
              out := out + "\\f";
            } else if c == 8 as char {
              out := out + "\\b";
            } else {
              out := out + [c];
            }
        }
        i := i + 1;
      }
      assert s[..|s|] == s;
      out := out + "\"";
    }

    method Begin(c: char)
      modifies this
      ensures State() == AfterBegin(old(State()), c)
    {
      Eor();
      out := out + [c];
      depth := depth + 1;
      sep := NUL;
    }

    method End(c: char)
      requires depth > 0
      modifies this
      ensures State() == AfterEnd(old(State()), c)
    {
      depth := depth - 1;
      if sep != NUL {
        Eol();
      }
      out := out + [c];
      sep := ',';
    }

    method StartObject()
      modifies this
      ensures State() == Step(old(State()), Call.StartObject)
    {
      Begin('{');
    }

    method EndObject()
      requires depth > 0
      modifies this
      ensures State() == Step(old(State()), Call.EndObject)
    {
      End('}');
    }

    method StartArray()
      modifies this
      ensures State() == Step(old(State()), Call.StartArray)
    {
      Begin('[');
    }

    method EndArray()
      requires depth > 0
      modifies this
      ensures State() == Step(old(State()), Call.EndArray)
    {
      End(']');
    }

    method Name(name: string)
      modifies this
      ensures State() == Step(old(State()), Call.Name(name))
    {
      Eor();
      Eol();
      sep := NUL;
      Puts(name);
      out := out + ":";
      if pretty {
        out := out + " ";
      }
    }

    method String(value: string)
      modifies this
      ensures State() == Step(old(State()), Call.String(value))
    {
      Eor();
      Puts(value);
    }

    method Printf(text: string)
      modifies this
      ensures State() == Step(old(State()), Call.Printf(text))
    {
      Eor();
      out := out + text;
    }

    method VprintfEnquote(text: string)
      modifies this
      ensures State() == Step(old(State()), Call.Enquote(text))
    {
      Eor();
      out := out + "\"";
      out := out + text;
      out := out + "\"";
    }

    method SetPretty(on: bool)
      modifies `pretty
      ensures State() == Step(old(State()), Call.Pretty(on))
    {
      pretty := on;
    }

    method Bool(val: bool)
      modifies this
      ensures State() == Step(old(State()), Call.Printf(if val then "true" else "false"))
    {
      Printf(if val then "true" else "false");
    }

    method Null()
      modifies this
      ensures State() == Step(old(State()), Call.Printf("null"))
    {
      Printf("null");
    }
  }
}
