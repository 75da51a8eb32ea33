/**
 * XmlSpy: an XmlWriter wrapper that logs one line per call. The first run records the
 * lines; after CheckLog every line is compared with the recorded line at the same index.
 */
module Spy {
  import opened XmlEvents

  /** String.Replace("\n", "\\n"): each newline becomes a backslash followed by 'n'. */
  function Escape(s: string): (r: string)
    ensures '\n' !in r
    ensures |r| >= |s|
  {
    if s == [] then []
    else (if s[0] == '\n' then ['\\', 'n'] else [s[0]]) + Escape(s[1..])
  }

  lemma {:induction false} EscapeConcat(a: string, b: string)
    ensures Escape(a + b) == Escape(a) + Escape(b)
    decreases |a|
  {
    if a != [] {
      assert (a + b)[1..] == a[1..] + b;
      EscapeConcat(a[1..], b);
    } else {
      assert a + b == b;
    }
  }

  /** A line without a newline is logged as it is. */
  lemma {:induction false} EscapeIdentity(s: string)
    requires '\n' !in s
    ensures Escape(s) == s
    decreases |s|
  {
    if s != [] {
      EscapeIdentity(s[1..]);
    }
  }

  /** The escaping loses information: a newline and a backslash followed by 'n' log alike. */
  lemma EscapeCollision()
    ensures Escape("\n") == Escape("\\n") && "\n" != "\\n"
  {
    assert Escape("\\n") == ['\\'] + Escape("n");
  }

  /** PrintString: "null" for a null string, otherwise the string between double quotes. */
  function PrintString(s: Option<string>): (r: string)
    ensures s.None? ==> r == "null"
    ensures s.Some? ==> |r| == |s.value| + 2 && r[0] == '"' && r[|r| - 1] == '"' && r[1..|r| - 1] == s.value
  {
    if s.None? then "null" else "\"" + s.value + "\""
  }

  /** Distinct arguments print differently; in particular null is not the string "null". */
  lemma PrintStringInjective(a: Option<string>, b: Option<string>)
    requires PrintString(a) == PrintString(b)
    ensures a == b
  {
  }

  /** An int as string interpolation prints it, with '-' as the negative sign. */
  function IntToString(i: int): (s: string)
    ensures |s| >= 1 && (i < 0 <==> s[0] == '-')
  {
    if i < 0 then "-" + NatToString(-i) else NatToString(i)
  }

  /** A bool as C# interpolation writes it. */
  function BoolToString(b: bool): string
  {
    if b then "True" else "False"
  }

  /** A C# char: one UTF-16 code unit. */
  newtype Utf16 = x: int | 0 <= x < 0x1_0000

  /** The XmlWriter calls XmlSpy overrides, with the arguments that reach its log line. */
  datatype WriterCall =
    | Flush
    | LookupPrefix(ns: Option<string>, result: Option<string>)
    | WriteBase64(index: int, count: int)
    | WriteCData(text: Option<string>)
    | WriteCharEntity(ch: Utf16)
    | WriteChars(index: int, count: int)
    | WriteComment(text: Option<string>)
    | WriteQualifiedName(localName: Option<string>, ns: Option<string>)
    | WriteDocType(name: Option<string>, pubid: Option<string>, sysid: Option<string>, subset: Option<string>)
    | WriteEndAttribute
    | WriteEndDocument
    | WriteEndElement
    | WriteEntityRef(name: Option<string>)
    | WriteFullEndElement
    | WriteProcessingInstruction(name: Option<string>, text: Option<string>)
    | WriteRawChars(index: int, count: int)
    | WriteRaw(data: Option<string>)
    | WriteStartAttribute(prefix: Option<string>, localName: Option<string>, ns: Option<string>)
    | WriteStartDocument
    | WriteStartDocumentStandalone(standalone: bool)
    | WriteStartElement(prefix: Option<string>, localName: Option<string>, ns: Option<string>)
    | WriteString(text: Option<string>)
    | WriteSurrogateCharEntity(lowChar: Utf16, highChar: Utf16)
    | WriteWhitespace(ws: Option<string>)

  function Args3(a: Option<string>, b: Option<string>, c: Option<string>): string
  {
    PrintString(a) + ", " + PrintString(b) + ", " + PrintString(c)
  }

  /** A char[] or byte[] buffer interpolates as its type name; only index and count are logged. */
  function BufferArgs(buffer: string, index: int, count: int): string
  {
    buffer + ", " + IntToString(index) + ", " + IntToString(count)
  }

  /**
   * The line an override passes to LogLine, before escaping. WriteQualifiedName forwards
   * without logging. The source's own spellings are kept: Flush has no parentheses,
   * WriteEndAttribute logs "WriteEndAtrribute()", WriteComment leaves its parenthesis open
   * and WriteRaw(string) prints its argument unquoted (empty for null).
   */
  function Line(c: WriterCall): (r: Option<string>)
    ensures r.None? <==> c.WriteQualifiedName?
  {
    match c
    case Flush => Some("Flush")
    case LookupPrefix(ns, result) => Some("LookupPrefix(" + PrintString(ns) + ") -> " + PrintString(result))
    case WriteBase64(index, count) => Some("WriteBase64(" + BufferArgs("System.Byte[]", index, count) + ")")
    case WriteCData(text) => Some("WriteCData(" + PrintString(text) + ")")
    case WriteCharEntity(ch) => Some("WriteCharEntity('" + IntToString(ch as int) + "')")
    case WriteChars(index, count) => Some("WriteChars(" + BufferArgs("System.Char[]", index, count) + ")")
    case WriteComment(text) => Some("WriteComment(" + PrintString(text))
    case WriteQualifiedName(_, _) => None
    case WriteDocType(name, pubid, sysid, subset) =>
      Some("WriteDocType(" + PrintString(name) + ", " + Args3(pubid, sysid, subset) + ")")
    case WriteEndAttribute => Some("WriteEndAtrribute()")
    case WriteEndDocument => Some("WriteEndDocument()")
    case WriteEndElement => Some("WriteEndElement()")
    case WriteEntityRef(name) => Some("WriteEntityRef(" + PrintString(name) + ")")
    case WriteFullEndElement => Some("WriteFullEndElement()")
    case WriteProcessingInstruction(name, text) =>
      Some("WriteProcessingInstruction(" + PrintString(name) + ", " + PrintString(text) + ")")
    case WriteRawChars(index, count) => Some("WriteRaw(" + BufferArgs("System.Char[]", index, count) + ")")
    case WriteRaw(data) => Some("WriteRaw(" + (if data.Some? then data.value else "") + ")")
    case WriteStartAttribute(prefix, localName, ns) => Some("WriteStartAttribute(" + Args3(prefix, localName, ns) + ")")
    case WriteStartDocument => Some("WriteStartDocument()")
    case WriteStartDocumentStandalone(standalone) => Some("WriteStartDocument(" + BoolToString(standalone) + ")")
    case WriteStartElement(prefix, localName, ns) => Some("WriteStartElement(" + Args3(prefix, localName, ns) + ")")
    case WriteString(text) => Some("WriteString(" + PrintString(text) + ")")
    case WriteSurrogateCharEntity(lowChar, highChar) =>
      Some("WriteSurrogateCharEntity(" + IntToString(lowChar as int) + ", " + IntToString(highChar as int) + ")")
    case WriteWhitespace(ws) => Some("WriteWhitespace(" + PrintString(ws) + ")")
  }

  /** Two different strings written with WriteString reach the log as the same line. */
  lemma WriteStringCollision()
    ensures Line(WriteString(Some("\n"))) != Line(WriteString(Some("\\n")))
    ensures Escape(Line(WriteString(Some("\n"))).value) == Escape(Line(WriteString(Some("\\n"))).value)
  {
    var a, b := "WriteString(\"", "\")";
    assert Line(WriteString(Some("\n"))).value == a + "\n" + b;
    assert Line(WriteString(Some("\\n"))).value == a + "\\n" + b;
    assert (a + "\n" + b)[|a|] != (a + "\\n" + b)[|a|];
    EscapeConcat(a + "\n", b);
    EscapeConcat(a, "\n");
    EscapeConcat(a + "\\n", b);
    EscapeConcat(a, "\\n");
    EscapeCollision();
  }

  /** The fields LogLine and CheckLog work on. `compare` is None until CheckLog is first called. */
  datatype SpyState = SpyState(log: seq<string>, compare: Option<seq<string>>, position: nat, verified: bool)

  const Fresh := SpyState([], None, 0, true)

  /**
   * What CheckLog leaves: compare mode with nothing compared yet, so the comparison
   * invariant holds whatever came before; the log is kept.
   */
  function Reset(s: SpyState): (r: SpyState)
    ensures r.log == s.log && r.compare == Some([]) && r.verified
    ensures ValidState(r)
  {
    assert s.log[..0] == [];
    s.(compare := Some([]), verified := true, position := 0)
  }

  /**
   * What one LogLine call leaves: before CheckLog the escaped line is appended to the log;
   * after it the log stays as it is, the line joins the compared ones and the position
   * moves on. A failed comparison is never undone.
   */
  function Step(s: SpyState, line: string): (r: SpyState)
    ensures s.compare.None? ==> r.log == s.log + [Escape(line)] && r.compare.None? && r.verified == s.verified
    ensures s.compare.Some? ==>
      r.log == s.log && r.compare == Some(s.compare.value + [Escape(line)]) && r.position == s.position + 1
    ensures r.verified ==> s.verified
  {
    var l := Escape(line);
    match s.compare
    case None => s.(log := s.log + [l])
    case Some(c) =>
      s.(compare := Some(c + [l]), position := s.position + 1,
         verified := s.verified && s.position < |s.log| && s.log[s.position] == l)
  }

  /** LogLine over a list of lines, in order. */
  function Steps(s: SpyState, lines: seq<string>): SpyState
  {
    if lines == [] then s else Step(Steps(s, lines[..|lines| - 1]), lines[|lines| - 1])
  }

  function EscapeAll(lines: seq<string>): (r: seq<string>)
    ensures |r| == |lines|
    ensures forall k :: 0 <= k < |lines| ==> r[k] == Escape(lines[k])
  {
    if lines == [] then [] else EscapeAll(lines[..|lines| - 1]) + [Escape(lines[|lines| - 1])]
  }

  /**
   * In compare mode the position counts the compared lines, and `verified` holds exactly when
   * the compared lines are the recorded ones from the start.
   */
  ghost predicate ValidState(s: SpyState)
  {
    s.compare.Some? ==>
      s.position == |s.compare.value|
      && (s.verified <==> |s.compare.value| <= |s.log| && s.compare.value == s.log[..|s.compare.value|])
  }

  /** LogLine keeps the invariant; a failure stays recorded until the next CheckLog. */
  lemma StepValid(s: SpyState, line: string)
    requires ValidState(s)
    ensures ValidState(Step(s, line))
    ensures !s.verified ==> !Step(s, line).verified
  {
    if s.compare.Some? {
      var c, l, p := s.compare.value, Escape(line), s.position;
      var c' := c + [l];
      assert c'[..p] == c;
      if p + 1 <= |s.log| {
        assert s.log[..p + 1][..p] == s.log[..p];
        assert s.log[..p + 1] == s.log[..p] + [s.log[p]];
      }
    }
  }

  /** Recording appends the escaped lines to the log and touches nothing else. */
  lemma {:induction false} RecordSteps(s: SpyState, lines: seq<string>)
    requires s.compare.None?
    ensures Steps(s, lines) == s.(log := s.log + EscapeAll(lines))
    decreases |lines|
  {
    if lines != [] {
      RecordSteps(s, lines[..|lines| - 1]);
    } else {
      assert s.log + [] == s.log;
    }
  }

  /** Comparing leaves the log alone, appends to the comparison list and counts the lines. */
  lemma {:induction false} CompareSteps(s: SpyState, lines: seq<string>)
    requires s.compare.Some? && ValidState(s)
    ensures Steps(s, lines).log == s.log
    ensures Steps(s, lines).compare == Some(s.compare.value + EscapeAll(lines))
    ensures Steps(s, lines).position == s.position + |lines|
    ensures ValidState(Steps(s, lines))
    decreases |lines|
  {
    if lines != [] {
      var init := lines[..|lines| - 1];
      CompareSteps(s, init);
      StepValid(Steps(s, init), lines[|lines| - 1]);
      assert s.compare.value + EscapeAll(init) + [Escape(lines[|lines| - 1])]
          == s.compare.value + EscapeAll(lines);
    } else {
      assert s.compare.value + [] == s.compare.value;
    }
  }

  /** What CheckLog leaves after recording `recorded` from a fresh spy. */
  lemma RecordThenReset(recorded: seq<string>)
    ensures Reset(Steps(Fresh, recorded)) == SpyState(EscapeAll(recorded), Some([]), 0, true)
    ensures ValidState(Reset(Steps(Fresh, recorded)))
  {
    RecordSteps(Fresh, recorded);
    assert [] + EscapeAll(recorded) == EscapeAll(recorded);
  }

  /**
   * A run recorded from a fresh spy and then compared after CheckLog: verification holds
   * exactly when the compared lines, escaped, are the first recorded ones.
   */
  lemma RecordThenCompare(recorded: seq<string>, compared: seq<string>)
    ensures var s := Steps(Reset(Steps(Fresh, recorded)), compared);
      s.log == EscapeAll(recorded)
      && (s.verified <==> |compared| <= |recorded| && EscapeAll(compared) == EscapeAll(recorded)[..|compared|])
  {
    RecordThenReset(recorded);
    var r := SpyState(EscapeAll(recorded), Some([]), 0, true);
    CompareSteps(r, compared);
    assert [] + EscapeAll(compared) == EscapeAll(compared);
  }

  /** Replaying the recorded calls always verifies. */
  lemma ReplayVerifies(recorded: seq<string>)
    ensures Steps(Reset(Steps(Fresh, recorded)), recorded).verified
  {
    RecordThenCompare(recorded, recorded);
    assert EscapeAll(recorded)[..|recorded|] == EscapeAll(recorded);
  }

  class XmlSpy {
    var log: seq<string>
    var compare: Option<seq<string>>
    var position: nat
    var verified: bool

    function State(): SpyState
      reads this
    {
      SpyState(log, compare, position, verified)
    }

    ghost predicate Valid()
      reads this
    {
      ValidState(State())
    }

    /** A new spy records: empty log, no comparison list. The inner writer is not modelled. */
    constructor ()
      ensures State() == Fresh && Valid()
    {
      log := [];
      compare := None;
      position := 0;
      verified := true;
    }

    /** CheckLog: switch to compare mode, starting again at the first recorded line. */
    method CheckLog()
      modifies this
      ensures State() == Reset(old(State()))
      ensures Valid() && log == old(log)
    {
      compare := Some([]);
      verified := true;
      position := 0;
    }

    /** LogLine: record the escaped line, or compare it with the recorded line at `position`. */
    method LogLine(line: string)
      modifies this
      ensures State() == Step(old(State()), line)
      ensures old(Valid()) ==> Valid()
      ensures !old(verified) ==> !verified
    {
      if Valid() {
        StepValid(State(), line);
      }
      var escaped := Escape(line);
      if compare.Some? {
        if verified {
          if position < |log| {
            var expected := log[position];
            if expected != escaped {
              verified := false;
            }
          } else {
            verified := false;
          }
        }
        position := position + 1;
        compare := Some(compare.value + [escaped]);
      } else {
        log := log + [escaped];
      }
    }

    /** An override: log the call's line, if it has one; forwarding to the inner writer is not modelled. */
    method Forward(c: WriterCall)
      modifies this
      ensures Line(c).Some? ==> State() == Step(old(State()), Line(c).value)
      ensures Line(c).None? ==> State() == old(State())
      ensures old(Valid()) ==> Valid()
    {
      var line := Line(c);
      if line.Some? {
        LogLine(line.value);
      }
    }
  }
}
