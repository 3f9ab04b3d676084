/** The env-file scan: one line's meaning, the scan with its three simultaneous outcomes, and the laws
    a reader of the file relies on. */
module EnvFile {
  import opened Bytes
  import Utf8
  import Words
  import Text
  import GoString

  const HASH: byte := 0x23
  const EQUALS: byte := 0x3D
  const QUOTE: byte := 0x22
  const NUL: byte := 0x00

  datatype Assignment = Assignment(key: bytes, value: bytes)

  datatype ParseErrorKind = InvalidValue | NulByte

  datatype ParseError = ParseError(lineNumber: nat, line: bytes, kind: ParseErrorKind)

  datatype ParsedEnv = ParsedEnv(assignments: seq<Assignment>, skipped: seq<ParseError>, refusal: Option<ParseError>)

  /** What one line asks for. `Skip` and `Refuse` carry the trimmed line. */
  datatype LineOutcome = Silent | Assign(assignment: Assignment) | Skip(line: bytes) | Refuse(line: bytes)

  /** The value half: unquoted when it starts with a quote, verbatim otherwise. */
  function ReadValue(value: bytes): Option<bytes> {
    if value != [] && value[0] == QUOTE then GoString.Unquote(value) else Some(value)
  }

  function ReadLine(raw: bytes): LineOutcome {
    var line := Utf8.Trim(raw);
    if line == [] || line[0] == HASH then Silent
    else match Text.SplitOnce(line, EQUALS)
      case None => Silent
      case Some((k, v)) =>
        var key := Utf8.Trim(k);
        if key == [] then Silent
        else match ReadValue(Utf8.Trim(v))
          case None => Refuse(line)
          case Some(value) =>
            if NUL in key || NUL in value then Skip(line) else Assign(Assignment(key, value))
  }

  /** Put what one line asks for in front of what the lines below it produced. */
  function Cons(outcome: LineOutcome, number: nat, below: ParsedEnv): ParsedEnv {
    match outcome
    case Silent => below
    case Assign(a) => below.(assignments := [a] + below.assignments)
    case Skip(line) => below.(skipped := [ParseError(number, line, NulByte)] + below.skipped)
    case Refuse(line) => ParsedEnv([], [], Some(ParseError(number, line, InvalidValue)))
  }

  /** The scan of lines numbered from `first`. */
  function ScanLines(lines: seq<bytes>, first: nat): ParsedEnv {
    if lines == [] then ParsedEnv([], [], None)
    else Cons(ReadLine(lines[0]), first, ScanLines(lines[1..], first + 1))
  }

  /** `parse_key_value_env`. */
  function Scan(contents: bytes): ParsedEnv {
    ScanLines(Text.Lines(contents), 1)
  }

  // --- the prefix law -----------------------------------------------------------------------

  function Renumber(e: ParseError, shift: nat): ParseError {
    e.(lineNumber := e.lineNumber + shift)
  }

  function RenumberAll(es: seq<ParseError>, shift: nat): seq<ParseError> {
    if es == [] then [] else [Renumber(es[0], shift)] + RenumberAll(es[1..], shift)
  }

  function Shifted(p: ParsedEnv, shift: nat): ParsedEnv {
    ParsedEnv(p.assignments, RenumberAll(p.skipped, shift),
              if p.refusal.None? then None else Some(Renumber(p.refusal.value, shift)))
  }

  function Then(a: ParsedEnv, b: ParsedEnv): ParsedEnv {
    if a.refusal.Some? then a
    else ParsedEnv(a.assignments + b.assignments, a.skipped + b.skipped, b.refusal)
  }

  lemma {:induction false} ScanShift(lines: seq<bytes>, first: nat, shift: nat)
    ensures ScanLines(lines, first + shift) == Shifted(ScanLines(lines, first), shift)
  {
    hide ReadLine;
    if lines != [] {
      ScanShift(lines[1..], first + 1, shift);
      var below := ScanLines(lines[1..], first + 1);
      if ReadLine(lines[0]).Skip? {
        var e := ParseError(first, ReadLine(lines[0]).line, NulByte);
        assert ([e] + below.skipped)[1..] == below.skipped;
      }
    }
  }

  lemma ConsThen(o: LineOutcome, n: nat, a: ParsedEnv, b: ParsedEnv)
    ensures Cons(o, n, Then(a, b)) == Then(Cons(o, n, a), b)
  {
    match o {
      case Assign(x) => assert [x] + (a.assignments + b.assignments) == [x] + a.assignments + b.assignments;
      case Skip(line) =>
        var e := ParseError(n, line, NulByte);
        assert [e] + (a.skipped + b.skipped) == [e] + a.skipped + b.skipped;
      case _ =>
    }
  }

  lemma {:induction false} ScanLinesConcat(a: seq<bytes>, b: seq<bytes>, first: nat)
    ensures ScanLines(a + b, first) == Then(ScanLines(a, first), ScanLines(b, first + |a|))
  {
    hide ReadLine, Cons;
    if a == [] {
      assert a + b == b;
    } else {
      assert (a + b)[1..] == a[1..] + b;
      ScanLinesConcat(a[1..], b, first + 1);
      ConsThen(ReadLine(a[0]), first, ScanLines(a[1..], first + 1), ScanLines(b, first + |a|));
    }
  }

  /** Scanning newline-terminated text followed by more text is the first scan, then the second with
      its lines renumbered; and nothing of the second when the first was refused. */
  lemma PrefixLaw(a: bytes, b: bytes)
    requires Text.Terminated(a)
    ensures Scan(a + b) == Then(Scan(a), Shifted(Scan(b), |Text.Lines(a)|))
  {
    hide ScanLines, Text.Lines, Text.Terminated, Shifted, Then;
    Text.LinesConcat(a, b);
    ScanLinesConcat(Text.Lines(a), Text.Lines(b), 1);
    ScanShift(Text.Lines(b), 1, |Text.Lines(a)|);
  }

  // --- what is applied can be applied -------------------------------------------------------

  /** The conditions under which setting a variable does not panic. */
  predicate Settable(a: Assignment) {
    a.key != [] && EQUALS !in a.key && NUL !in a.key && NUL !in a.value
  }

  lemma ReadLineSettable(raw: bytes)
    ensures ReadLine(raw).Assign? ==> Settable(ReadLine(raw).assignment)
  {
    hide Utf8.Trim, GoString.Unquote;
    var line := Utf8.Trim(raw);
    match Text.SplitOnce(line, EQUALS) {
      case None =>
      case Some((k, _)) =>
        assert EQUALS !in k;
        Utf8.TrimBytes(k, EQUALS);
    }
  }

  lemma {:induction false} ScanSettable(lines: seq<bytes>, first: nat)
    ensures forall i :: 0 <= i < |ScanLines(lines, first).assignments| ==> Settable(ScanLines(lines, first).assignments[i])
  {
    hide ReadLine, Settable;
    if lines != [] {
      ReadLineSettable(lines[0]);
      ScanSettable(lines[1..], first + 1);
    }
  }

  /** Every assignment of every scan meets the preconditions of the call that applies it. */
  lemma EveryAssignmentIsSettable(contents: bytes)
    ensures forall i :: 0 <= i < |Scan(contents).assignments| ==> Settable(Scan(contents).assignments[i])
  {
    ScanSettable(Text.Lines(contents), 1);
  }

  /** Every cut a line is put through falls between characters, so key and value are text again. */
  predicate CutsAreText(raw: bytes) {
    && Utf8.Valid(Utf8.Trim(raw))
    && match Text.SplitOnce(Utf8.Trim(raw), EQUALS)
       case None => true
       case Some((k, v)) => Utf8.Valid(Utf8.Trim(k)) && Utf8.Valid(Utf8.Trim(v))
  }

  lemma LineStaysText(raw: bytes)
    requires Utf8.Valid(raw)
    ensures CutsAreText(raw)
  {
    hide Utf8.Valid, Utf8.Trim;
    var line := Utf8.Trim(raw);
    Utf8.TrimValid(raw);
    var i := Text.IndexOf(line, EQUALS);
    if i < |line| {
      Utf8.SplitAtAscii(line, i);
      Utf8.TrimValid(line[..i]);
      Utf8.TrimValid(line[i + 1..]);
    }
  }

  lemma EveryLineStaysText(contents: bytes)
    requires Utf8.Valid(contents)
    ensures forall i :: 0 <= i < |Text.Lines(contents)| ==> CutsAreText(Text.Lines(contents)[i])
  {
    hide Utf8.Valid, CutsAreText, Text.Lines;
    Text.LinesValid(contents);
    forall i | 0 <= i < |Text.Lines(contents)| ensures CutsAreText(Text.Lines(contents)[i]) {
      LineStaysText(Text.Lines(contents)[i]);
    }
  }

  // --- what is written can be read ----------------------------------------------------------

  /** A key that survives the scan's trimming and cutting as it stands. */
  predicate PlainKey(key: bytes) {
    && Utf8.Valid(key) && key != [] && Utf8.Trim(key) == key
    && key[0] != HASH && EQUALS !in key && NUL !in key && Text.NEWLINE !in key
  }

  function RenderLine(a: Assignment): bytes {
    a.key + [EQUALS] + GoString.Literal(GoString.QuoteAll(a.value))
  }

  function RenderFile(assignments: seq<Assignment>): bytes {
    if assignments == [] then []
    else RenderLine(assignments[0]) + [Text.NEWLINE] + RenderFile(assignments[1..])
  }

  lemma {:induction false} TrimEndKeeps(s: bytes)
    requires s != [] && 0x20 < s[|s| - 1] < 0x80
    ensures Utf8.TrimEnd(s) == s
    decreases |s|
  {
    var n := Utf8.CharStep(s);
    if n < |s| {
      TrimEndKeeps(s[n..]);
      assert s == s[..n] + s[n..];
    } else {
      assert Utf8.TrimEnd(s[n..]) == [];
      assert s == s[..n] + [];
    }
  }

  lemma TrimKeeps(s: bytes)
    requires s != [] && Utf8.SpaceLen(s) == 0 && 0x20 < s[|s| - 1] < 0x80
    ensures Utf8.Trim(s) == s
  {
    TrimEndKeeps(s);
  }

  lemma TrimmedHasNoLeadingSpace(key: bytes)
    requires Utf8.Trim(key) == key && key != []
    ensures Utf8.SpaceLen(key) == 0
  {
    Utf8.TrimmedStart(key);
  }

  lemma KeyStartsLine(key: bytes, rest: bytes)
    requires PlainKey(key)
    ensures Utf8.SpaceLen(key + rest) == 0
  {
    hide Utf8.Trim, Utf8.SpaceLen;
    TrimmedHasNoLeadingSpace(key);
    Words.SpaceLenExtends(key, rest);
  }

  lemma LiteralBytes(value: bytes)
    ensures var l := GoString.Literal(GoString.QuoteAll(value));
            |l| >= 2 && l[|l| - 1] == QUOTE && Text.NEWLINE !in l
  {
    GoString.QuoteAllMeans(value);
    hide GoString.QuoteAll, GoString.TextOf, GoString.AllValid, GoString.MeaningOf;
  }

  lemma LineShape(a: Assignment)
    requires PlainKey(a.key)
    ensures var line := RenderLine(a);
            Utf8.Trim(line) == line && Text.NEWLINE !in line && Text.StripReturn(line) == line && line[0] == a.key[0]
  {
    hide GoString.Literal, GoString.QuoteAll, Utf8.Trim, Utf8.SpaceLen, Utf8.Valid;
    var line, literal := RenderLine(a), GoString.Literal(GoString.QuoteAll(a.value));
    assert line == a.key + ([EQUALS] + literal);
    KeyStartsLine(a.key, [EQUALS] + literal);
    LiteralBytes(a.value);
    TrimKeeps(line);
  }

  lemma LiteralTrims(ps: seq<GoString.Piece>)
    ensures Utf8.Trim(GoString.Literal(ps)) == GoString.Literal(ps)
  {
    hide Utf8.Trim;
    TrimKeeps(GoString.Literal(ps));
  }

  /** A rendered line reads back as its assignment, whatever bytes other than NUL the value holds. */
  lemma LineReadsBack(a: Assignment)
    requires PlainKey(a.key) && NUL !in a.value
    ensures ReadLine(RenderLine(a)) == Assign(a)
  {
    LineShape(a);
    var literal := GoString.Literal(GoString.QuoteAll(a.value));
    LiteralTrims(GoString.QuoteAll(a.value));
    GoString.UnquoteInvertsQuote(a.value);
    assert literal[0] == QUOTE;
    Text.SplitOnceOf(a.key, EQUALS, literal);
    hide Utf8.Trim, GoString.Unquote, GoString.Literal, Text.SplitOnce, Utf8.Valid;
  }

  lemma RenderedStep(a: Assignment, rest: bytes)
    requires PlainKey(a.key)
    ensures Text.Lines(RenderLine(a) + [Text.NEWLINE] + rest) == [RenderLine(a)] + Text.Lines(rest)
  {
    LineShape(a);
    hide RenderLine, Utf8.Trim;
    Text.OneLine(RenderLine(a));
    Text.LinesConcat(RenderLine(a) + [Text.NEWLINE], rest);
  }

  lemma {:induction false} RenderedScan(assignments: seq<Assignment>, first: nat)
    requires forall i :: 0 <= i < |assignments| ==> PlainKey(assignments[i].key) && NUL !in assignments[i].value
    ensures ScanLines(Text.Lines(RenderFile(assignments)), first) == ParsedEnv(assignments, [], None)
  {
    hide RenderLine, ReadLine, PlainKey, Text.Lines;
    if assignments == [] {
      Text.LinesOfNothing();
    } else {
      var a := assignments[0];
      RenderedStep(a, RenderFile(assignments[1..]));
      LineReadsBack(a);
      RenderedScan(assignments[1..], first + 1);
      var lines := [RenderLine(a)] + Text.Lines(RenderFile(assignments[1..]));
      assert lines[1..] == Text.Lines(RenderFile(assignments[1..]));
      assert assignments == [a] + assignments[1..];
    }
  }

  /** A file written with quoted values reads back as exactly the assignments it was written from. */
  lemma FileReadsBack(assignments: seq<Assignment>)
    requires forall i :: 0 <= i < |assignments| ==> PlainKey(assignments[i].key) && NUL !in assignments[i].value
    ensures Scan(RenderFile(assignments)) == ParsedEnv(assignments, [], None)
  {
    RenderedScan(assignments, 1);
  }

  // --- the source's loop --------------------------------------------------------------------

  lemma ThenNothing(p: ParsedEnv)
    ensures Then(p, ParsedEnv([], [], None)) == p && Then(ParsedEnv([], [], None), p) == p
  {
    if p.refusal.None? {
      assert p.assignments + [] == p.assignments && p.skipped + [] == p.skipped;
    }
    assert [] + p.assignments == p.assignments && [] + p.skipped == p.skipped;
  }

  /** One line appended below what was scanned. */
  lemma ScanAppend(lines: seq<bytes>, i: nat)
    requires i < |lines|
    ensures ScanLines(lines[..i + 1], 1) == Then(ScanLines(lines[..i], 1), Cons(ReadLine(lines[i]), i + 1, ParsedEnv([], [], None)))
  {
    hide ReadLine, Cons;
    assert lines[..i + 1] == lines[..i] + [lines[i]];
    ScanLinesConcat(lines[..i], [lines[i]], 1);
  }

  /** `parse_key_value_env`, with its pushes and its break. */
  method ParseKeyValueEnv(contents: bytes) returns (parsed: ParsedEnv)
    ensures parsed == Scan(contents)
  {
    hide Utf8.Trim, GoString.Unquote, ScanLines;
    parsed := ParsedEnv([], [], None);
    var lines := Text.Lines(contents);
    ScanNothing();
    for i := 0 to |lines|
      invariant parsed == ScanLines(lines[..i], 1) && parsed.refusal.None?
    {
      ScanAppend(lines, i);
      ThenNothing(parsed);
      var lineNumber := i + 1;
      var line := Utf8.Trim(lines[i]);
      if line == [] || line[0] == HASH {
        continue;
      }
      var cut := Text.SplitOnce(line, EQUALS);
      if cut.None? {
        continue;
      }
      var key := Utf8.Trim(cut.value.0);
      if key == [] {
        continue;
      }
      var value := Utf8.Trim(cut.value.1);
      if value != [] && value[0] == QUOTE {
        var unquoted := GoString.UnquoteGoString(value);
        if unquoted.None? {
          parsed := parsed.(refusal := Some(ParseError(lineNumber, line, InvalidValue)));
          Refused(lines, i);
          break;
        }
        value := unquoted.value;
      }
      if NUL in key || NUL in value {
        parsed := parsed.(skipped := parsed.skipped + [ParseError(lineNumber, line, NulByte)]);
        continue;
      }
      parsed := parsed.(assignments := parsed.assignments + [Assignment(key, value)]);
    }
    assert parsed.refusal.None? ==> lines[..|lines|] == lines;
  }

  lemma ScanNothing()
    ensures forall n: nat :: ScanLines([], n) == ParsedEnv([], [], None)
  {
  }

  /** Below a refusal nothing is scanned. */
  lemma Refused(lines: seq<bytes>, i: nat)
    requires i < |lines| && ScanLines(lines[..i + 1], 1).refusal.Some?
    ensures ScanLines(lines, 1) == ScanLines(lines[..i + 1], 1)
  {
    hide ScanLines;
    assert lines == lines[..i + 1] + lines[i + 1..];
    ScanLinesConcat(lines[..i + 1], lines[i + 1..], 1);
  }
}
