/** What each kind of line of an env file does, from the line's own bytes: white space is free on both
    sides of the key and of the value, and the line may end in a newline, a carriage return with it, or the
    file. */
module EnvLines {
  import opened Bytes
  import opened EnvFile
  import opened Utf8Laws
  import Utf8
  import Words
  import Text
  import GoString

  const NOTHING := ParsedEnv([], [], None)

  predicate LineEnd(eol: bytes) {
    eol == [] || eol == [0x0A] || eol == [0x0D, 0x0A]
  }

  /** Text on one line, without the carriage return that would belong to its end. */
  predicate OnOneLine(line: bytes) {
    0x0A !in line && (line == [] || line[|line| - 1] != 0x0D)
  }

  lemma LastLine(line: bytes)
    requires 0x0A !in line
    ensures Text.Lines(line) == if line == [] then [] else [line]
  {
    Text.IndexOfIs(line, 0x0A, |line|);
  }

  lemma LineIs(line: bytes, eol: bytes)
    requires OnOneLine(line) && LineEnd(eol)
    ensures Text.Lines(line + eol) == if line + eol == [] then [] else [line]
  {
    hide Text.Lines;
    if eol == [] {
      assert line + eol == line;
      LastLine(line);
    } else if eol == [0x0A] {
      Text.OneLine(line);
    } else {
      var s := line + eol;
      assert s == line + [0x0D] + [0x0A] && s[|line| + 1] == 0x0A;
      Text.LinesStep(s, |line| + 1);
      assert s[..|line| + 1] == line + [0x0D] && s[|line| + 2..] == [];
      assert Text.StripReturn(line + [0x0D]) == line;
      Text.LinesOfNothing();
    }
  }

  lemma OneLineScan(line: bytes, eol: bytes)
    requires OnOneLine(line) && LineEnd(eol)
    ensures line + eol != [] ==> Scan(line + eol) == Cons(ReadLine(line), 1, NOTHING)
    ensures line + eol == [] ==> Scan(line + eol) == NOTHING
  {
    hide Text.Lines, ReadLine, Cons;
    LineIs(line, eol);
    OneOfLines(line);
    NoLines();
  }

  lemma OneOfLines(line: bytes)
    ensures ScanLines([line], 1) == Cons(ReadLine(line), 1, NOTHING)
  {
    hide ReadLine, Cons;
    assert [line][1..] == [];
  }

  lemma NoLines()
    ensures ScanLines([], 1) == NOTHING
  {
  }

  // --- lines that do nothing ----------------------------------------------------------------

  /** A blank line, a comment, a line without an equals sign, and one with nothing before it, whatever white
      space is around: each adds nothing. */
  lemma SilentLine(a: bytes, t: bytes, b: bytes, eol: bytes)
    requires AllSpace(a) && AllSpace(b) && Trimmed(t) && OnOneLine(a + t + b) && LineEnd(eol)
    requires t == [] || t[0] == 0x23 || 0x3D !in t || t[0] == 0x3D
    ensures Scan(a + t + b + eol) == NOTHING
  {
    hide Utf8.Trim, Utf8.SpaceLen, Utf8.Valid, AllSpace, NoSpaceEnd, Cons, ReadValue;
    TrimPadded(a, t, b);
    OneLineScan(a + t + b, eol);
    NothingDoes();
    if t != [] && t[0] == 0x3D {
      Text.IndexOfIs(t, 0x3D, 0);
      NothingTrims();
      TrimOfNothing();
      assert t[..0] == [];
    } else if 0x3D !in t {
      Text.NoSplit(t, 0x3D);
    }
  }

  lemma NothingDoes()
    ensures Cons(Silent, 1, NOTHING) == NOTHING
  {
  }

  lemma TrimOfNothing()
    ensures Utf8.Trim([]) == []
  {
  }

  // --- lines with a key ---------------------------------------------------------------------

  /** A key as it can stand in a line. */
  predicate Key(key: bytes) {
    Trimmed(key) && key != [] && key[0] != 0x23 && 0x3D !in key
  }

  /** A value as it can stand there; an empty one has no white space of its own. */
  predicate Fits(before: bytes, value: bytes) {
    Trimmed(value) && AllSpace(before) && (value == [] ==> before == [])
  }

  function Body(key: bytes, b: bytes, c: bytes, value: bytes): bytes {
    key + b + [0x3D] + c + value
  }

  /** The assignment, or the one skipped entry when a NUL would be set. */
  function Sets(key: bytes, value: bytes, line: bytes): ParsedEnv {
    if 0 in key || 0 in value then ParsedEnv([], [ParseError(1, line, NulByte)], None)
    else ParsedEnv([Assignment(key, value)], [], None)
  }

  /** A value that does not start with a quote stands for itself, further equals signs included. */
  lemma PlainValueLine(a: bytes, key: bytes, b: bytes, c: bytes, value: bytes, d: bytes, eol: bytes)
    requires Key(key) && Fits(c, value) && AllSpace(a) && AllSpace(b) && AllSpace(d)
    requires OnOneLine(a + Body(key, b, c, value) + d) && LineEnd(eol)
    requires value == [] || value[0] != 0x22
    ensures Scan(a + Body(key, b, c, value) + d + eol) == Sets(key, value, Body(key, b, c, value))
  {
    hide Body, Key, Fits, AllSpace, Cons, ReadLine, Sets;
    KeyValueLine(a, key, b, c, value, d, eol);
    ConsSets(key, value, Body(key, b, c, value));
  }

  /** A value that is a Go literal stands for what it decodes to. */
  lemma QuotedValueLine(a: bytes, key: bytes, b: bytes, c: bytes, value: bytes, out: bytes, d: bytes, eol: bytes)
    requires Key(key) && Fits(c, value) && AllSpace(a) && AllSpace(b) && AllSpace(d)
    requires OnOneLine(a + Body(key, b, c, value) + d) && LineEnd(eol)
    requires value != [] && value[0] == 0x22 && GoString.Unquote(value) == Some(out)
    ensures Scan(a + Body(key, b, c, value) + d + eol) == Sets(key, out, Body(key, b, c, value))
  {
    hide Body, Key, Fits, AllSpace, Cons, ReadLine, Sets, GoString.Unquote;
    KeyValueLine(a, key, b, c, value, d, eol);
    ConsSets(key, out, Body(key, b, c, value));
  }

  /** A value that starts with a quote and is no literal is the refusal, with its line. */
  lemma RefusedLine(a: bytes, key: bytes, b: bytes, c: bytes, value: bytes, d: bytes, eol: bytes)
    requires Key(key) && Fits(c, value) && AllSpace(a) && AllSpace(b) && AllSpace(d)
    requires OnOneLine(a + Body(key, b, c, value) + d) && LineEnd(eol)
    requires value != [] && value[0] == 0x22 && GoString.Unquote(value) == None
    ensures Scan(a + Body(key, b, c, value) + d + eol) == ParsedEnv([], [], Some(ParseError(1, Body(key, b, c, value), InvalidValue)))
  {
    hide Body, Key, Fits, AllSpace, ReadLine, GoString.Unquote;
    KeyValueLine(a, key, b, c, value, d, eol);
  }

  /** What such a line reads as, by the value alone. */
  function Outcome(key: bytes, value: Option<bytes>, line: bytes): LineOutcome {
    match value
    case None => Refuse(line)
    case Some(v) => if 0 in key || 0 in v then Skip(line) else Assign(Assignment(key, v))
  }

  lemma ConsSets(key: bytes, value: bytes, line: bytes)
    ensures Cons(Outcome(key, Some(value), line), 1, NOTHING) == Sets(key, value, line)
  {
  }

  lemma KeyValueLine(a: bytes, key: bytes, b: bytes, c: bytes, value: bytes, d: bytes, eol: bytes)
    requires Key(key) && Fits(c, value) && AllSpace(a) && AllSpace(b) && AllSpace(d)
    requires OnOneLine(a + Body(key, b, c, value) + d) && LineEnd(eol)
    ensures var line := Body(key, b, c, value);
            Scan(a + line + d + eol) == Cons(Outcome(key, ReadValue(value), line), 1, NOTHING)
  {
    hide Body, AllSpace, Cons, ReadLine, ReadValue, Outcome, Trimmed;
    var line := Body(key, b, c, value);
    BodyIsTrimmed(key, b, c, value);
    TrimPadded(a, line, d);
    OneLineScan(a + line + d, eol);
    BodyNonempty(key, b, c, value);
    ReadsAs(a + line + d, key, b, c, value);
  }

  lemma {:induction false} AllSpaceTail(x: bytes, t: bytes)
    requires Utf8.Valid(x) && AllSpace(x + t)
    ensures AllSpace(t)
    decreases |x|
  {
    hide Utf8.CharLen, Utf8.SpaceLen;
    if x == [] {
      assert x + t == t;
    } else {
      var n := Utf8.CharLen(x);
      Utf8.CharLenExtends(x, t);
      SpaceExactly(x + t);
      assert (x + t)[n..] == x[n..] + t;
      AllSpaceTail(x[n..], t);
    }
  }

  lemma NoSpaceEndConcat(p: bytes, t: bytes)
    requires Utf8.Valid(p) && t != [] && NoSpaceEnd(t)
    ensures NoSpaceEnd(p + t)
  {
    hide AllSpace, Utf8.Valid;
    var u := p + t;
    forall i | 0 <= i < |u| && Utf8.Valid(u[..i]) ensures !AllSpace(u[i..]) {
      if i <= |p| {
        assert u[..i] == p[..i] && u[i..] == p[i..] + t && p == p[..i] + p[i..];
        Utf8.ValidConcat(p[..i], p[i..]);
        EmptyIsSpace();
        assert t[..0] == [] && t[0..] == t;
        if AllSpace(u[i..]) { AllSpaceTail(p[i..], t); }
      } else {
        assert u[..i] == p + t[..i - |p|] && u[i..] == t[i - |p|..];
        Utf8.ValidConcat(p, t[..i - |p|]);
      }
    }
  }

  lemma EqualsEnds()
    ensures NoSpaceEnd([0x3D]) && Utf8.Valid([0x3D])
  {
    assert [0x3D][0..] == [0x3D];
    assert Utf8.SpaceLen([0x3D]) == 0;
    Utf8.AsciiValid([0x3D]);
  }

  lemma BodyIsTrimmed(key: bytes, b: bytes, c: bytes, value: bytes)
    requires Key(key) && Fits(c, value) && AllSpace(b)
    ensures Trimmed(Body(key, b, c, value))
  {
    hide AllSpace, NoSpaceEnd, Utf8.Valid, Utf8.SpaceLen, Utf8.CharLen;
    var front := key + b + [0x3D];
    AllSpaceValid(b);
    AllSpaceValid(c);
    EqualsEnds();
    Utf8.ValidConcat(key, b);
    Utf8.ValidConcat(key + b, [0x3D]);
    Utf8.ValidConcat(front, c);
    Utf8.ValidConcat(front + c, value);
    if value == [] {
      NoSpaceEndConcat(key + b, [0x3D]);
      assert Body(key, b, c, value) == key + b + [0x3D];
    } else {
      NoSpaceEndConcat(front + c, value);
    }
    Utf8.FirstChar(key);
    Words.SpaceLenExtends(key, b + ([0x3D] + (c + value)));
    assert Body(key, b, c, value) == key + (b + ([0x3D] + (c + value)));
  }

  lemma BodyNonempty(key: bytes, b: bytes, c: bytes, value: bytes)
    ensures Body(key, b, c, value) != []
  {
  }

  lemma ReadsAs(raw: bytes, key: bytes, b: bytes, c: bytes, value: bytes)
    requires Key(key) && Fits(c, value) && AllSpace(b) && Utf8.Trim(raw) == Body(key, b, c, value)
    ensures ReadLine(raw) == Outcome(key, ReadValue(value), Body(key, b, c, value))
  {
    hide AllSpace, Utf8.Trim, ReadValue, Trimmed, Text.SplitOnce;
    var line := Body(key, b, c, value);
    SpaceHasNoEquals(b);
    Text.SplitOnceOf(key + b, 0x3D, c + value);
    assert line == (key + b) + [0x3D] + (c + value);
    assert line[0] == key[0];
    NoSpaceIsSpace();
    TrimPadded([], key, b);
    assert [] + key + b == key + b;
    TrimPadded(c, value, []);
    assert c + value + [] == c + value;
  }

  lemma NoSpaceIsSpace()
    ensures AllSpace([])
  {
  }

  lemma {:induction false} SpaceHasNoEquals(b: bytes)
    requires AllSpace(b)
    ensures 0x3D !in b
  {
    if b != [] {
      SpaceHasNoEquals(b[Utf8.SpaceLen(b)..]);
      assert b == b[..Utf8.SpaceLen(b)] + b[Utf8.SpaceLen(b)..];
    }
  }

  // --- whole files --------------------------------------------------------------------------

  lemma OneNewline(p: bytes, rest: bytes)
    requires 0x0A !in p
    ensures multiset(p + [0x0A] + rest)[0x0A] == 1 + multiset(rest)[0x0A]
  {
    assert multiset(p)[0x0A] == 0;
  }

  lemma {:induction false} LinesCount(a: bytes)
    requires Text.Terminated(a)
    ensures |Text.Lines(a)| == multiset(a)[0x0A]
    decreases |a|
  {
    hide Text.StripReturn, Text.Lines;
    if a == [] {
      Text.LinesOfNothing();
    } else {
      var i := Text.FirstPart(a, 0x0A);
      var p, rest := a[..i], a[i + 1..];
      Text.LinesStep(a, i);
      LinesCount(rest);
      OneNewline(p, rest);
      assert a == p + [0x0A] + rest;
    }
  }

  lemma {:induction false} RenumberedAt(es: seq<ParseError>, n: nat)
    ensures |RenumberAll(es, n)| == |es|
    ensures forall i :: 0 <= i < |es| ==> RenumberAll(es, n)[i] == ParseError(es[i].lineNumber + n, es[i].line, es[i].kind)
  {
    if es != [] { RenumberedAt(es[1..], n); }
  }

  /** Text behind a refusal adds nothing; behind anything else its assignments and skipped entries come after,
      with as many lines added to their numbers as there are newlines above, and its refusal is the refusal. */
  lemma FileInParts(a: bytes, b: bytes)
    requires a == [] || a[|a| - 1] == 0x0A
    ensures Scan(a).refusal.Some? ==> Scan(a + b) == Scan(a)
    ensures Scan(a).refusal.None? ==>
              var n, all, front, back := multiset(a)[0x0A], Scan(a + b), Scan(a), Scan(b);
              && all.assignments == front.assignments + back.assignments
              && |all.skipped| == |front.skipped| + |back.skipped| && front.skipped <= all.skipped
              && (forall i :: 0 <= i < |back.skipped| ==>
                    all.skipped[|front.skipped| + i]
                    == ParseError(back.skipped[i].lineNumber + n, back.skipped[i].line, back.skipped[i].kind))
              && all.refusal == match back.refusal
                                case None => None
                                case Some(e) => Some(ParseError(e.lineNumber + n, e.line, e.kind))
  {
    hide Scan, Text.Lines;
    PrefixLaw(a, b);
    LinesCount(a);
    RenumberedAt(Scan(b).skipped, multiset(a)[0x0A]);
  }
}
