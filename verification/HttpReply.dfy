/** What the outbound HTTP proxy writes: heads made of lines, and the error header made safe. */
module HttpReply {
  import opened Bytes
  import opened Utf8
  import opened Text
  import Decimal
  import Words

  const MAX_ERROR_HEADER_LEN: nat := 256
  const CRLF: bytes := [RETURN, NEWLINE]

  // --- heads --------------------------------------------------------------------------------

  /** Lines, then the blank line. */
  function Head(lines: seq<bytes>): bytes {
    if lines == [] then CRLF else lines[0] + CRLF + Head(lines[1..])
  }

  lemma TerminatedLine(line: bytes, rest: bytes)
    requires NEWLINE !in line
    ensures Lines(line + CRLF + rest) == [line] + Lines(rest)
  {
    hide Lines, IndexOf;
    var s, i := line + CRLF + rest, |line| + 1;
    assert s[i] == NEWLINE && s[i + 1..] == rest;
    forall k | 0 <= k < i ensures s[k] != NEWLINE {
      if k < |line| { assert s[k] == line[k]; }
    }
    LinesStep(s, i);
    assert s[..i] == line + [RETURN];
    assert StripReturn(line + [RETURN]) == line;
  }

  /** A reader finds exactly the lines that were put in. */
  lemma {:induction false} HeadLines(lines: seq<bytes>, body: bytes)
    requires forall i :: 0 <= i < |lines| ==> NEWLINE !in lines[i]
    ensures Lines(Head(lines) + body) == lines + [[]] + Lines(body)
  {
    hide Lines;
    if lines == [] {
      assert Head(lines) + body == [] + CRLF + body;
      TerminatedLine([], body);
    } else {
      var rest := Head(lines[1..]) + body;
      assert Head(lines) + body == lines[0] + CRLF + rest;
      TerminatedLine(lines[0], rest);
      HeadLines(lines[1..], body);
      assert lines == [lines[0]] + lines[1..];
    }
  }

  // --- the error header ---------------------------------------------------------------------

  /** `char::is_control`, on the encoding of one character. */
  predicate IsControl(ch: bytes) {
    || (|ch| == 1 && (ch[0] < 0x20 || ch[0] == 0x7F))
    || (|ch| == 2 && ch[0] == 0xC2 && ch[1] < 0xA0)
  }

  /** Control characters to spaces, in the first `k` characters. */
  function Clean(s: bytes, k: nat): (t: bytes)
    ensures |t| <= |s|
  {
    if s == [] || k == 0 then []
    else
      var n := CharStep(s);
      (if IsControl(s[..n]) then [Words.SPACE] else s[..n]) + Clean(s[n..], k - 1)
  }

  /** `sanitize_header_value`. */
  function Sanitize(err: bytes): bytes {
    Trim(Clean(err, MAX_ERROR_HEADER_LEN))
  }

  /** Well-formed text of at most `k` characters, none of them a control character. */
  predicate Plain(s: bytes, k: nat) {
    s == [] || (k > 0 && CharLen(s) > 0 && !IsControl(s[..CharLen(s)]) && Plain(s[CharLen(s)..], k - 1))
  }

  lemma {:induction false} PlainMore(s: bytes, j: nat, k: nat)
    requires Plain(s, j) && j <= k
    ensures Plain(s, k)
  {
    hide CharLen, IsControl;
    if s != [] { PlainMore(s[CharLen(s)..], j - 1, k - 1); }
  }

  lemma {:induction false} PlainValid(s: bytes, k: nat)
    requires Plain(s, k)
    ensures Valid(s)
  {
    hide CharLen, IsControl;
    if s != [] { PlainValid(s[CharLen(s)..], k - 1); }
  }

  /** One character in front of plain text. */
  lemma PlainStep(ch: bytes, t: bytes, k: nat)
    requires CharLen(ch) == |ch| > 0 && !IsControl(ch) && Plain(t, k)
    ensures Plain(ch + t, k + 1)
  {
    CharLenExtends(ch, t);
    hide CharLen, IsControl;
    assert (ch + t)[..|ch|] == ch && (ch + t)[|ch|..] == t;
  }

  lemma FirstCharAlone(s: bytes)
    requires CharLen(s) > 0
    ensures CharLen(s[..CharLen(s)]) == CharLen(s)
  {
    CharLenExtends(s, []);
  }

  lemma {:induction false} CleanIsPlain(s: bytes, k: nat)
    requires Valid(s)
    ensures Plain(Clean(s, k), k)
    decreases k
  {
    hide CharLen, IsControl;
    if s != [] && k > 0 {
      var n := CharStep(s);
      CleanIsPlain(s[n..], k - 1);
      FirstCharAlone(s);
      SpaceIsPlain();
      PlainStep(if IsControl(s[..n]) then [Words.SPACE] else s[..n], Clean(s[n..], k - 1), k - 1);
    }
  }

  lemma SpaceIsPlain()
    ensures CharLen([Words.SPACE]) == 1 && !IsControl([Words.SPACE])
  {
  }

  lemma {:induction false} PlainIsClean(s: bytes, k: nat)
    requires Plain(s, k)
    ensures Clean(s, k) == s
  {
    hide CharLen, IsControl;
    if s != [] {
      PlainIsClean(s[CharLen(s)..], k - 1);
      assert s == s[..CharLen(s)] + s[CharLen(s)..];
    }
  }

  /** No byte of plain text is a control byte, so in particular it is one line. */
  lemma {:induction false} PlainBytes(s: bytes, k: nat)
    requires Plain(s, k)
    ensures forall i :: 0 <= i < |s| ==> s[i] >= 0x20 && s[i] != 0x7F
  {
    hide CharLen;
    if s != [] {
      var n := CharLen(s);
      PlainBytes(s[n..], k - 1);
      forall i | 0 <= i < |s| ensures s[i] >= 0x20 && s[i] != 0x7F {
        if i >= n { assert s[i] == s[n..][i - n]; } else if s[i] < 0x80 { AsciiStands(s, i); }
      }
    }
  }

  lemma {:induction false} PlainTrimStart(s: bytes, k: nat)
    requires Plain(s, k)
    ensures Plain(TrimStart(s), k)
  {
    hide CharLen, IsControl, SpaceLen;
    if SpaceLen(s) > 0 {
      PlainTrimStart(s[SpaceLen(s)..], k - 1);
      PlainMore(TrimStart(s), k - 1, k);
    }
  }

  lemma {:induction false} PlainTrimEnd(s: bytes, k: nat)
    requires Plain(s, k)
    ensures Plain(TrimEnd(s), k)
  {
    hide CharLen, IsControl, SpaceLen;
    if s != [] {
      var n := CharLen(s);
      PlainTrimEnd(s[n..], k - 1);
      FirstCharAlone(s);
      PlainStep(s[..n], TrimEnd(s[n..]), k - 1);
    }
  }

  lemma {:induction false} TrimEndTwice(s: bytes)
    requires Valid(s)
    ensures TrimEnd(TrimEnd(s)) == TrimEnd(s)
    decreases |s|
  {
    hide CharLen, SpaceLen;
    if s != [] {
      var n := CharLen(s);
      var ch, t := s[..n], TrimEnd(s[n..]);
      TrimEndTwice(s[n..]);
      FirstCharAlone(s);
      CharLenExtends(ch, t);
      Words.SpaceLenExtends(ch, t);
      Words.SpaceLenExtends(ch, s[n..]);
      assert ch + s[n..] == s;
      assert (ch + t)[n..] == t && (ch + t)[..n] == ch;
    }
  }

  lemma TrimTwice(s: bytes)
    requires Valid(s)
    ensures Trim(Trim(s)) == Trim(s)
  {
    hide CharLen, SpaceLen, TrimEnd, Valid;
    var t := TrimStart(s);
    TrimmedStart(s);
    TrimStartValid(s);
    TrimEndTwice(t);
    TrimEndKeepsStart(t);
  }

  lemma TrimEndKeepsStart(t: bytes)
    requires Valid(t) && SpaceLen(t) == 0
    ensures SpaceLen(TrimEnd(t)) == 0
  {
    hide CharLen, SpaceLen;
    if t != [] {
      var n := CharLen(t);
      FirstCharAlone(t);
      Words.SpaceLenExtends(t[..n], TrimEnd(t[n..]));
      Words.SpaceLenExtends(t[..n], t[n..]);
      assert t[..n] + t[n..] == t;
    }
  }

  /** Whatever the error says, the header value is one line of at most 256 characters, none of them a
      control character, without white space around it. */
  lemma SanitizedIsSafe(err: bytes)
    requires Valid(err)
    ensures Plain(Sanitize(err), 256) && Trim(Sanitize(err)) == Sanitize(err)
    ensures forall b :: b in Sanitize(err) ==> b >= 0x20 && b != 0x7F
  {
    hide Clean, TrimStart, TrimEnd, Plain, Valid;
    var t := Clean(err, MAX_ERROR_HEADER_LEN);
    CleanIsPlain(err, MAX_ERROR_HEADER_LEN);
    PlainTrimStart(t, MAX_ERROR_HEADER_LEN);
    PlainTrimEnd(TrimStart(t), MAX_ERROR_HEADER_LEN);
    PlainValid(t, MAX_ERROR_HEADER_LEN);
    TrimTwice(t);
    PlainBytes(Sanitize(err), MAX_ERROR_HEADER_LEN);
  }

  /** And an error already of that kind is reported as it is: nothing else is ever rewritten. */
  lemma SanitizeKeepsExactly(err: bytes)
    requires Valid(err)
    ensures Sanitize(err) == err <==> Plain(err, 256) && Trim(err) == err
  {
    hide Clean, TrimStart, TrimEnd, Plain, Valid;
    SanitizedIsSafe(err);
    if Plain(err, MAX_ERROR_HEADER_LEN) { PlainIsClean(err, MAX_ERROR_HEADER_LEN); }
  }

  // --- the replies --------------------------------------------------------------------------

  const OK: bytes := Ascii("HTTP/1.1 200 OK")
  const FAILED: bytes := Ascii("HTTP/1.1 500 Internal Server Error")
  const BAD_REQUEST: bytes := Ascii("HTTP/1.1 400 Bad Request")
  const NOT_IMPLEMENTED: bytes := Ascii("HTTP/1.1 501 Not Implemented")
  const ERROR_HEADER: bytes := Ascii("Tailscale-Connect-Error: ")
  const LENGTH_HEADER: bytes := Ascii("Content-Length: ")
  const CLOSE_HEADER: bytes := Ascii("Connection: close")

  function Established(): bytes {
    Head([OK])
  }

  function ErrorLines(err: bytes): seq<bytes> {
    [FAILED, ERROR_HEADER + Sanitize(err), CLOSE_HEADER, LENGTH_HEADER + [0x30]]
  }

  /** `write_connect_error`. */
  function ConnectError(err: bytes): bytes {
    Head(ErrorLines(err))
  }

  /** `write_simple_status`. */
  function SimpleStatus(status: bytes, body: bytes): bytes {
    Head([status, LENGTH_HEADER + Decimal.Digits(|body|), CLOSE_HEADER]) + body
  }

  lemma FixedTextIsOneLine()
    ensures NEWLINE !in OK && NEWLINE !in FAILED && NEWLINE !in ERROR_HEADER && NEWLINE !in LENGTH_HEADER && NEWLINE !in CLOSE_HEADER
  {
  }

  /** No error text can add a line to the failure reply or end its head early. */
  lemma ConnectErrorLines(err: bytes)
    requires Valid(err)
    ensures Lines(ConnectError(err)) == ErrorLines(err) + [[]]
  {
    hide Sanitize, Lines, Plain, Head;
    FixedTextIsOneLine();
    SanitizedIsSafe(err);
    var lines := ErrorLines(err);
    HeadLines(lines, []);
    LinesOfNothing();
    assert Head(lines) + [] == Head(lines);
  }
}
