/** The proxy's replies by their bytes, and the sanitiser character by character. */
module HttpReplyBytes {
  import opened Bytes
  import opened HttpReply
  import opened HttpConnect
  import Utf8
  import Text
  import Decimal

  const EOL: bytes := [0x0D, 0x0A]

  lemma HeadThree(a: bytes, b: bytes, c: bytes)
    ensures Head([a, b, c]) == a + EOL + b + EOL + c + EOL + EOL
  {
    hide Head;
    HeadOne(c);
    HeadCons(b, [c]);
    HeadCons(a, [b, c]);
    assert [b] + [c] == [b, c] && [a] + [b, c] == [a, b, c];
    assert a + EOL + (b + EOL + (c + EOL + EOL)) == a + EOL + b + EOL + c + EOL + EOL;
  }

  lemma HeadFour(a: bytes, b: bytes, c: bytes, d: bytes)
    ensures Head([a, b, c, d]) == a + EOL + b + EOL + c + EOL + d + EOL + EOL
  {
    hide Head;
    HeadThree(b, c, d);
    HeadCons(a, [b, c, d]);
    assert [a] + [b, c, d] == [a, b, c, d];
    assert a + EOL + (b + EOL + c + EOL + d + EOL + EOL) == a + EOL + b + EOL + c + EOL + d + EOL + EOL;
  }

  lemma HeadOne(a: bytes)
    ensures Head([a]) == a + EOL + EOL
  {
    assert [a][1..] == [];
  }

  lemma HeadCons(a: bytes, rest: seq<bytes>)
    ensures Head([a] + rest) == a + EOL + Head(rest)
  {
    assert ([a] + rest)[1..] == rest;
  }

  /** Status line, headers and body, each where it stands; the length header gives the body's length. */
  lemma ReplyBytes(err: bytes, status: bytes, body: bytes)
    ensures Established() == Ascii("HTTP/1.1 200 OK") + EOL + EOL
    ensures ConnectError(err)
         == Ascii("HTTP/1.1 500 Internal Server Error") + EOL + (Ascii("Tailscale-Connect-Error: ") + Sanitize(err)) + EOL
            + Ascii("Connection: close") + EOL + (Ascii("Content-Length: ") + [0x30]) + EOL + EOL
    ensures SimpleStatus(status, body)
         == status + EOL + (Ascii("Content-Length: ") + Decimal.Digits(|body|)) + EOL + Ascii("Connection: close") + EOL + EOL + body
  {
    hide Head, Sanitize, Decimal.Digits;
    HeadOne(OK);
    HeadFour(FAILED, ERROR_HEADER + Sanitize(err), CLOSE_HEADER, LENGTH_HEADER + [0x30]);
    HeadThree(status, LENGTH_HEADER + Decimal.Digits(|body|), CLOSE_HEADER);
  }

  /** Which reply answers what: 501 for another method, 400 for a bad target, 500 with the reason when the
      overlay is down or the dial fails, 200 when it succeeds, and nothing for no head or one over the limit. */
  lemma AnsweredBy(r: Request, overlay: Overlay, texts: Texts)
    ensures r.OtherMethod? ==>
              Answer(r, overlay, texts) == SimpleStatus(Ascii("HTTP/1.1 501 Not Implemented"), texts.notImplemented)
    ensures r.BadTarget? ==> Answer(r, overlay, texts) == SimpleStatus(Ascii("HTTP/1.1 400 Bad Request"), texts.badTarget)
    ensures r.Connect? ==>
              Answer(r, overlay, texts) ==
                if overlay == None then ConnectError(texts.notUp)
                else match overlay.value(r.host, r.port) case Reached => Established() case Failed(err) => ConnectError(err)
    ensures r.Closed? || r.TooLong? ==> Answer(r, overlay, texts) == []
  {
    hide SimpleStatus, ConnectError, Established;
  }

  // --- the sanitiser ------------------------------------------------------------------------

  /** A control character, by its code point. */
  lemma ControlExactly(ch: bytes)
    requires Utf8.CharLen(ch) == |ch| > 0
    ensures IsControl(ch) <==> (0 <= Utf8.Decode(ch) < 0x20 || 0x7F <= Utf8.Decode(ch) < 0xA0)
  {
    Utf8.Ranges(ch);
  }

  /** The characters of a text. */
  function Chars(s: bytes): seq<bytes> {
    if s == [] then [] else [s[..Utf8.CharStep(s)]] + Chars(s[Utf8.CharStep(s)..])
  }

  lemma CharsCons(ch: bytes, rest: bytes)
    requires Utf8.CharLen(ch) == |ch| > 0
    ensures Chars(ch + rest) == [ch] + Chars(rest)
  {
    Utf8.CharLenExtends(ch, rest);
    hide Utf8.CharLen;
    assert (ch + rest)[..|ch|] == ch && (ch + rest)[|ch|..] == rest;
  }

  function Shown(ch: bytes): bytes {
    if IsControl(ch) then [0x20] else ch
  }

  /** What the sanitiser trims is the first 256 characters, each control character among them a space and
      every other one itself. */
  lemma {:induction false} CleanByChars(s: bytes, k: nat)
    requires Utf8.Valid(s)
    ensures var now := Chars(Clean(s, k));
            && |now| == (if |Chars(s)| < k then |Chars(s)| else k)
            && forall i :: 0 <= i < |now| ==> now[i] == Shown(Chars(s)[i])
    decreases k
  {
    hide Utf8.CharLen, IsControl;
    if s != [] && k > 0 {
      var n := Utf8.CharLen(s);
      var ch := s[..n];
      CleanByChars(s[n..], k - 1);
      FirstCharAlone(s);
      SpaceIsPlain();
      CharsCons(Shown(ch), Clean(s[n..], k - 1));
    }
  }

  lemma SanitizedChars(err: bytes)
    requires Utf8.Valid(err)
    ensures exists t: bytes ::
              && Sanitize(err) == Utf8.Trim(t)
              && |Chars(t)| == (if |Chars(err)| < 256 then |Chars(err)| else 256)
              && forall i :: 0 <= i < |Chars(t)| ==> Chars(t)[i] == Shown(Chars(err)[i])
  {
    hide Chars, Clean, Utf8.Trim, Utf8.Valid;
    CleanByChars(err, 256);
    assert Sanitize(err) == Utf8.Trim(Clean(err, 256));
  }
}
