/** One client of the outbound HTTP proxy: what its request stream asks for, what it is answered, and
    the handler as it reads and writes, interruptible at every await. */
module HttpConnect {
  import opened Bytes
  import opened Sockets
  import opened BufReaders
  import opened HttpHead
  import opened HttpReply
  import Text
  import Utf8
  import Words
  import Lossy

  const CONNECT: bytes := Ascii("connect")

  /** The reading of a stream: how many bytes the head reader hands out and what comes of them. */
  datatype Request =
    | Closed                                          // nothing was sent
    | TooLong                                         // the head is over the limit
    | OtherMethod(used: nat)
    | BadTarget(used: nat)
    | Connect(used: nat, host: bytes, port: nat)

  function Word(words: seq<bytes>, i: nat): bytes {
    if i < |words| then words[i] else []
  }

  /** The words of the request line. */
  function RequestWords(line: bytes): seq<bytes> {
    Words.Words(Utf8.TrimEnd(Lossy.FromUtf8Lossy(line)))
  }

  ghost function DrainLen(s: bytes): (n: Option<nat>)
    ensures n.Some? ==> Drains(s, n.value)
    ensures n.None? <==> NeverDrains(s)
  {
    if exists k :: Drains(s, k) then
      var k :| Drains(s, k);
      Some(k)
    else None
  }

  ghost function ReadRequest(input: bytes): Request {
    var n := LineSpan(input);
    if n > MAX_HEAD_BYTES then TooLong
    else if n == 0 then Closed
    else Routed(input, n, RequestWords(input[..n]))
  }

  /** What these words on the request line, and the `n` bytes it took, make of the stream. */
  ghost function Routed(input: bytes, n: nat, words: seq<bytes>): Request
    requires n <= |input|
  {
    if Lower(Word(words, 0)) != CONNECT then OtherMethod(n)
    else
      match ParseAuthority(Word(words, 1))
      case None => BadTarget(n)
      case Some((host, port)) =>
        match DrainLen(input[n..])
        case None => TooLong
        case Some(m) => Connect(n + m, host, port)
  }

  datatype Dial = Reached | Failed(err: bytes)

  /** The overlay: down, or a dialer that reaches a destination or says why not. */
  type Overlay = Option<(bytes, nat) -> Dial>

  /** The fixed sentences of the replies. */
  datatype Texts = Texts(notImplemented: bytes, badTarget: bytes, notUp: bytes)

  /** Everything the client is ever sent before the splice. */
  function Answer(r: Request, overlay: Overlay, texts: Texts): bytes {
    match r
    case Closed => []
    case TooLong => []
    case OtherMethod(_) => SimpleStatus(NOT_IMPLEMENTED, texts.notImplemented)
    case BadTarget(_) => SimpleStatus(BAD_REQUEST, texts.badTarget)
    case Connect(_, host, port) =>
      if overlay.None? then ConnectError(texts.notUp)
      else match overlay.value(host, port)
        case Reached => Established()
        case Failed(err) => ConnectError(err)
  }

  predicate Reaches(r: Request, overlay: Overlay) {
    r.Connect? && overlay.Some? && overlay.value(r.host, r.port).Reached?
  }

  // --- a well-formed CONNECT is understood --------------------------------------------------

  /** No blank line ends inside a line put in front, and those behind it are only moved. */
  lemma BlankShift(line: bytes, rest: bytes, j: nat)
    requires line != [] && Text.NEWLINE !in line && j >= 1
    ensures var at := |line| + 2;
            BlankEnds(line + CRLF + rest, at + j) <==> BlankEnds(rest, j)
  {
    var s, at := line + CRLF + rest, |line| + 2;
    assert s[at..] == rest && s[at - 1] == Text.NEWLINE && s[at - 2] == Text.RETURN;
    if j <= |rest| {
      assert s[at + j - 1] == rest[j - 1];
      if j >= 2 { assert s[at + j - 2] == rest[j - 2]; }
      if j >= 3 { assert s[at + j - 3] == rest[j - 3]; }
    }
  }

  lemma NoBlankInLine(line: bytes, rest: bytes)
    requires line != [] && Text.NEWLINE !in line
    ensures NoBlank(line + CRLF + rest, |line| + 2)
  {
    var s := line + CRLF + rest;
    forall j | 0 <= j <= |line| + 2 ensures !BlankEnds(s, j) {
      if j >= 1 && j <= |line| { assert s[j - 1] == line[j - 1]; }
      if j == |line| + 2 {
        assert s[j - 3] == line[|line| - 1];
      }
    }
  }

  /** The first blank line ends at `n`. */
  predicate FirstBlank(s: bytes, n: nat) {
    n >= 1 && BlankEnds(s, n) && NoBlank(s, n - 1)
  }

  lemma BlankAtOnce(rest: bytes)
    ensures FirstBlank(CRLF + rest, 2)
  {
    var s := CRLF + rest;
    assert s[0] == Text.RETURN && s[1] == Text.NEWLINE;
  }

  lemma BlankLater(line: bytes, rest: bytes, n: nat)
    requires line != [] && Text.NEWLINE !in line && FirstBlank(rest, n)
    ensures FirstBlank(line + CRLF + rest, |line| + 2 + n)
  {
    hide BlankEnds;
    var s, at := line + CRLF + rest, |line| + 2;
    NoBlankInLine(line, rest);
    BlankShift(line, rest, n);
    forall j | 0 <= j < at + n ensures !BlankEnds(s, j) {
      if j > at {
        BlankShift(line, rest, j - at);
        assert !BlankEnds(rest, j - at);
      }
    }
  }

  lemma {:induction false} HeadDrains(lines: seq<bytes>, rest: bytes)
    requires forall i :: 0 <= i < |lines| ==> lines[i] != [] && Text.NEWLINE !in lines[i]
    ensures FirstBlank(Head(lines) + rest, |Head(lines)|)
  {
    hide FirstBlank;
    if lines == [] {
      BlankAtOnce(rest);
    } else {
      var more := Head(lines[1..]);
      HeadDrains(lines[1..], rest);
      BlankLater(lines[0], more + rest, |more|);
      Associative(lines[0] + CRLF, more, rest);
    }
  }

  /** A request line: the method in any case, the authority, and the version word. */
  function RequestLine(verb: bytes, host: bytes, port: nat, version: bytes): bytes {
    verb + [Words.SPACE] + Authority(host, port) + [Words.SPACE] + version
  }

  lemma VerbIsWord(verb: bytes)
    requires Lower(verb) == CONNECT
    ensures Words.NoSpace(verb) && verb != [] && Text.NEWLINE !in verb
  {
    var name := CONNECT;
    forall i | 0 <= i < |verb| ensures 0x20 < verb[i] < 0x80 {
      assert Lower(verb)[i] == LowerByte(verb[i]);
      assert 0x61 <= name[i] <= 0x7A;
    }
    Words.GraphicNoSpace(verb);
  }

  /** Three words, a space apart, are what is left of a line once its end is trimmed. */
  lemma ThreeWords(v: bytes, a: bytes, w: bytes)
    requires v != [] && a != [] && w != [] && Words.NoSpace(v) && Words.NoSpace(a) && Words.NoSpace(w)
    ensures Words.Words(v + [Words.SPACE] + a + [Words.SPACE] + w) == [v, a, w]
  {
    hide Words.NoSpace, Words.Words;
    Words.OnlyWord(w);
    Words.FirstWord(a, w);
    Words.FirstWord(v, a + ([Words.SPACE] + w));
    assert v + [Words.SPACE] + a + [Words.SPACE] + w == v + ([Words.SPACE] + (a + ([Words.SPACE] + w)));
  }

  lemma EndIsTrimmed(v: bytes, a: bytes, w: bytes)
    requires w != [] && Words.NoSpace(v) && Words.NoSpace(a) && Words.NoSpace(w)
    ensures var line := v + [Words.SPACE] + a + [Words.SPACE] + w;
            Text.NEWLINE !in line && Utf8.TrimEnd(Lossy.FromUtf8Lossy(line + CRLF)) == line
  {
    hide Words.NoSpace, Utf8.TrimEnd, Utf8.Valid, Lossy.FromUtf8Lossy;
    LineIsText(v, a, w);
    var line := v + [Words.SPACE] + a + [Words.SPACE] + w;
    Lossy.ValidUnchanged(line + CRLF);
    Words.TrimEndDrops(line, CRLF);
    Words.TrimEndKeeps(v + [Words.SPACE] + a + [Words.SPACE], w);
  }

  lemma LineWords(verb: bytes, host: bytes, port: nat, version: bytes)
    requires Lower(verb) == CONNECT && Host(host) && version != [] && Words.NoSpace(version)
    ensures RequestWords(RequestLine(verb, host, port, version) + CRLF) == [verb, Authority(host, port), version]
    ensures Text.NEWLINE !in RequestLine(verb, host, port, version)
  {
    hide Words.NoSpace, Words.Words, Utf8.TrimEnd, Lossy.FromUtf8Lossy, Lower, Host, Authority;
    VerbIsWord(verb);
    AuthorityIsOneWord(host, port);
    EndIsTrimmed(verb, Authority(host, port), version);
    ThreeWords(verb, Authority(host, port), version);
  }

  lemma LineIsText(verb: bytes, a: bytes, version: bytes)
    requires Words.NoSpace(verb) && Words.NoSpace(a) && Words.NoSpace(version)
    ensures var line := verb + [Words.SPACE] + a + [Words.SPACE] + version;
            && Utf8.Valid(verb + [Words.SPACE] + a + [Words.SPACE]) && Utf8.Valid(line) && Utf8.Valid(line + CRLF)
            && Utf8.TrimEnd(CRLF) == [] && Text.NEWLINE !in line
  {
    hide Words.NoSpace, Utf8.Valid;
    Words.NoSpaceValid(verb);
    Words.NoSpaceValid(a);
    Words.NoSpaceValid(version);
    Utf8.AsciiValid([Words.SPACE]);
    Utf8.AsciiValid(CRLF);
    Utf8.ValidConcat(verb, [Words.SPACE]);
    Utf8.ValidConcat(verb + [Words.SPACE], a);
    Utf8.ValidConcat(verb + [Words.SPACE] + a, [Words.SPACE]);
    Utf8.ValidConcat(verb + [Words.SPACE] + a + [Words.SPACE], version);
    Utf8.ValidConcat(verb + [Words.SPACE] + a + [Words.SPACE] + version, CRLF);
    Words.NoSpaceNoNewline(verb);
    Words.NoSpaceNoNewline(a);
    Words.NoSpaceNoNewline(version);
    CrlfIsSpace();
  }

  lemma CrlfIsSpace()
    ensures Utf8.TrimEnd(CRLF) == []
  {
    assert CRLF[1..] == [Text.NEWLINE] && [Text.NEWLINE][1..] == [];
    assert Utf8.TrimEnd([Text.NEWLINE]) == [];
  }

  /** A CONNECT a client may send: the method in any case, a host and port, a version, and headers that are
      lines of any content, within the limits. */
  predicate Sendable(verb: bytes, host: bytes, port: nat, version: bytes, headers: seq<bytes>) {
    && Lower(verb) == [0x63, 0x6F, 0x6E, 0x6E, 0x65, 0x63, 0x74] && Host(host) && 0 < port <= 0xFFFF
    && version != [] && Words.NoSpace(version)
    && (forall i :: 0 <= i < |headers| ==> headers[i] != [] && Text.NEWLINE !in headers[i])
    && |RequestLine(verb, host, port, version)| + 2 <= MAX_HEAD_BYTES && |Head(headers)| <= MAX_HEAD_BYTES
  }

  /** Such a client is understood: the head reader hands out its whole head and not one byte of what
      follows. */
  lemma ConnectReads(verb: bytes, host: bytes, port: nat, version: bytes, headers: seq<bytes>, rest: bytes)
    requires Sendable(verb, host, port, version, headers)
    ensures var sent := Head([RequestLine(verb, host, port, version)] + headers);
            ReadRequest(sent + rest) == Connect(|sent|, host, port)
  {
    hide RequestLine, Host, Words.NoSpace, ParseAuthority, RequestWords, Lower, LineSpan, Drains, BlankEnds, FirstBlank;
    var line := RequestLine(verb, host, port, version);
    LineWords(verb, host, port, version);
    AuthorityReadsBack(host, port);
    var lines := [line] + headers;
    assert lines[1..] == headers;
    var after := Head(headers) + rest;
    var input := line + CRLF + after;
    assert Head(lines) + rest == input && |Head(lines)| == |line| + 2 + |Head(headers)|;
    SpanOfLine(line, after);
    assert input[..|line| + 2] == line + CRLF && input[|line| + 2..] == after;
    HeadDrains(headers, rest);
    FirstBlankIs(after, |Head(headers)|);
    BlankDrains(after, |Head(headers)|);
    DrainLenIs(after, |Head(headers)|);
  }

  lemma FirstBlankIs(s: bytes, n: nat)
    requires FirstBlank(s, n)
    ensures n >= 1 && BlankEnds(s, n) && NoBlank(s, n - 1)
  {
  }

  lemma DrainLenIs(s: bytes, n: nat)
    requires Drains(s, n)
    ensures DrainLen(s) == Some(n)
  {
    DrainsOnce(s, DrainLen(s).value, n);
  }

  lemma SpanOfLine(line: bytes, rest: bytes)
    requires Text.NEWLINE !in line
    ensures LineSpan(line + CRLF + rest) == |line| + 2
  {
    var s := line + CRLF + rest;
    forall k | 0 <= k < |line| + 1 ensures s[k] != Text.NEWLINE {
      if k < |line| { assert s[k] == line[k]; }
    }
    Text.IndexOfIs(s, Text.NEWLINE, |line| + 1);
  }

  lemma ConnectText()
    ensures CONNECT == [0x63, 0x6F, 0x6E, 0x6E, 0x65, 0x63, 0x74]
  {
  }

  /** What a request line of three words decides, with the stream behind it: any method but CONNECT, in any
      case, is another method; a target that is no authority is a bad one; otherwise the head decides. */
  lemma LineDecides(verb: bytes, target: bytes, version: bytes, rest: bytes)
    requires verb != [] && target != [] && version != []
    requires Words.NoSpace(verb) && Words.NoSpace(target) && Words.NoSpace(version)
    requires |verb| + |target| + |version| + 4 <= 65536
    ensures var line := verb + [Words.SPACE] + target + [Words.SPACE] + version;
            var r := ReadRequest(line + CRLF + rest);
            && (Lower(verb) != [0x63, 0x6F, 0x6E, 0x6E, 0x65, 0x63, 0x74] ==> r == OtherMethod(|line| + 2))
            && (Lower(verb) == [0x63, 0x6F, 0x6E, 0x6E, 0x65, 0x63, 0x74] ==>
                  && (ParseAuthority(target) == None ==> r == BadTarget(|line| + 2))
                  && (ParseAuthority(target).Some? && NeverDrains(rest) ==> r == TooLong)
                  && forall n: nat :: ParseAuthority(target).Some? && Drains(rest, n) ==>
                       r == Connect(|line| + 2 + n, ParseAuthority(target).value.0, ParseAuthority(target).value.1))
  {
    hide Words.NoSpace, Lower, Routed, ReadRequest, Drains, NeverDrains, ParseAuthority;
    WordsAreRead(verb, target, version, rest);
    var line := verb + [Words.SPACE] + target + [Words.SPACE] + version;
    assert (line + CRLF + rest)[|line| + 2..] == rest;
    RoutedBy(line + CRLF + rest, |line| + 2, [verb, target, version]);
  }

  lemma WordsAreRead(verb: bytes, target: bytes, version: bytes, rest: bytes)
    requires verb != [] && target != [] && version != []
    requires Words.NoSpace(verb) && Words.NoSpace(target) && Words.NoSpace(version)
    requires |verb| + |target| + |version| + 4 <= 65536
    ensures var line := verb + [Words.SPACE] + target + [Words.SPACE] + version;
            ReadRequest(line + CRLF + rest) == Routed(line + CRLF + rest, |line| + 2, [verb, target, version])
  {
    hide Words.NoSpace, Words.Words, Routed, LineSpan, Utf8.TrimEnd, Lossy.FromUtf8Lossy;
    var line := verb + [Words.SPACE] + target + [Words.SPACE] + version;
    EndIsTrimmed(verb, target, version);
    ThreeWords(verb, target, version);
    SpanOfLine(line, rest);
    assert (line + CRLF + rest)[..|line| + 2] == line + CRLF;
  }

  lemma RoutedBy(input: bytes, at: nat, words: seq<bytes>)
    requires at <= |input| && |words| == 3
    ensures var r, rest := Routed(input, at, words), input[at..];
            && (Lower(words[0]) != [0x63, 0x6F, 0x6E, 0x6E, 0x65, 0x63, 0x74] ==> r == OtherMethod(at))
            && (Lower(words[0]) == [0x63, 0x6F, 0x6E, 0x6E, 0x65, 0x63, 0x74] ==>
                  && (ParseAuthority(words[1]) == None ==> r == BadTarget(at))
                  && (ParseAuthority(words[1]).Some? && NeverDrains(rest) ==> r == TooLong)
                  && forall n: nat :: ParseAuthority(words[1]).Some? && Drains(rest, n) ==>
                       r == Connect(at + n, ParseAuthority(words[1]).value.0, ParseAuthority(words[1]).value.1))
  {
    hide Lower, ParseAuthority, Drains;
    ConnectText();
    forall n: nat | Drains(input[at..], n) ensures DrainLen(input[at..]) == Some(n) { DrainLenIs(input[at..], n); }
  }

  /** And what no line, or one over the limit, decides. */
  lemma NoLineDecides(input: bytes)
    ensures ReadRequest([]) == Closed
    ensures |input| > 65536 && Text.NEWLINE !in input[..65536] ==> ReadRequest(input) == TooLong
  {
    if |input| > 65536 && Text.NEWLINE !in input[..65536] {
      forall k | 0 <= k < 65536 ensures input[k] != Text.NEWLINE { assert input[k] == input[..65536][k]; }
    }
  }

  // --- the read-ahead -----------------------------------------------------------------------

  /** The tunnel starts where the socket stands. It carries exactly what the client sent behind its head,
      however that arrived, if and only if the client sent none of it before it was answered. */
  lemma TunnelCompleteExactly(head: bytes, rest: bytes, early: nat)
    requires head != [] && |head| <= early <= |head + rest|
    ensures (forall segments: nat -> nat, taken: nat ::
               TakenFor(segments, early, |head|, taken) ==> (head + rest)[taken..] == rest)
            <==> early == |head|
  {
    var input := head + rest;
    assert input[|head|..] == rest;
    forall segments: nat -> nat, taken: nat | TakenFor(segments, early, |head|, taken)
      ensures input[taken..] == rest <==> taken == |head|
    {
      TakenRange(segments, early, |head|, taken);
    }
    NothingExtraExactly(early, |head|);
  }

  /** So a client that waits for the answer before it sends anything behind its CONNECT loses nothing. */
  lemma WaitingClientLosesNothing(verb: bytes, host: bytes, port: nat, version: bytes, headers: seq<bytes>, rest: bytes,
                                  segments: nat -> nat, pos: nat)
    requires Sendable(verb, host, port, version, headers)
    requires var sent := Head([RequestLine(verb, host, port, version)] + headers);
             Stands(ReadRequest(sent + rest), segments, |sent|, pos)
    ensures var sent := Head([RequestLine(verb, host, port, version)] + headers);
            pos == |sent| && (sent + rest)[pos..] == rest
  {
    hide Head, RequestLine, ReadRequest, Sendable, TakenFor;
    var sent := Head([RequestLine(verb, host, port, version)] + headers);
    ConnectReads(verb, host, port, version, headers, rest);
    TakenRange(segments, |sent|, |sent|, pos);
    assert (sent + rest)[|sent|..] == rest;
  }

  /** What comes in one segment with the head is taken off the socket with it, and the tunnel has none. */
  lemma SameSegmentIsLost(head: bytes, rest: bytes)
    requires head != [] && |head + rest| <= CAPACITY
    ensures var all := |head + rest|;
            TakenFor(_ => CAPACITY, all, |head|, all) && (head + rest)[all..] == []
  {
    OneSegment(_ => CAPACITY, |head + rest|, |head|);
  }

  // --- the handler --------------------------------------------------------------------------

  /** `handle_request_head`, with `handle_connect`, for a client that sends `early` bytes before it hears
      anything, in these segments. What was sent is always a prefix of the one answer the stream has; the
      tunnel is reached only with the whole success line sent after a successful dial; with no interruption
      the run ends exactly as the reading of the stream says; and the socket then stands behind the fill
      that brought the end of the head, so the tunnel misses whatever else that fill brought. */
  method HandleRequestHead(c: Socket, early: nat, segments: nat -> nat, overlay: Overlay, texts: Texts)
    returns (tunnel: Option<(bytes, nat)>, dialled: bool)
    requires !c.interrupted && c.pos == 0 && c.out == []
    modifies c`pos, c`out, c`awaits, c`interrupted
    ensures c.pos <= |c.input|
    ensures c.out <= Answer(ReadRequest(c.input), overlay, texts)
    ensures tunnel.Some? ==>
              && !c.interrupted && dialled && c.out == Established() && Reaches(ReadRequest(c.input), overlay)
              && var r := ReadRequest(c.input); r.host == tunnel.value.0 && r.port == tunnel.value.1
    ensures !c.interrupted ==>
              && c.out == Answer(ReadRequest(c.input), overlay, texts)
              && (tunnel.Some? <==> Reaches(ReadRequest(c.input), overlay))
              && Stands(ReadRequest(c.input), segments, Least(early, |c.input|), c.pos)
    ensures dialled ==> Reaches(ReadRequest(c.input), overlay)
    ensures !dialled ==> c.out == [] || !Reaches(ReadRequest(c.input), overlay)
  {
    hide LineSpan, Routed, RequestWords, Answer, TakenFor, BufReader.FitsAt;
    tunnel, dialled := None, false;
    assert c.input[0..] == c.input;
    var reader := new BufReader(c, early, segments);
    reader.NewIsValid();
    NothingToAnswer(overlay, texts);
    var line := ReadLineCapped(reader, MAX_HEAD_BYTES);
    if line.None? || line.value == [] {
      return;
    }
    tunnel, dialled := Route(c, reader, RequestWords(line.value), overlay, texts);
  }

  lemma NothingToAnswer(overlay: Overlay, texts: Texts)
    ensures Answer(Closed, overlay, texts) == Answer(TooLong, overlay, texts) == []
  {
  }

  /** The request line is read: the dispatch on the method, and the first half of `handle_connect`. */
  method Route(c: Socket, reader: BufReader, words: seq<bytes>, overlay: Overlay, texts: Texts)
    returns (tunnel: Option<(bytes, nat)>, dialled: bool)
    requires reader.socket == c && !c.interrupted && c.out == [] && reader.Valid() && reader.pos <= |c.input|
    modifies reader`pos, reader`fills, c`pos, c`out, c`awaits, c`interrupted
    ensures c.pos <= |c.input|
    ensures var r := Routed(c.input, old(reader.pos), words);
            && c.out <= Answer(r, overlay, texts)
            && (tunnel.Some? ==>
                  && !c.interrupted && dialled && c.out == Established() && Reaches(r, overlay)
                  && r.host == tunnel.value.0 && r.port == tunnel.value.1)
            && (!c.interrupted ==>
                  && c.out == Answer(r, overlay, texts) && (tunnel.Some? <==> Reaches(r, overlay))
                  && Stands(r, reader.segments, Least(reader.early, |c.input|), c.pos))
            && (dialled ==> Reaches(r, overlay))
            && (!dialled ==> c.out == [] || !Reaches(r, overlay))
  {
    hide Drains, NeverDrains, Lower, ParseAuthority, ConnectError, SimpleStatus, Established, TakenFor, BufReader.FitsAt;
    tunnel, dialled := None, false;
    reader.ValidIsTaken();
    if Lower(Word(words, 0)) != CONNECT {
      var _ := c.WriteFrame(SimpleStatus(NOT_IMPLEMENTED, texts.notImplemented));
      return;
    }
    var target := ParseAuthority(Word(words, 1));
    if target.None? {
      var _ := c.WriteFrame(SimpleStatus(BAD_REQUEST, texts.badTarget));
      return;
    }
    ghost var at := reader.pos;
    var ok := DrainHeaders(reader);
    if !ok {
      return;
    }
    DrainLenIs(c.input[at..], reader.pos - at);
    reader.ValidIsTaken();
    tunnel, dialled := DialAndReply(c, target.value.0, target.value.1, overlay, texts);
  }

  /** Where the socket stands when the reader over it is given up. */
  ghost predicate Stands(r: Request, segments: nat -> nat, early: nat, pos: nat) {
    r.Closed? || r.TooLong? || TakenFor(segments, early, r.used, pos)
  }

  /** The rest of `handle_connect`, once the head is read. */
  method DialAndReply(c: Socket, host: bytes, port: nat, overlay: Overlay, texts: Texts)
    returns (tunnel: Option<(bytes, nat)>, dialled: bool)
    requires !c.interrupted && c.out == []
    modifies c`out, c`awaits, c`interrupted
    ensures c.out <= Answer(Connect(0, host, port), overlay, texts)
    ensures tunnel.Some? ==> tunnel == Some((host, port)) && dialled && !c.interrupted
    ensures dialled ==> Reaches(Connect(0, host, port), overlay)
    ensures !dialled ==> c.out == [] || !Reaches(Connect(0, host, port), overlay)
    ensures !c.interrupted ==> c.out == Answer(Connect(0, host, port), overlay, texts)
    ensures !c.interrupted ==> (tunnel.Some? <==> Reaches(Connect(0, host, port), overlay))
    ensures tunnel.Some? ==> c.out == Established()
  {
    hide ConnectError, Established;
    tunnel, dialled := None, false;
    var ok := c.Pause();
    if !ok {
      return;
    }
    if overlay.None? {
      var _ := c.WriteFrame(ConnectError(texts.notUp));
      return;
    }
    ok := c.Pause();
    if !ok {
      return;
    }
    match overlay.value(host, port)
    case Reached =>
      dialled := true;
      ok := c.WriteFrame(Established());
      if ok {
        tunnel := Some((host, port));
      }
    case Failed(err) =>
      var _ := c.WriteFrame(ConnectError(err));
  }

  /** A request line of no word is another method, and one of CONNECT alone has a bad target. */
  lemma FewWords(input: bytes, at: nat, words: seq<bytes>)
    requires at <= |input|
    ensures words == [] ==> Routed(input, at, words) == OtherMethod(at)
    ensures |words| == 1 && Lower(words[0]) == [0x63, 0x6F, 0x6E, 0x6E, 0x65, 0x63, 0x74] ==> Routed(input, at, words) == BadTarget(at)
  {
    hide Drains, NeverDrains;
    ConnectText();
    NoAuthority();
  }

  lemma NoAuthority()
    ensures ParseAuthority([]) == None
  {
  }
}
