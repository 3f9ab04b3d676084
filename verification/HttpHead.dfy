/** The request head of the outbound HTTP proxy: the CONNECT authority, the bounded header drain, the
    error header, and what a request stream is answered (section 9.3.6 of RFC 9110). */
module HttpHead {
  import opened Bytes
  import opened Decimal
  import opened Sockets
  import opened BufReaders
  import opened Text
  import Utf8
  import Words
  import Lossy
  import opened HttpReply

  const MAX_HEAD_BYTES: nat := 65536
  const COLON: byte := 0x3A
  const OPEN: byte := 0x5B
  const CLOSE: byte := 0x5D
  const BARE: bytes := [NEWLINE]

  // --- the authority ------------------------------------------------------------------------

  function HostPort(host: bytes, port: bytes): Option<(bytes, nat)> {
    match ParseUnsigned(port, 0xFFFF)
    case None => None
    case Some(p) => if host == [] || p == 0 then None else Some((host, p))
  }

  /** `parse_authority`. */
  function ParseAuthority(target: bytes): Option<(bytes, nat)> {
    var t := Utf8.Trim(target);
    if t != [] && t[0] == OPEN then
      match SplitOnce(t[1..], CLOSE)
      case None => None
      case Some((host, after)) => if after == [] || after[0] != COLON then None else HostPort(host, after[1..])
    else
      match RSplitOnce(t, COLON)
      case None => None
      case Some((host, port)) => HostPort(host, port)
  }

  /** `host:port` or `[host]:port`; only a host without brackets may hold further colons. */
  predicate Spells(t: bytes, host: bytes, port: bytes)
    requires host != []
  {
    || (CLOSE !in host && t == [OPEN] + host + [CLOSE, COLON] + port)
    || (host[0] != OPEN && t == host + [COLON] + port)
  }

  lemma PortHasNoColon(port: bytes)
    requires ParseUnsigned(port, 0xFFFF).Some?
    ensures COLON !in port
  {
    var d := if port != [] && port[0] == 0x2B then port[1..] else port;
    forall i | 0 <= i < |port| ensures port[i] != COLON {
      if d != port && i > 0 { assert port[i] == d[i - 1]; }
    }
  }

  lemma SpelledIsParsed(target: bytes, host: bytes, port: bytes, n: nat)
    requires host != [] && n != 0 && ParseUnsigned(port, 0xFFFF) == Some(n)
    requires Spells(Utf8.Trim(target), host, port)
    ensures ParseAuthority(target) == Some((host, n))
  {
    hide ParseUnsigned, Utf8.Trim, SplitOnce, RSplitOnce;
    var t := Utf8.Trim(target);
    PortHasNoColon(port);
    if CLOSE !in host && t == [OPEN] + host + [CLOSE, COLON] + port {
      assert t[1..] == host + [CLOSE] + ([COLON] + port);
      SplitOnceOf(host, CLOSE, [COLON] + port);
      assert ([COLON] + port)[1..] == port;
    } else {
      RSplitOnceOf(host, COLON, port);
    }
  }

  lemma ParsedIsSpelled(target: bytes)
    requires ParseAuthority(target).Some?
    ensures var (host, n) := ParseAuthority(target).value;
            && host != [] && 0 < n <= 0xFFFF
            && exists port :: ParseUnsigned(port, 0xFFFF) == Some(n) && Spells(Utf8.Trim(target), host, port)
  {
    hide ParseUnsigned, Utf8.Trim;
    var t := Utf8.Trim(target);
    var (host, n) := ParseAuthority(target).value;
    if t != [] && t[0] == OPEN {
      var (h, after) := SplitOnce(t[1..], CLOSE).value;
      var port := after[1..];
      assert t[1..] == h + [CLOSE] + after && after == [COLON] + port;
      assert t == [OPEN] + h + [CLOSE, COLON] + port;
      assert Spells(t, host, port);
    } else {
      var (h, port) := RSplitOnce(t, COLON).value;
      assert t == h + [COLON] + port;
      assert h[0] == t[0];
      assert Spells(t, host, port);
    }
  }

  /** Exactly the two spellings, around a host that is not empty and a port from 1 to 65535. */
  lemma AuthorityExactly(target: bytes, host: bytes, n: nat)
    ensures ParseAuthority(target) == Some((host, n)) <==>
            && host != [] && n != 0
            && exists port :: ParseUnsigned(port, 0xFFFF) == Some(n) && Spells(Utf8.Trim(target), host, port)
  {
    hide ParseUnsigned, Utf8.Trim, ParseAuthority, Spells;
    if ParseAuthority(target) == Some((host, n)) {
      ParsedIsSpelled(target);
    }
    if host != [] && n != 0 {
      forall port | ParseUnsigned(port, 0xFFFF) == Some(n) && Spells(Utf8.Trim(target), host, port)
        ensures ParseAuthority(target) == Some((host, n))
      {
        SpelledIsParsed(target, host, port, n);
      }
    }
  }

  /** The host outside brackets is not free of colons, as the code has it in passing: for an accepted target
      that does not open with a bracket it is so exactly when the target has just the one before the port. */
  lemma BareHostHasColonExactly(target: bytes)
    requires ParseAuthority(target).Some? && !([OPEN] <= Utf8.Trim(target))
    ensures COLON in ParseAuthority(target).value.0 <==> multiset(Utf8.Trim(target))[COLON] > 1
  {
    hide ParseUnsigned, Utf8.Trim, ParseAuthority;
    var t := Utf8.Trim(target);
    var (host, n) := ParseAuthority(target).value;
    ParsedIsSpelled(target);
    var port :| ParseUnsigned(port, 0xFFFF) == Some(n) && Spells(t, host, port);
    PortHasNoColon(port);
    assert [OPEN] <= [OPEN] + host + [CLOSE, COLON] + port;
    assert multiset(t) == multiset(host) + multiset([COLON]) + multiset(port);
  }

  /** `a:b:80` is accepted, with the host `a:b`. */
  lemma BareHostWithColon()
    ensures ParseAuthority([0x61, COLON, 0x62, COLON, 0x38, 0x30]) == Some(([0x61, COLON, 0x62], 80))
  {
    hide Utf8.Trim, ParseUnsigned, SplitOnce, RSplitOnce, ParseAuthority;
    var target: bytes, host: bytes, port: bytes := [0x61, COLON, 0x62, COLON, 0x38, 0x30], [0x61, COLON, 0x62], [0x38, 0x30];
    Words.GraphicNoSpace(target);
    Words.TrimOfWord(target);
    EightyReads();
    assert target == host + [COLON] + port;
    SpelledIsParsed(target, host, port, 80);
  }

  lemma EightyReads()
    ensures ParseUnsigned([0x38, 0x30], 0xFFFF) == Some(80)
  {
    var d := [0x38, 0x30];
    assert d[..1] == [0x38] && [0x38][..0] == [];
    assert Value([0x38]) == 8;
  }

  /** A host a target can name: one word, and no bracket where it would be read as one. */
  predicate Host(host: bytes) {
    host != [] && Words.NoSpace(host) && if COLON in host then CLOSE !in host else host[0] != OPEN
  }

  function Authority(host: bytes, port: nat): bytes {
    if COLON in host then [OPEN] + host + [CLOSE, COLON] + Digits(port) else host + [COLON] + Digits(port)
  }

  lemma AuthorityIsOneWord(host: bytes, port: nat)
    requires Host(host)
    ensures Words.NoSpace(Authority(host, port)) && |Authority(host, port)| > 0
  {
    hide Words.NoSpace;
    var d := Digits(port);
    if COLON in host {
      Words.GraphicNoSpace([OPEN]);
      Words.GraphicNoSpace([CLOSE, COLON]);
      Words.GraphicNoSpace(d);
      Words.NoSpaceConcat([OPEN], host);
      Words.NoSpaceConcat([OPEN] + host, [CLOSE, COLON]);
      Words.NoSpaceConcat([OPEN] + host + [CLOSE, COLON], d);
    } else {
      Words.GraphicNoSpace([COLON]);
      Words.GraphicNoSpace(d);
      Words.NoSpaceConcat(host, [COLON]);
      Words.NoSpaceConcat(host + [COLON], d);
    }
  }

  lemma AuthorityReadsBack(host: bytes, port: nat)
    requires Host(host) && 0 < port <= 0xFFFF
    ensures ParseAuthority(Authority(host, port)) == Some((host, port))
  {
    hide Words.NoSpace, Utf8.Trim, ParseUnsigned, ParseAuthority;
    AuthorityIsOneWord(host, port);
    Words.TrimOfWord(Authority(host, port));
    ParseOfDigits(port, 0xFFFF);
    SpelledIsParsed(Authority(host, port), host, Digits(port), port);
  }

  // --- the header drain ---------------------------------------------------------------------

  /** A blank line, bare or with a carriage return, ends at `j`. */
  predicate BlankEnds(s: bytes, j: nat) {
    && 1 <= j <= |s| && s[j - 1] == NEWLINE
    && (j == 1 || s[j - 2] == NEWLINE || (s[j - 2] == RETURN && (j == 2 || s[j - 3] == NEWLINE)))
  }

  /** No blank line ends at or before `n`. */
  predicate NoBlank(s: bytes, n: nat) {
    forall j :: 0 <= j <= n ==> !BlankEnds(s, j)
  }

  /** What draining takes from a stream: through the first blank line, or to the end of the stream. */
  predicate Drains(s: bytes, n: nat) {
    || (n <= 65536 && BlankEnds(s, n) && n > 0 && NoBlank(s, n - 1))
    || (n == |s| < 65536 && NoBlank(s, |s|))
  }

  ghost predicate NeverDrains(s: bytes) {
    forall n :: !Drains(s, n)
  }

  lemma DrainsOnce(s: bytes, m: nat, n: nat)
    requires Drains(s, m) && Drains(s, n)
    ensures m == n
  {
  }

  predicate IsBlank(line: bytes) {
    line == CRLF || line == BARE
  }

  predicate LineStart(s: bytes, at: nat) {
    at == 0 || (at <= |s| && s[at - 1] == NEWLINE)
  }

  /** The next line is blank exactly when a blank line ends with it, and none ends inside it. */
  lemma LineStep(s: bytes, at: nat, n: nat)
    requires at <= |s| && LineStart(s, at) && 0 < n <= LineSpan(s[at..])
    ensures forall j :: at < j < at + n ==> !BlankEnds(s, j)
    ensures n == LineSpan(s[at..]) ==> (IsBlank(s[at..at + n]) <==> BlankEnds(s, at + n))
    ensures n < LineSpan(s[at..]) ==> !BlankEnds(s, at + n)
    ensures n == LineSpan(s[at..]) && at + n < |s| ==> LineStart(s, at + n)
  {
    hide LineSpan;
    var t := s[at..];
    forall j | at <= j < at + LineSpan(t) - 1 ensures s[j] != NEWLINE {
      assert t[j - at] != NEWLINE;
    }
    if n == LineSpan(t) {
      if at + n < |s| { assert t[n - 1] == NEWLINE; }
      BlankIsLine(s, at, n);
    }
  }

  lemma BlankIsLine(s: bytes, at: nat, n: nat)
    requires 0 < n && at + n <= |s| && LineStart(s, at)
    requires forall j :: at <= j < at + n - 1 ==> s[j] != NEWLINE
    ensures IsBlank(s[at..at + n]) <==> BlankEnds(s, at + n)
  {
    var line := s[at..at + n];
    assert line[n - 1] == s[at + n - 1];
    assert line == BARE <==> n == 1 && s[at] == NEWLINE;
    if n == 2 { assert line == [s[at], s[at + 1]]; }
    if n >= 2 { assert s[at + n - 2] != NEWLINE; }
    if n >= 3 { assert s[at + n - 3] != NEWLINE; }
    assert line == CRLF <==> n == 2 && s[at] == RETURN && s[at + 1] == NEWLINE;
  }

  lemma DrainStarts(s: bytes)
    ensures NoBlank(s, 0) && LineStart(s, 0)
  {
  }

  lemma DrainEnds(s: bytes, n: nat)
    requires n == |s| < MAX_HEAD_BYTES && NoBlank(s, n)
    ensures Drains(s, n)
  {
  }

  lemma BlankDrains(s: bytes, n: nat)
    requires 0 < n <= MAX_HEAD_BYTES && BlankEnds(s, n) && NoBlank(s, n - 1)
    ensures Drains(s, n)
  {
  }

  lemma TooLong(s: bytes, n: nat)
    requires MAX_HEAD_BYTES <= n <= |s| && NoBlank(s, n)
    ensures NeverDrains(s)
  {
    hide BlankEnds;
  }

  lemma Overrun(s: bytes, total: nat)
    requires total <= |s| && LineStart(s, total) && NoBlank(s, total)
    requires total < MAX_HEAD_BYTES < total + LineSpan(s[total..])
    ensures NeverDrains(s)
  {
    hide BlankEnds, LineSpan;
    LineStep(s, total, MAX_HEAD_BYTES - total);
    TooLong(s, MAX_HEAD_BYTES);
  }

  lemma LossyBlank(line: bytes)
    ensures IsBlank(Lossy.FromUtf8Lossy(line)) <==> IsBlank(line)
  {
    hide Lossy.FromUtf8Lossy;
    if IsBlank(line) {
      Utf8.AsciiValid(line);
      Lossy.ValidUnchanged(line);
    }
    if IsBlank(Lossy.FromUtf8Lossy(line)) {
      Lossy.AsciiOnlyFromItself(line);
    }
  }

  lemma Within(input: bytes, start: nat, total: nat, n: nat)
    requires start + total + n <= |input|
    ensures var s := input[start..];
            s[total..] == input[start + total..] && s[total..total + n] == input[start + total..start + total + n]
  {
  }

  /** `drain_headers`. */
  method DrainHeaders(reader: BufReader) returns (ok: bool)
    requires !reader.socket.interrupted && reader.Valid() && reader.pos <= |reader.socket.input|
    modifies reader`pos, reader`fills, reader.socket`pos, reader.socket`awaits, reader.socket`interrupted
    ensures old(reader.pos) <= reader.pos <= |reader.socket.input|
    ensures reader.pos <= old(reader.pos) + MAX_HEAD_BYTES + 1 && reader.socket.pos <= |reader.socket.input|
    ensures reader.socket.interrupted ==> !ok
    ensures !reader.socket.interrupted ==> reader.Valid()
    ensures ok ==> Drains(reader.socket.input[old(reader.pos)..], reader.pos - old(reader.pos))
    ensures !ok && !reader.socket.interrupted ==> NeverDrains(reader.socket.input[old(reader.pos)..])
  {
    hide LineSpan, BlankEnds, LineStart, IsBlank, Lossy.FromUtf8Lossy, Drains, NeverDrains, NoBlank, BufReader.FitsAt;
    ghost var s := reader.socket.input[reader.pos..];
    ghost var start := reader.pos;
    var total := 0;
    reader.ValidIsTaken();
    DrainStarts(s);
    while true
      invariant !reader.socket.interrupted && reader.Valid() && reader.socket.pos <= |reader.socket.input|
      invariant start == old(reader.pos) && reader.pos == start + total <= |reader.socket.input|
      invariant total < MAX_HEAD_BYTES && NoBlank(s, total)
      invariant LineStart(s, total) || total == |s|
      decreases MAX_HEAD_BYTES - total
    {
      Within(reader.socket.input, start, total, 0);
      var line := ReadLineCapped(reader, MAX_HEAD_BYTES - total);
      if line.None? {
        if !reader.socket.interrupted { Overrun(s, total); }
        return false;
      }
      var n := |line.value|;
      if n == 0 {
        DrainEnds(s, total);
        return true;
      }
      var text := Lossy.FromUtf8Lossy(line.value);
      LossyBlank(line.value);
      Within(reader.socket.input, start, total, n);
      NextLine(s, total, n);
      total := total + n;
      if IsBlank(text) {
        return true;
      }
      if total >= MAX_HEAD_BYTES {
        TooLong(s, total);
        return false;
      }
    }
  }

  /** One pass of the drain: a blank line ends it, any other leaves the next one to look at. */
  lemma NextLine(s: bytes, total: nat, n: nat)
    requires total <= |s| && LineStart(s, total) && NoBlank(s, total)
    requires 0 < n == LineSpan(s[total..]) && total + n <= MAX_HEAD_BYTES
    ensures IsBlank(s[total..total + n]) ==> Drains(s, total + n)
    ensures !IsBlank(s[total..total + n]) ==> NoBlank(s, total + n)
    ensures LineStart(s, total + n) || total + n == |s|
  {
    hide LineSpan, BlankEnds, LineStart;
    LineStep(s, total, n);
    if IsBlank(s[total..total + n]) { BlankDrains(s, total + n); }
  }

  /** `read_line_capped`. */
  method ReadLineCapped(reader: BufReader, cap: nat) returns (r: Option<bytes>)
    requires !reader.socket.interrupted && reader.Valid() && reader.pos <= |reader.socket.input|
    modifies reader`pos, reader`fills, reader.socket`pos, reader.socket`awaits, reader.socket`interrupted
    ensures old(reader.pos) <= reader.pos <= |reader.socket.input| && reader.pos <= old(reader.pos) + cap + 1
    ensures reader.pos <= reader.socket.pos <= |reader.socket.input|
    ensures !reader.socket.interrupted ==> reader.Valid()
    ensures r.Some? <==> !reader.socket.interrupted && LineSpan(reader.socket.input[old(reader.pos)..]) <= cap
    ensures r.Some? ==> |r.value| == LineSpan(reader.socket.input[old(reader.pos)..])
                        && reader.pos == old(reader.pos) + |r.value|
                        && r.value == reader.socket.input[old(reader.pos)..reader.pos]
  {
    hide LineSpan, BufReader.FitsAt;
    var raw := reader.ReadUntil(cap + 1);
    if raw.None? || |raw.value| > cap {
      return None;
    }
    return raw;
  }
}
