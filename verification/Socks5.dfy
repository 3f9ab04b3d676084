/** The SOCKS5 server side of one connection (RFC 1928, sections 3, 4 and 6): what a byte stream asks
    for, what is answered, and the handler as it reads and writes, interruptible at every await. */
module Socks5 {
  import opened Bytes
  import Utf8
  import opened Sockets

  const VERSION: byte := 0x05
  const NO_AUTH: byte := 0x00
  const NO_ACCEPTABLE: byte := 0xFF
  const CMD_CONNECT: byte := 0x01
  const ATYP_IPV4: byte := 0x01
  const ATYP_NAME: byte := 0x03
  const ATYP_IPV6: byte := 0x04

  const SUCCEEDED: byte := 0x00
  const GENERAL_FAILURE: byte := 0x01
  const HOST_UNREACHABLE: byte := 0x04
  const COMMAND_NOT_SUPPORTED: byte := 0x07
  const ADDRESS_TYPE_NOT_SUPPORTED: byte := 0x08

  /** Where to connect to: the address octets, or the name. */
  datatype Dest = Ipv4(octets: bytes) | Ipv6(octets: bytes) | Name(text: bytes)

  predicate ValidDest(d: Dest) {
    match d
    case Ipv4(o) => |o| == 4
    case Ipv6(o) => |o| == 16
    case Name(t) => |t| <= 255 && Utf8.Valid(t)
  }

  // --- the wire form ------------------------------------------------------------------------

  function EncodeGreeting(methods: bytes): bytes
    requires |methods| <= 255
  {
    [VERSION, |methods|] + methods
  }

  function EncodeDest(d: Dest): bytes
    requires ValidDest(d)
  {
    match d
    case Ipv4(o) => [ATYP_IPV4] + o
    case Ipv6(o) => [ATYP_IPV6] + o
    case Name(t) => [ATYP_NAME, |t|] + t
  }

  function EncodeRequest(reserved: byte, d: Dest, port: nat): bytes
    requires ValidDest(d) && port < 0x10000
  {
    [VERSION, CMD_CONNECT, reserved] + EncodeDest(d) + [port / 256, port % 256]
  }

  /** `send_reply`: ten bytes with a zero bound address. */
  function Reply(code: byte): bytes {
    [VERSION, code, 0x00, ATYP_IPV4, 0, 0, 0, 0, 0, 0]
  }

  // --- what a byte stream asks for ----------------------------------------------------------

  /** The reading of a whole stream: how many bytes are consumed and what comes of them. */
  datatype Reading =
    | Silent(used: nat)                             // no greeting of this version
    | NoMethod(used: nat)                           // no-auth is not offered
    | Dropped(used: nat)                            // greeted, then no readable request
    | Refused(used: nat, code: byte)                // a request this server does not do
    | Connect(used: nat, dest: Dest, port: nat)

  /** The address after the request header: cut short, not a name, of a type that is not supported,
      or read up to `end`. */
  datatype AddressReading = Short | NotUtf8(end: nat) | Unsupported | Address(end: nat, dest: Dest)

  function ReadAddress(input: bytes, at: nat, kind: byte): AddressReading {
    if kind == ATYP_IPV4 then
      if |input| < at + 4 then Short else Address(at + 4, Ipv4(input[at..at + 4]))
    else if kind == ATYP_IPV6 then
      if |input| < at + 16 then Short else Address(at + 16, Ipv6(input[at..at + 16]))
    else if kind == ATYP_NAME then
      if |input| < at + 1 then Short
      else
        var end := at + 1 + input[at] as int;
        if |input| < end then Short
        else if !Utf8.Valid(input[at + 1..end]) then NotUtf8(end)
        else Address(end, Name(input[at + 1..end]))
    else Unsupported
  }

  function ReadRequest(input: bytes, at: nat): Reading {
    if |input| < at + 4 then Dropped(|input|)
    else if input[at] != VERSION then Dropped(at + 4)
    else if input[at + 1] != CMD_CONNECT then Refused(at + 4, COMMAND_NOT_SUPPORTED)
    else AfterAddress(input, at + 4, ReadAddress(input, at + 4, input[at + 3]))
  }

  /** The port after the address, and what becomes of an address that cannot be used. */
  function AfterAddress(input: bytes, at: nat, address: AddressReading): Reading {
    match address
    case Short => Dropped(|input|)
    case NotUtf8(end) => Dropped(end)
    case Unsupported => Refused(at, ADDRESS_TYPE_NOT_SUPPORTED)
    case Address(end, d) =>
      if |input| < end + 2 then Dropped(|input|)
      else Connect(end + 2, d, input[end] as int * 256 + input[end + 1] as int)
  }

  function ReadStream(input: bytes): (r: Reading)
  {
    if |input| < 2 then Silent(|input|)
    else if input[0] != VERSION then Silent(2)
    else
      var end := 2 + input[1] as int;
      if |input| < end then Silent(|input|)
      else if NO_AUTH !in input[2..end] then NoMethod(end)
      else ReadRequest(input, end)
  }

  /** The overlay: down, or a dialer that reaches a destination or not. */
  type Overlay = Option<(Dest, nat) -> bool>

  function DialCode(overlay: Overlay, d: Dest, port: nat): byte {
    if overlay.None? then GENERAL_FAILURE else if overlay.value(d, port) then SUCCEEDED else HOST_UNREACHABLE
  }

  const GREETED: bytes := [VERSION, NO_AUTH]

  /** Everything the client is ever sent before the splice. */
  function Answer(r: Reading, overlay: Overlay): bytes {
    match r
    case Silent(_) => []
    case NoMethod(_) => [VERSION, NO_ACCEPTABLE]
    case Dropped(_) => GREETED
    case Refused(_, code) => GREETED + Reply(code)
    case Connect(_, d, port) => GREETED + Reply(DialCode(overlay, d, port))
  }

  // --- the reading is the inverse of the encoding -------------------------------------------

  lemma AddressReads(before: bytes, d: Dest, rest: bytes)
    requires ValidDest(d)
    ensures var addr := EncodeDest(d);
            ReadAddress(before + addr[1..] + rest, |before|, addr[0]) == Address(|before + addr[1..]|, d)
  {
    hide Utf8.Valid;
    var addr := EncodeDest(d);
    var input := before + addr[1..] + rest;
    match d {
      case Ipv4(o) => assert input[|before|..|before| + 4] == o;
      case Ipv6(o) => assert input[|before|..|before| + 16] == o;
      case Name(t) => assert input[|before| + 1..|before| + 1 + |t|] == t;
    }
  }

  lemma RequestIs(input: bytes, at: nat, end: nat, d: Dest, port: nat)
    requires at + 4 <= end && end + 2 <= |input| && port < 0x10000
    requires input[at] == VERSION && input[at + 1] == CMD_CONNECT
    requires ReadAddress(input, at + 4, input[at + 3]) == Address(end, d)
    requires input[end] as int == port / 256 && input[end + 1] as int == port % 256
    ensures ReadRequest(input, at) == Connect(end + 2, d, port)
  {
    hide ReadAddress;
  }

  lemma RequestReads(before: bytes, reserved: byte, d: Dest, port: nat, rest: bytes)
    requires ValidDest(d) && port < 0x10000
    ensures var req := EncodeRequest(reserved, d, port);
            ReadRequest(before + req + rest, |before|) == Connect(|before + req|, d, port)
  {
    hide ReadAddress, ReadRequest, ValidDest, EncodeDest;
    var addr := EncodeDest(d);
    DestNonempty(d);
    var head, tail := [VERSION, CMD_CONNECT, reserved, addr[0]], [port / 256, port % 256];
    var start := before + head;
    AddressReads(start, d, tail + rest);
    var input, end := start + addr[1..] + (tail + rest), |start + addr[1..]|;
    assert input[|before|..|before| + 4] == head;
    assert input[|before|] == head[0] && input[|before| + 1] == head[1] && input[|before| + 3] == head[3];
    assert input[end..end + 2] == tail;
    assert input[end] == tail[0] && input[end + 1] == tail[1];
    RequestIs(input, |before|, end, d, port);
    assert addr == [addr[0]] + addr[1..];
    assert before + EncodeRequest(reserved, d, port) + rest == input;
  }

  lemma DestNonempty(d: Dest)
    requires ValidDest(d)
    ensures |EncodeDest(d)| >= 1
  {
    hide Utf8.Valid;
  }

  /** A client that offers no-auth and asks to connect is understood, and not one byte of what follows
      its request is consumed. */
  lemma EncodedReads(methods: bytes, reserved: byte, d: Dest, port: nat, rest: bytes)
    requires |methods| <= 255 && NO_AUTH in methods && ValidDest(d) && port < 0x10000
    ensures var sent := EncodeGreeting(methods) + EncodeRequest(reserved, d, port);
            ReadStream(sent + rest) == Connect(|sent|, d, port)
  {
    hide ReadRequest, EncodeRequest, ValidDest;
    var greeting, req := EncodeGreeting(methods), EncodeRequest(reserved, d, port);
    var input := greeting + req + rest;
    assert input[2..2 + |methods|] == methods;
    RequestReads(greeting, reserved, d, port, rest);
  }

  /** And only such a client: a connect reading comes from exactly these encodings. */
  lemma ReadsEncoded(input: bytes)
    requires ReadStream(input).Connect?
    ensures var Connect(used, d, port) := ReadStream(input);
            && 2 <= used <= |input| && ValidDest(d) && port < 0x10000
            && exists methods: bytes, reserved: byte ::
                 |methods| <= 255 && NO_AUTH in methods
                 && input[..used] == EncodeGreeting(methods) + EncodeRequest(reserved, d, port)
  {
    hide ReadRequest, ValidDest, EncodeRequest;
    var Connect(used, d, port) := ReadStream(input);
    var end := 2 + input[1] as int;
    RequestEncoded(input, end);
    var methods := input[2..end];
    assert input[..end] == EncodeGreeting(methods);
    assert input[..used] == input[..end] + input[end..used];
    assert |methods| <= 255 && NO_AUTH in methods && input[..used] == EncodeGreeting(methods) + EncodeRequest(input[end + 2], d, port);
  }

  lemma AddressEncoded(input: bytes, at: nat, kind: byte)
    requires at <= |input| && ReadAddress(input, at, kind).Address?
    ensures var Address(end, d) := ReadAddress(input, at, kind);
            at <= end <= |input| && ValidDest(d) && EncodeDest(d) == [kind] + input[at..end]
  {
    hide Utf8.Valid;
    if kind == ATYP_NAME {
      var Address(end, d) := ReadAddress(input, at, kind);
      assert input[at..end] == [input[at]] + input[at + 1..end];
    }
  }

  lemma RequestParts(input: bytes, at: nat)
    requires ReadRequest(input, at).Connect?
    ensures var Connect(used, d, port) := ReadRequest(input, at);
            && at + 6 <= used <= |input| && port < 0x10000
            && input[at] == VERSION && input[at + 1] == CMD_CONNECT
            && ReadAddress(input, at + 4, input[at + 3]) == Address(used - 2, d)
            && port / 256 == input[used - 2] as int && port % 256 == input[used - 1] as int
  {
    AddressEncoded(input, at + 4, input[at + 3]);
    hide ReadAddress, ValidDest, EncodeDest;
  }

  lemma RequestEncoded(input: bytes, at: nat)
    requires ReadRequest(input, at).Connect?
    ensures var Connect(used, d, port) := ReadRequest(input, at);
            && at + 4 <= used <= |input| && ValidDest(d) && port < 0x10000
            && input[at..used] == EncodeRequest(input[at + 2], d, port)
  {
    hide ReadRequest, ReadAddress, ValidDest, EncodeDest;
    RequestParts(input, at);
    AddressEncoded(input, at + 4, input[at + 3]);
    var Connect(used, d, port) := ReadRequest(input, at);
    var end := used - 2;
    Slices(input, at, end);
    assert EncodeRequest(input[at + 2], d, port)
        == [VERSION, CMD_CONNECT, input[at + 2]] + ([input[at + 3]] + input[at + 4..end]) + [input[end], input[end + 1]];
  }

  lemma Slices(input: bytes, at: nat, end: nat)
    requires at + 4 <= end && end + 2 <= |input|
    ensures input[at..end + 2]
         == [input[at], input[at + 1], input[at + 2]] + ([input[at + 3]] + input[at + 4..end]) + [input[end], input[end + 1]]
  {
  }

  // --- readings and answers, part by part ---------------------------------------------------

  /** The greeting is complete, of this version, and offers no-auth. */
  predicate Greeted(input: bytes) {
    |input| >= 2 && input[0] == VERSION && |input| >= 2 + input[1] as int && NO_AUTH in input[2..2 + input[1] as int]
  }

  function GreetingEnd(input: bytes): nat {
    if Greeted(input) then 2 + input[1] as int else ReadStream(input).used
  }

  lemma RequestFacts(input: bytes, at: nat, overlay: Overlay)
    requires at <= |input|
    ensures var r := ReadRequest(input, at);
            && (r.Dropped? || r.Refused? || r.Connect?)
            && at <= r.used <= |input| && (|input| >= at + 4 ==> r.used >= at + 4)
            && GREETED <= Answer(r, overlay)
            && (!r.Connect? ==> Answer(r, overlay) == Answer(r, None))
            && (r.Refused? ==> r.code != SUCCEEDED)
  {
    if |input| >= at + 4 { KnownKinds(input, at + 4, input[at + 3]); }
    hide ReadAddress;
  }

  lemma StreamFacts(input: bytes, overlay: Overlay)
    ensures var r := ReadStream(input);
            && GreetingEnd(input) <= r.used <= |input|
            && (Greeted(input) ==> r == ReadRequest(input, GreetingEnd(input)) && GREETED <= Answer(r, overlay)
                                   && (r.Dropped? || r.Refused? || r.Connect?))
            && (!Greeted(input) ==> (r.Silent? || r.NoMethod?) && Answer(r, overlay) == Answer(r, None))
  {
    if Greeted(input) { RequestFacts(input, 2 + input[1] as int, overlay); }
    hide ReadRequest;
  }

  // --- the handler --------------------------------------------------------------------------

  /** `negotiate_method`. */
  method NegotiateMethod(c: Socket) returns (ok: bool)
    requires !c.interrupted && c.pos == 0 && c.out == []
    modifies c`pos, c`out, c`awaits, c`interrupted
    ensures c.pos <= |c.input| && c.pos <= GreetingEnd(c.input)
    ensures ok ==> !c.interrupted && Greeted(c.input) && c.pos == GreetingEnd(c.input) && c.out == GREETED
    ensures !ok ==> c.out <= (if Greeted(c.input) then GREETED else Answer(ReadStream(c.input), None))
    ensures !ok && !c.interrupted ==>
              !Greeted(c.input) && c.out == Answer(ReadStream(c.input), None) && c.pos == ReadStream(c.input).used
  {
    hide ReadRequest;
    StreamFacts(c.input, None);
    var head := c.ReadExact(2);
    if head.None? {
      return false;
    }
    if head.value[0] != VERSION {
      return false;
    }
    var methods := c.ReadExact(head.value[1]);
    if methods.None? {
      return false;
    }
    if NO_AUTH in methods.value {
      ok := c.WriteFrame([VERSION, NO_AUTH]);
    } else {
      var _ := c.WriteFrame([VERSION, NO_ACCEPTABLE]);
      ok := false;
    }
  }

  /** The address part of the request. */
  method ReadDest(c: Socket, kind: byte) returns (r: Option<Dest>)
    requires !c.interrupted && c.pos <= |c.input| && kind in {ATYP_IPV4, ATYP_IPV6, ATYP_NAME}
    modifies c`pos, c`awaits, c`interrupted
    ensures old(c.pos) <= c.pos <= |c.input|
    ensures var a := ReadAddress(c.input, old(c.pos), kind);
            && (r.Some? ==> !c.interrupted && a == Address(c.pos, r.value))
            && (a.NotUtf8? || a.Address? ==> c.pos <= a.end)
            && (r.None? && !c.interrupted ==> (a.Short? && c.pos == |c.input|) || (a.NotUtf8? && c.pos == a.end))
  {
    hide Utf8.Valid;
    if kind == ATYP_IPV4 {
      var b := c.ReadExact(4);
      return if b.None? then None else Some(Ipv4(b.value));
    } else if kind == ATYP_IPV6 {
      var b := c.ReadExact(16);
      return if b.None? then None else Some(Ipv6(b.value));
    }
    var len := c.ReadExact(1);
    if len.None? {
      return None;
    }
    var name := c.ReadExact(len.value[0]);
    if name.None? {
      return None;
    }
    return if Utf8.Valid(name.value) then Some(Name(name.value)) else None;
  }

  /** `read_connect_request`. */
  method ReadConnectRequest(c: Socket) returns (r: Option<(Dest, nat)>)
    requires !c.interrupted && c.pos <= |c.input| && c.out == GREETED
    modifies c`pos, c`out, c`awaits, c`interrupted
    ensures c.pos <= |c.input| && Followed(c, ReadRequest(c.input, old(c.pos)), r)
    ensures |c.out| > 3 ==> c.out[3] != SUCCEEDED
  {
    hide ReadAddress, AfterAddress;
    RequestFacts(c.input, c.pos, None);
    var head := c.ReadExact(4);
    if head.None? {
      return None;
    }
    if head.value[0] != VERSION {
      return None;
    }
    if head.value[1] != CMD_CONNECT {
      var _ := c.WriteFrame(Reply(COMMAND_NOT_SUPPORTED));
      return None;
    }
    r := ReadDestAndPort(c, head.value[3]);
  }

  /** What a reading demands of the socket and of the outcome, wherever the run is cut. */
  predicate Followed(c: Socket, reading: Reading, r: Option<(Dest, nat)>)
    reads c
  {
    && c.pos <= reading.used
    && (r.Some? ==> !c.interrupted && reading == Connect(c.pos, r.value.0, r.value.1) && c.out == GREETED)
    && (r.None? ==> c.out <= (if reading.Connect? then GREETED else Answer(reading, None)))
    && (r.None? && !c.interrupted ==> !reading.Connect? && c.out == Answer(reading, None) && c.pos == reading.used)
  }

  /** The match on the address type, and the port. */
  method ReadDestAndPort(c: Socket, kind: byte) returns (r: Option<(Dest, nat)>)
    requires !c.interrupted && c.pos <= |c.input| && c.out == GREETED
    modifies c`pos, c`out, c`awaits, c`interrupted
    ensures c.pos <= |c.input|
    ensures Followed(c, AfterAddress(c.input, old(c.pos), ReadAddress(c.input, old(c.pos), kind)), r)
    ensures |c.out| > 3 ==> c.out[3] != SUCCEEDED
  {
    hide ReadAddress;
    KnownKinds(c.input, c.pos, kind);
    if kind !in {ATYP_IPV4, ATYP_IPV6, ATYP_NAME} {
      OtherKinds(c.input, c.pos, kind);
      var _ := c.WriteFrame(Reply(ADDRESS_TYPE_NOT_SUPPORTED));
      return None;
    }
    var dest := ReadDest(c, kind);
    if dest.None? {
      return None;
    }
    var port := c.ReadExact(2);
    if port.None? {
      return None;
    }
    return Some((dest.value, port.value[0] as int * 256 + port.value[1] as int));
  }

  /** `handle_connection` up to the splice: the destination spliced to, if it comes to that. What was
      sent is always a prefix of the one answer the stream has; the splice is reached only with the
      whole answer sent, a success reply after a successful dial; and with no interruption the run
      ends exactly as the reading of the stream says. */
  method HandleConnection(c: Socket, overlay: Overlay) returns (spliced: Option<(Dest, nat)>, dialled: bool)
    requires !c.interrupted && c.pos == 0 && c.out == []
    modifies c`pos, c`out, c`awaits, c`interrupted
    ensures c.pos <= |c.input| && c.pos <= ReadStream(c.input).used
    ensures c.out <= Answer(ReadStream(c.input), overlay)
    ensures spliced.Some? ==>
              && !c.interrupted && dialled && c.out == GREETED + Reply(SUCCEEDED)
              && ReadStream(c.input) == Connect(c.pos, spliced.value.0, spliced.value.1)
              && overlay.Some? && overlay.value(spliced.value.0, spliced.value.1)
    ensures |c.out| > 3 && c.out[3] == SUCCEEDED && c.out[1] == NO_AUTH ==> dialled
    ensures dialled ==>
              var r := ReadStream(c.input);
              r.Connect? && overlay.Some? && overlay.value(r.dest, r.port)
    ensures !c.interrupted ==>
              && c.out == Answer(ReadStream(c.input), overlay) && c.pos == ReadStream(c.input).used
              && (spliced.Some? <==> ReadStream(c.input).Connect? && c.out == GREETED + Reply(SUCCEEDED))
  {
    hide ReadRequest, Utf8.Valid, Greeted, GreetingEnd, ReadStream;
    StreamFacts(c.input, overlay);
    spliced, dialled := None, false;
    var ok := NegotiateMethod(c);
    if !ok {
      return;
    }
    var request := ReadConnectRequest(c);
    if request.None? {
      return;
    }
    var (dest, port) := request.value;
    ok := c.Pause();
    if !ok {
      return;
    }
    if overlay.None? {
      var _ := c.WriteFrame(Reply(GENERAL_FAILURE));
      return;
    }
    ok := c.Pause();
    if !ok {
      return;
    }
    if overlay.value(dest, port) {
      dialled := true;
      ok := c.WriteFrame(Reply(SUCCEEDED));
      if ok {
        spliced := Some((dest, port));
      }
    } else {
      var _ := c.WriteFrame(Reply(HOST_UNREACHABLE));
    }
  }

  // --- the failures that go unanswered ------------------------------------------------------

  /** The greeting is not all there, or not of this version. */
  predicate BadGreeting(input: bytes) {
    |input| < 2 || input[0] != VERSION || |input| < 2 + input[1] as int
  }

  /** The request at `at` is cut short: in its header, or in the address or port its header announces. */
  predicate CutShort(input: bytes, at: nat) {
    || |input| < at + 4
    || (input[at] == VERSION && input[at + 1] == CMD_CONNECT
        && (|| (input[at + 3] == ATYP_IPV4 && |input| < at + 10)
            || (input[at + 3] == ATYP_IPV6 && |input| < at + 22)
            || (input[at + 3] == ATYP_NAME && (|input| < at + 5 || |input| < at + 7 + input[at + 4] as int))))
  }

  /** The request at `at` names its host by bytes that are not UTF-8. */
  predicate NamesNoText(input: bytes, at: nat) {
    && |input| >= at + 5 && input[at] == VERSION && input[at + 1] == CMD_CONNECT && input[at + 3] == ATYP_NAME
    && |input| >= at + 5 + input[at + 4] as int
    && !Utf8.Valid(input[at + 5..at + 5 + input[at + 4] as int])
  }

  /** Not every failure is answered, as the handler's comment has it. A client hears nothing about its
      request exactly when its greeting is short or of another version, or when it offers no-auth and the
      request is cut short, of another version, or names a host that is not UTF-8. */
  lemma UnansweredExactly(input: bytes, overlay: Overlay)
    ensures Answer(ReadStream(input), overlay) in {[], GREETED} <==>
              || BadGreeting(input)
              || var at := 2 + input[1] as int;
                 && NO_AUTH in input[2..at]
                 && (CutShort(input, at) || input[at] != VERSION || NamesNoText(input, at))
  {
    hide Utf8.Valid;
  }

  const GREETING: bytes := [VERSION, 1, NO_AUTH]

  lemma UnansweredReads(request: bytes)
    ensures ReadStream(GREETING + request) == ReadRequest(GREETING + request, 3)
  {
    hide ReadRequest;
    assert (GREETING + request)[2..3][0] == NO_AUTH;
  }

  /** Three requests nobody answers: of version 4, one that ends inside its address, and one for a host
      name that is not UTF-8. */
  lemma UnansweredHappens(overlay: Overlay)
    ensures Answer(ReadStream(GREETING + [0x04, CMD_CONNECT, 0, ATYP_IPV4]), overlay) == GREETED
    ensures Answer(ReadStream(GREETING + [VERSION, CMD_CONNECT, 0, ATYP_IPV4, 127, 0]), overlay) == GREETED
    ensures Answer(ReadStream(GREETING + [VERSION, CMD_CONNECT, 0, ATYP_NAME, 1, 0xFF, 0, 80]), overlay) == GREETED
  {
    hide ReadStream;
    var other, short, noText := [0x04, CMD_CONNECT, 0, ATYP_IPV4], [VERSION, CMD_CONNECT, 0, ATYP_IPV4, 127, 0],
      [VERSION, CMD_CONNECT, 0, ATYP_NAME, 1, 0xFF, 0, 80];
    UnansweredReads(other);
    UnansweredReads(short);
    UnansweredReads(noText);
    assert (GREETING + noText)[8..9] == [0xFF];
  }

  lemma OtherKinds(input: bytes, at: nat, kind: byte)
    requires kind !in {ATYP_IPV4, ATYP_IPV6, ATYP_NAME}
    ensures ReadAddress(input, at, kind) == Unsupported
  {
  }

  lemma KnownKinds(input: bytes, at: nat, kind: byte)
    requires at <= |input|
    ensures var a := ReadAddress(input, at, kind);
            && (a.Unsupported? ==> kind !in {ATYP_IPV4, ATYP_IPV6, ATYP_NAME})
            && (a.NotUtf8? || a.Address? ==> at <= a.end <= |input|)
  {
    hide Utf8.Valid;
  }
}
