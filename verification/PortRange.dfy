/** The text form of a service's protocol and port range: printer, parser, and the round trip. */
module PortRange {
  import opened Bytes
  import opened Decimal
  import Text

  const STAR: byte := 0x2A
  const COLON: byte := 0x3A
  const COMMA: byte := 0x2C
  const DASH: byte := 0x2D

  type u8 = x: int | 0 <= x <= 0xFF
  type u16 = x: int | 0 <= x <= 0xFFFF

  datatype ServicePortRange = ServicePortRange(proto: u8, first: u16, last: u16)

  datatype ParseError = Empty | EmptyProtocol | Comma | UnknownProtocol | InvalidPort | InvalidRange

  /** `PROTO_NAMES`, read by number. */
  function ProtoName(n: u8): Option<bytes> {
    match n
    case 51 => Some([0x61, 0x68]) // ah
    case 33 => Some([0x64, 0x63, 0x63, 0x70]) // dccp
    case 8 => Some([0x65, 0x67, 0x70]) // egp
    case 50 => Some([0x65, 0x73, 0x70]) // esp
    case 47 => Some([0x67, 0x72, 0x65]) // gre
    case 1 => Some([0x69, 0x63, 0x6D, 0x70]) // icmp
    case 2 => Some([0x69, 0x67, 0x6D, 0x70]) // igmp
    case 9 => Some([0x69, 0x67, 0x70]) // igp
    case 4 => Some([0x69, 0x70, 0x76, 0x34]) // ipv4
    case 58 => Some([0x69, 0x70, 0x76, 0x36, 0x2D, 0x69, 0x63, 0x6D, 0x70]) // ipv6-icmp
    case 132 => Some([0x73, 0x63, 0x74, 0x70]) // sctp
    case 6 => Some([0x74, 0x63, 0x70]) // tcp
    case 17 => Some([0x75, 0x64, 0x70]) // udp
    case _ => None
  }

  /** `PROTO_NAMES`, read by name. */
  function ProtoNumber(name: bytes): Option<u8> {
    if name == [0x61, 0x68] then Some(51)
    else if name == [0x64, 0x63, 0x63, 0x70] then Some(33)
    else if name == [0x65, 0x67, 0x70] then Some(8)
    else if name == [0x65, 0x73, 0x70] then Some(50)
    else if name == [0x67, 0x72, 0x65] then Some(47)
    else if name == [0x69, 0x63, 0x6D, 0x70] then Some(1)
    else if name == [0x69, 0x67, 0x6D, 0x70] then Some(2)
    else if name == [0x69, 0x67, 0x70] then Some(9)
    else if name == [0x69, 0x70, 0x76, 0x34] then Some(4)
    else if name == [0x69, 0x70, 0x76, 0x36, 0x2D, 0x69, 0x63, 0x6D, 0x70] then Some(58)
    else if name == [0x73, 0x63, 0x74, 0x70] then Some(132)
    else if name == [0x74, 0x63, 0x70] then Some(6)
    else if name == [0x75, 0x64, 0x70] then Some(17)
    else None
  }

  predicate PortsAreAny(r: ServicePortRange) {
    r.first == 0 && r.last == 65535
  }

  function SingleTcpPort(r: ServicePortRange): Option<u16> {
    if r.proto != 0 && r.proto != 6 then None else if r.first != r.last then None else Some(r.first)
  }

  function ProtoText(n: u8): bytes {
    match ProtoName(n) case Some(name) => name case None => Digits(n)
  }

  function PortsText(r: ServicePortRange): bytes {
    if PortsAreAny(r) then [STAR]
    else if r.first == r.last then Digits(r.first)
    else Digits(r.first) + [DASH] + Digits(r.last)
  }

  /** `Display`. */
  function Print(r: ServicePortRange): bytes {
    if r.proto == 0 then PortsText(r) else ProtoText(r.proto) + [COLON] + PortsText(r)
  }

  function ParseProto(p: bytes): Result<u8, ParseError> {
    if p == [] then Err(EmptyProtocol)
    else if COMMA in p then Err(Comma)
    else if p == [STAR] then Ok(0)
    else match ProtoNumber(p)
      case Some(n) => Ok(n)
      case None =>
        match ParseUnsigned(p, 0xFF) case None => Err(UnknownProtocol) case Some(n) => Ok(n)
  }

  function ParsePorts(ports: bytes): (r: Result<(u16, u16), ParseError>)
    ensures r.Ok? ==> r.value.0 <= r.value.1
  {
    if ports == [STAR] then Ok((0, 65535))
    else match Text.SplitOnce(ports, DASH)
      case None =>
        (match ParseUnsigned(ports, 0xFFFF) case None => Err(InvalidPort) case Some(p) => Ok((p, p)))
      case Some((lo, hi)) =>
        var l, h := ParseUnsigned(lo, 0xFFFF), ParseUnsigned(hi, 0xFFFF);
        if l.None? || h.None? || l.value > h.value then Err(InvalidRange) else Ok((l.value, h.value))
  }

  function ParseLower(lower: bytes): Result<ServicePortRange, ParseError> {
    if lower == [STAR] then Ok(ServicePortRange(0, 0, 65535))
    else
      var cut := match Text.RSplitOnce(lower, COLON) case None => ([STAR], lower) case Some(c) => c;
      match ParseProto(cut.0)
      case Err(e) => Err(e)
      case Ok(proto) =>
        match ParsePorts(cut.1) case Err(e) => Err(e) case Ok((a, b)) => Ok(ServicePortRange(proto, a, b))
  }

  /** `FromStr`. */
  function Parse(s: bytes): Result<ServicePortRange, ParseError> {
    if s == [] then Err(Empty) else ParseLower(Lower(s))
  }

  // --- laws ---------------------------------------------------------------------------------

  /** Every accepted text has its ports in order. */
  lemma AcceptedIsOrdered(s: bytes)
    requires Parse(s).Ok?
    ensures Parse(s).value.first <= Parse(s).value.last
  {
    hide ParseProto, ParsePorts, Lower;
  }

  /** Letter case does not matter. */
  lemma CaseInsensitive(s: bytes)
    ensures Parse(Lower(s)) == Parse(s)
  {
    hide ParseLower;
    assert Lower(Lower(s)) == Lower(s);
  }

  predicate LowerText(s: bytes) {
    forall i :: 0 <= i < |s| ==> LowerByte(s[i]) == s[i]
  }

  lemma LowerKeeps(s: bytes)
    requires LowerText(s)
    ensures Lower(s) == s
  {
  }

  /** A digit run is lower-case and holds none of the separators. */
  lemma DigitsArePlain(n: nat)
    ensures var d := Digits(n); d != [] && LowerText(d) && DASH !in d && COLON !in d && COMMA !in d && d != [STAR]
  {
    var d := Digits(n);
    assert IsDigit(d[0]);
    hide Digits;
  }

  lemma SpanText(a: u16, b: u16)
    requires a < b
    ensures var s := Digits(a) + [DASH] + Digits(b);
            && ParsePorts(s) == Ok((a, b))
            && COLON !in s && LowerText(s) && s != [STAR]
  {
    DigitsArePlain(a);
    DigitsArePlain(b);
    ParseOfDigits(a, 0xFFFF);
    ParseOfDigits(b, 0xFFFF);
    hide Digits, ParseUnsigned, Text.SplitOnce, LowerText;
    Text.SplitOnceOf(Digits(a), DASH, Digits(b));
    LowerSpan(Digits(a), Digits(b));
  }

  lemma LowerSpan(s: bytes, t: bytes)
    requires LowerText(s) && LowerText(t)
    ensures LowerText(s + [DASH] + t)
  {
  }

  lemma PortsReadBack(r: ServicePortRange)
    requires r.first <= r.last
    ensures ParsePorts(PortsText(r)) == Ok((r.first, r.last))
    ensures PortsText(r) != [] && COLON !in PortsText(r) && LowerText(PortsText(r))
  {
    DigitsArePlain(r.first);
    ParseOfDigits(r.first, 0xFFFF);
    hide Digits, ParseUnsigned;
    Text.NoSplit(Digits(r.first), DASH);
    if r.first < r.last { SpanText(r.first, r.last); }
  }

  /** The two readings of the name table are inverse to each other. */
  lemma TableIsABijection(n: u8, name: bytes)
    ensures ProtoName(n) == Some(name) <==> ProtoNumber(name) == Some(n)
  {
  }

  /** Names are lower case, hold no separator, and do not read as numbers. */
  lemma NamesArePlain(n: u8)
    requires ProtoName(n).Some?
    ensures var name := ProtoName(n).value;
            name != [] && COMMA !in name && COLON !in name && name != [STAR] && LowerText(name)
  {
  }

  lemma NumbersAreNotNames(d: bytes)
    requires d != [] && IsDigit(d[0])
    ensures ProtoNumber(d).None?
  {
  }

  lemma ProtoReadsBack(n: u8)
    requires n != 0
    ensures ParseProto(ProtoText(n)) == Ok(n) && COLON !in ProtoText(n) && LowerText(ProtoText(n))
  {
    hide ProtoName, ProtoNumber, Digits, ParseUnsigned;
    if ProtoName(n).Some? {
      TableIsABijection(n, ProtoName(n).value);
      NamesArePlain(n);
    } else {
      DigitsArePlain(n);
      ParseOfDigits(n, 0xFF);
      assert IsDigit(Digits(n)[0]);
      NumbersAreNotNames(Digits(n));
    }
  }

  lemma PrintedShape(r: ServicePortRange)
    requires r.first <= r.last
    ensures Print(r) != [] && LowerText(Print(r))
    ensures ParseLower(Print(r)) == Ok(r)
  {
    PortsReadBack(r);
    hide ParseProto, ParsePorts, PortsText, ProtoText;
    var ports := PortsText(r);
    if r.proto == 0 {
      Text.NoSplit(ports, COLON);
      assert ParseProto([STAR]) == Ok(0) by { StarMeansAll(); }
    } else {
      ProtoReadsBack(r.proto);
      Text.RSplitOnceOf(ProtoText(r.proto), COLON, ports);
      assert COLON in Print(r) by { assert Print(r)[|ProtoText(r.proto)|] == COLON; }
    }
  }

  lemma StarMeansAll()
    ensures ParseProto([STAR]) == Ok(0)
  {
    hide ProtoNumber;
  }

  /** Every ordered range reads back from its printed form. */
  lemma RoundTrip(r: ServicePortRange)
    requires r.first <= r.last
    ensures Parse(Print(r)) == Ok(r)
  {
    PrintedShape(r);
    LowerKeeps(Print(r));
    hide Print, ParseLower;
  }

  /** Printing what was parsed and parsing it again changes nothing, for every accepted text. */
  lemma ParsePrintSettles(s: bytes)
    requires Parse(s).Ok?
    ensures Parse(Print(Parse(s).value)) == Parse(s)
  {
    AcceptedIsOrdered(s);
    RoundTrip(Parse(s).value);
  }

  /** A range is one TCP port exactly when it prints as that bare port or as `tcp:` and it. */
  lemma SingleTcpPortByText(r: ServicePortRange, port: u16)
    requires r.first <= r.last
    ensures SingleTcpPort(r) == Some(port) <==>
            Print(r) == Digits(port) || Print(r) == [0x74, 0x63, 0x70, COLON] + Digits(port)
  {
    hide Print, Parse, Digits;
    var bare, tcp := ServicePortRange(0, port, port), ServicePortRange(6, port, port);
    RoundTrip(r);
    RoundTrip(bare);
    RoundTrip(tcp);
    SinglePortText(port);
  }

  lemma SinglePortText(port: u16)
    ensures Print(ServicePortRange(0, port, port)) == Digits(port)
    ensures Print(ServicePortRange(6, port, port)) == [0x74, 0x63, 0x70, COLON] + Digits(port)
  {
    hide Digits;
    assert ProtoText(6) == [0x74, 0x63, 0x70];
    assert [0x74, 0x63, 0x70] + [COLON] == [0x74, 0x63, 0x70, COLON];
  }

  // --- the grammar --------------------------------------------------------------------------

  predicate ProtoSpelled(p: bytes, n: u8) {
    (p == [STAR] && n == 0) || ProtoName(n) == Some(p) || ParseUnsigned(p, 0xFF) == Some(n)
  }

  ghost predicate PortsSpelled(q: bytes, a: u16, b: u16) {
    || (q == [STAR] && a == 0 && b == 65535)
    || (ParseUnsigned(q, 0xFFFF) == Some(a) && a == b)
    || (a <= b && exists lo, hi :: q == lo + [DASH] + hi
                                   && ParseUnsigned(lo, 0xFFFF) == Some(a) && ParseUnsigned(hi, 0xFFFF) == Some(b))
  }

  /** Ports alone, or a protocol, a colon and ports. */
  ghost predicate Spelled(t: bytes, r: ServicePortRange) {
    || (COLON !in t && r.proto == 0 && PortsSpelled(t, r.first, r.last))
    || exists p, q :: t == p + [COLON] + q && ProtoSpelled(p, r.proto) && PortsSpelled(q, r.first, r.last)
  }

  lemma NumberHasNo(s: bytes, max: nat, b: byte)
    requires ParseUnsigned(s, max).Some? && !IsDigit(b) && b != 0x2B
    ensures b !in s && s != []
  {
    var d := if s != [] && s[0] == 0x2B then s[1..] else s;
    assert d == s || s == [0x2B] + d;
  }

  lemma PortsExactly(q: bytes, a: u16, b: u16)
    ensures ParsePorts(q) == Ok((a, b)) <==> PortsSpelled(q, a, b)
    ensures PortsSpelled(q, a, b) ==> COLON !in q
  {
    hide ParseUnsigned, Text.SplitOnce;
    if q != [STAR] {
      if ParseUnsigned(q, 0xFFFF).Some? {
        NumberHasNo(q, 0xFFFF, DASH);
        NumberHasNo(q, 0xFFFF, COLON);
        Text.NoSplit(q, DASH);
      }
      forall lo, hi | q == lo + [DASH] + hi && ParseUnsigned(lo, 0xFFFF) == Some(a) && ParseUnsigned(hi, 0xFFFF) == Some(b)
        ensures Text.SplitOnce(q, DASH) == Some((lo, hi)) && COLON !in q
      {
        NumberHasNo(lo, 0xFFFF, DASH);
        NumberHasNo(lo, 0xFFFF, COLON);
        NumberHasNo(hi, 0xFFFF, COLON);
        Text.SplitOnceOf(lo, DASH, hi);
      }
      CutParts(q);
      if ParsePorts(q) == Ok((a, b)) && Text.SplitOnce(q, DASH).Some? {
        var (lo, hi) := Text.SplitOnce(q, DASH).value;
        assert q == lo + [DASH] + hi;
      }
    } else {
      StarIsNoNumber();
    }
  }

  lemma CutParts(q: bytes)
    ensures match Text.SplitOnce(q, DASH) case None => DASH !in q case Some((lo, hi)) => q == lo + [DASH] + hi
  {
  }

  lemma StarIsNoNumber()
    ensures ParseUnsigned([STAR], 0xFFFF).None? && ParseUnsigned([STAR], 0xFF).None?
    ensures forall lo: bytes, hi: bytes :: [STAR] != lo + [DASH] + hi
  {
    forall lo: bytes, hi: bytes ensures [STAR] != lo + [DASH] + hi {
      assert DASH in lo + [DASH] + hi;
    }
    assert !IsDigit([STAR][0]);
  }

  lemma ProtoExactly(p: bytes, n: u8)
    ensures ParseProto(p) == Ok(n) <==> ProtoSpelled(p, n)
  {
    hide ParseUnsigned, ProtoName, ProtoNumber;
    TableIsABijection(n, p);
    if ParseUnsigned(p, 0xFF).Some? {
      NumberHasNo(p, 0xFF, COMMA);
      NumberHasNo(p, 0xFF, STAR);
      NumbersHaveNoName(p);
    }
    if ProtoName(n) == Some(p) { NamesArePlain(n); }
    StarIsNoNumber();
    if ProtoNumber(p).Some? { TableIsABijection(ProtoNumber(p).value, p); }
  }

  lemma NumbersHaveNoName(p: bytes)
    requires ParseUnsigned(p, 0xFF).Some?
    ensures ProtoNumber(p).None?
  {
    hide ParseUnsigned, ProtoName, ProtoNumber;
    if ProtoNumber(p).Some? {
      var n := ProtoNumber(p).value;
      TableIsABijection(n, p);
      NamesArePlain(n);
      NameIsNoNumber(n);
    }
  }

  lemma NameIsNoNumber(n: u8)
    requires ProtoName(n).Some?
    ensures ParseUnsigned(ProtoName(n).value, 0xFF).None?
  {
    hide ParseUnsigned;
    var name := ProtoName(n).value;
    assert name[0] >= 0x61;
    if ParseUnsigned(name, 0xFF).Some? { NumberHasNo(name, 0xFF, name[0]); }
  }

  /** A text is accepted, as a range, if and only if its lower case is one of that range's spellings. */
  lemma ParseExactly(s: bytes, r: ServicePortRange)
    ensures Parse(s) == Ok(r) <==> Spelled(Lower(s), r)
  {
    hide ParseProto, ParsePorts, ProtoSpelled, PortsSpelled, Text.RSplitOnce;
    var t := Lower(s);
    PortsExactly(t, r.first, r.last);
    StarMeansAll();
    WholeStar(r);
    forall p, q | t == p + [COLON] + q && PortsSpelled(q, r.first, r.last)
      ensures Text.RSplitOnce(t, COLON) == Some((p, q)) && t != [STAR]
    {
      PortsExactly(q, r.first, r.last);
      Text.RSplitOnceOf(p, COLON, q);
      assert COLON in t;
    }
    ColonParts(t);
    match Text.RSplitOnce(t, COLON)
    case None =>
    case Some((p, q)) =>
      ProtoExactly(p, r.proto);
      PortsExactly(q, r.first, r.last);
  }

  lemma WholeStar(r: ServicePortRange)
    ensures PortsSpelled([STAR], r.first, r.last) <==> r.first == 0 && r.last == 65535
    ensures COLON !in [STAR] && !PortsSpelled([], r.first, r.last)
  {
    hide ParseUnsigned;
    StarIsNoNumber();
    if ParseUnsigned([], 0xFFFF).Some? { NumberHasNo([], 0xFFFF, COLON); }
  }

  lemma ColonParts(t: bytes)
    ensures match Text.RSplitOnce(t, COLON) case None => COLON !in t case Some((p, q)) => t == p + [COLON] + q
  {
  }

  /** Why a text is refused, by its parts around the last colon. */
  lemma RefusedFor(p: bytes, q: bytes)
    requires LowerText(p + [COLON] + q) && COLON !in q
    ensures var s := p + [COLON] + q;
            && (p == [] ==> Parse(s) == Err(EmptyProtocol))
            && (p != [] && COMMA in p ==> Parse(s) == Err(Comma))
            && (p != [] && COMMA !in p && (forall n: u8 :: !ProtoSpelled(p, n)) ==> Parse(s) == Err(UnknownProtocol))
            && ((exists n: u8 :: ProtoSpelled(p, n)) && (forall a: u16, b: u16 :: !PortsSpelled(q, a, b)) ==>
                  Parse(s) == Err(if DASH in q then InvalidRange else InvalidPort))
  {
    hide Text.RSplitOnce, ProtoSpelled, PortsSpelled, ParsePorts, LowerText;
    var s := p + [COLON] + q;
    LowerKeeps(s);
    Text.RSplitOnceOf(p, COLON, q);
    assert COLON in s;
    ProtoRefused(p);
    PortsRefused(q);
  }

  lemma ProtoRefused(p: bytes)
    ensures p == [] ==> ParseProto(p) == Err(EmptyProtocol)
    ensures p != [] && COMMA in p ==> ParseProto(p) == Err(Comma)
    ensures p != [] && COMMA !in p && (forall n: u8 :: !ProtoSpelled(p, n)) ==> ParseProto(p) == Err(UnknownProtocol)
    ensures (exists n: u8 :: ProtoSpelled(p, n)) ==> ParseProto(p).Ok?
  {
    hide ProtoSpelled, ParseUnsigned, ProtoNumber;
    if ParseProto(p).Ok? { ProtoExactly(p, ParseProto(p).value); }
    forall n: u8 | ProtoSpelled(p, n) ensures ParseProto(p).Ok? { ProtoExactly(p, n); }
  }

  lemma PortsRefused(q: bytes)
    ensures (forall a: u16, b: u16 :: !PortsSpelled(q, a, b)) ==>
              ParsePorts(q) == Err(if DASH in q then InvalidRange else InvalidPort)
  {
    hide PortsSpelled, ParseUnsigned;
    if ParsePorts(q).Ok? {
      PortsExactly(q, ParsePorts(q).value.0, ParsePorts(q).value.1);
    }
    CutParts(q);
  }

  /** And a text without a colon: nothing at all, or ports that are refused. */
  lemma RefusedAlone(s: bytes)
    requires LowerText(s) && COLON !in s && forall a: u16, b: u16 :: !PortsSpelled(s, a, b)
    ensures Parse(s) == Err(if s == [] then Empty else if DASH in s then InvalidRange else InvalidPort)
  {
    hide PortsSpelled, ParsePorts, LowerText, ParseProto;
    LowerKeeps(s);
    Text.NoSplit(s, COLON);
    PortsRefused(s);
    StarMeansAll();
    WholeStar(ServicePortRange(0, 0, 65535));
  }

  // --- the table by its text ----------------------------------------------------------------

  /** The thirteen names, as they read; no other number has one. */
  lemma NamesByText(n: u8)
    ensures ProtoName(n) ==
              if n == 1 then Some(Ascii("icmp")) else if n == 2 then Some(Ascii("igmp"))
              else if n == 4 then Some(Ascii("ipv4")) else if n == 6 then Some(Ascii("tcp"))
              else if n == 8 then Some(Ascii("egp")) else if n == 9 then Some(Ascii("igp"))
              else if n == 17 then Some(Ascii("udp")) else if n == 33 then Some(Ascii("dccp"))
              else if n == 47 then Some(Ascii("gre")) else if n == 50 then Some(Ascii("esp"))
              else if n == 51 then Some(Ascii("ah")) else if n == 58 then Some(Ascii("ipv6-icmp"))
              else if n == 132 then Some(Ascii("sctp")) else None
  {
    assert Ascii("ah") == [0x61, 0x68];
    assert Ascii("dccp") == [0x64, 0x63, 0x63, 0x70];
    assert Ascii("egp") == [0x65, 0x67, 0x70];
    assert Ascii("esp") == [0x65, 0x73, 0x70];
    assert Ascii("gre") == [0x67, 0x72, 0x65];
    assert Ascii("icmp") == [0x69, 0x63, 0x6D, 0x70];
    assert Ascii("igmp") == [0x69, 0x67, 0x6D, 0x70];
    assert Ascii("igp") == [0x69, 0x67, 0x70];
    assert Ascii("ipv4") == [0x69, 0x70, 0x76, 0x34];
    assert Ascii("ipv6-icmp") == [0x69, 0x70, 0x76, 0x36, 0x2D, 0x69, 0x63, 0x6D, 0x70];
    assert Ascii("sctp") == [0x73, 0x63, 0x74, 0x70];
    assert Ascii("tcp") == [0x74, 0x63, 0x70];
    assert Ascii("udp") == [0x75, 0x64, 0x70];
  }

  /** How a range prints: the ports alone for any protocol, otherwise the protocol's name, or its number when it
      has none, in front; the ports as a star, one number, or two. */
  lemma PrintedText(r: ServicePortRange)
    ensures r.proto == 0 ==> Print(r) == PortsText(r)
    ensures r.proto != 0 && ProtoName(r.proto) == None ==> Print(r) == Digits(r.proto) + Ascii(":") + PortsText(r)
    ensures r.proto != 0 && ProtoName(r.proto).Some? ==> Print(r) == ProtoName(r.proto).value + Ascii(":") + PortsText(r)
    ensures r.first == 0 && r.last == 65535 ==> PortsText(r) == Ascii("*")
    ensures r.first == r.last ==> PortsText(r) == Digits(r.first)
    ensures r.first < r.last && !(r.first == 0 && r.last == 65535) ==>
              PortsText(r) == Digits(r.first) + Ascii("-") + Digits(r.last)
  {
    hide Digits, ProtoName;
  }

  /** The letters from A (0x41) to Z (0x5A), and nothing else, become those from a (0x61) to z (0x7A). */
  lemma LowerExactly(b: byte, s: bytes)
    ensures Lower([b]) == [if 0x41 <= b <= 0x5A then b + (0x61 - 0x41) else b]
    ensures Lower([b] + s) == Lower([b]) + Lower(s)
  {
    assert |Lower([b])| == 1;
  }
}
