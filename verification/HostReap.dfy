/** The routing table as netstat prints it, and the stale routes picked from it. */
module HostReap {
  import opened Bytes
  import opened Decimal
  import opened Text
  import Utf8
  import Words

  const DOT: byte := 0x2E
  const SLASH: byte := 0x2F
  const STATIC: byte := 0x53
  const DEFAULT: bytes := [0x64, 0x65, 0x66, 0x61, 0x75, 0x6C, 0x74]
  const TUN_IF_PREFIX: bytes := [0x75, 0x74, 0x75, 0x6E]
  const ZEROS: bytes := [0, 0, 0, 0]

  datatype Net = Net(octets: bytes, len: nat)

  predicate ValidNet(n: Net) {
    |n.octets| == 4 && n.len <= 32
  }

  datatype FibEntry = FibEntry(destination: Net, gateway: bytes, flags: bytes, netif: bytes)

  // --- destinations -------------------------------------------------------------------------

  predicate OctetText(p: bytes) {
    p != [] && AllDigits(p) && Value(p) <= 0xFF
  }

  predicate OctetTexts(parts: seq<bytes>) {
    1 <= |parts| <= 4 && forall i :: 0 <= i < |parts| ==> OctetText(parts[i])
  }

  /** The octets that are printed, then zeros. */
  function Padded(parts: seq<bytes>): (o: bytes)
    requires OctetTexts(parts)
    ensures |o| == 4
    ensures forall i :: 0 <= i < |parts| ==> o[i] == Value(parts[i])
    ensures forall i :: |parts| <= i < 4 ==> o[i] == 0
  {
    seq(4, i requires 0 <= i < 4 => if i < |parts| then Value(parts[i]) else 0)
  }

  function ParseAddress(addr: bytes, len: Option<nat>): Option<Net> {
    var parts := Split(addr, DOT);
    if !OctetTexts(parts) then None
    else
      var n := if len.Some? then len.value else 8 * |parts|;
      if n > 32 then None else Some(Net(Padded(parts), n))
  }

  function Destination(token: bytes): Option<Net> {
    if token == DEFAULT then Some(Net(ZEROS, 0))
    else
      match SplitOnce(token, SLASH)
      case None => ParseAddress(token, None)
      case Some((addr, len)) =>
        match ParseUnsigned(len, 0xFF) case None => None case Some(n) => ParseAddress(addr, Some(n))
  }

  /** Up to four octets, any of them with leading zeros, and the length unless it is eight a printed
      octet. */
  predicate Spelled(token: bytes, n: Net, parts: seq<bytes>) {
    && OctetTexts(parts) && n.octets == Padded(parts)
    && var addr := Join(parts, DOT);
       || (token == addr && n.len == 8 * |parts|)
       || (|token| > |addr| && token[..|addr|] == addr && token[|addr|] == SLASH
           && ParseUnsigned(token[|addr| + 1..], 0xFF) == Some(n.len))
  }

  lemma {:induction false} JoinHasNo(parts: seq<bytes>, sep: byte, b: byte)
    requires b != sep && forall i :: 0 <= i < |parts| ==> b !in parts[i]
    ensures b !in Join(parts, sep)
  {
    if |parts| > 1 { JoinHasNo(parts[1..], sep, b); }
  }

  lemma OctetHasNo(p: bytes, b: byte)
    requires OctetText(p) && !IsDigit(b)
    ensures b !in p
  {
  }

  lemma DefaultIsNoAddress(parts: seq<bytes>)
    requires OctetTexts(parts)
    ensures |Join(parts, DOT)| > 0 && IsDigit(Join(parts, DOT)[0])
  {
    hide Value;
    assert IsDigit(parts[0][0]);
  }

  lemma SpelledIsRead(token: bytes, n: Net, parts: seq<bytes>)
    requires Spelled(token, n, parts) && n.len <= 32
    ensures Destination(token) == Some(n)
  {
    hide ParseUnsigned, OctetText, Split, Join, SplitOnce;
    var addr := Join(parts, DOT);
    forall i | 0 <= i < |parts| ensures DOT !in parts[i] && SLASH !in parts[i] {
      OctetHasNo(parts[i], DOT);
      OctetHasNo(parts[i], SLASH);
    }
    SplitOfJoin(parts, DOT);
    JoinHasNo(parts, DOT, SLASH);
    DefaultIsNoAddress(parts);
    assert token[0] == addr[0] && !IsDigit(DEFAULT[0]);
    if token == addr {
      NoSplit(token, SLASH);
    } else {
      var len := token[|addr| + 1..];
      assert token == addr + [SLASH] + len;
      SplitOnceOf(addr, SLASH, len);
    }
  }

  lemma ReadIsSpelled(token: bytes)
    requires token != DEFAULT && Destination(token).Some?
    ensures var n := Destination(token).value;
            n.len <= 32 && exists parts :: Spelled(token, n, parts)
  {
    hide ParseUnsigned, OctetText, Split, Join;
    var n := Destination(token).value;
    var cut := SplitOnce(token, SLASH);
    var addr := if cut.None? then token else cut.value.0;
    var parts := Split(addr, DOT);
    JoinOfSplit(addr, DOT);
    if cut.Some? {
      assert token[..|addr|] == addr && token[|addr|] == SLASH && token[|addr| + 1..] == cut.value.1;
    }
    assert Spelled(token, n, parts);
  }

  /** A destination is read exactly when it is one of the spellings of the prefix. */
  lemma DestinationExactly(token: bytes, n: Net)
    ensures Destination(token) == Some(n) <==>
            if token == DEFAULT then n == Net(ZEROS, 0) else n.len <= 32 && exists parts :: Spelled(token, n, parts)
  {
    hide Destination, Spelled;
    if token == DEFAULT {
      DefaultIsRead();
    } else {
      if Destination(token) == Some(n) { ReadIsSpelled(token); }
      if n.len <= 32 {
        forall parts | Spelled(token, n, parts) ensures Destination(token) == Some(n) {
          SpelledIsRead(token, n, parts);
        }
      }
    }
  }

  lemma DefaultIsRead()
    ensures Destination(DEFAULT) == Some(Net(ZEROS, 0))
    ensures DEFAULT == Ascii("default") && ZEROS == [0, 0, 0, 0]
  {
  }

  /** How many octets netstat prints: all up to the last that is not zero, but at least one. */
  function Printed(octets: bytes): (k: nat)
    requires |octets| == 4
    ensures 1 <= k <= 4 && forall i :: k <= i < 4 ==> octets[i] == 0
    ensures k > 1 ==> octets[k - 1] != 0
  {
    if octets[3] != 0 then 4 else if octets[2] != 0 then 3 else if octets[1] != 0 then 2 else 1
  }

  function OctetParts(octets: bytes): seq<bytes> {
    seq(|octets|, i requires 0 <= i < |octets| => Digits(octets[i]))
  }

  /** The destination column for a prefix. */
  function Abbreviate(n: Net): bytes
    requires ValidNet(n)
  {
    if n == Net(ZEROS, 0) then DEFAULT
    else
      var k := Printed(n.octets);
      var addr := Join(OctetParts(n.octets[..k]), DOT);
      if n.len == 8 * k then addr else addr + [SLASH] + Digits(n.len)
  }

  lemma OctetPartsAre(octets: bytes, k: nat)
    requires |octets| == 4 && 1 <= k <= 4 && forall i :: k <= i < 4 ==> octets[i] == 0
    ensures OctetTexts(OctetParts(octets[..k])) && Padded(OctetParts(octets[..k])) == octets
  {
    hide Digits, Value;
    var parts := OctetParts(octets[..k]);
    forall i | 0 <= i < k ensures OctetText(parts[i]) && Value(parts[i]) == octets[i] {
      ValueOfDigits(octets[i]);
    }
  }

  /** Every prefix survives netstat's abbreviation. */
  lemma AbbreviationReadsBack(n: Net)
    requires ValidNet(n)
    ensures Destination(Abbreviate(n)) == Some(n)
  {
    hide Destination, ParseUnsigned, Digits, OctetText, OctetTexts, OctetParts, Join, Printed;
    if n == Net(ZEROS, 0) {
      DefaultIsRead();
    } else {
      var k := Printed(n.octets);
      var parts := OctetParts(n.octets[..k]);
      OctetPartsAre(n.octets, k);
      PartsCount(n.octets[..k]);
      ParseOfDigits(n.len, 0xFF);
      var addr, token := Join(parts, DOT), Abbreviate(n);
      if n.len != 8 * k {
        assert token[..|addr|] == addr && token[|addr| + 1..] == Digits(n.len);
      }
      SpelledIsRead(token, n, parts);
    }
  }

  lemma PartsCount(octets: bytes)
    ensures |OctetParts(octets)| == |octets|
  {
  }

  /** `parse_destination`. */
  method ParseDestination(token: bytes) returns (r: Option<Net>)
    ensures r == Destination(token)
  {
    hide ParseUnsigned, Split, AllDigits;
    if token == DEFAULT {
      return Some(Net(ZEROS, 0));
    }
    var addr, len := token, None;
    var cut := SplitOnce(token, SLASH);
    if cut.Some? {
      addr := cut.value.0;
      len := ParseUnsigned(cut.value.1, 0xFF);
      if len.None? {
        return None;
      }
    }
    var parts := Split(addr, DOT);
    var octets := new byte[4](_ => 0);
    var count := 0;
    for i := 0 to |parts|
      invariant i == count <= 4
      invariant forall k :: 0 <= k < count ==> OctetText(parts[k]) && octets[k] == Value(parts[k])
      invariant forall k :: count <= k < 4 ==> octets[k] == 0
    {
      if count == 4 || parts[i] == [] || !AllDigits(parts[i]) {
        return None;
      }
      var octet := ParseUnsigned(parts[i], 0xFF);
      OctetIs(parts[i]);
      if octet.None? {
        return None;
      }
      octets[count] := octet.value;
      count := count + 1;
    }
    var prefix := if len.Some? then len.value else count * 8;
    assert octets[..] == Padded(parts);
    return if prefix > 32 then None else Some(Net(octets[..], prefix));
  }

  lemma OctetIs(p: bytes)
    requires p != [] && AllDigits(p)
    ensures ParseUnsigned(p, 0xFF) == if OctetText(p) then Some(Value(p)) else None
  {
    hide Value;
    assert IsDigit(p[0]);
  }

  // --- the table ----------------------------------------------------------------------------

  function Entry(line: bytes): Option<FibEntry> {
    var fields := Words.Words(line);
    if |fields| < 4 then None
    else
      match Destination(fields[0])
      case None => None
      case Some(n) => Some(FibEntry(n, fields[1], fields[2], fields[3]))
  }

  function Entries(lines: seq<bytes>): seq<FibEntry> {
    if lines == [] then []
    else
      var rest := Entries(lines[1..]);
      match Entry(lines[0]) case None => rest case Some(e) => [e] + rest
  }

  function Table(output: bytes): seq<FibEntry> {
    Entries(Lines(output))
  }

  lemma {:induction false} EntriesConcat(a: seq<bytes>, b: seq<bytes>)
    ensures Entries(a + b) == Entries(a) + Entries(b)
  {
    hide Entry;
    if a == [] {
      assert a + b == b;
    } else {
      assert (a + b)[1..] == a[1..] + b;
      EntriesConcat(a[1..], b);
    }
  }

  /** What stands above a line does not change how it is read. */
  lemma TableConcat(a: bytes, b: bytes)
    requires Terminated(a)
    ensures Table(a + b) == Table(a) + Table(b)
  {
    hide Lines;
    LinesConcat(a, b);
    EntriesConcat(Lines(a), Lines(b));
  }

  /** `parse_netstat_inet`. */
  method ParseNetstatInet(output: bytes) returns (entries: seq<FibEntry>)
    ensures entries == Table(output)
  {
    hide Destination, Lines;
    var lines := Lines(output);
    entries := [];
    for i := 0 to |lines|
      invariant entries == Entries(lines[..i])
    {
      assert lines[..i + 1] == lines[..i] + [lines[i]];
      EntriesConcat(lines[..i], [lines[i]]);
      OneEntry(lines[i]);
      var fields := Words.Words(lines[i]);
      if |fields| < 4 {
        continue;
      }
      var destination := ParseDestination(fields[0]);
      if destination.None? {
        continue;
      }
      entries := entries + [FibEntry(destination.value, fields[1], fields[2], fields[3])];
    }
    assert lines[..|lines|] == lines;
  }

  lemma OneEntry(line: bytes)
    ensures Entries([line]) == match Entry(line) case None => [] case Some(e) => [e]
  {
    hide Entry;
    assert Entries([line][1..]) == [];
  }

  /** A column is one word. */
  predicate Column(w: bytes) {
    w != [] && Words.NoSpace(w)
  }

  predicate Printable(e: FibEntry) {
    ValidNet(e.destination) && Column(e.gateway) && Column(e.flags) && Column(e.netif)
  }

  function Spaces(n: nat): bytes {
    if n == 0 then [] else [Words.SPACE] + Spaces(n - 1)
  }

  function Field(w: bytes, gap: nat, rest: bytes): bytes {
    w + ([Words.SPACE] + (Spaces(gap) + rest))
  }

  /** One row: its columns with at least a space between them, then whatever else is on the line. */
  function Row(e: FibEntry, gaps: (nat, nat, nat), tail: bytes): bytes
    requires ValidNet(e.destination)
  {
    Field(Abbreviate(e.destination), gaps.0, Field(e.gateway, gaps.1, Field(e.flags, gaps.2, e.netif + tail)))
  }

  lemma FieldWords(w: bytes, gap: nat, rest: bytes)
    requires Column(w)
    ensures Words.Words(Field(w, gap, rest)) == [w] + Words.Words(rest)
  {
    hide Words.Words, Words.NoSpace, Spaces;
    Words.FirstWord(w, Spaces(gap) + rest);
    WordsAfterSpaces(gap, rest);
  }

  lemma {:induction false} WordsAfterSpaces(n: nat, rest: bytes)
    ensures Words.Words(Spaces(n) + rest) == Words.Words(rest)
  {
    if n == 0 {
      assert Spaces(0) + rest == rest;
    } else {
      assert Spaces(n) + rest == [Words.SPACE] + (Spaces(n - 1) + rest);
      Words.LeadingSpace(Spaces(n - 1) + rest);
      WordsAfterSpaces(n - 1, rest);
    }
  }

  lemma {:induction false} JoinIsGraphic(parts: seq<bytes>)
    requires forall k, i :: 0 <= k < |parts| && 0 <= i < |parts[k]| ==> 0x20 < parts[k][i] < 0x80
    ensures forall i :: 0 <= i < |Join(parts, DOT)| ==> 0x20 < Join(parts, DOT)[i] < 0x80
  {
    if |parts| > 1 {
      assert forall k, i :: 0 <= k < |parts[1..]| && 0 <= i < |parts[1..][k]| ==> 0x20 < parts[1..][k][i] < 0x80;
      JoinIsGraphic(parts[1..]);
    }
  }

  lemma AbbreviationIsWord(n: Net)
    requires ValidNet(n)
    ensures Column(Abbreviate(n))
  {
    hide Words.NoSpace, Digits, Join, OctetText, Printed;
    var k := Printed(n.octets);
    var parts := OctetParts(n.octets[..k]);
    JoinIsGraphic(parts);
    OctetPartsAre(n.octets, k);
    DefaultIsNoAddress(parts);
    var token := Abbreviate(n);
    forall i | 0 <= i < |token| ensures 0x20 < token[i] < 0x80 {}
    Words.GraphicNoSpace(token);
  }

  lemma RowReadsBack(e: FibEntry, gaps: (nat, nat, nat), tail: bytes)
    requires Printable(e) && (tail == [] || tail[0] == Words.SPACE)
    ensures Entry(Row(e, gaps, tail)) == Some(e)
  {
    hide Words.Words, Words.NoSpace, Field, Abbreviate, Destination;
    AbbreviationIsWord(e.destination);
    AbbreviationReadsBack(e.destination);
    var r3 := e.netif + tail;
    var r2 := Field(e.flags, gaps.2, r3);
    var r1 := Field(e.gateway, gaps.1, r2);
    Words.WordsStep(e.netif, tail);
    FieldWords(e.flags, gaps.2, r3);
    FieldWords(e.gateway, gaps.1, r2);
    FieldWords(Abbreviate(e.destination), gaps.0, r1);
  }

  /** A row as it is printed: the entry, the gaps, the rest of the line. */
  datatype Printing = Printing(entry: FibEntry, gaps: (nat, nat, nat), tail: bytes)

  predicate OnOneLine(p: Printing) {
    && Printable(p.entry) && (p.tail == [] || p.tail[0] == Words.SPACE)
    && var row := Row(p.entry, p.gaps, p.tail); NEWLINE !in row && RETURN !in row
  }

  function PrintedTable(rows: seq<Printing>): bytes
    requires forall k :: 0 <= k < |rows| ==> OnOneLine(rows[k])
  {
    if rows == [] then []
    else
      assert OnOneLine(rows[0]);
      Row(rows[0].entry, rows[0].gaps, rows[0].tail) + [NEWLINE] + PrintedTable(rows[1..])
  }

  function RowEntries(rows: seq<Printing>): seq<FibEntry> {
    if rows == [] then [] else [rows[0].entry] + RowEntries(rows[1..])
  }

  /** A printed table gives back its entries, in order and nothing else. */
  lemma {:induction false} TableReadsBack(rows: seq<Printing>)
    requires forall k :: 0 <= k < |rows| ==> OnOneLine(rows[k])
    ensures Table(PrintedTable(rows)) == RowEntries(rows)
  {
    hide Lines, Row, Entry;
    if rows == [] {
      LinesOfNothing();
    } else {
      var p := rows[0];
      var row := Row(p.entry, p.gaps, p.tail);
      TableReadsBack(rows[1..]);
      OneLine(row);
      RowReadsBack(p.entry, p.gaps, p.tail);
      OneEntry(row);
      TableConcat(row + [NEWLINE], PrintedTable(rows[1..]));
    }
  }

  // --- the selection ------------------------------------------------------------------------

  /** `is_interface_scoped_utun_route`. */
  predicate IsInterfaceScopedUtunRoute(e: FibEntry) {
    TUN_IF_PREFIX <= e.netif && e.gateway == e.netif && STATIC in e.flags
  }

  /** `stale_utun_routes`. */
  function StaleUtunRoutes(entries: seq<FibEntry>, live: bytes -> bool): seq<FibEntry> {
    if entries == [] then []
    else
      var rest := StaleUtunRoutes(entries[1..], live);
      if IsInterfaceScopedUtunRoute(entries[0]) && !live(entries[0].netif) then [entries[0]] + rest else rest
  }

  /** Each row is kept or dropped on its own, so what is kept keeps its order. */
  lemma {:induction false} StaleConcat(a: seq<FibEntry>, b: seq<FibEntry>, live: bytes -> bool)
    ensures StaleUtunRoutes(a + b, live) == StaleUtunRoutes(a, live) + StaleUtunRoutes(b, live)
  {
    hide IsInterfaceScopedUtunRoute;
    if a == [] {
      assert a + b == b;
    } else {
      assert (a + b)[1..] == a[1..] + b;
      StaleConcat(a[1..], b, live);
    }
  }

  lemma ShapeByText(e: FibEntry)
    ensures IsInterfaceScopedUtunRoute(e) <==> Ascii("utun") <= e.netif && e.gateway == e.netif && Ascii("S")[0] in e.flags
  {
    assert TUN_IF_PREFIX == Ascii("utun");
  }

  /** A row is picked, as often as it occurs, exactly when it has the engine's shape and its interface is
      gone: none on a live interface ever is. */
  lemma {:induction false} StaleExactly(entries: seq<FibEntry>, live: bytes -> bool, e: FibEntry)
    ensures multiset(StaleUtunRoutes(entries, live))[e]
         == if Ascii("utun") <= e.netif && e.gateway == e.netif && Ascii("S")[0] in e.flags && !live(e.netif)
            then multiset(entries)[e] else 0
  {
    hide IsInterfaceScopedUtunRoute;
    ShapeByText(e);
    if entries != [] {
      StaleExactly(entries[1..], live, e);
      assert entries == [entries[0]] + entries[1..];
    }
  }
}
