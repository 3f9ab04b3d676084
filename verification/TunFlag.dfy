/** The `--tun` value: a list of interfaces, the first usable one taken. */
module TunFlag {
  import opened Bytes
  import opened Text

  const COMMA: byte := 0x2C
  const USERSPACE_NETWORKING: bytes := Ascii("userspace-networking")
  const DARWIN: bytes := Ascii("darwin")
  const UTUN: bytes := Ascii("utun")
  const TAP: bytes := Ascii("tap:")

  datatype TunTransport = Netstack | Tun(name: Option<bytes>)

  datatype Reason = EmptyName | TapUnsupported | NoTunFeature | NeedsRoot

  datatype Refusal = DarwinRootRefusal | NoValue | NoneUsable(reasons: seq<(bytes, Reason)>)

  /** What a value is resolved against: the build, the system, the effective uid. */
  datatype Host = Host(tunFeature: bool, goos: bytes, euid: nat)

  /** `str::contains`. */
  predicate Contains(s: bytes, part: bytes) {
    exists i | 0 <= i <= |s| :: part <= s[i..]
  }

  predicate RefusedOnDarwin(value: bytes, h: Host) {
    h.goos == DARWIN && h.euid != 0 && !Contains(value, USERSPACE_NETWORKING)
  }

  /** `kernel_tun_privilege`. */
  predicate MayCreateTun(h: Host) {
    !(h.goos == DARWIN && h.euid != 0)
  }

  /** `candidate`. */
  function Candidate(name: bytes, h: Host): Result<TunTransport, Reason> {
    if name == USERSPACE_NETWORKING then Ok(Netstack)
    else if name == [] then Err(EmptyName)
    else if TAP <= name then Err(TapUnsupported)
    else if !h.tunFeature then Err(NoTunFeature)
    else if !MayCreateTun(h) then Err(NeedsRoot)
    else Ok(Tun(if h.goos == DARWIN && name == UTUN then None else Some(name)))
  }

  /** Every entry is unusable, for these reasons in this order. */
  predicate AllFail(names: seq<bytes>, h: Host, reasons: seq<(bytes, Reason)>) {
    |reasons| == |names|
    && forall k :: 0 <= k < |names| ==> reasons[k].0 == names[k] && Candidate(names[k], h) == Err(reasons[k].1)
  }

  /** Entry `k` is the first usable one. */
  predicate FirstUsable(names: seq<bytes>, h: Host, k: nat, t: TunTransport) {
    && k < |names| && Candidate(names[k], h) == Ok(t)
    && forall j :: 0 <= j < k ==> Candidate(names[j], h).Err?
  }

  /** What a value has to resolve to: the two refusals of the value as a whole first, then the first
      usable entry, or else the reasons of all of them. */
  predicate Resolves(value: bytes, h: Host, r: Result<TunTransport, Refusal>) {
    var names := Split(value, COMMA);
    if RefusedOnDarwin(value, h) then r == Err(DarwinRootRefusal)
    else if value == [] then r == Err(NoValue)
    else match r
      case Ok(t) => exists k | 0 <= k < |names| :: FirstUsable(names, h, k, t)
      case Err(e) => e.NoneUsable? && AllFail(names, h, e.reasons)
  }

  /** `resolve_with`. */
  method ResolveWith(value: bytes, h: Host) returns (r: Result<TunTransport, Refusal>)
    ensures Resolves(value, h, r)
  {
    hide Split, Candidate, RefusedOnDarwin;
    if RefusedOnDarwin(value, h) {
      return Err(DarwinRootRefusal);
    }
    if value == [] {
      return Err(NoValue);
    }
    var reasons: seq<(bytes, Reason)> := [];
    var names := Split(value, COMMA);
    for i := 0 to |names|
      invariant |reasons| == i
      invariant forall k :: 0 <= k < i ==> reasons[k].0 == names[k] && Candidate(names[k], h) == Err(reasons[k].1)
    {
      match Candidate(names[i], h) {
        case Ok(t) =>
          assert FirstUsable(names, h, i, t);
          return Ok(t);
        case Err(why) => reasons := reasons + [(names[i], why)];
      }
    }
    return Err(NoneUsable(reasons));
  }

  /** A value resolves in one way only. */
  lemma ResolvesOnce(value: bytes, h: Host, r: Result<TunTransport, Refusal>, r': Result<TunTransport, Refusal>)
    requires Resolves(value, h, r) && Resolves(value, h, r')
    ensures r == r'
  {
    hide Split, Candidate, RefusedOnDarwin;
    if r.Err? && r'.Err? && r.error.NoneUsable? && r'.error.NoneUsable? {
      assert r.error.reasons == r'.error.reasons;
    }
  }

  // --- laws ---------------------------------------------------------------------------------

  /** A kernel device is promised only to a build that has one and, on darwin, only to root; and it is one
      of the entries. */
  lemma TunNeedsBuildAndRoot(value: bytes, h: Host, name: Option<bytes>)
    requires Resolves(value, h, Ok(Tun(name)))
    ensures h.tunFeature && (h.goos == DARWIN ==> h.euid == 0)
    ensures match name
            case Some(n) => n in Split(value, COMMA) && n != [] && !(TAP <= n) && n != USERSPACE_NETWORKING
            case None => h.goos == DARWIN && UTUN in Split(value, COMMA)
  {
    hide Split, RefusedOnDarwin;
  }

  lemma {:induction false} PartIsContained(s: bytes, b: byte, part: bytes)
    requires part in Split(s, b)
    ensures Contains(s, part)
    decreases |s|
  {
    var i := IndexOf(s, b);
    if part == s[..i] {
      assert part <= s[0..];
    } else {
      var rest := s[i + 1..];
      PartIsContained(rest, b, part);
      var j :| 0 <= j <= |rest| && part <= rest[j..];
      assert s[i + 1 + j..] == rest[j..];
    }
  }

  lemma FallbackParts(value: bytes)
    ensures Split(value + [COMMA] + USERSPACE_NETWORKING, COMMA) == Split(value, COMMA) + [USERSPACE_NETWORKING]
    ensures Contains(value + [COMMA] + USERSPACE_NETWORKING, USERSPACE_NETWORKING)
  {
    var all := value + [COMMA] + USERSPACE_NETWORKING;
    hide Split, Contains;
    SplitConcat(value, COMMA, USERSPACE_NETWORKING);
    NameHasNoComma();
    PartIsContained(all, COMMA, USERSPACE_NETWORKING);
  }

  lemma NameHasNoComma()
    ensures COMMA !in USERSPACE_NETWORKING && Split(USERSPACE_NETWORKING, COMMA) == [USERSPACE_NETWORKING]
  {
    assert COMMA !in USERSPACE_NETWORKING;
    SplitWhole(USERSPACE_NETWORKING, COMMA);
  }

  /** With the netstack put at the end of any list, on any host, the value resolves; and the end is only
      reached when no entry before it is usable. */
  lemma FallbackAlwaysResolves(value: bytes, h: Host, r: Result<TunTransport, Refusal>)
    requires Resolves(value + [COMMA] + USERSPACE_NETWORKING, h, r)
    ensures r.Ok?
    ensures (exists t, k :: FirstUsable(Split(value, COMMA), h, k, t) && r == Ok(t))
            || (r == Ok(Netstack) && forall k :: 0 <= k < |Split(value, COMMA)| ==> Candidate(Split(value, COMMA)[k], h).Err?)
  {
    hide Split, Contains;
    var all, names := value + [COMMA] + USERSPACE_NETWORKING, Split(value, COMMA);
    FallbackParts(value);
    var parts := Split(all, COMMA);
    assert parts[|names|] == USERSPACE_NETWORKING && Candidate(parts[|names|], h) == Ok(Netstack);
    hide Candidate;
    if r.Ok? {
      var k :| 0 <= k < |parts| && FirstUsable(parts, h, k, r.value);
      if k < |names| {
        assert parts[k] == names[k];
        forall j | 0 <= j < k ensures Candidate(names[j], h).Err? { assert parts[j] == names[j]; }
        assert FirstUsable(names, h, k, r.value);
      } else {
        forall j | 0 <= j < |names| ensures Candidate(names[j], h).Err? { assert parts[j] == names[j]; }
      }
    }
  }

  /** A value that resolves is not changed by the fallback. */
  lemma FallbackChangesNothing(value: bytes, h: Host, t: TunTransport)
    requires Resolves(value, h, Ok(t))
    ensures Resolves(value + [COMMA] + USERSPACE_NETWORKING, h, Ok(t))
  {
    hide Split, Contains, Candidate;
    var names, all := Split(value, COMMA), Split(value + [COMMA] + USERSPACE_NETWORKING, COMMA);
    FallbackParts(value);
    var k :| 0 <= k < |names| && FirstUsable(names, h, k, t);
    assert all[k] == names[k] && forall j :: 0 <= j < k ==> all[j] == names[j];
    assert FirstUsable(all, h, k, t);
  }

  /** For an unprivileged darwin process a value resolves exactly when the netstack is one of its entries.
      Naming it inside another entry passes the early check and is refused all the same. */
  lemma DarwinUnprivileged(value: bytes, h: Host, r: Result<TunTransport, Refusal>)
    requires h.goos == DARWIN && h.euid != 0 && Resolves(value, h, r)
    ensures r.Ok? <==> USERSPACE_NETWORKING in Split(value, COMMA)
    ensures r.Ok? ==> r == Ok(Netstack)
    ensures r == Err(DarwinRootRefusal) <==> !Contains(value, USERSPACE_NETWORKING)
    ensures r.Err? && r.error.NoneUsable? <==>
              Contains(value, USERSPACE_NETWORKING) && USERSPACE_NETWORKING !in Split(value, COMMA)
  {
    hide Split, Contains;
    var names := Split(value, COMMA);
    EmptyParts();
    if USERSPACE_NETWORKING in names {
      PartIsContained(value, COMMA, USERSPACE_NETWORKING);
    }
    forall k | 0 <= k < |names| ensures Candidate(names[k], h).Ok? <==> names[k] == USERSPACE_NETWORKING {}
  }

  lemma EmptyParts()
    ensures Split([], COMMA) == [[]] && !Contains([], USERSPACE_NETWORKING)
  {
  }

  /** An entry with a letter in front of the netstack's name. */
  const ALMOST: bytes := [0x78] + USERSPACE_NETWORKING

  lemma LetterInFront(name: bytes)
    requires COMMA !in name
    ensures var entry := [0x78] + name;
            && Contains(entry, name) && COMMA !in entry && entry != [] && entry != name && entry[0] == 0x78
  {
    var entry := [0x78] + name;
    assert entry[1..] == name;
    assert name <= entry[1..];
    assert |entry| == |name| + 1;
  }

  lemma TapStarts(s: bytes)
    ensures TAP <= s ==> s != [] && s[0] == 0x74
  {
  }

  lemma AlmostFacts()
    ensures Contains(ALMOST, USERSPACE_NETWORKING) && COMMA !in ALMOST && ALMOST != []
    ensures ALMOST != USERSPACE_NETWORKING && !(TAP <= ALMOST)
  {
    hide Contains, Split, TAP;
    NameHasNoComma();
    LetterInFront(USERSPACE_NETWORKING);
    TapStarts(ALMOST);
  }

  lemma AlmostFails(h: Host)
    requires h.tunFeature && h.goos == DARWIN && h.euid != 0
    ensures Candidate(ALMOST, h) == Err(NeedsRoot)
  {
    AlmostFacts();
  }

  lemma InsideAnotherEntry()
    ensures exists value: bytes, h: Host, reasons: seq<(bytes, Reason)> ::
              h.goos == DARWIN && h.euid != 0 && Contains(value, USERSPACE_NETWORKING)
              && Resolves(value, h, Err(NoneUsable(reasons)))
  {
    hide Split, Contains, Candidate;
    var value, h := ALMOST, Host(true, DARWIN, 501);
    AlmostFacts();
    AlmostFails(h);
    SplitWhole(value, COMMA);
    assert AllFail([value], h, [(value, NeedsRoot)]);
    assert Resolves(value, h, Err(NoneUsable([(value, NeedsRoot)])));
  }

  /** What one entry is, and why not: the netstack by its name; otherwise a device, unless the entry is empty
      or a TAP device, the build has no TUN, or an unprivileged darwin process asks, in that order. */
  lemma CandidateExactly(name: bytes, h: Host)
    ensures Candidate(name, h) == Ok(Netstack) <==> name == Ascii("userspace-networking")
    ensures name != Ascii("userspace-networking") ==>
              var root := h.goos == Ascii("darwin") ==> h.euid == 0;
              && (Candidate(name, h) == Err(EmptyName) <==> name == [])
              && (Candidate(name, h) == Err(TapUnsupported) <==> Ascii("tap:") <= name)
              && (Candidate(name, h) == Err(NoTunFeature) <==> name != [] && !(Ascii("tap:") <= name) && !h.tunFeature)
              && (Candidate(name, h) == Err(NeedsRoot) <==>
                    name != [] && !(Ascii("tap:") <= name) && h.tunFeature && !root)
              && (Candidate(name, h).Ok? <==> name != [] && !(Ascii("tap:") <= name) && h.tunFeature && root)
              && (Candidate(name, h).Ok? ==>
                    Candidate(name, h)
                    == Ok(Tun(if h.goos == Ascii("darwin") && name == Ascii("utun") then None else Some(name))))
  {
    TapStarts(name);
  }

  /** A value that is one usable device entry gives that device. */
  lemma DeviceIsGiven(name: bytes, h: Host)
    requires name != [] && !(TAP <= name) && COMMA !in name && name != USERSPACE_NETWORKING
    requires h.tunFeature && (h.goos == DARWIN ==> h.euid == 0)
    ensures Resolves(name, h, Ok(Tun(if h.goos == DARWIN && name == UTUN then None else Some(name))))
  {
    hide Split, Contains;
    SplitWhole(name, COMMA);
    CandidateExactly(name, h);
    assert FirstUsable([name], h, 0, Tun(if h.goos == DARWIN && name == UTUN then None else Some(name)));
  }

  lemma ContainsExactly(s: bytes, part: bytes)
    ensures Contains(s, part) <==> exists a, b :: s == a + part + b
  {
    if Contains(s, part) {
      var i :| 0 <= i <= |s| && part <= s[i..];
      assert s == s[..i] + part + s[i + |part|..];
    }
    forall a, b | s == a + part + b ensures Contains(s, part) {
      assert s[|a|..] == part + b;
    }
  }

  /** The two refusals of the whole value: an unprivileged darwin process whose value does not have the
      netstack's name in it, and otherwise an empty value. */
  lemma WholeRefusals(value: bytes, h: Host, r: Result<TunTransport, Refusal>)
    requires Resolves(value, h, r)
    ensures r == Err(DarwinRootRefusal) <==>
              h.goos == Ascii("darwin") && h.euid != 0 && !exists a, b :: value == a + Ascii("userspace-networking") + b
    ensures r == Err(NoValue) <==> value == [] && (h.goos == Ascii("darwin") ==> h.euid == 0)
  {
    hide Split, Contains, Candidate;
    ContainsExactly(value, USERSPACE_NETWORKING);
    EmptyParts();
  }
}
