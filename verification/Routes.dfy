/** The advertised-route set: the rules a route set is judged by, the set that results, and the laws
    that make it a set. */
module Routes {
  import opened Bytes

  function Pow2(k: nat): (p: nat)
    ensures p >= 1
  {
    if k == 0 then 1 else 2 * Pow2(k - 1)
  }

  const TWO32: nat := 0x1_0000_0000
  const TWO64: nat := 0x1_0000_0000_0000_0000
  const TWO128: nat := 0x1_0000_0000_0000_0000_0000_0000_0000_0000

  datatype Prefix = V4(addr: nat, len: nat) | V6(addr: nat, len: nat)

  /** An `IpNet`: an address of its family and a prefix length the family allows. */
  type IpNet = p: Prefix | Proper(p) witness V4(0, 0)

  predicate Proper(p: Prefix) {
    match p
    case V4(a, n) => a < TWO32 && n <= 32
    case V6(a, n) => a < TWO128 && n <= 128
  }

  const ALL_IPV4: IpNet := V4(0, 0)
  const ALL_IPV6: IpNet := V6(0, 0)

  /** The upper 64 bits of the 4via6 range. */
  const VIA_RANGE: nat := 0xFD7A_115C_A1E0_0B1A

  function HostBits(p: Prefix): nat {
    match p
    case V4(_, n) => if n <= 32 then 32 - n else 0
    case V6(_, n) => if n <= 128 then 128 - n else 0
  }

  /** `IpNet::trunc`: the host bits cleared. */
  function Masked(p: IpNet): (m: IpNet)
  {
    var host := p.addr % Pow2(HostBits(p));
    ModBelow(p.addr, Pow2(HostBits(p)));
    match p
    case V4(a, n) => V4(a - host, n)
    case V6(a, n) => V6(a - host, n)
  }

  lemma ModBelow(a: nat, m: nat)
    requires m >= 1
    ensures 0 <= a % m <= a
  {
  }

  predicate IsVia(p: IpNet) {
    p.V6? && p.addr / TWO64 == VIA_RANGE
  }

  function SiteId(p: IpNet): nat {
    p.addr / TWO32 % TWO32
  }

  datatype ViaError = NotVia | TooShort | BadSite(id: nat)

  function ValidateVia(p: IpNet): Option<ViaError> {
    if !IsVia(p) then Some(NotVia)
    else if p.len < 96 then Some(TooShort)
    else if SiteId(p) > 0xFFFF then Some(BadSite(SiteId(p)))
    else None
  }

  datatype RouteError =
    | Unparsable(text: bytes)
    | NonMasked(route: IpNet, masked: IpNet)
    | Via(net: IpNet, why: ViaError)
    | LoneDefault(have: IpNet, want: IpNet)

  /** `refused_by_go_config_path`. */
  predicate GoRefuses(e: RouteError) {
    e.NonMasked? || e.Unparsable?
  }

  // --- the rules ----------------------------------------------------------------------------

  /** The first rule one route breaks. */
  function Fault(parse: bytes -> Option<IpNet>, s: bytes): Option<RouteError> {
    match parse(s)
    case None => Some(Unparsable(s))
    case Some(net) =>
      if Masked(net) != net then Some(NonMasked(net, Masked(net)))
      else if IsVia(net) && ValidateVia(net).Some? then Some(Via(net, ValidateVia(net).value))
      else None
  }

  /** One error for each bad route, in input order. */
  function Faults(parse: bytes -> Option<IpNet>, routes: seq<bytes>): seq<RouteError> {
    if routes == [] then []
    else
      var rest := Faults(parse, routes[1..]);
      match Fault(parse, routes[0]) case None => rest case Some(e) => [e] + rest
  }

  /** The good routes, in input order. */
  function Good(parse: bytes -> Option<IpNet>, routes: seq<bytes>): seq<IpNet> {
    if routes == [] then []
    else
      var rest := Good(parse, routes[1..]);
      if Fault(parse, routes[0]).None? then [parse(routes[0]).value] + rest else rest
  }

  /** The set the rules are asked of: the exit-node flag contributes its two default routes. */
  function Composed(parse: bytes -> Option<IpNet>, routes: seq<bytes>, exitNode: bool): seq<IpNet> {
    Good(parse, routes) + if exitNode then [ALL_IPV4, ALL_IPV6] else []
  }

  /** The half exit node: one default route without the other. */
  function LoneDefaults(nets: seq<IpNet>): seq<RouteError> {
    if ALL_IPV4 in nets && ALL_IPV6 !in nets then [LoneDefault(ALL_IPV4, ALL_IPV6)]
    else if ALL_IPV6 in nets && ALL_IPV4 !in nets then [LoneDefault(ALL_IPV6, ALL_IPV4)]
    else []
  }

  function Errors(parse: bytes -> Option<IpNet>, routes: seq<bytes>, exitNode: bool): seq<RouteError> {
    Faults(parse, routes) + LoneDefaults(Composed(parse, routes, exitNode))
  }

  // --- the order ----------------------------------------------------------------------------

  /** Prefix length, then address; every IPv4 address is below every IPv6 one. */
  predicate Less(a: IpNet, b: IpNet) {
    a.len < b.len || (a.len == b.len && ((a.V4? && b.V6?) || (a.V4? == b.V4? && a.addr < b.addr)))
  }

  predicate Increasing(s: seq<IpNet>) {
    forall i, j :: 0 <= i < j < |s| ==> Less(s[i], s[j])
  }

  predicate Ascending(s: seq<IpNet>) {
    forall i, j :: 0 <= i < j < |s| ==> !Less(s[j], s[i])
  }

  /** Stable insertion, as `sort_by` orders. */
  function Insert(p: IpNet, s: seq<IpNet>): seq<IpNet> {
    if s == [] then [p] else if Less(s[0], p) then [s[0]] + Insert(p, s[1..]) else [p] + s
  }

  function Sort(s: seq<IpNet>): seq<IpNet> {
    if s == [] then [] else Insert(s[0], Sort(s[1..]))
  }

  /** `Vec::dedup`: drops an element equal to the one before it. */
  function Dedup(s: seq<IpNet>): seq<IpNet> {
    if |s| <= 1 then s else if s[0] == s[1] then Dedup(s[1..]) else [s[0]] + Dedup(s[1..])
  }

  /** `calc_advertise_routes`. */
  function Calc(parse: bytes -> Option<IpNet>, routes: seq<bytes>, exitNode: bool): Result<seq<IpNet>, seq<RouteError>> {
    var errors := Errors(parse, routes, exitNode);
    if errors != [] then Err(errors) else Ok(Dedup(Sort(Composed(parse, routes, exitNode))))
  }

  // --- sorting and deduplication give the set -----------------------------------------------

  lemma {:induction false} InsertIsSorted(p: IpNet, s: seq<IpNet>)
    requires Ascending(s)
    ensures Ascending(Insert(p, s)) && forall x :: x in Insert(p, s) <==> x == p || x in s
  {
    if s != [] && Less(s[0], p) {
      InsertIsSorted(p, s[1..]);
      var r := Insert(p, s[1..]);
      forall j | 0 < j < |[s[0]] + r| ensures !Less(([s[0]] + r)[j], s[0]) {
        assert ([s[0]] + r)[j] in r;
      }
      assert s == [s[0]] + s[1..];
    }
  }

  lemma {:induction false} SortIsSorted(s: seq<IpNet>)
    ensures Ascending(Sort(s)) && forall x :: x in Sort(s) <==> x in s
  {
    if s != [] {
      SortIsSorted(s[1..]);
      InsertIsSorted(s[0], Sort(s[1..]));
      assert s == [s[0]] + s[1..];
    }
  }

  lemma {:induction false} DedupIsIncreasing(s: seq<IpNet>)
    requires Ascending(s)
    ensures Increasing(Dedup(s)) && forall x :: x in Dedup(s) <==> x in s
  {
    if |s| > 1 {
      DedupIsIncreasing(s[1..]);
      assert s == [s[0]] + s[1..];
      var r := Dedup(s[1..]);
      if s[0] != s[1] {
        forall x | x in r ensures Less(s[0], x) {
          assert x in s[1..];
          var k :| 1 <= k < |s| && s[k] == x;
          assert Less(s[0], s[1]) && !Less(s[k], s[1]);
        }
      } else {
        assert s[1] in s[1..];
      }
    }
  }

  /** A strictly increasing list is determined by its elements. */
  lemma {:induction false} IncreasingUnique(a: seq<IpNet>, b: seq<IpNet>)
    requires Increasing(a) && Increasing(b) && forall x :: x in a <==> x in b
    ensures a == b
  {
    if a == [] || b == [] {
      if b != [] { HasMember(b); }
      if a != [] { HasMember(a); }
    } else {
      assert a[0] in b && b[0] in a;
      assert a[0] == b[0];
      forall x | x in a[1..] ensures x in b[1..] { TailMember(a, b, x); }
      forall x | x in b[1..] ensures x in a[1..] { TailMember(b, a, x); }
      IncreasingUnique(a[1..], b[1..]);
      assert a == [a[0]] + a[1..] && b == [b[0]] + b[1..];
    }
  }

  lemma HasMember(s: seq<IpNet>)
    requires s != []
    ensures exists x :: x in s
  {
    assert s[0] in s;
  }

  lemma TailMember(a: seq<IpNet>, b: seq<IpNet>, x: IpNet)
    requires Increasing(a) && a != [] && b != [] && a[0] == b[0] && x in a[1..] && (forall y :: y in a ==> y in b)
    ensures x in b[1..]
  {
    var k :| 1 <= k < |a| && a[k] == x;
    assert a[k] in a;
    var j :| 0 <= j < |b| && b[j] == x;
    assert Less(a[0], a[k]);
    assert b[1..][j - 1] == x;
  }

  /** On success: the strictly increasing list of exactly the composed prefixes, and the only one. */
  lemma CalcIsTheSet(parse: bytes -> Option<IpNet>, routes: seq<bytes>, exitNode: bool, list: seq<IpNet>)
    requires Errors(parse, routes, exitNode) == []
    ensures Calc(parse, routes, exitNode) == Ok(list) <==>
            Increasing(list) && forall x :: x in list <==> x in Composed(parse, routes, exitNode)
  {
    var nets := Composed(parse, routes, exitNode);
    var result := Dedup(Sort(nets));
    hide Composed, Errors, Sort, Dedup, Increasing, Ascending;
    SortIsSorted(nets);
    DedupIsIncreasing(Sort(nets));
    if Increasing(list) && forall x :: x in list <==> x in nets {
      IncreasingUnique(list, result);
    }
  }

  // --- errors -------------------------------------------------------------------------------

  lemma {:induction false} GoodMembers(parse: bytes -> Option<IpNet>, routes: seq<bytes>, x: IpNet)
    ensures x in Good(parse, routes) <==> exists s :: s in routes && Fault(parse, s).None? && parse(s) == Some(x)
  {
    hide Masked, IsVia, ValidateVia;
    if routes != [] {
      assert routes == [routes[0]] + routes[1..];
      assert forall s :: s in routes <==> s == routes[0] || s in routes[1..];
      GoodMembers(parse, routes[1..], x);
    }
  }

  lemma {:induction false} FaultMembers(parse: bytes -> Option<IpNet>, routes: seq<bytes>, e: RouteError)
    ensures e in Faults(parse, routes) <==> exists s :: s in routes && Fault(parse, s) == Some(e)
  {
    hide Fault;
    if routes != [] {
      assert routes == [routes[0]] + routes[1..];
      assert forall s :: s in routes <==> s == routes[0] || s in routes[1..];
      FaultMembers(parse, routes[1..], e);
    }
  }

  lemma {:induction false} OnePerRoute(parse: bytes -> Option<IpNet>, routes: seq<bytes>)
    ensures |Faults(parse, routes)| + |Good(parse, routes)| == |routes|
    ensures Faults(parse, routes) == [] <==> forall s :: s in routes ==> Fault(parse, s).None?
  {
    hide Fault;
    if routes != [] {
      assert routes == [routes[0]] + routes[1..];
      OnePerRoute(parse, routes[1..]);
    }
  }

  /** The rules hold exactly when every route is good and the composed set names both defaults or
      neither. */
  lemma OkWhen(parse: bytes -> Option<IpNet>, routes: seq<bytes>, exitNode: bool)
    ensures Calc(parse, routes, exitNode).Ok? <==>
            && (forall s :: s in routes ==> Fault(parse, s).None?)
            && (ALL_IPV4 in Composed(parse, routes, exitNode) <==> ALL_IPV6 in Composed(parse, routes, exitNode))
  {
    hide Fault, Composed, Sort, Dedup;
    OnePerRoute(parse, routes);
  }

  /** The verdict and the set depend on which routes are listed, not on their order or repetition. */
  lemma OnlyTheSetMatters(parse: bytes -> Option<IpNet>, r1: seq<bytes>, r2: seq<bytes>, exitNode: bool)
    requires forall s :: s in r1 <==> s in r2
    ensures Calc(parse, r1, exitNode).Ok? == Calc(parse, r2, exitNode).Ok?
    ensures Calc(parse, r1, exitNode).Ok? ==> Calc(parse, r1, exitNode) == Calc(parse, r2, exitNode)
  {
    forall x ensures x in Good(parse, r1) <==> x in Good(parse, r2) {
      GoodMembers(parse, r1, x);
      GoodMembers(parse, r2, x);
    }
    OkWhen(parse, r1, exitNode);
    OkWhen(parse, r2, exitNode);
    hide Fault, Good, Sort, Dedup, Increasing;
    if Calc(parse, r1, exitNode).Ok? {
      CalcIsTheSet(parse, r1, exitNode, Calc(parse, r1, exitNode).value);
      CalcIsTheSet(parse, r2, exitNode, Calc(parse, r1, exitNode).value);
    }
  }

  /** Every advertised prefix is masked, and decodes if it is in the 4via6 range; the two default
      routes appear together, and always when the exit-node flag is on. */
  lemma Advertised(parse: bytes -> Option<IpNet>, routes: seq<bytes>, exitNode: bool, p: IpNet)
    requires Calc(parse, routes, exitNode).Ok?
    ensures var list := Calc(parse, routes, exitNode).value;
            && (ALL_IPV4 in list <==> ALL_IPV6 in list)
            && (exitNode ==> ALL_IPV4 in list)
            && (p in list ==> Masked(p) == p && (IsVia(p) ==> p.len >= 96 && SiteId(p) <= 0xFFFF))
  {
    hide Sort, Dedup, Increasing, Errors, Good, Masked, SiteId;
    var list := Calc(parse, routes, exitNode).value;
    CalcOkNoErrors(parse, routes, exitNode);
    CalcIsTheSet(parse, routes, exitNode, list);
    OkWhen(parse, routes, exitNode);
    GoodMembers(parse, routes, p);
    DefaultsAreMasked();
  }

  lemma CalcOkNoErrors(parse: bytes -> Option<IpNet>, routes: seq<bytes>, exitNode: bool)
    requires Calc(parse, routes, exitNode).Ok?
    ensures Errors(parse, routes, exitNode) == []
  {
  }

  lemma DefaultsAreMasked()
    ensures Masked(ALL_IPV4) == ALL_IPV4 && Masked(ALL_IPV6) == ALL_IPV6 && !IsVia(ALL_IPV6)
  {
    MaskedZero(ALL_IPV4);
    MaskedZero(ALL_IPV6);
    hide Masked;
  }

  lemma MaskedZero(p: IpNet)
    requires p.addr == 0
    ensures Masked(p) == p
  {
    hide Pow2, HostBits;
    assert p.addr % Pow2(HostBits(p)) == 0;
  }

  // --- whose rule it is ---------------------------------------------------------------------

  function GoRules(errors: seq<RouteError>): seq<RouteError> {
    if errors == [] then [] else (if GoRefuses(errors[0]) then [errors[0]] else []) + GoRules(errors[1..])
  }

  function OurRules(errors: seq<RouteError>): seq<RouteError> {
    if errors == [] then [] else (if GoRefuses(errors[0]) then [] else [errors[0]]) + OurRules(errors[1..])
  }

  lemma {:induction false} GoRulesMember(errors: seq<RouteError>)
    ensures GoRules(errors) == [] <==> forall e :: e in errors ==> !GoRefuses(e)
    ensures OurRules(errors) == [] <==> forall e :: e in errors ==> GoRefuses(e)
    ensures |GoRules(errors)| + |OurRules(errors)| == |errors|
  {
    if errors != [] {
      assert errors == [errors[0]] + errors[1..];
      GoRulesMember(errors[1..]);
    }
  }

  /** Go's own config path accepts a route list when every entry parses and is masked. */
  predicate GoAccepts(parse: bytes -> Option<IpNet>, routes: seq<bytes>) {
    forall s :: s in routes ==> parse(s).Some? && Masked(parse(s).value) == parse(s).value
  }

  /** The block reported in Go's words is empty exactly when Go would load the same list. */
  lemma GoBlockIsGos(parse: bytes -> Option<IpNet>, routes: seq<bytes>, exitNode: bool)
    ensures GoRules(Errors(parse, routes, exitNode)) == [] <==> GoAccepts(parse, routes)
  {
    var errors := Errors(parse, routes, exitNode);
    GoRulesMember(errors);
    hide Masked, IsVia, ValidateVia, Composed, GoRules, Faults;
    forall e | e in errors && GoRefuses(e) ensures !GoAccepts(parse, routes) {
      FaultMembers(parse, routes, e);
    }
    forall s | s in routes && !(parse(s).Some? && Masked(parse(s).value) == parse(s).value)
      ensures exists e :: e in errors && GoRefuses(e)
    {
      var e := Fault(parse, s).value;
      FaultMembers(parse, routes, e);
      assert e in errors && GoRefuses(e);
    }
  }

  // --- the source's loop --------------------------------------------------------------------

  lemma FaultsAppend(parse: bytes -> Option<IpNet>, routes: seq<bytes>, i: nat)
    requires i < |routes|
    ensures var f := Fault(parse, routes[i]);
            && Faults(parse, routes[..i + 1]) == Faults(parse, routes[..i]) + (if f.Some? then [f.value] else [])
            && Good(parse, routes[..i + 1]) == Good(parse, routes[..i]) + (if f.None? then [parse(routes[i]).value] else [])
  {
    assert routes[..i + 1] == routes[..i] + [routes[i]];
    FaultsConcat(parse, routes[..i], routes[i]);
  }

  lemma {:induction false} FaultsConcat(parse: bytes -> Option<IpNet>, a: seq<bytes>, s: bytes)
    ensures var f := Fault(parse, s);
            && Faults(parse, a + [s]) == Faults(parse, a) + (if f.Some? then [f.value] else [])
            && Good(parse, a + [s]) == Good(parse, a) + (if f.None? then [parse(s).value] else [])
  {
    hide Fault;
    if a == [] {
      assert a + [s] == [s] && [s][1..] == [];
    } else {
      assert (a + [s])[1..] == a[1..] + [s];
      FaultsConcat(parse, a[1..], s);
    }
  }

  /** `calc_advertise_routes`, collecting every error. */
  method CalcAdvertiseRoutes(parse: bytes -> Option<IpNet>, advertiseRoutes: seq<bytes>, advertiseExitNode: bool)
    returns (r: Result<seq<IpNet>, seq<RouteError>>)
    ensures r == Calc(parse, advertiseRoutes, advertiseExitNode)
  {
    hide Masked, IsVia, ValidateVia, Faults, Good, Sort, Dedup;
    var errors: seq<RouteError> := [];
    var nets: seq<IpNet> := [];
    var default4, default6 := false, false;
    NoRoutes(parse);
    for i := 0 to |advertiseRoutes|
      invariant errors == Faults(parse, advertiseRoutes[..i]) && nets == Good(parse, advertiseRoutes[..i])
      invariant (default4 <==> ALL_IPV4 in nets) && (default6 <==> ALL_IPV6 in nets)
    {
      FaultsAppend(parse, advertiseRoutes, i);
      var s := advertiseRoutes[i];
      var parsed := parse(s);
      if parsed.None? {
        errors := errors + [Unparsable(s)];
        continue;
      }
      var net := parsed.value;
      var masked := Masked(net);
      if masked != net {
        errors := errors + [NonMasked(net, masked)];
        continue;
      }
      if IsVia(net) && ValidateVia(net).Some? {
        errors := errors + [Via(net, ValidateVia(net).value)];
        continue;
      }
      if net == ALL_IPV4 {
        default4 := true;
      } else if net == ALL_IPV6 {
        default6 := true;
      }
      nets := nets + [net];
    }
    assert advertiseRoutes[..|advertiseRoutes|] == advertiseRoutes;
    if advertiseExitNode {
      default4 := true;
      default6 := true;
      nets := nets + [ALL_IPV4];
      nets := nets + [ALL_IPV6];
    }
    assert nets == Composed(parse, advertiseRoutes, advertiseExitNode);
    assert errors + [] == errors;
    if default4 != default6 {
      var have, want := ALL_IPV4, ALL_IPV6;
      if !default4 {
        have, want := ALL_IPV6, ALL_IPV4;
      }
      errors := errors + [LoneDefault(have, want)];
    }
    if errors != [] {
      return Err(errors);
    }
    nets := Sort(nets);
    nets := Dedup(nets);
    return Ok(nets);
  }

  lemma NoRoutes(parse: bytes -> Option<IpNet>)
    ensures Faults(parse, []) == [] && Good(parse, []) == []
  {
  }
}
