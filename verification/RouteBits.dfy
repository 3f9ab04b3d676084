/** The route rules on the bits of an address: masking, the 4via6 range and its site ids, and the order, said
    without the functions that compute them. */
module RouteBits {
  import opened Bytes
  import opened Routes

  /** Bit `i` of an address, counted from its low end. */
  function AddrBit(a: nat, i: nat): nat {
    if i == 0 then a % 2 else AddrBit(a / 2, i - 1)
  }

  lemma HalfMod(a: nat, p: nat)
    requires p >= 1
    ensures a % (2 * p) == 2 * (a / 2 % p) + a % 2
  {
    var q, r: int := a / 2, a % 2;
    var q', m: int := q / p, q % p;
    assert q == q' * p + m && a == 2 * q + r;
    assert a == q' * (2 * p) + (2 * m + r);
    RemainderIs(a, 2 * p, q', 2 * m + r);
  }

  lemma RemainderIs(a: int, d: int, q: int, r: int)
    requires d >= 1 && a == q * d + r && 0 <= r < d
    ensures a % d == r
  {
    var q', r' := a / d, a % d;
    assert a == q' * d + r';
    assert (q' - q) * d == r - r';
    if q' - q >= 1 { AtLeast(q' - q, d); } else if q' - q <= -1 { AtLeast(q - q', d); }
  }

  lemma AtLeast(k: int, d: int)
    requires k >= 1 && d >= 1
    ensures k * d >= d && -k * d <= -d
  {
  }

  lemma {:induction false} ClearedBits(a: nat, k: nat, i: nat)
    ensures 0 <= a % Pow2(k) <= a
    ensures AddrBit(a - a % Pow2(k), i) == if i < k then 0 else AddrBit(a, i)
  {
    ModBelow(a, Pow2(k));
    if k > 0 {
      var p, q := Pow2(k - 1), a / 2;
      HalfMod(a, p);
      ModBelow(q, p);
      assert a - a % (2 * p) == 2 * (q - q % p);
      if i > 0 { ClearedBits(q, k - 1, i - 1); }
    }
  }

  lemma {:induction false} BitsDetermine(a: nat, b: nat)
    requires forall i: nat :: AddrBit(a, i) == AddrBit(b, i)
    ensures a == b
    decreases a + b
  {
    assert AddrBit(a, 0) == AddrBit(b, 0);
    if a != 0 || b != 0 {
      forall i: nat ensures AddrBit(a / 2, i) == AddrBit(b / 2, i) {
        assert AddrBit(a, i + 1) == AddrBit(b, i + 1);
      }
      BitsDetermine(a / 2, b / 2);
    }
  }

  /** How many bits of an address of this family stand behind the prefix. */
  function HostWidth(p: IpNet): int {
    (if p.V4? then 32 else 128) - p.len
  }

  lemma MaskedBit(p: IpNet, i: nat)
    ensures AddrBit(Masked(p).addr, i) == if i < HostWidth(p) then 0 else AddrBit(p.addr, i)
  {
    hide AddrBit, Pow2;
    ClearedBits(p.addr, HostBits(p), i);
  }

  lemma SamePrefix(p: IpNet, q: IpNet)
    requires p.V4? == q.V4? && p.len == q.len && p.addr == q.addr
    ensures p == q
  {
    match p case V4(_, _) => case V6(_, _) =>
  }

  lemma MaskedShape(p: IpNet)
    ensures Masked(p).V4? == p.V4? && Masked(p).len == p.len
  {
    hide Pow2;
  }

  /** These are the bits of the prefix, and clear behind it. */
  ghost predicate PrefixBits(p: IpNet, a: nat) {
    forall i: nat :: AddrBit(a, i) == if i < HostWidth(p) then 0 else AddrBit(p.addr, i)
  }

  lemma MaskedHasThem(p: IpNet)
    ensures PrefixBits(p, Masked(p).addr)
  {
    hide AddrBit, Masked;
    forall i: nat ensures AddrBit(Masked(p).addr, i) == if i < HostWidth(p) then 0 else AddrBit(p.addr, i) {
      MaskedBit(p, i);
    }
  }

  lemma OnlyOneHasThem(p: IpNet, a: nat, b: nat)
    requires PrefixBits(p, a) && PrefixBits(p, b)
    ensures a == b
  {
    hide AddrBit;
    BitsDetermine(a, b);
  }

  /** The masked prefix is the one of that family and length with every bit behind the prefix clear and every
      other bit as it was. */
  lemma MaskedByBits(p: IpNet, m: IpNet)
    ensures m == Masked(p) <==> m.V4? == p.V4? && m.len == p.len && PrefixBits(p, m.addr)
  {
    hide PrefixBits, Masked;
    MaskedShape(p);
    MaskedHasThem(p);
    if m.V4? == p.V4? && m.len == p.len && PrefixBits(p, m.addr) {
      OnlyOneHasThem(p, m.addr, Masked(p).addr);
      SamePrefix(m, Masked(p));
    }
  }

  predicate LowClear(p: IpNet) {
    forall i: nat :: i < HostWidth(p) ==> AddrBit(p.addr, i) == 0
  }

  /** Already masked: every bit behind the prefix is clear. */
  lemma MaskedExactly(p: IpNet)
    ensures Masked(p) == p <==> LowClear(p)
  {
    hide AddrBit, Masked;
    MaskedByBits(p, p);
    if LowClear(p) {
      forall i: nat ensures AddrBit(p.addr, i) == if i < HostWidth(p) then 0 else AddrBit(p.addr, i) {}
    }
    if Masked(p) == p {
      forall i: nat | i < HostWidth(p) ensures AddrBit(p.addr, i) == 0 { MaskedBit(p, i); }
    }
  }

  /** The bits of the prefix are the same. */
  ghost predicate SameLead(p: IpNet, q: IpNet) {
    forall i: nat :: i >= HostWidth(p) ==> AddrBit(p.addr, i) == AddrBit(q.addr, i)
  }

  /** Two addresses of one length mask alike exactly when they agree in the bits of the prefix. */
  lemma MaskAlike(p: IpNet, q: IpNet)
    requires p.V4? == q.V4? && p.len == q.len
    ensures Masked(p) == Masked(q) <==> SameLead(p, q)
  {
    hide AddrBit, Masked;
    MaskedShape(p);
    MaskedShape(q);
    MaskedHasThem(p);
    MaskedHasThem(q);
    if SameLead(p, q) {
      assert PrefixBits(p, Masked(q).addr);
      OnlyOneHasThem(p, Masked(p).addr, Masked(q).addr);
      SamePrefix(Masked(p), Masked(q));
    }
    if Masked(p) == Masked(q) {
      forall i: nat | i >= HostWidth(p) ensures AddrBit(p.addr, i) == AddrBit(q.addr, i) {
        MaskedBit(p, i);
        MaskedBit(q, i);
      }
    }
  }

  // --- the 4via6 range ----------------------------------------------------------------------

  /** `fd7a:115c:a1e0:b1a::/64`, from its first address to its last. */
  predicate InViaRange(p: IpNet) {
    p.V6? && 0xFD7A_115C_A1E0_0B1A_0000_0000_0000_0000 <= p.addr <= 0xFD7A_115C_A1E0_0B1A_FFFF_FFFF_FFFF_FFFF
  }

  lemma ViaExactly(p: IpNet)
    ensures IsVia(p) <==> InViaRange(p)
    ensures IsVia(p) ==> SiteId(p) == (p.addr - 0xFD7A_115C_A1E0_0B1A_0000_0000_0000_0000) / 0x1_0000_0000
    ensures IsVia(p) ==> (SiteId(p) <= 0xFFFF <==> p.addr <= 0xFD7A_115C_A1E0_0B1A_0000_FFFF_FFFF_FFFF)
  {
  }

  // --- the rules ----------------------------------------------------------------------------

  /** A prefix that may be advertised: its host bits are clear, and in the 4via6 range it is at least a /96
      with a site id of sixteen bits. */
  predicate MayAdvertise(p: IpNet) {
    LowClear(p) && (InViaRange(p) ==> p.len >= 96 && p.addr <= 0xFD7A_115C_A1E0_0B1A_0000_FFFF_FFFF_FFFF)
  }

  /** A route is good exactly when it is such a prefix, and otherwise it is told the first of: that it is no
      prefix, that host bits are set, that it is too short for a site, that its site is too large. */
  lemma FaultExactly(parse: bytes -> Option<IpNet>, s: bytes)
    ensures Fault(parse, s) == None <==> parse(s).Some? && MayAdvertise(parse(s).value)
    ensures parse(s).None? ==> Fault(parse, s) == Some(Unparsable(s))
    ensures parse(s).Some? ==>
              var p := parse(s).value;
              && (!LowClear(p) ==> Fault(parse, s) == Some(NonMasked(p, Masked(p))))
              && (LowClear(p) && InViaRange(p) && p.len < 96 ==> Fault(parse, s) == Some(Via(p, TooShort)))
              && (LowClear(p) && InViaRange(p) && p.len >= 96 && p.addr > 0xFD7A_115C_A1E0_0B1A_0000_FFFF_FFFF_FFFF ==>
                    Fault(parse, s)
                    == Some(Via(p, BadSite((p.addr - 0xFD7A_115C_A1E0_0B1A_0000_0000_0000_0000) / 0x1_0000_0000))))
  {
    hide Masked, LowClear;
    if parse(s).Some? {
      MaskedExactly(parse(s).value);
      ViaExactly(parse(s).value);
      hide SiteId, IsVia, InViaRange;
    }
  }

  /** What is advertised, from the addresses: every prefix may be, 0.0.0.0/0 is there exactly when ::/0 is,
      and the list goes up by length, then IPv4 before IPv6, then by address. */
  lemma AdvertisedByBits(parse: bytes -> Option<IpNet>, routes: seq<bytes>, exitNode: bool)
    requires Calc(parse, routes, exitNode).Ok?
    ensures var list := Calc(parse, routes, exitNode).value;
            && (V4(0, 0) in list <==> V6(0, 0) in list)
            && (forall p :: p in list ==> MayAdvertise(p))
            && forall i, j :: 0 <= i < j < |list| ==>
                 || list[i].len < list[j].len
                 || (list[i].len == list[j].len && list[i].V4? && list[j].V6?)
                 || (list[i].len == list[j].len && list[i].V4? == list[j].V4? && list[i].addr < list[j].addr)
  {
    hide Calc, Errors, Masked, LowClear, InViaRange, IsVia, SiteId;
    CalcOkNoErrors(parse, routes, exitNode);
    var list := Calc(parse, routes, exitNode).value;
    forall p | p in list ensures MayAdvertise(p) {
      Advertised(parse, routes, exitNode, p);
      MaskedExactly(p);
      ViaExactly(p);
    }
    Advertised(parse, routes, exitNode, V4(0, 0));
    CalcIsTheSet(parse, routes, exitNode, list);
  }

  /** The pairing error is there exactly when one default is named without the other, and says which. */
  lemma LoneDefaultExactly(nets: seq<IpNet>)
    ensures LoneDefaults(nets) ==
              if V4(0, 0) in nets && V6(0, 0) !in nets then [LoneDefault(V4(0, 0), V6(0, 0))]
              else if V6(0, 0) in nets && V4(0, 0) !in nets then [LoneDefault(V6(0, 0), V4(0, 0))]
              else []
  {
  }

  // --- the set ------------------------------------------------------------------------------

  /** A prefix the routes name, or a default of the exit-node flag. */
  predicate Named(parse: bytes -> Option<IpNet>, routes: seq<bytes>, exitNode: bool, p: IpNet) {
    (exitNode && (p == V4(0, 0) || p == V6(0, 0))) || exists i | 0 <= i < |routes| :: parse(routes[i]) == Some(p)
  }

  lemma ComposedIsNamed(parse: bytes -> Option<IpNet>, routes: seq<bytes>, exitNode: bool, p: IpNet)
    requires forall s :: s in routes ==> Fault(parse, s) == None
    ensures p in Composed(parse, routes, exitNode) <==> Named(parse, routes, exitNode, p)
  {
    hide Fault, Good;
    GoodMembers(parse, routes, p);
    forall i | 0 <= i < |routes| && parse(routes[i]) == Some(p)
      ensures exists s :: s in routes && Fault(parse, s).None? && parse(s) == Some(p)
    {
      assert routes[i] in routes;
    }
  }

  /** Success, and what is then advertised: every route is a prefix that may be, both defaults are named or
      neither, and the list holds just what is named. */
  lemma AdvertisedExactly(parse: bytes -> Option<IpNet>, routes: seq<bytes>, exitNode: bool, p: IpNet)
    ensures Calc(parse, routes, exitNode).Ok? <==>
              && (forall s :: s in routes ==> parse(s).Some? && MayAdvertise(parse(s).value))
              && (Named(parse, routes, exitNode, V4(0, 0)) <==> Named(parse, routes, exitNode, V6(0, 0)))
    ensures Calc(parse, routes, exitNode).Ok? ==>
              (p in Calc(parse, routes, exitNode).value <==> Named(parse, routes, exitNode, p))
  {
    hide Calc, Fault, Composed, Named, MayAdvertise, Errors;
    OkWhen(parse, routes, exitNode);
    forall s ensures Fault(parse, s) == None <==> parse(s).Some? && MayAdvertise(parse(s).value) {
      FaultExactly(parse, s);
    }
    if forall s :: s in routes ==> Fault(parse, s) == None {
      ComposedIsNamed(parse, routes, exitNode, V4(0, 0));
      ComposedIsNamed(parse, routes, exitNode, V6(0, 0));
      ComposedIsNamed(parse, routes, exitNode, p);
    }
    if Calc(parse, routes, exitNode).Ok? {
      CalcOkNoErrors(parse, routes, exitNode);
      CalcIsTheSet(parse, routes, exitNode, Calc(parse, routes, exitNode).value);
    }
  }

  /** The errors are those of the routes, in their order, and the pairing error behind them. */
  lemma ErrorsInOrder(parse: bytes -> Option<IpNet>, routes: seq<bytes>, exitNode: bool, errors: seq<RouteError>)
    ensures Calc(parse, routes, exitNode) == Err(errors) <==>
              errors != [] && errors == Faults(parse, routes) + LoneDefaults(Composed(parse, routes, exitNode))
    ensures forall e :: e in Faults(parse, routes) ==> !e.LoneDefault?
    ensures forall e :: e in LoneDefaults(Composed(parse, routes, exitNode)) ==> e.LoneDefault?
  {
    hide Faults, Composed, Sort, Dedup;
    forall e | e in Faults(parse, routes) ensures !e.LoneDefault? {
      FaultMembers(parse, routes, e);
    }
  }

  /** The split by who would refuse: each error on its own, in order, by its kind. */
  lemma {:induction false} PartitionExactly(es: seq<RouteError>, e: RouteError)
    ensures var go := e.NonMasked? || e.Unparsable?;
            && GoRules([e] + es) == (if go then [e] else []) + GoRules(es)
            && OurRules([e] + es) == (if go then [] else [e]) + OurRules(es)
    ensures GoRules([]) == [] && OurRules([]) == []
  {
    assert ([e] + es)[1..] == es;
  }
}
