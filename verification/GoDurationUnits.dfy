/** The unit table by its bytes and nanoseconds, and the printer by its text: what is said elsewhere through
    the unit functions, said here without them. */
module GoDurationUnits {
  import opened Bytes
  import opened Decimal
  import opened GoDuration
  import opened GoDurationLaws
  import opened GoDurationGrammar
  import opened GoDurationFormat
  import opened GoDurationCanonical

  /** `ns`, `us`, the micro sign and the Greek letter in front of `s`, `ms`, `s`, `m`, `h`. */
  predicate IsUnit(name: bytes, nanos: nat) {
    || (name == [0x6E, 0x73] && nanos == 1)
    || (name == [0x75, 0x73] && nanos == 1_000)
    || (name == [0xC2, 0xB5, 0x73] && nanos == 1_000)
    || (name == [0xCE, 0xBC, 0x73] && nanos == 1_000)
    || (name == [0x6D, 0x73] && nanos == 1_000_000)
    || (name == [0x73] && nanos == 1_000_000_000)
    || (name == [0x6D] && nanos == 60_000_000_000)
    || (name == [0x68] && nanos == 3_600_000_000_000)
  }

  /** The value within the sign's half of `i64`, or a refusal. */
  predicate Reads(rn: real -> real, text: bytes, negative: bool, v: nat) {
    if negative then
      if v <= 0x8000_0000_0000_0000 then Parse(rn, text) == Ok(-(v as int)) else Parse(rn, text).Err?
    else
      if v <= 0x7FFF_FFFF_FFFF_FFFF then Parse(rn, text) == Ok(v) else Parse(rn, text).Err?
  }

  function Numeral(n: nat, dot: bool, t: bytes): bytes {
    Digits(n) + if dot then [0x2E] + t else []
  }

  lemma UnitOf(name: bytes, nanos: nat) returns (u: Unit)
    requires IsUnit(name, nanos)
    ensures UnitText(u) == name && UnitNanos(u) == nanos
  {
    u := if name == [0x6E, 0x73] then Nano else if name == [0x75, 0x73] then Micro
         else if name == [0xC2, 0xB5, 0x73] then MicroSign else if name == [0xCE, 0xBC, 0x73] then MicroMu
         else if name == [0x6D, 0x73] then Milli else if name == [0x73] then Sec
         else if name == [0x6D] then Minute else Hour;
  }

  lemma ComponentFacts(n: nat, dot: bool, t: bytes, u: Unit)
    requires AllDigits(t) && (!dot ==> t == []) && UnitNanos(u) % Pow10(|t|) == 0
    ensures var c := Component(Digits(n), dot, t, u);
            && WellFormed(c) && Even(c) && Worth(c) == n * UnitNanos(u) + Value(t) * (UnitNanos(u) / Pow10(|t|))
            && Render(c) == Numeral(n, dot, t) + UnitText(u)
  {
    hide Digits, Value, UnitNanos, UnitText, Pow10;
    ValueOfDigits(n);
  }

  lemma SignedBody(sign: bytes, text: bytes)
    requires sign in {[], [0x2B], [0x2D]} && |text| >= 2 && StartsNumber(text[0])
    ensures Body(sign + text) == text && text != [ZERO]
    ensures (sign + text)[0] == MINUS <==> sign == [0x2D]
  {
    if sign == [] { assert sign + text == text; } else { assert (sign + text)[1..] == text; }
  }

  lemma ComponentReads(rn: real -> real, sign: bytes, c: Component)
    requires RoundsLikeF64(rn) && sign in {[], [0x2B], [0x2D]} && WellFormed(c) && Even(c)
    ensures Reads(rn, sign + Render(c), sign == [0x2D], Worth(c))
  {
    hide Parse, Lex, Render, Worth, Even, WellFormed, RoundsLikeF64;
    MagnitudeOf1(c);
    RenderStarts(c);
    RenderAllCons(c, []);
    LexOfRender([c]);
    assert [c] + [] == [c] && RenderAll([]) == [] && Render(c) + [] == Render(c);
    SignedBody(sign, Render(c));
    ParseExact(rn, sign + Render(c));
  }

  /** A number and a unit read as the product, the fraction as its part of the unit where that is whole,
      with either sign or none, exactly within the range of `i64`. */
  lemma UnitsExactly(rn: real -> real, sign: bytes, n: nat, dot: bool, t: bytes, name: bytes, nanos: nat)
    requires RoundsLikeF64(rn) && sign in {[], [0x2B], [0x2D]} && IsUnit(name, nanos)
    requires AllDigits(t) && (!dot ==> t == []) && nanos % Pow10(|t|) == 0
    ensures Reads(rn, sign + (Numeral(n, dot, t) + name), sign == [0x2D], n * nanos + Value(t) * (nanos / Pow10(|t|)))
  {
    hide Reads, IsUnit, Numeral, Worth, Even, WellFormed, Render, Value, Pow10, RoundsLikeF64, UnitText, UnitNanos;
    var u := UnitOf(name, nanos);
    ComponentFacts(n, dot, t, u);
    ComponentReads(rn, sign, Component(Digits(n), dot, t, u));
  }

  /** Without a fraction: so many of the eight units. */
  lemma WholeUnits(rn: real -> real, n: nat)
    requires RoundsLikeF64(rn)
    ensures Reads(rn, Digits(n) + [0x6E, 0x73], false, n)
    ensures Reads(rn, Digits(n) + [0x75, 0x73], false, n * 1_000)
    ensures Reads(rn, Digits(n) + [0xC2, 0xB5, 0x73], false, n * 1_000)
    ensures Reads(rn, Digits(n) + [0xCE, 0xBC, 0x73], false, n * 1_000)
    ensures Reads(rn, Digits(n) + [0x6D, 0x73], false, n * 1_000_000)
    ensures Reads(rn, Digits(n) + [0x73], false, n * 1_000_000_000)
    ensures Reads(rn, Digits(n) + [0x6D], false, n * 60_000_000_000)
    ensures Reads(rn, Digits(n) + [0x68], false, n * 3_600_000_000_000)
  {
    hide Reads, Digits, RoundsLikeF64;
    WholeUnit(rn, n, [0x6E, 0x73], 1);
    WholeUnit(rn, n, [0x75, 0x73], 1_000);
    WholeUnit(rn, n, [0xC2, 0xB5, 0x73], 1_000);
    WholeUnit(rn, n, [0xCE, 0xBC, 0x73], 1_000);
    WholeUnit(rn, n, [0x6D, 0x73], 1_000_000);
    WholeUnit(rn, n, [0x73], 1_000_000_000);
    WholeUnit(rn, n, [0x6D], 60_000_000_000);
    WholeUnit(rn, n, [0x68], 3_600_000_000_000);
  }

  lemma WholeUnit(rn: real -> real, n: nat, name: bytes, nanos: nat)
    requires RoundsLikeF64(rn) && IsUnit(name, nanos)
    ensures Reads(rn, Digits(n) + name, false, n * nanos)
  {
    hide Reads, Digits, RoundsLikeF64, IsUnit;
    UnitsExactly(rn, [], n, false, [], name, nanos);
    assert Pow10(0) == 1 && Value([]) == 0;
    assert [] + (Numeral(n, false, []) + name) == Digits(n) + name;
  }

  /** A number without a unit is refused for that. */
  lemma NoUnitIsMissed(rn: real -> real, n: nat)
    requires 0 < n <= 0x8000_0000_0000_0000
    ensures Parse(rn, Digits(n)) == Err(MissingUnit)
  {
    hide DigitRun, LexNumber, Value, Digits;
    var d := Digits(n);
    ValueOfDigits(n);
    assert IsDigit(d[0]);
    NumberAlone(d);
    NotZero(n);
  }

  /** And a number with any name but the eight behind it is refused with that name. */
  lemma OtherUnitsAreUnknown(rn: real -> real, n: nat, name: bytes)
    requires n <= 0x8000_0000_0000_0000 && name != [] && forall i :: 0 <= i < |name| ==> !StartsNumber(name[i])
    requires forall nanos: nat :: !IsUnit(name, nanos)
    ensures Parse(rn, Digits(n) + name) == Err(UnknownUnit(name))
  {
    hide DigitRun, LexNumber, AllDigits, Value, Digits, UnitRun, UnitNamed;
    var d := Digits(n);
    ValueOfDigits(n);
    DigitFirst(n);
    LexNumberOf(d, false, [], name);
    UnitRunOf(name, []);
    assert name + [] == name && NumberText(d, false, []) + name == d + name && name[..|name|] == name;
    NoUnit(name);
  }

  lemma DigitFirst(n: nat)
    ensures IsDigit(Digits(n)[0])
  {
  }

  lemma NotZero(n: nat)
    requires n != 0
    ensures Digits(n) != [ZERO]
  {
    ValueOfDigits(n);
    assert [ZERO][..0] == [];
  }

  lemma NumberAlone(d: bytes)
    requires AllDigits(d)
    ensures LexNumber(d) == Number(d, false, [], [])
  {
    DigitRunIs(d, |d|);
    assert d[..|d|] == d && d[|d|..] == [];
  }

  lemma NoUnit(name: bytes)
    requires forall nanos: nat :: !IsUnit(name, nanos)
    ensures UnitNamed(name) == None
  {
    if UnitNamed(name).Some? {
      assert IsUnit(name, UnitNanos(UnitNamed(name).value));
    }
  }

  // --- the printed text ---------------------------------------------------------------------

  /** A whole number and a unit, as a component. */
  lemma WholeFacts(k: nat, u: Unit)
    ensures var c := Whole(k, u);
            WellFormed(c) && Tidy(c, 0) && Value(c.whole) == k && Render(c) == Digits(k) + UnitText(u)
    ensures AllWellFormed([Whole(k, u)])
  {
    hide UnitText;
    ValueOfDigits(k);
    assert Digits(k) + [] + UnitText(u) == Digits(k) + UnitText(u);
    assert [Whole(k, u)][1..] == [];
  }

  /** One canonical component is what its worth is printed as. */
  lemma OnePrints(c: Component)
    requires WellFormed(c) && Canonical([c]) && AllWellFormed([c]) && Worth(c) <= I64_MAX
    ensures Format(Worth(c)) == Render(c) && Worth(c) > 0
  {
    hide Canonical, Layout, Render, Worth, WellFormed, AllWellFormed, Even;
    OneCanonical(c);
    RenderAllCons(c, []);
    assert [c] + [] == [c] && RenderAll([]) == [] && Render(c) + [] == Render(c) && [] + Render(c) == Render(c);
  }

  lemma OneWholePrints(k: nat, u: Unit, limit: nat)
    requires 1 <= k < limit && k * UnitNanos(u) <= I64_MAX
    requires (u in {Nano, MicroSign, Milli} && limit <= 1_000) || (u == Sec && limit <= 60)
    ensures Format(k * UnitNanos(u)) == Digits(k) + UnitText(u)
  {
    hide Digits, Value, Worth, Format, UnitText, UnitNanos, Render;
    var c := Whole(k, u);
    WholeFacts(k, u);
    WholeWorth(k, u);
    TidyMore(c);
    OnePrints(c);
  }

  lemma TidyMore(c: Component)
    requires Tidy(c, 0)
    ensures Tidy(c, 3) && Tidy(c, 6) && Tidy(c, 9)
  {
  }

  /** How whole units print: `ns`, the micro sign, `ms` and `s` alone, a minute with its seconds, an hour
      with both. */
  lemma WholePrints(k: nat)
    ensures Format(0) == [0x30, 0x73]
    ensures 1 <= k < 1_000 ==> Format(k) == Digits(k) + [0x6E, 0x73]
    ensures 1 <= k < 1_000 ==> Format(k * 1_000) == Digits(k) + [0xC2, 0xB5, 0x73]
    ensures 1 <= k < 1_000 ==> Format(k * 1_000_000) == Digits(k) + [0x6D, 0x73]
    ensures 1 <= k < 60 ==> Format(k * 1_000_000_000) == Digits(k) + [0x73]
    ensures 1 <= k < 60 ==> Format(k * 60_000_000_000) == Digits(k) + [0x6D, 0x30, 0x73]
    ensures 1 <= k && k * 3_600_000_000_000 <= I64_MAX ==>
              Format(k * 3_600_000_000_000) == Digits(k) + [0x68, 0x30, 0x6D, 0x30, 0x73]
  {
    hide Digits, Layout, Format;
    ZeroPrints();
    if 1 <= k < 1_000 {
      OneWholePrints(k, Nano, 1_000);
      OneWholePrints(k, MicroSign, 1_000);
      OneWholePrints(k, Milli, 1_000);
    }
    if 1 <= k < 60 {
      OneWholePrints(k, Sec, 60);
      MinutePrints(k);
    }
    if 1 <= k && k * 3_600_000_000_000 <= I64_MAX { HourPrints(k); }
  }

  lemma ZeroPrints()
    ensures Format(0) == [0x30, 0x73]
  {
  }

  lemma ZeroSeconds()
    ensures Render(Whole(0, Sec)) == [0x30, 0x73] && Render(Whole(0, Minute)) == [0x30, 0x6D]
  {
    assert Digits(0) == [0x30];
  }

  /** A canonical list is what its magnitude is printed as. */
  lemma ListPrints(cs: seq<Component>, d: i64)
    requires AllWellFormed(cs) && Canonical(cs) && d > 0 && Magnitude(cs) == d
    ensures Format(d) == RenderAll(cs)
  {
    hide Canonical, Layout, AllWellFormed, Magnitude, RenderAll;
    CanonicalUnique(cs);
    assert [] + RenderAll(cs) == RenderAll(cs);
  }

  lemma MinutePrints(k: nat)
    requires 1 <= k < 60
    ensures Format(k * 60_000_000_000) == Digits(k) + [0x6D, 0x30, 0x73]
  {
    hide Digits, Value, Worth, Format, Layout, Magnitude, RenderAll, Render, AllEven, AllWellFormed, Tidy;
    var m, s := Whole(k, Minute), Whole(0, Sec);
    WholeFacts(k, Minute);
    WholeFacts(0, Sec);
    TidyMore(s);
    WholeWorth(0, Sec);
    TwoTail(m, s);
    ListPrints([m, s], k * 60_000_000_000);
    TwoRendered(m, s);
    ZeroSeconds();
    assert Digits(k) + [0x6D] + [0x30, 0x73] == Digits(k) + [0x6D, 0x30, 0x73];
  }

  lemma TwoRendered(a: Component, b: Component)
    ensures RenderAll([a, b]) == Render(a) + Render(b)
  {
    hide Render;
    RenderAllCons(a, [b]);
    RenderAllCons(b, []);
    assert [a] + [b] == [a, b] && [b] + [] == [b] && Render(b) + [] == Render(b);
  }

  lemma HourPrints(k: nat)
    requires 1 <= k && k * 3_600_000_000_000 <= I64_MAX
    ensures Format(k * 3_600_000_000_000) == Digits(k) + [0x68, 0x30, 0x6D, 0x30, 0x73]
  {
    hide Digits, Value, Worth, Format, Layout, Magnitude, RenderAll, Render, AllEven, AllWellFormed, Tidy;
    var h, m, s := Whole(k, Hour), Whole(0, Minute), Whole(0, Sec);
    WholeFacts(k, Hour);
    WholeFacts(0, Minute);
    WholeFacts(0, Sec);
    TidyMore(s);
    WholeWorth(0, Sec);
    WholeWorth(k, Hour);
    TwoTail(m, s);
    MagnitudeOfCons(h, [m, s]);
    assert [h] + [m, s] == [h, m, s];
    ListPrints([h, m, s], k * 3_600_000_000_000);
    TwoRendered(m, s);
    RenderAllCons(h, [m, s]);
    ZeroSeconds();
    assert Digits(k) + [0x68] + ([0x30, 0x6D] + [0x30, 0x73]) == Digits(k) + [0x68, 0x30, 0x6D, 0x30, 0x73];
  }

  /** A negative duration prints as a minus sign and its magnitude, the minimum included. */
  lemma NegativePrints(d: i64)
    requires d < 0
    ensures Format(d) == [0x2D] + Format(-(d as int))
  {
    hide Layout, RenderAll;
    assert [] + RenderAll(Layout(-(d as int))) == RenderAll(Layout(-(d as int)));
  }
}
