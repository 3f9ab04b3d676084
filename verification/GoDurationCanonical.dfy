/** What `Duration.String()` promises about its spelling: it parses back, it is the one canonical
    spelling of its magnitude, it is UTF-8 and it fits the buffer. */
module GoDurationCanonical {
  import opened Bytes
  import opened Decimal
  import opened GoDuration
  import opened GoDurationLaws
  import opened GoDurationGrammar
  import opened GoDurationFormat
  import Utf8

  // --- the round trip -----------------------------------------------------------------------

  lemma ZeroText()
    ensures [ZERO, 0x73] == RenderAll([Whole(0, Sec)])
  {
    var c := Whole(0, Sec);
    assert Render(c) == [ZERO, 0x73];
    assert [c][1..] == [];
    assert RenderAll([c]) == Render(c) + RenderAll([]);
  }

  lemma BodyOfSigned(sign: bytes, text: bytes)
    requires sign == [] || sign == [MINUS]
    requires |text| >= 2 && StartsNumber(text[0])
    ensures Body(sign + text) == text && text != [ZERO]
    ensures (sign + text)[0] == MINUS <==> sign == [MINUS]
  {
    if sign == [] { assert sign + text == text; } else { assert (sign + text)[1..] == text; }
  }

  lemma ZeroWellFormed()
    ensures WellFormed(Whole(0, Sec))
  {
  }

  lemma ZeroRoundTrip(rn: real -> real)
    requires RoundsLikeF64(rn)
    ensures Parse(rn, [ZERO, 0x73]) == Ok(0)
  {
    hide Parse, Lex, RenderAll, AllEven, AllWellFormed, Magnitude, Whole, RoundsLikeF64;
    var c := Whole(0, Sec);
    ZeroText();
    WholeWorth(0, Sec);
    ZeroWellFormed();
    MagnitudeOf1(c);
    SignedRoundTrip(rn, [], [c], 0);
    assert [] + RenderAll([c]) == RenderAll([c]);
  }

  /** The text of a sign and an even component list reads as their signed sum, when that is an i64. */
  lemma SignedRoundTrip(rn: real -> real, sign: bytes, cs: seq<Component>, d: i64)
    requires RoundsLikeF64(rn) && (sign == [] || sign == [MINUS])
    requires cs != [] && AllWellFormed(cs) && AllEven(cs)
    requires d == if sign == [] then Magnitude(cs) else -(Magnitude(cs) as int)
    ensures Parse(rn, sign + RenderAll(cs)) == Ok(d)
  {
    hide Parse, Lex, RenderAll, AllEven, AllWellFormed, Magnitude, RoundsLikeF64;
    LexOfRender(cs);
    BodyOfSigned(sign, RenderAll(cs));
    ParseExact(rn, sign + RenderAll(cs));
  }

  /** Every i64, the minimum included, parses back from its printed form. */
  lemma RoundTrip(rn: real -> real, d: i64)
    requires RoundsLikeF64(rn)
    ensures Parse(rn, Format(d)) == Ok(d)
  {
    hide Layout, Parse, RenderAll, AllEven, AllWellFormed, Magnitude, RoundsLikeF64;
    if d == 0 {
      ZeroRoundTrip(rn);
    } else {
      LayoutWorth(Abs(d));
      LayoutNonempty(Abs(d));
      SignedRoundTrip(rn, SignText(d), Layout(Abs(d)), d);
    }
  }

  lemma LayoutNonempty(u: nat)
    ensures Layout(u) != []
  {
    hide Scaled, Whole, Seconds;
  }

  /** The printer is injective, and parsing then printing settles in one pass. */
  lemma FormatInjective(rn: real -> real, d: i64, e: i64)
    requires RoundsLikeF64(rn) && Format(d) == Format(e)
    ensures d == e
  {
    hide Format, Parse;
    RoundTrip(rn, d);
    RoundTrip(rn, e);
  }

  lemma ParseFormatSettles(rn: real -> real, input: bytes)
    requires RoundsLikeF64(rn) && Parse(rn, input).Ok?
    ensures Parse(rn, Format(Parse(rn, input).value)) == Parse(rn, input)
  {
    AcceptedIsGrammatical(rn, input);
    hide Format, Parse;
    RoundTrip(rn, Parse(rn, input).value);
  }

  // --- the canonical spelling ---------------------------------------------------------------

  /** A numeral without leading zeros, and a fraction that is there only down to its last non-zero
      digit, of at most `p` places. */
  predicate Tidy(c: Component, p: nat) {
    && WellFormed(c)
    && c.whole == Digits(Value(c.whole))
    && (c.dot <==> c.frac != [])
    && |c.frac| <= p
    && (c.frac != [] ==> c.frac[|c.frac| - 1] != ZERO)
  }

  predicate TidyIn(c: Component, unit: Unit, p: nat, low: nat, high: nat) {
    c.unit == unit && Tidy(c, p) && low <= Value(c.whole) < high
  }

  predicate TidyFrom(c: Component, unit: Unit, low: nat) {
    c.unit == unit && Tidy(c, 0) && low <= Value(c.whole)
  }

  /** `[Xh][Ym]Z.FFFs` with every lower unit present from one second up, otherwise the one sub-second
      unit whose integer part is not zero. */
  predicate Canonical(cs: seq<Component>) {
    || (|cs| == 1 && TidyIn(cs[0], Nano, 0, 1, 1_000))
    || (|cs| == 1 && TidyIn(cs[0], MicroSign, 3, 1, 1_000))
    || (|cs| == 1 && TidyIn(cs[0], Milli, 6, 1, 1_000))
    || (|cs| == 1 && TidyIn(cs[0], Sec, 9, 1, 60))
    || (|cs| == 2 && TidyIn(cs[0], Minute, 0, 1, 60) && TidyIn(cs[1], Sec, 9, 0, 60))
    || (|cs| == 3 && TidyFrom(cs[0], Hour, 1) && TidyIn(cs[1], Minute, 0, 0, 60) && TidyIn(cs[2], Sec, 9, 0, 60))
  }

  lemma ShiftIsDiv(v: nat, p: nat, w: nat)
    requires Shift(v, p) * Pow10(p) + v % Pow10(p) == v
    requires Pow10(p) == w
    ensures Shift(v, p) == v / w
  {
    DivModUnique(v, w, Shift(v, p), v % w);
  }

  lemma ScaledIsTidy(v: nat, p: nat, u: Unit, w: nat)
    requires Pow10(p) == w && w <= v < 1_000 * w
    ensures TidyIn(Scaled(v, p, u), u, p, 1, 1_000)
  {
    hide Pow10, FracText, Digits, Shift, Value, AllDigits;
    ShiftSplits(v, p);
    ShiftIsDiv(v, p, w);
    QuotientRange(v, w);
    ValueOfDigits(Shift(v, p));
  }

  lemma QuotientRange(v: nat, w: nat)
    requires w >= 1 && w <= v < 1_000 * w
    ensures 1 <= v / w < 1_000
  {
    var q := v / w;
    assert v == q * w + v % w;
  }

  lemma WholeIsTidy(n: nat, u: Unit)
    ensures Tidy(Whole(n, u), 0) && Value(Whole(n, u).whole) == n
  {
    ValueOfDigits(n);
  }

  lemma SecondsIsTidy(u: nat)
    ensures TidyIn(Seconds(u), Sec, 9, 0, 60) && Value(Seconds(u).whole) == u / 1_000_000_000 % 60
  {
    ValueOfDigits(u / 1_000_000_000 % 60);
    hide FracText, Digits;
  }

  lemma LayoutIsCanonical(u: nat)
    requires u > 0
    ensures Canonical(Layout(u))
  {
    Pow10Known();
    hide Pow10, Tidy, Scaled, Whole, Seconds;
    var minutes := u / 1_000_000_000 / 60;
    if u < 1_000 {
      WholeIsTidy(u, Nano);
      assert Whole(u, Nano).unit == Nano by { WholeUnit(u, Nano); }
    } else if u < 1_000_000 {
      ScaledIsTidy(u, 3, MicroSign, 1_000);
    } else if u < 1_000_000_000 {
      ScaledIsTidy(u, 6, Milli, 1_000_000);
    } else {
      SecondsIsTidy(u);
      WholeIsTidy(minutes % 60, Minute);
      WholeUnit(minutes % 60, Minute);
      WholeIsTidy(minutes / 60, Hour);
      WholeUnit(minutes / 60, Hour);
    }
  }

  lemma WholeUnit(n: nat, u: Unit)
    ensures Whole(n, u).unit == u
  {
  }

  lemma {:induction false} PaddedUnique(t: bytes, v: nat, p: nat)
    requires AllDigits(t) && |t| == p && Value(t) == v % Pow10(p)
    ensures t == Padded(v, p)
  {
    hide Value, Pow10, Padded, AllDigits;
    PaddedNone(v);
    if p != 0 {
      var front := t[..p - 1];
      LastDigit(t, v);
      PaddedUnique(front, v / 10, p - 1);
      PaddedStep(v, p);
      assert t == front + [t[p - 1]];
    }
  }

  lemma PaddedNone(v: nat)
    ensures Padded(v, 0) == []
  {
  }

  lemma PaddedStep(v: nat, p: nat)
    requires p > 0
    ensures Padded(v, p) == Padded(v / 10, p - 1) + [0x30 + v % 10]
  {
  }

  lemma LastDigit(t: bytes, v: nat)
    requires AllDigits(t) && t != [] && Value(t) == v % Pow10(|t|)
    ensures AllDigits(t[..|t| - 1])
    ensures v % 10 == t[|t| - 1] as int - 0x30
    ensures Value(t[..|t| - 1]) == v / 10 % Pow10(|t| - 1)
  {
    var front, last := t[..|t| - 1], t[|t| - 1] as int - 0x30;
    assert IsDigit(t[|t| - 1]);
    assert Value(t) == 10 * Value(front) + last;
    var p := Pow10(|t| - 1);
    assert Pow10(|t|) == 10 * p;
    hide Value, Pow10, AllDigits;
    ModTimesTen(v, p);
    SplitTen(Value(front), last, v / 10 % p, v % 10);
  }

  lemma SplitTen(x: int, d: int, y: int, e: int)
    requires 10 * x + d == 10 * y + e && 0 <= d < 10 && 0 <= e < 10
    ensures x == y && d == e
  {
  }

  /** A fraction text is determined by its value: there is one without trailing zeros. */
  lemma {:induction false} FracTextUnique(t: bytes, v: nat, p: nat)
    requires AllDigits(t) && |t| <= p && (t != [] ==> t[|t| - 1] != ZERO)
    requires Value(t) * Pow10(p - |t|) == v % Pow10(p)
    ensures t == FracText(v, p)
  {
    if p != 0 {
      if |t| == p {
        LastDigit(t, v);
        PaddedUnique(t, v, p);
      } else {
        ModTimesTen(v, Pow10(p - 1));
        TimesTenLast(Value(t), Pow10(p - 1 - |t|));
        FracTextUnique(t, v / 10, p - 1);
      }
    }
  }

  lemma MulLess(a: nat, b: nat, m: nat)
    requires a < b && m >= 1
    ensures a * m < m * b
  {
    assert m * b == a * m + m * (b - a);
    MulAtLeast(m, b - a);
  }

  lemma FractionPart(frac: bytes, p: nat)
    requires AllDigits(frac) && |frac| <= p
    ensures Pow10(p) / Pow10(|frac|) == Pow10(p - |frac|) && Pow10(p) % Pow10(|frac|) == 0
    ensures Value(frac) * Pow10(p - |frac|) < Pow10(p)
  {
    var k := |frac|;
    Pow10Adds(p - k, k);
    ValueBound(frac);
    hide Pow10, Value;
    DivModUnique(Pow10(p), Pow10(k), Pow10(p - k), 0);
    MulLess(Value(frac), Pow10(k), Pow10(p - k));
  }

  /** A tidy component is read off its worth: the integer part, then the fraction. */
  lemma TidyIs(c: Component, p: nat, v: nat)
    requires Tidy(c, p) && UnitNanos(c.unit) == Pow10(p)
    requires Worth(c) % Pow10(p) == v % Pow10(p)
    ensures Even(c)
    ensures c == Component(Digits(Worth(c) / Pow10(p)), FracText(v, p) != [], FracText(v, p), c.unit)
    ensures Value(c.whole) == Worth(c) / Pow10(p)
  {
    hide Worth, Even, Value, Pow10, Digits, FracText, AllDigits, UnitNanos;
    WorthParts(c, p);
    FractionPart(c.frac, p);
    var w, f := Pow10(p), Value(c.frac) * Pow10(p - |c.frac|);
    DivModUnique(Worth(c), w, Value(c.whole), f);
    FracTextUnique(c.frac, v, p);
  }

  lemma WorthParts(c: Component, p: nat)
    requires Tidy(c, p) && UnitNanos(c.unit) == Pow10(p)
    ensures Even(c) && Worth(c) == Value(c.whole) * Pow10(p) + Value(c.frac) * Pow10(p - |c.frac|)
  {
    hide Value, Pow10, Digits;
    FractionPart(c.frac, p);
  }

  lemma LayoutOfOne(c: Component, p: nat, w: nat)
    requires Pow10(p) == w == UnitNanos(c.unit)
    requires TidyIn(c, c.unit, p, 1, 1_000)
    ensures Even(c) && c == Scaled(Worth(c), p, c.unit) && w <= Worth(c) < 1_000 * w
  {
    var u := Worth(c);
    TidyIs(c, p, u);
    ShiftSplits(u, p);
    ShiftIsDiv(u, p, w);
    QuotientRangeBack(u, w);
  }

  lemma QuotientRangeBack(v: nat, w: nat)
    requires w >= 1 && 1 <= v / w < 1_000
    ensures w <= v < 1_000 * w
  {
    var q := v / w;
    assert v == q * w + v % w;
    MulLeft(1, q, w);
    MulLeft(q + 1, 1_000, w);
  }

  lemma MulLeft(a: int, b: int, w: nat)
    requires a <= b
    ensures a * w <= b * w
  {
  }

  lemma SecondsArithmetic(minutes: nat, w: nat, u: nat)
    requires u == minutes * 60_000_000_000 + w && w < 60_000_000_000
    ensures u / 1_000_000_000 / 60 == minutes && u / 1_000_000_000 % 60 == w / 1_000_000_000
    ensures w % 1_000_000_000 == u % 1_000_000_000
  {
    assert u / 1_000_000_000 == minutes * 60 + w / 1_000_000_000;
  }

  lemma LayoutOfSeconds(c: Component, minutes: nat, u: nat)
    requires TidyIn(c, Sec, 9, 0, 60)
    requires u == minutes * 60_000_000_000 + Worth(c)
    ensures Even(c) && c == Seconds(u) && u / 1_000_000_000 / 60 == minutes
    ensures Worth(c) / 1_000_000_000 == Value(c.whole)
  {
    Pow10Known();
    TidyIs(c, 9, Worth(c));
    hide Worth, Pow10, Tidy, Even, Digits, FracText, Value;
    SecondsArithmetic(minutes, Worth(c), u);
    TidyIs(c, 9, u);
  }

  lemma OneTail(c: Component)
    requires TidyIn(c, Sec, 9, 0, 60)
    ensures Even(c) && WellFormed(c) && AllEven([c]) && AllWellFormed([c]) && Magnitude([c]) == Worth(c)
  {
    LayoutOfSeconds(c, 0, Worth(c));
    MagnitudeOf1(c);
  }

  lemma TwoTail(m: Component, s: Component)
    requires TidyIn(m, Minute, 0, 0, 60) && TidyIn(s, Sec, 9, 0, 60)
    ensures Even(m) && m == Whole(Value(m.whole), Minute) && AllEven([m, s]) && AllWellFormed([m, s])
    ensures Magnitude([m, s]) == Value(m.whole) * 60_000_000_000 + Worth(s)
  {
    WholeIs(m);
    OneTail(s);
    MagnitudeOfCons(m, [s]);
    assert [m] + [s] == [m, s];
  }

  lemma CanonicalTwo(m: Component, s: Component)
    requires TidyIn(m, Minute, 0, 1, 60) && TidyIn(s, Sec, 9, 0, 60)
    ensures AllEven([m, s]) && AllWellFormed([m, s])
    ensures Magnitude([m, s]) > 0 && [m, s] == Layout(Magnitude([m, s]))
  {
    TwoTail(m, s);
    var u := Magnitude([m, s]);
    LayoutOfSeconds(s, Value(m.whole), u);
    hide Worth, Pow10, Tidy, Even, Digits, FracText, Magnitude, AllEven, AllWellFormed, Whole, Seconds, Value;
    assert u >= 60_000_000_000;
  }

  lemma CanonicalThree(h: Component, m: Component, s: Component)
    requires TidyFrom(h, Hour, 1) && TidyIn(m, Minute, 0, 0, 60) && TidyIn(s, Sec, 9, 0, 60)
    ensures AllEven([h, m, s]) && AllWellFormed([h, m, s])
    ensures Magnitude([h, m, s]) > 0 && [h, m, s] == Layout(Magnitude([h, m, s]))
  {
    TwoTail(m, s);
    WholeIs(h);
    MagnitudeOfCons(h, [m, s]);
    assert [h] + [m, s] == [h, m, s];
    var u := Magnitude([h, m, s]);
    var minutes := 60 * Value(h.whole) + Value(m.whole);
    HoursAndMinutes(Value(h.whole), Value(m.whole), Worth(s), u);
    LayoutOfSeconds(s, minutes, u);
  }

  lemma HoursAndMinutes(h: nat, m: nat, w: nat, u: nat)
    requires 1 <= h && m < 60 && u == h * 3_600_000_000_000 + (m * 60_000_000_000 + w)
    ensures u == (60 * h + m) * 60_000_000_000 + w && u >= 3_600_000_000_000
    ensures (60 * h + m) / 60 == h && (60 * h + m) % 60 == m
  {
  }

  /** There is no other canonical spelling: any canonical list is the layout of its magnitude. */
  lemma CanonicalUnique(cs: seq<Component>)
    requires Canonical(cs) && AllWellFormed(cs)
    ensures AllEven(cs) && Magnitude(cs) > 0 && cs == Layout(Magnitude(cs))
  {
    hide Pow10, Worth, Tidy, Even, Digits, FracText, Layout, WellFormed, AllEven, Magnitude, AllWellFormed;
    if |cs| == 1 {
      assert cs == [cs[0]];
      OneCanonical(cs[0]);
      MagnitudeOf1(cs[0]);
    } else if |cs| == 2 {
      assert cs == [cs[0], cs[1]];
      CanonicalTwo(cs[0], cs[1]);
    } else {
      assert cs == [cs[0], cs[1], cs[2]];
      CanonicalThree(cs[0], cs[1], cs[2]);
    }
  }

  lemma OneCanonical(c: Component)
    requires Canonical([c])
    ensures WellFormed(c) && Even(c) && Worth(c) > 0 && [c] == Layout(Worth(c))
  {
    Pow10Known();
    hide Pow10, Worth, Digits, FracText, Scaled, Whole, Seconds, Even, Value;
    match c.unit {
      case Nano => WholeIs(c);
      case MicroSign => LayoutOfOne(c, 3, 1_000);
      case Milli => LayoutOfOne(c, 6, 1_000_000);
      case Sec =>
        LayoutOfSeconds(c, 0, Worth(c));
      case _ =>
    }
  }

  lemma WholeIs(c: Component)
    requires Tidy(c, 0)
    ensures Even(c) && c == Whole(Value(c.whole), c.unit) && Worth(c) == Value(c.whole) * UnitNanos(c.unit)
  {
    WholeWorth(Value(c.whole), c.unit);
  }

  /** The printer writes the canonical spelling and nothing else is one: for a non-zero duration a
      component list is canonical with that magnitude exactly when it is the printed one. */
  lemma FormatIsCanonical(d: i64, cs: seq<Component>)
    requires d != 0 && AllWellFormed(cs)
    ensures Canonical(cs) && Magnitude(cs) == Abs(d) <==> cs == Layout(Abs(d))
    ensures cs == Layout(Abs(d)) ==> Format(d) == SignText(d) + RenderAll(cs)
  {
    hide Canonical, Layout, Magnitude, AllWellFormed, AllEven;
    LayoutIsCanonical(Abs(d));
    LayoutWorth(Abs(d));
    if Canonical(cs) { CanonicalUnique(cs); }
  }

  // --- the bytes ----------------------------------------------------------------------------

  lemma UnitTextValid(u: Unit)
    ensures Utf8.Valid(UnitText(u))
  {
    match u
    case MicroSign => assert UnitText(u)[2..][1..] == []; assert UnitText(u)[2..] == [0x73]; Utf8.AsciiValid([0x73]);
    case MicroMu => assert UnitText(u)[2..] == [0x73]; Utf8.AsciiValid([0x73]);
    case _ => Utf8.AsciiValid(UnitText(u));
  }

  lemma {:induction false} RenderAllValid(cs: seq<Component>)
    requires AllWellFormed(cs)
    ensures Utf8.Valid(RenderAll(cs))
  {
    if cs != [] {
      var c := cs[0];
      Utf8.AsciiValid(NumberText(c.whole, c.dot, c.frac));
      UnitTextValid(c.unit);
      RenderAllValid(cs[1..]);
      hide Utf8.Valid, NumberText, WellFormed, UnitText;
      Utf8.ValidConcat(NumberText(c.whole, c.dot, c.frac), UnitText(c.unit));
      Utf8.ValidConcat(Render(c), RenderAll(cs[1..]));
    }
  }

  /** The printed form is UTF-8, so turning the bytes into a string cannot fail. */
  lemma FormatIsUtf8(d: int)
    ensures Utf8.Valid(Format(d))
  {
    Utf8.AsciiValid([ZERO, 0x73]);
    Utf8.AsciiValid(SignText(d));
    LayoutWorth(Abs(d));
    RenderAllValid(Layout(Abs(d)));
    hide Utf8.Valid, Layout, RenderAll;
    Utf8.ValidConcat(SignText(d), RenderAll(Layout(Abs(d))));
  }

  lemma RenderLength(c: Component, w: nat, f: nat)
    requires |c.whole| <= w && |c.frac| <= f && (f == 0 ==> !c.dot)
    ensures |Render(c)| <= w + (if f == 0 then 0 else f + 1) + |UnitText(c.unit)|
  {
  }

  lemma ShortNumber(n: nat, k: nat, limit: nat)
    requires k >= 1 && Pow10(k) == limit && n < limit
    ensures |Digits(n)| <= k
  {
    DigitsLength(n, k);
  }

  lemma {:induction false} RenderAllCons(c: Component, cs: seq<Component>)
    ensures RenderAll([c] + cs) == Render(c) + RenderAll(cs)
  {
    assert ([c] + cs)[1..] == cs;
  }

  lemma SecondsLength(u: nat)
    ensures |Render(Seconds(u))| <= 13
  {
    assert Pow10(2) == 100;
    ShortNumber(u / 1_000_000_000 % 60, 2, 100);
    RenderLength(Seconds(u), 2, 9);
  }

  lemma LayoutLength(u: nat)
    requires u <= TWO63
    ensures |RenderAll(Layout(u))| <= 24
  {
    assert Pow10(3) == 1_000;
    assert Pow10(2) == 100;
    Pow10Known();
    if u < 1_000 {
      ShortNumber(u, 3, 1_000);
      RenderLength(Whole(u, Nano), 3, 0);
      RenderAllCons(Whole(u, Nano), []);
    } else if u < 1_000_000 {
      ScaledLength(u, 3, MicroSign, 1_000);
      RenderAllCons(Scaled(u, 3, MicroSign), []);
    } else if u < 1_000_000_000 {
      ScaledLength(u, 6, Milli, 1_000_000);
      RenderAllCons(Scaled(u, 6, Milli), []);
    } else {
      LongLayoutLength(u);
    }
  }

  lemma ScaledLength(v: nat, p: nat, u: Unit, w: nat)
    requires Pow10(p) == w && w <= v < 1_000 * w && p <= 6
    ensures |Render(Scaled(v, p, u))| <= 3 + 7 + |UnitText(u)|
  {
    ScaledIsTidy(v, p, u, w);
    var c := Scaled(v, p, u);
    assert Pow10(3) == 1_000;
    ShortNumber(Value(c.whole), 3, 1_000);
    RenderLength(c, 3, 6);
  }

  lemma LongLayoutLength(u: nat)
    requires 1_000_000_000 <= u <= TWO63
    ensures |RenderAll(Layout(u))| <= 24
  {
    var minutes := u / 1_000_000_000 / 60;
    var s, m, h := Seconds(u), Whole(minutes % 60, Minute), Whole(minutes / 60, Hour);
    SecondsLength(u);
    assert Pow10(2) == 100;
    ShortNumber(minutes % 60, 2, 100);
    assert Pow10(7) == 10_000_000;
    ShortNumber(minutes / 60, 7, 10_000_000);
    RenderLength(m, 2, 0);
    RenderLength(h, 7, 0);
    hide Render, Digits, FracText, Seconds;
    RenderAllCons(s, []);
    RenderAllCons(m, [s]);
    RenderAllCons(h, [m] + [s]);
    assert [m] + [s] == [m, s] && [h] + ([m] + [s]) == [h, m, s] && [s] + [] == [s];
  }

  /** At most 25 bytes, within the 32 the buffer starts with. */
  lemma FormatFits(d: i64)
    ensures |Format(d)| <= 25
  {
    LayoutLength(Abs(d));
  }
}
