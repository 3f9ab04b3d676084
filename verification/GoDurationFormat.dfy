/** `Duration.String()`: the components a count of nanoseconds is spelled with, the shape of that
    spelling, and the round trip through the parser. */
module GoDurationFormat {
  import opened Bytes
  import opened Decimal
  import opened GoDuration
  import opened GoDurationLaws
  import opened GoDurationGrammar

  /** The low `p` decimal digits of `v`, zero-padded. */
  function Padded(v: nat, p: nat): (s: bytes)
    ensures |s| == p && AllDigits(s)
  {
    if p == 0 then [] else Padded(v / 10, p - 1) + [0x30 + v % 10]
  }

  /** The same digits without the trailing zeros. */
  function FracText(v: nat, p: nat): (s: bytes)
    ensures |s| <= p && AllDigits(s)
    ensures s != [] ==> s[|s| - 1] != 0x30
  {
    if p == 0 then []
    else if v % 10 == 0 then FracText(v / 10, p - 1)
    else Padded(v, p)
  }

  /** `v` without its low `p` decimal digits. */
  function Shift(v: nat, p: nat): nat {
    if p == 0 then v else Shift(v / 10, p - 1)
  }

  function Whole(n: nat, u: Unit): Component {
    Component(Digits(n), false, [], u)
  }

  /** `v` units of 10^-p, with the fraction cut after its last non-zero digit. */
  function Scaled(v: nat, p: nat, unit: Unit): Component {
    var t := FracText(v, p);
    Component(Digits(Shift(v, p)), t != [], t, unit)
  }

  function Seconds(u: nat): Component {
    var t := FracText(u, 9);
    Component(Digits(u / 1_000_000_000 % 60), t != [], t, Sec)
  }

  /** The components of a non-zero magnitude. */
  function Layout(u: nat): seq<Component> {
    if u < 1_000 then [Whole(u, Nano)]
    else if u < 1_000_000 then [Scaled(u, 3, MicroSign)]
    else if u < 1_000_000_000 then [Scaled(u, 6, Milli)]
    else
      var minutes := u / 1_000_000_000 / 60;
      var hours := minutes / 60;
      if minutes == 0 then [Seconds(u)]
      else if hours == 0 then [Whole(minutes % 60, Minute), Seconds(u)]
      else [Whole(hours, Hour), Whole(minutes % 60, Minute), Seconds(u)]
  }

  function Abs(d: int): nat {
    if d < 0 then -d else d
  }

  function SignText(d: int): bytes {
    if d < 0 then [MINUS] else []
  }

  /** `format_go_duration`. */
  function Format(d: int): bytes {
    if d == 0 then [ZERO, 0x73] else SignText(d) + RenderAll(Layout(Abs(d)))
  }

  // --- the value of a spelling --------------------------------------------------------------

  lemma ModTimesTen(v: int, p: int)
    requires p >= 1
    ensures v % (10 * p) == 10 * (v / 10 % p) + v % 10
    ensures v / (10 * p) == v / 10 / p
  {
    var a, b := v / 10, v % 10;
    var q, r := a / p, a % p;
    assert a == q * p + r;
    assert v == 10 * (q * p + r) + b == q * (10 * p) + (10 * r + b);
    DivModUnique(v, 10 * p, q, 10 * r + b);
  }

  lemma DivModUnique(v: int, d: int, q: int, r: int)
    requires d >= 1 && v == q * d + r && 0 <= r < d
    ensures v / d == q && v % d == r
  {
    var q', r' := v / d, v % d;
    assert v == q' * d + r';
    assert (q' - q) * d == r - r';
    assert -d < (q' - q) * d < d;
    SmallMultiple(q' - q, d);
  }

  lemma SmallMultiple(k: int, d: int)
    requires -d < k * d < d
    ensures k == 0
  {
  }

  lemma {:induction false} ShiftSplits(v: nat, p: nat)
    ensures v == Shift(v, p) * Pow10(p) + v % Pow10(p)
  {
    if p != 0 {
      ShiftSplits(v / 10, p - 1);
      ModTimesTen(v, Pow10(p - 1));
      TimesTenLast(Shift(v, p), Pow10(p - 1));
    }
  }

  lemma {:induction false} ValueOfPadded(v: nat, p: nat)
    ensures Value(Padded(v, p)) == v % Pow10(p)
  {
    if p != 0 {
      ValueOfPadded(v / 10, p - 1);
      ModTimesTen(v, Pow10(p - 1));
      var s := Padded(v, p);
      assert s[..|s| - 1] == Padded(v / 10, p - 1);
    }
  }

  lemma {:induction false} ValueOfFracText(v: nat, p: nat)
    ensures Value(FracText(v, p)) * Pow10(p - |FracText(v, p)|) == v % Pow10(p)
  {
    if p != 0 {
      if v % 10 == 0 {
        ValueOfFracText(v / 10, p - 1);
        ModTimesTen(v, Pow10(p - 1));
        TimesTenLast(Value(FracText(v, p)), Pow10(p - 1 - |FracText(v, p)|));
      } else {
        ValueOfPadded(v, p);
      }
    }
  }

  lemma TimesTenLast(x: nat, y: nat)
    ensures x * (10 * y) == 10 * (x * y)
  {
  }

  /** A trimmed fraction of a unit of 10^p nanoseconds is even, and worth the digits it came from. */
  lemma FracWorth(v: nat, p: nat)
    ensures var t := FracText(v, p);
            && Pow10(p) % Pow10(|t|) == 0
            && Value(t) * (Pow10(p) / Pow10(|t|)) == v % Pow10(p)
  {
    var t := FracText(v, p);
    var a, b := Pow10(p - |t|), Pow10(|t|);
    ValueOfFracText(v, p);
    Pow10Adds(p - |t|, |t|);
    DivModUnique(Pow10(p), b, a, 0);
  }

  lemma WholeWorth(n: nat, u: Unit)
    ensures Even(Whole(n, u)) && Worth(Whole(n, u)) == n * UnitNanos(u)
  {
    hide Digits, UnitNanos;
    ValueOfDigits(n);
    assert Value([]) == 0;
  }

  lemma FractionWorth(w: nat, v: nat, p: nat, u: Unit)
    requires UnitNanos(u) == Pow10(p)
    ensures var t := FracText(v, p); var c := Component(Digits(w), t != [], t, u);
            Even(c) && Worth(c) == w * Pow10(p) + v % Pow10(p)
  {
    hide Digits, UnitNanos, FracText;
    ValueOfDigits(w);
    FracWorth(v, p);
  }

  lemma MagnitudeOf1(a: Component)
    requires Even(a) && WellFormed(a)
    ensures AllEven([a]) && AllWellFormed([a]) && Magnitude([a]) == Worth(a)
  {
    hide Worth, Even, WellFormed;
    assert [a][1..] == [];
  }

  lemma MagnitudeOfCons(a: Component, cs: seq<Component>)
    requires Even(a) && WellFormed(a) && AllEven(cs) && AllWellFormed(cs)
    ensures AllEven([a] + cs) && AllWellFormed([a] + cs)
    ensures Magnitude([a] + cs) == Worth(a) + Magnitude(cs)
  {
    hide Worth, Even, WellFormed;
    assert ([a] + cs)[1..] == cs;
  }

  /** The spelling of a magnitude has exactly that magnitude. */
  lemma LayoutWorth(u: nat)
    ensures AllEven(Layout(u)) && AllWellFormed(Layout(u)) && Magnitude(Layout(u)) == u
  {
    Pow10Known();
    if u < 1_000 {
      WholeWorth(u, Nano);
      MagnitudeOf1(Whole(u, Nano));
    } else if u < 1_000_000 {
      ScaledWorth(u, 3, MicroSign);
      MagnitudeOf1(Scaled(u, 3, MicroSign));
    } else if u < 1_000_000_000 {
      ScaledWorth(u, 6, Milli);
      MagnitudeOf1(Scaled(u, 6, Milli));
    } else {
      LongLayoutWorth(u);
    }
  }

  lemma ScaledWorth(v: nat, p: nat, u: Unit)
    requires UnitNanos(u) == Pow10(p)
    ensures Even(Scaled(v, p, u)) && Worth(Scaled(v, p, u)) == v
  {
    ShiftSplits(v, p);
    FractionWorth(Shift(v, p), v, p, u);
  }

  lemma SecondsWorth(u: nat)
    ensures Even(Seconds(u))
    ensures Worth(Seconds(u)) == u / 1_000_000_000 % 60 * 1_000_000_000 + u % 1_000_000_000
  {
    Pow10Known();
    FractionWorth(u / 1_000_000_000 % 60, u, 9, Sec);
  }

  lemma TimeSplits(u: nat)
    ensures var minutes := u / 1_000_000_000 / 60;
            u == minutes / 60 * 3_600_000_000_000 + (minutes % 60 * 60_000_000_000
                 + (u / 1_000_000_000 % 60 * 1_000_000_000 + u % 1_000_000_000))
  {
  }

  lemma LongLayoutWorth(u: nat)
    requires u >= 1_000_000_000
    ensures AllEven(Layout(u)) && AllWellFormed(Layout(u)) && Magnitude(Layout(u)) == u
  {
    var minutes := u / 1_000_000_000 / 60;
    var hours := minutes / 60;
    SecondsWorth(u);
    WholeWorth(minutes % 60, Minute);
    WholeWorth(hours, Hour);
    TimeSplits(u);
    var s, m, h := Seconds(u), Whole(minutes % 60, Minute), Whole(hours, Hour);
    hide Worth, Even, Digits, FracText, Seconds, Whole, Magnitude, AllEven, AllWellFormed;
    MagnitudeOf1(s);
    MagnitudeOfCons(m, [s]);
    MagnitudeOfCons(h, [m] + [s]);
    assert [m] + [s] == [m, s] && [h] + ([m] + [s]) == [h, m, s];
  }
}
