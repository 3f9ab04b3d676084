/** The floating-point step of the duration parser: within bounds for every fraction, and integer
    arithmetic wherever the fraction's power of ten divides its unit. */
module GoDurationLaws {
  import opened Bytes
  import opened Decimal
  import opened GoDuration

  // --- the floating-point step --------------------------------------------------------------

  /** Exact real arithmetic is one rounding of that kind, so what is proved for all of them is not empty. */
  function Exact(x: real): real {
    x
  }

  lemma ExactRoundingIsOne()
    ensures RoundsLikeF64(Exact)
  {
  }

  /** And there is one that does round: from 1 on, down to an integer. */
  function RoundDown(x: real): real {
    if x < 1.0 then x else x.Floor as real
  }

  lemma RoundingDownIsOne()
    ensures RoundsLikeF64(RoundDown) && RoundDown(1.5) == 1.0
  {
    forall n: nat ensures KeepsInteger(RoundDown, n) { RoundDownInteger(n); }
    forall k: nat ensures KeepsPower(RoundDown, k) { RoundDownInteger(Pow10(k)); }
    forall x: real, y: real ensures Monotone(RoundDown, x, y) { FloorGrows(x, y); }
    forall x: real ensures Stable(RoundDown, x) {
      if x >= 1.0 { RoundDownInteger(x.Floor); }
    }
  }

  lemma RoundDownInteger(n: int)
    requires n >= 0
    ensures RoundDown(n as real) == n as real
  {
  }

  lemma FloorGrows(x: real, y: real)
    ensures x <= y ==> x.Floor <= y.Floor
  {
  }

  lemma {:induction false} ScaleIsPower(rn: real -> real, k: nat)
    requires RoundsLikeF64(rn) && k <= 22
    ensures Scale(rn, k) == Pow10(k) as real
    ensures rn(Scale(rn, k)) == Scale(rn, k)
  {
    hide RoundsLikeF64, Scale, Pow10;
    ScaleStarts(rn);
    if k != 0 {
      ScaleIsPower(rn, k - 1);
      ScaleStep(rn, k);
      TimesTen(Pow10(k - 1));
    }
    RoundsPower(rn, k);
  }

  lemma ScaleStarts(rn: real -> real)
    ensures Scale(rn, 0) == 1.0 && Pow10(0) == 1
  {
  }

  lemma ScaleStep(rn: real -> real, k: nat)
    requires k > 0
    ensures Scale(rn, k) == rn(Scale(rn, k - 1) * 10.0) && Pow10(k) == 10 * Pow10(k - 1)
  {
  }

  lemma TimesTen(n: nat)
    ensures n as real * 10.0 == (10 * n) as real
  {
  }

  lemma RoundsPower(rn: real -> real, k: nat)
    requires RoundsLikeF64(rn) && k <= 22
    ensures rn(Pow10(k) as real) == Pow10(k) as real
  {
    assert KeepsPower(rn, k);
  }

  lemma RoundsMonotone(rn: real -> real, x: real, y: real)
    requires RoundsLikeF64(rn) && 0.0 <= x <= y
    ensures rn(x) <= rn(y)
  {
    assert Monotone(rn, x, y);
  }

  lemma RoundsStable(rn: real -> real, x: real)
    requires RoundsLikeF64(rn) && 0.0 <= x
    ensures rn(rn(x)) == rn(x) && 0.0 <= rn(x) <= 2.0 * x
  {
    assert Stable(rn, x);
  }

  lemma RoundsInteger(rn: real -> real, n: nat)
    requires RoundsLikeF64(rn) && n <= 3_600_000_000_000
    ensures rn(n as real) == n as real
  {
    assert KeepsInteger(rn, n);
  }

  /** Past the exact powers the scale only grows, and it stays a value that rounding keeps. */
  lemma {:induction false} ScaleGrows(rn: real -> real, j: nat, k: nat)
    requires RoundsLikeF64(rn) && j <= 22 && j <= k
    ensures Scale(rn, k) >= Pow10(j) as real
    ensures rn(Scale(rn, k)) == Scale(rn, k)
  {
    hide RoundsLikeF64, Scale, Pow10;
    if k == j {
      ScaleIsPower(rn, k);
    } else {
      ScaleGrows(rn, j, k - 1);
      ScaleStep(rn, k);
      var s := Scale(rn, k - 1);
      RoundsMonotone(rn, s, s * 10.0);
      RoundsStable(rn, s * 10.0);
    }
  }

  lemma {:induction false} KeptAll(frac: bytes)
    requires AllDigits(frac) && |frac| <= 18
    ensures Kept(frac) == |frac|
  {
    if frac != [] {
      var front := frac[..|frac| - 1];
      KeptAll(front);
      ValueBound(front);
      ValueBound(frac);
      Pow10Grows(|front|, 17);
      Pow10Grows(|frac|, 18);
      Pow10Known();
    }
  }

  lemma Pow10Known()
    ensures Pow10(17) == 100_000_000_000_000_000 && Pow10(18) == 1_000_000_000_000_000_000
    ensures Pow10(13) == 10_000_000_000_000 && Pow10(9) == 1_000_000_000
    ensures Pow10(6) == 1_000_000 && Pow10(3) == 1_000 && Pow10(22) == 10_000_000_000_000_000_000_000
    ensures Pow10(0) == 1
  {
    assert Pow10(3) == 1_000;
    Pow10Adds(3, 3);
    Pow10Adds(6, 3);
    Pow10Adds(9, 9);
    Pow10Adds(9, 3); Pow10Adds(12, 1); assert Pow10(1) == 10;
    Pow10Adds(13, 3); Pow10Adds(16, 1); Pow10Adds(18, 3); Pow10Adds(21, 1);
  }

  lemma KeptBelowScale(rn: real -> real, frac: bytes)
    requires RoundsLikeF64(rn) && AllDigits(frac)
    ensures var k := Kept(frac); var s := Scale(rn, k);
            1.0 <= s && Value(frac[..k]) as real <= s && rn(s) == s
  {
    var k := Kept(frac);
    ValueBound(frac[..k]);
    if k <= 22 {
      ScaleIsPower(rn, k);
    } else {
      var j := 22;
      ScaleGrows(rn, j, k);
      Pow10Known();
    }
  }

  lemma MulMono(a: real, b: real, x: real, y: real)
    requires 0.0 <= a <= b && 0.0 <= x <= y
    ensures 0.0 <= a * x <= b * y
  {
    assert a * x <= a * y;
    assert a * y <= b * y;
  }

  lemma ScaledQuotient(u: real, s: real, q: real)
    requires 0.0 <= u && 1.0 <= s && 0.0 <= q <= 2.0 * (u / s)
    ensures s * q <= 2.0 * u
  {
    var d := u / s;
    assert d * s == u;
    assert s * q <= s * (2.0 * d);
    assert s * (2.0 * d) == 2.0 * (d * s);
  }

  lemma DivAtMost(rn: real -> real, u: real, s: real)
    requires RoundsLikeF64(rn) && 0.0 <= u && 1.0 <= s
    ensures 0.0 <= F64Div(rn, u, s) && s * F64Div(rn, u, s) <= 2.0 * u
  {
    hide RoundsLikeF64;
    assert 0.0 <= u / s by { assert (u / s) * s == u; }
    RoundsStable(rn, u / s);
    ScaledQuotient(u, s, F64Div(rn, u, s));
  }

  lemma MulAtMost(rn: real -> real, x: real, y: real, bound: real)
    requires RoundsLikeF64(rn) && 0.0 <= x && 0.0 <= y && x * y <= bound
    ensures 0.0 <= F64Mul(rn, x, y) <= 2.0 * bound
  {
    hide RoundsLikeF64;
    var p := x * y;
    assert 0.0 <= p;
    RoundsStable(rn, p);
  }

  /** A fraction below its scale contributes at most four units, whatever the roundings do. */
  lemma StepBound(rn: real -> real, f: nat, s: real, unit: nat)
    requires RoundsLikeF64(rn)
    requires f as real <= s && 1.0 <= s && rn(s) == s
    ensures 0 <= Step(rn, f, s, unit) <= 4 * unit
  {
    hide RoundsLikeF64, F64Mul, F64Div;
    var x, u := rn(f as real), unit as real;
    RoundsMonotone(rn, f as real, s);
    RoundsStable(rn, f as real);
    DivAtMost(rn, u, s);
    var q := F64Div(rn, u, s);
    MulMono(x, s, q, q);
    MulAtMost(rn, x, q, 2.0 * u);
  }

  /** However long the fraction, the step stays non-negative and far below the u64 range. */
  lemma FracBound(rn: real -> real, frac: bytes, unit: nat)
    requires RoundsLikeF64(rn) && AllDigits(frac)
    ensures 0 <= FracNanos(rn, frac, unit) <= 4 * unit
  {
    KeptBelowScale(rn, frac);
    var k := Kept(frac);
    StepBound(rn, Value(frac[..k]), Scale(rn, k), unit);
  }

  /** The fractions whose value in nanoseconds is a whole number for an evident reason. */
  predicate EvenFraction(frac: bytes, unit: nat)
    requires AllDigits(frac)
  {
    Value(frac) == 0 || unit % Pow10(|frac|) == 0
  }

  lemma DivMulReal(u: nat, p: nat)
    requires p >= 1 && u % p == 0
    ensures u as real / p as real == (u / p) as real
  {
    assert (u / p) * p == u;
    var x := (u / p) as real;
    assert x * p as real == u as real;
  }

  lemma ShortFraction(frac: bytes, unit: nat)
    requires AllDigits(frac)
    requires 1 <= unit <= 3_600_000_000_000 && unit % Pow10(|frac|) == 0
    ensures |frac| <= 12 && Pow10(|frac|) <= unit
  {
    Pow10Known();
    var p := Pow10(|frac|);
    DivisorAtMost(unit, p);
    if |frac| > 12 { Pow10Grows(13, |frac|); }
  }

  lemma DivisorAtMost(unit: nat, p: nat)
    requires unit >= 1 && p >= 1 && unit % p == 0
    ensures p <= unit
  {
    var q: int := unit / p;
    assert unit == p * q;
    if q >= 1 { MulAtLeast(p, q); }
  }

  lemma DivExact(rn: real -> real, unit: nat, p: nat)
    requires RoundsLikeF64(rn) && unit <= 3_600_000_000_000 && p >= 1 && unit % p == 0
    ensures F64Div(rn, unit as real, p as real) == (unit / p) as real
  {
    hide RoundsLikeF64;
    DivMulReal(unit, p);
    QuotientAtMost(unit, p);
    RoundsInteger(rn, unit / p);
  }

  lemma QuotientAtMost(unit: nat, p: nat)
    requires p >= 1
    ensures 0 <= unit / p <= unit
  {
    MulAtLeast(unit / p, p);
    assert unit == (unit / p) * p + unit % p;
  }

  lemma MulExact(rn: real -> real, f: nat, m: nat)
    requires RoundsLikeF64(rn) && f * m <= 3_600_000_000_000
    ensures F64Mul(rn, f as real, m as real) == (f * m) as real
  {
    hide RoundsLikeF64;
    RealProduct(f, m);
    RoundsInteger(rn, f * m);
  }

  lemma RealProduct(f: nat, m: nat)
    ensures f as real * m as real == (f * m) as real
  {
  }

  /** A part of a whole is worth at most the whole. */
  lemma PartAtMost(f: nat, p: nat, unit: nat)
    requires p >= 1 && unit % p == 0 && f <= p
    ensures 0 <= f * (unit / p) <= unit
  {
    var m := unit / p;
    assert unit == p * m;
    assert (p - f) * m == p * m - f * m && (p - f) * m >= 0;
  }

  /** Integers below 2^53 divide and multiply exactly. */
  lemma StepExact(rn: real -> real, f: nat, p: nat, unit: nat)
    requires RoundsLikeF64(rn)
    requires unit <= 3_600_000_000_000 && 1 <= p <= 3_600_000_000_000 && unit % p == 0 && f <= p
    ensures Step(rn, f, p as real, unit) == f * (unit / p)
  {
    hide RoundsLikeF64, F64Mul, F64Div;
    DivExact(rn, unit, p);
    PartAtMost(f, p, unit);
    MulExact(rn, f, unit / p);
    RoundsInteger(rn, f);
  }

  /** On such a fraction the floating-point expression is integer arithmetic. */
  lemma FracExact(rn: real -> real, frac: bytes, unit: nat)
    requires RoundsLikeF64(rn) && AllDigits(frac)
    requires 1 <= unit <= 3_600_000_000_000 && EvenFraction(frac, unit)
    ensures FracNanos(rn, frac, unit) == Value(frac) * (unit / Pow10(|frac|))
  {
    var k := Kept(frac);
    ValuePrefix(frac, k);
    if Value(frac) != 0 {
      ShortFraction(frac, unit);
      KeptAll(frac);
      assert frac[..k] == frac;
      ScaleIsPower(rn, k);
      ValueBound(frac);
      StepExact(rn, Value(frac), Pow10(k), unit);
    }
  }

  // --- longer fractions ---------------------------------------------------------------------

  /** Another digit is kept when the digits before it are at most (2^63 - 1) / 10 and with it at most 2^63. */
  predicate MayKeep(frac: bytes, j: nat)
    requires AllDigits(frac) && j < |frac|
  {
    Value(frac[..j]) <= 922_337_203_685_477_580 && Value(frac[..j + 1]) <= 9_223_372_036_854_775_808
  }

  /** The digits that are kept are all up to the first that may not be. */
  lemma {:induction false} KeptExactly(frac: bytes)
    requires AllDigits(frac)
    ensures forall j :: 0 <= j < Kept(frac) ==> MayKeep(frac, j)
    ensures Kept(frac) < |frac| ==> !MayKeep(frac, Kept(frac))
  {
    hide Value;
    if frac != [] {
      var n := |frac| - 1;
      var front := frac[..n];
      KeptExactly(front);
      forall j | 0 <= j < n ensures MayKeep(front, j) == MayKeep(frac, j) {
        assert front[..j] == frac[..j] && front[..j + 1] == frac[..j + 1];
      }
      assert frac[..n + 1] == frac;
    }
  }

  lemma FloorOfQuotient(a: nat, b: nat)
    requires b >= 1
    ensures (a as real / b as real).Floor == a / b
  {
    var q, r: int := a / b, a % b;
    assert a == q * b + r;
    var x := a as real / b as real;
    assert x * b as real == a as real;
    assert (q * b) as real == q as real * b as real;
    assert (x - q as real) * b as real == r as real;
    Between(x - q as real, b as real, r as real);
  }

  lemma Between(y: real, b: real, r: real)
    requires b >= 1.0 && y * b == r && 0.0 <= r < b
    ensures 0.0 <= y < 1.0
  {
    if y < 0.0 { NegativeProduct(y, b); }
    if y >= 1.0 { LargeProduct(y, b); }
  }

  lemma NegativeProduct(y: real, b: real)
    requires y < 0.0 && b >= 1.0
    ensures y * b < 0.0
  {
  }

  lemma LargeProduct(y: real, b: real)
    requires y >= 1.0 && b >= 1.0
    ensures y * b >= b
  {
  }

  lemma TimesQuotient(a: real, b: real, c: real)
    requires c != 0.0
    ensures a * (b / c) == (a * b) / c
  {
    var q := b / c;
    assert q * c == b;
    assert (a * q) * c == a * b;
  }

  lemma ExactOperations(a: real, b: real, c: real)
    requires c != 0.0
    ensures F64Mul(Exact, Exact(a), F64Div(Exact, b, c)) == a * (b / c)
  {
  }

  lemma SameQuotient(x: real, y: real, c: real)
    requires c != 0.0 && x == y
    ensures x / c == y / c
  {
  }

  lemma ExactStep(f: nat, p: nat, unit: nat)
    requires p >= 1
    ensures Step(Exact, f, p as real, unit) == f * unit / p
  {
    hide F64Div, F64Mul;
    var a, b, c := f as real, unit as real, p as real;
    ExactOperations(a, b, c);
    TimesQuotient(a, b, c);
    RealProduct(f, unit);
    SameQuotient(a * b, (f * unit) as real, c);
    FloorOfQuotient(f * unit, p);
  }

  /** In exact arithmetic a fraction of any kept length is worth its whole nanoseconds, rounded down. */
  lemma ExactFraction(frac: bytes, unit: nat)
    requires AllDigits(frac) && Kept(frac) <= 22
    ensures FracNanos(Exact, frac, unit) == Value(frac[..Kept(frac)]) * unit / Pow10(Kept(frac))
  {
    hide Pow10, Value, RoundsLikeF64, Step, Scale, Kept;
    var k := Kept(frac);
    ExactRoundingIsOne();
    ScaleIsPower(Exact, k);
    ExactStep(Value(frac[..k]), Pow10(k), unit);
  }
}
