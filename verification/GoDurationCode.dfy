/** The loops of the duration parser and printer, on u64 and i64 variables, against their
    specifications. A `u64` variable cannot hold a wrapped value, so verifying the assignments shows
    that no step of the source wraps. */
module GoDurationCode {
  import opened Bytes
  import opened Decimal
  import opened GoDuration
  import opened GoDurationLaws
  import opened GoDurationFormat

  // --- parsing ------------------------------------------------------------------------------

  /** `leading_int`: the value of the leading digits, or none past 2^63. */
  method LeadingInt(s: bytes) returns (r: Option<(u64, bytes)>)
    ensures r.Some? <==> Value(s[..DigitRun(s)]) <= TWO63
    ensures r.Some? ==> r.value == (Value(s[..DigitRun(s)]), s[DigitRun(s)..])
  {
    var value: u64 := 0;
    var idx := 0;
    assert s[..0] == [];
    for i := 0 to |s|
      invariant idx == i && AllDigits(s[..i])
      invariant value == Value(s[..i]) <= TWO63
    {
      if !IsDigit(s[i]) {
        idx := i;
        break;
      }
      assert s[..i + 1][..i] == s[..i];
      assert s[..i + 1] == s[..i] + [s[i]];
      RunReaches(s, i + 1);
      if value > TWO63 / 10 {
        return None;
      }
      value := value * 10 + (s[i] - 0x30);
      if value > TWO63 {
        return None;
      }
      idx := i + 1;
    }
    DigitRunIs(s, idx);
    return Some((value, s[idx..]));
  }

  /** Digits read so far belong to the run, and the run is worth at least as much. */
  lemma RunReaches(s: bytes, i: nat)
    requires i <= |s| && AllDigits(s[..i])
    ensures i <= DigitRun(s) && Value(s[..i]) <= Value(s[..DigitRun(s)])
  {
    var n := DigitRun(s);
    forall k | 0 <= k < i ensures IsDigit(s[k]) { assert s[..i][k] == s[k]; }
    assert s[..n][..i] == s[..i];
    ValuePrefix(s[..n], i);
  }

  function KeptText(frac: bytes): (t: bytes)
    requires AllDigits(frac)
    ensures AllDigits(t)
  {
    frac[..Kept(frac)]
  }

  lemma KeptStep(front: bytes, b: byte)
    requires AllDigits(front) && IsDigit(b)
    ensures AllDigits(front + [b])
    ensures var now := front + [b]; var full := KeptText(front) == front;
            && Value(now) == 10 * Value(front) + (b - 0x30)
            && KeptText(now) == (if !full || Value(front) > (TWO63 - 1) / 10 || Value(now) > TWO63 then KeptText(front) else now)
  {
    hide Kept, Value;
    var now := front + [b];
    var k := Kept(front);
    ValueSnoc(front, b);
    KeptSnoc(front, b);
    assert now[..k] == front[..k] && now[..|now|] == now;
  }

  lemma ValueSnoc(front: bytes, b: byte)
    requires AllDigits(front) && IsDigit(b)
    ensures AllDigits(front + [b]) && Value(front + [b]) == 10 * Value(front) + (b - 0x30)
  {
    assert (front + [b])[..|front|] == front;
  }

  lemma KeptSnoc(front: bytes, b: byte)
    requires AllDigits(front) && IsDigit(b)
    ensures AllDigits(front + [b])
    ensures var now := front + [b];
            Kept(now) == if Kept(front) < |front| || Value(front) > (TWO63 - 1) / 10 || Value(now) > TWO63 then Kept(front) else |now|
  {
    hide Value;
    assert (front + [b])[..|front|] == front;
  }

  /** `leading_fraction`: the digits the guards keep, the scale they imply, and what follows all of
      the digits. */
  method LeadingFraction(rn: real -> real, s: bytes) returns (value: u64, scale: real, rest: bytes)
    ensures var n := DigitRun(s); var t := KeptText(s[..n]);
            value == Value(t) && scale == Scale(rn, |t|) && rest == s[n..]
  {
    value := 0;
    scale := 1.0;
    var overflow := false;
    var idx := 0;
    ghost var front, kept: bytes := [], [];
    EmptyFraction();
    ScaleStarts(rn);
    hide KeptText, Value, DigitRun, AllDigits, Scale, F64Mul;
    for i := 0 to |s|
      invariant idx == i && front == s[..i] && AllDigits(front)
      invariant kept == KeptText(front) && (overflow <==> kept != front)
      invariant value == Value(kept) && scale == Scale(rn, |kept|)
    {
      if !IsDigit(s[i]) {
        idx := i;
        break;
      }
      idx := i + 1;
      assert s[..i + 1] == front + [s[i]];
      KeptStep(front, s[i]);
      ghost var now := front + [s[i]];
      front := now;
      if overflow {
        continue;
      }
      if value > (TWO63 - 1) / 10 {
        overflow := true;
        continue;
      }
      var next: u64 := value * 10 + (s[i] - 0x30);
      if next > TWO63 {
        overflow := true;
        continue;
      }
      value := next;
      ScaleStep(rn, |now|);
      F64MulIs(rn, scale, 10.0);
      scale := F64Mul(rn, scale, 10.0);
      kept := now;
    }
    DigitRunIs(s, idx);
    rest := s[idx..];
  }

  /** The unit scan: the position of the first digit or dot. */
  method UnitEnd(s: bytes) returns (end: nat)
    ensures end == UnitRun(s)
  {
    end := 0;
    while end < |s| && !StartsNumber(s[end])
      invariant end <= |s| && UnitRun(s) == end + UnitRun(s[end..])
    {
      assert s[end..][1..] == s[end + 1..];
      end := end + 1;
    }
  }

  function AsI64(u: u64): i64 {
    if u < TWO63 then u else u - TWO64
  }

  function WrappingNeg(i: i64): i64 {
    if i == I64_MIN then I64_MIN else -i
  }

  /** `parse_go_duration`. */
  method ParseGoDuration(rn: real -> real, input: bytes) returns (r: Result<i64, DurationError>)
    requires RoundsLikeF64(rn)
    ensures r == Parse(rn, input)
  {
    hide Scan, Pass, RoundsLikeF64;
    var s := input;
    var neg := false;
    if |s| > 0 && (s[0] == MINUS || s[0] == PLUS) {
      neg := s[0] == MINUS;
      s := s[1..];
    }
    if s == [ZERO] {
      return Ok(0);
    }
    if s == [] {
      return Err(Invalid);
    }
    ghost var body := s;
    var total: u64 := 0;
    while s != []
      invariant total <= TWO63
      invariant Scan(rn, body, 0) == Scan(rn, s, total)
      decreases |s|
    {
      var step := ParseComponent(rn, s);
      ScanStep(rn, s, total);
      match step {
        case Err(e) => return Err(e);
        case Ok((v, rest)) =>
          if total + v >= TWO64 {
            return Err(Invalid);
          }
          total := total + v;
          if total > TWO63 {
            return Err(Invalid);
          }
          s := rest;
      }
    }
    ScanEnd(rn, total);
    if neg {
      return Ok(WrappingNeg(AsI64(total)));
    }
    if total > TWO63 - 1 {
      return Err(Invalid);
    }
    return Ok(AsI64(total));
  }

  /** What one pass of the loop makes of the front of the text: the guards of the pass either agree
      with the single range check of `Scan`, or refuse a component that is out of range by itself. */
  function Pass(rn: real -> real, s: bytes): Result<(int, bytes), DurationError>
    requires s != []
  {
    match Next(s)
    case Err(e) => Err(e)
    case Ok((c, rest)) =>
      if Nanos(rn, c) > TWO63 then Err(Invalid) else Ok((Nanos(rn, c), rest))
  }

  lemma ScanStep(rn: real -> real, s: bytes, total: nat)
    requires RoundsLikeF64(rn) && s != [] && total <= TWO63
    ensures Pass(rn, s).Err? ==> Scan(rn, s, total) == Err(Pass(rn, s).error)
    ensures Pass(rn, s).Ok? ==>
              var (v, rest) := Pass(rn, s).value;
              Scan(rn, s, total) == if total + v > TWO63 then Err(Invalid) else Scan(rn, rest, total + v)
  {
    hide Next, Nanos, WellFormed, RoundsLikeF64;
    if Next(s).Ok? {
      var (c, rest) := Next(s).value;
      assert Scan(rn, s, total) == if total + Nanos(rn, c) > TWO63 then Err(Invalid) else Scan(rn, rest, total + Nanos(rn, c));
      NanosNonNegative(rn, c);
    }
  }

  lemma NanosNonNegative(rn: real -> real, c: Component)
    requires RoundsLikeF64(rn) && WellFormed(c)
    ensures Nanos(rn, c) >= 0
  {
    FracBound(rn, c.frac, UnitNanos(c.unit));
  }

  lemma ScanEnd(rn: real -> real, total: nat)
    ensures Scan(rn, [], total) == Ok(total)
  {
  }

  /** The number at the front: the integer part under its overflow guard, then the fraction. */
  method ReadNumber(rn: real -> real, s: bytes)
    returns (r: Option<(u64, u64, real, bytes)>, had_int: bool, had_frac: bool)
    ensures var n := LexNumber(s);
            && (r.Some? <==> Value(n.whole) <= TWO63)
            && (r.Some? ==>
                  var (v, frac, scale, rest) := r.value;
                  && v == Value(n.whole) && frac == Value(KeptText(n.frac))
                  && (n.dot ==> scale == Scale(rn, |KeptText(n.frac)|))
                  && rest == n.rest
                  && (had_int <==> n.whole != []) && (had_frac <==> n.frac != []))
  {
    hide KeptText, Value, Scale;
    had_frac := false;
    var lead := LeadingInt(s);
    if lead.None? {
      return None, false, false;
    }
    var (v, rest) := lead.value;
    had_int := |s| != |rest|;
    var frac: u64 := 0;
    var scale := 1.0;
    EmptyFraction();
    if |rest| > 0 && rest[0] == DOT {
      rest := rest[1..];
      var before := |rest|;
      frac, scale, rest := LeadingFraction(rn, rest);
      had_frac := before != |rest|;
    }
    r := Some((v, frac, scale, rest));
  }

  lemma F64MulIs(rn: real -> real, x: real, y: real)
    ensures F64Mul(rn, x, y) == rn(x * y)
  {
  }

  lemma EmptyFraction()
    ensures AllDigits([]) && KeptText([]) == [] && Value([]) == 0
  {
  }

  /** The body of the parser's loop, up to the sum. */
  method ParseComponent(rn: real -> real, s: bytes) returns (r: Result<(u64, bytes), DurationError>)
    requires RoundsLikeF64(rn) && s != []
    ensures r == Pass(rn, s)
    ensures r.Ok? ==> r.value.0 <= TWO63 && |r.value.1| < |s|
  {
    hide LexNumber, KeptText, Value, UnitRun, FracNanos, Step, UnitText, RoundsLikeF64;
    var first := s[0];
    if !(first == DOT || IsDigit(first)) {
      return Err(Invalid);
    }
    ghost var n := LexNumber(s);
    var number, had_int, had_frac := ReadNumber(rn, s);
    if number.None? {
      return Err(Invalid);
    }
    var (v, frac, scale, rest) := number.value;
    if !had_int && !had_frac {
      return Err(Invalid);
    }
    var end := UnitEnd(rest);
    if end == 0 {
      return Err(MissingUnit);
    }
    var name := rest[..end];
    rest := rest[end..];
    var named := UnitNamed(name);
    if named.None? {
      return Err(UnknownUnit(name));
    }
    var unit := UnitNanos(named.value);
    ghost var c := Component(n.whole, n.dot, n.frac, named.value);
    assert Next(s) == Ok((c, rest));
    r := Worth(rn, v, frac, scale, unit, rest, n.frac);
    assert Nanos(rn, c) == v * unit + FracNanos(rn, n.frac, unit);
  }

  /** The product and the fraction of one component, under their guards. */
  method Worth(rn: real -> real, whole: u64, frac: u64, scale: real, unit: nat, rest: bytes, ghost text: bytes)
    returns (r: Result<(u64, bytes), DurationError>)
    requires RoundsLikeF64(rn) && AllDigits(text) && 1 <= unit <= 3_600_000_000_000
    requires frac == Value(KeptText(text)) && (text != [] ==> scale == Scale(rn, |KeptText(text)|))
    ensures var total := whole * unit + FracNanos(rn, text, unit);
            r == if total > TWO63 then Err(Invalid) else Ok((total, rest))
    ensures r.Ok? ==> 0 <= r.value.0 <= TWO63
  {
    var v := whole;
    FracBound(rn, text, unit);
    FracByParts(rn, text, frac, scale, unit);
    hide FracNanos, Step, KeptText, Value, RoundsLikeF64;
    if v > TWO63 / unit {
      OverGuard(v, unit);
      return Err(Invalid);
    }
    UnderGuard(v, unit);
    v := v * unit;
    if frac > 0 {
      v := v + Step(rn, frac, scale, unit);
      if v > TWO63 {
        return Err(Invalid);
      }
    }
    return Ok((v, rest));
  }

  lemma FracByParts(rn: real -> real, text: bytes, frac: nat, scale: real, unit: nat)
    requires AllDigits(text)
    requires frac == Value(KeptText(text)) && (text != [] ==> scale == Scale(rn, |KeptText(text)|))
    ensures FracNanos(rn, text, unit) == if frac > 0 then Step(rn, frac, scale, unit) else 0
  {
  }

  lemma OverGuard(v: nat, unit: nat)
    requires unit >= 1 && v > TWO63 / unit
    ensures v * unit > TWO63
  {
    var q := TWO63 / unit;
    assert TWO63 == q * unit + TWO63 % unit;
    assert (q + 1) * unit <= v * unit;
  }

  lemma UnderGuard(v: nat, unit: nat)
    requires unit >= 1 && v <= TWO63 / unit
    ensures 0 <= v * unit <= TWO63
  {
    var q := TWO63 / unit;
    assert TWO63 == q * unit + TWO63 % unit;
    assert v * unit <= q * unit;
  }

  // --- printing -----------------------------------------------------------------------------

  lemma PushReversed(pushed: bytes, b: byte)
    ensures Reversed(pushed + [b]) == [b] + Reversed(pushed)
  {
    ReversedConcat(pushed, [b]);
  }

  lemma NothingReversed()
    ensures Reversed<byte>([]) == []
  {
  }

  /** One digit of the fraction loop, from the right. */
  lemma FracStep(v: nat, p: nat)
    requires p > 0
    ensures Shift(v, p) == Shift(v / 10, p - 1) && Padded(v, p) == Padded(v / 10, p - 1) + [0x30 + v % 10]
    ensures FracText(v, p) == if v % 10 == 0 then FracText(v / 10, p - 1) else Padded(v, p)
    ensures Shift(v, 0) == v && Padded(v, 0) == [] && FracText(v, 0) == []
  {
  }

  lemma Prepend(a: bytes, b: byte, r: bytes)
    ensures (a + [b]) + r == a + ([b] + r)
  {
  }

  /** `fmt_frac`: pushes the trimmed fraction, least significant digit first, then the dot. */
  method FmtFrac(buf: ByteVec, value: u64, prec: nat) returns (v: u64)
    modifies buf
    ensures v == Shift(value, prec)
    ensures var t := FracText(value, prec);
            buf.data == old(buf.data) + Reversed(if t != [] then [DOT] + t else [])
  {
    v := value;
    var printing := false;
    ghost var pushed: bytes := [];
    hide Shift, Padded, FracText, Reversed;
    assert Reversed<byte>([]) == [] by { NothingReversed(); }
    for i := 0 to prec
      invariant buf.data == old(buf.data) + pushed
      invariant Shift(v, prec - i) == Shift(value, prec)
      invariant !printing ==> pushed == [] && FracText(v, prec - i) == FracText(value, prec)
      invariant printing ==> pushed != [] && Padded(v, prec - i) + Reversed(pushed) == FracText(value, prec)
    {
      FracStep(v, prec - i);
      var digit := v % 10;
      printing := printing || digit != 0;
      if printing {
        buf.Push(0x30 + digit);
        PushReversed(pushed, 0x30 + digit);
        Prepend(Padded(v / 10, prec - i - 1), 0x30 + digit, Reversed(pushed));
        Associative(old(buf.data), pushed, [0x30 + digit]);
        pushed := pushed + [0x30 + digit];
      }
      v := v / 10;
    }
    FracStep(v, 1);
    ghost var t := FracText(value, prec);
    if printing {
      assert t == Reversed(pushed) && |t| == |pushed|;
      buf.Push(DOT);
      PushReversed(pushed, DOT);
      ReversedTwice(pushed + [DOT]);
      Associative(old(buf.data), pushed, [DOT]);
    }
  }

  /** `fmt_int`: pushes the numeral, least significant digit first. */
  method FmtInt(buf: ByteVec, value: u64)
    modifies buf
    ensures buf.data == old(buf.data) + Reversed(Digits(value))
  {
    var v := value;
    if v == 0 {
      buf.Push(0x30);
      return;
    }
    ghost var pushed: bytes := [];
    while v > 0
      invariant 0 <= v < TWO64
      invariant buf.data == old(buf.data) + pushed
      invariant if v > 0 then Digits(v) + Reversed(pushed) == Digits(value) else Reversed(pushed) == Digits(value)
      decreases v
    {
      PushReversed(pushed, 0x30 + v % 10);
      buf.Push(0x30 + v % 10);
      pushed := pushed + [0x30 + v % 10];
      v := v / 10;
    }
    ReversedTwice(pushed);
  }

  function AsU64(d: i64): u64 {
    if d < 0 then d + TWO64 else d
  }

  function WrappingNegU64(u: u64): u64 {
    if u == 0 then 0 else TWO64 - u
  }

  /** A unit, a fraction and an integer part, each pushed back to front, are a component pushed back
      to front. */
  lemma Assemble(before: bytes, c: Component)
    ensures before + Reversed(UnitText(c.unit)) + Reversed(if c.dot then [DOT] + c.frac else []) + Reversed(c.whole)
         == before + Reversed(Render(c))
  {
    var f := if c.dot then [DOT] + c.frac else [];
    ReversedConcat(c.whole, f);
    ReversedConcat(c.whole + f, UnitText(c.unit));
    var x, y, z := Reversed(UnitText(c.unit)), Reversed(f), Reversed(c.whole);
    assert before + x + y + z == before + (x + (y + z));
  }

  lemma ReversedOne(x: byte)
    ensures Reversed([x]) == [x]
  {
  }

  lemma ReversedTwo(x: byte, y: byte)
    ensures Reversed([x, y]) == [y, x]
  {
    hide Reversed;
    ReversedOne(y);
    ReversedCons(x, [y]);
    assert [x] + [y] == [x, y];
  }

  lemma ReversedThree(x: byte, y: byte, z: byte)
    ensures Reversed([x, y, z]) == [z, y, x]
  {
    hide Reversed;
    ReversedTwo(y, z);
    ReversedCons(x, [y, z]);
    assert [x] + [y, z] == [x, y, z];
  }

  lemma ReversedUnits()
    ensures Reversed(UnitText(Nano)) == [0x73, 0x6E] && Reversed(UnitText(MicroSign)) == [0x73, 0xB5, 0xC2]
    ensures Reversed(UnitText(Milli)) == [0x73, 0x6D] && Reversed(UnitText(Sec)) == [0x73]
    ensures Reversed(UnitText(Minute)) == [0x6D] && Reversed(UnitText(Hour)) == [0x68]
  {
    hide Reversed;
    ReversedTwo(0x6E, 0x73);
    ReversedTwo(0x6D, 0x73);
    ReversedThree(0xC2, 0xB5, 0x73);
    ReversedOne(0x73);
    ReversedOne(0x6D);
    ReversedOne(0x68);
  }

  lemma PushInFront(before: bytes, c: Component, cs: seq<Component>)
    ensures (before + Reversed(RenderAll(cs))) + Reversed(Render(c)) == before + Reversed(RenderAll([c] + cs))
  {
    assert ([c] + cs)[1..] == cs;
    ReversedConcat(Render(c), RenderAll(cs));
  }

  lemma PushFirst(before: bytes, c: Component)
    ensures before + Reversed(Render(c)) == before + Reversed(RenderAll([c]))
  {
    assert [c] + [] == [c];
    PushInFront(before, c, []);
    assert before + Reversed<byte>([]) == before;
  }

  lemma ShiftNine(u: nat)
    ensures Shift(u, 9) == u / 1_000_000_000
  {
    Pow10Known();
    ShiftSplits(u, 9);
    DivModUnique(u, Pow10(9), Shift(u, 9), u % Pow10(9));
  }

  lemma ShortLayout(value: nat, prec: nat, unit: Unit)
    requires (value < 1_000 && prec == 0 && unit == Nano)
          || (1_000 <= value < 1_000_000 && prec == 3 && unit == MicroSign)
          || (1_000_000 <= value < 1_000_000_000 && prec == 6 && unit == Milli)
    ensures var t := FracText(value, prec);
            Layout(value) == [Component(Digits(Shift(value, prec)), t != [], t, unit)]
  {
    assert Shift(value, 0) == value && FracText(value, 0) == [];
    hide Digits;
  }

  /** The sub-second branch. */
  method FormatShort(buf: ByteVec, value: u64)
    requires 0 < value < 1_000_000_000
    modifies buf
    ensures buf.data == old(buf.data) + Reversed(RenderAll(Layout(value)))
  {
    ReversedUnits();
    hide Layout, RenderAll, Render, Digits, FracText, Shift, Reversed, UnitText;
    var u := value;
    buf.Push(0x73);
    var prec := 0;
    ghost var unit := Nano;
    if u < 1_000 {
      buf.Push(0x6E);
    } else if u < 1_000_000 {
      buf.Push(0xB5);
      buf.Push(0xC2);
      prec := 3;
      unit := MicroSign;
    } else {
      buf.Push(0x6D);
      prec := 6;
      unit := Milli;
    }
    assert buf.data == old(buf.data) + Reversed(UnitText(unit));
    u := FmtFrac(buf, u, prec);
    FmtInt(buf, u);
    ghost var t := FracText(value, prec);
    ghost var c := Component(Digits(u), t != [], t, unit);
    ShortLayout(value, prec, unit);
    Assemble(old(buf.data), c);
    PushFirst(old(buf.data), c);
  }

  lemma SecondsParts(value: nat)
    ensures var t := FracText(value, 9);
            Seconds(value) == Component(Digits(Shift(value, 9) % 60), t != [], t, Sec)
  {
    ShiftNine(value);
  }

  lemma WholeParts(n: nat, u: Unit)
    ensures Whole(n, u) == Component(Digits(n), false, [], u)
  {
  }

  lemma LongLayout(value: nat)
    requires value >= 1_000_000_000
    ensures var minutes := Shift(value, 9) / 60;
            Layout(value) ==
            if minutes == 0 then [Seconds(value)]
            else if minutes / 60 == 0 then [Whole(minutes % 60, Minute)] + [Seconds(value)]
            else [Whole(minutes / 60, Hour)] + ([Whole(minutes % 60, Minute)] + [Seconds(value)])
  {
    ShiftNine(value);
    hide Shift, Seconds, Whole;
  }

  /** A unit letter and a whole number in front of what is already there. */
  method PushWhole(buf: ByteVec, letter: byte, n: u64, ghost unit: Unit)
    requires Reversed(UnitText(unit)) == [letter]
    modifies buf
    ensures buf.data == old(buf.data) + Reversed(Render(Whole(n, unit)))
  {
    hide Render, Digits, Whole, UnitText;
    buf.Push(letter);
    FmtInt(buf, n);
    WholeParts(n, unit);
    assert Reversed<byte>([]) == [];
    Assemble(old(buf.data), Whole(n, unit));
  }

  /** The branch of one second and more. */
  method FormatLong(buf: ByteVec, value: u64)
    requires value >= 1_000_000_000
    modifies buf
    ensures buf.data == old(buf.data) + Reversed(RenderAll(Layout(value)))
  {
    ReversedUnits();
    hide Layout, RenderAll, Render, Digits, FracText, Shift, Reversed, UnitText, Seconds, Whole;
    LongLayout(value);
    SecondsParts(value);
    var u := value;
    buf.Push(0x73);
    u := FmtFrac(buf, u, 9);
    FmtInt(buf, u % 60);
    ghost var s := Seconds(value);
    Assemble(old(buf.data), s);
    PushFirst(old(buf.data), s);
    u := u / 60;
    if u > 0 {
      PushWhole(buf, 0x6D, u % 60, Minute);
      ghost var m := Whole(u % 60, Minute);
      PushInFront(old(buf.data), m, [s]);
      u := u / 60;
      if u > 0 {
        PushWhole(buf, 0x68, u, Hour);
        PushInFront(old(buf.data), Whole(u, Hour), [m] + [s]);
      }
    }
  }

  /** `format_go_duration`. */
  method FormatGoDuration(d: i64) returns (text: bytes)
    ensures text == Format(d)
  {
    hide Layout, RenderAll, Reversed;
    var neg := d < 0;
    var u := AsU64(d);
    if neg {
      u := WrappingNegU64(u);
    }
    assert u == Abs(d);
    var buf := new ByteVec();
    if u < 1_000_000_000 {
      if u == 0 {
        return [ZERO, 0x73];
      }
      FormatShort(buf, u);
    } else {
      FormatLong(buf, u);
    }
    ghost var body := RenderAll(Layout(u));
    assert buf.data == Reversed(body);
    ReversedTwice(body);
    if neg {
      buf.Push(MINUS);
      PushReversed(Reversed(body), MINUS);
    }
    buf.Reverse();
    text := buf.data;
    assert [] + body == body;
  }
}
