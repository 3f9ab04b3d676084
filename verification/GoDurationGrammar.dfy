/** The grammar of a duration text as a bijection with component lists, and the exactness of the
    parser over it: acceptance is one comparison of an integer sum. */
module GoDurationGrammar {
  import opened Bytes
  import opened Decimal
  import opened GoDuration
  import opened GoDurationLaws

  /** One component off the front by shape alone, with no range check. */
  function LexOne(s: bytes): (r: Option<(Component, bytes)>)
    requires s != []
    ensures r.Some? ==> WellFormed(r.value.0) && |r.value.1| < |s|
  {
    if !StartsNumber(s[0]) then None
    else
      var n := LexNumber(s);
      var k := UnitRun(n.rest);
      if n.whole == [] && n.frac == [] then None
      else match UnitNamed(n.rest[..k])
        case None => None
        case Some(u) => Some((Component(n.whole, n.dot, n.frac, u), n.rest[k..]))
  }

  /** The components of a signless text, or none when it is outside the grammar. */
  function Lex(s: bytes): (r: Option<seq<Component>>)
    ensures r.Some? ==> AllWellFormed(r.value)
    decreases |s|
  {
    hide LexOne, WellFormed;
    if s == [] then Some([])
    else match LexOne(s)
      case None => None
      case Some((c, rest)) =>
        match Lex(rest)
        case None => None
        case Some(cs) =>
          assert ([c] + cs)[1..] == cs;
          Some([c] + cs)
  }

  // --- the grammar is a bijection -----------------------------------------------------------

  lemma LexNumberOf(whole: bytes, dot: bool, frac: bytes, rest: bytes)
    requires AllDigits(whole) && AllDigits(frac) && (!dot ==> frac == [])
    requires rest != [] && !StartsNumber(rest[0])
    ensures LexNumber(NumberText(whole, dot, frac) + rest) == Number(whole, dot, frac, rest)
  {
    var s := NumberText(whole, dot, frac) + rest;
    var r1 := (if dot then [DOT] + frac else []) + rest;
    assert s == whole + r1;
    assert s[..|whole|] == whole && s[|whole|..] == r1;
    assert s[|whole|] == r1[0];
    DigitRunIs(s, |whole|);
    if dot {
      var r2 := r1[1..];
      assert r2 == frac + rest;
      assert r2[..|frac|] == frac && r2[|frac|..] == rest;
      assert r2[|frac|] == rest[0];
      DigitRunIs(r2, |frac|);
    }
  }

  lemma {:induction false} UnitRunOf(t: bytes, rest: bytes)
    requires forall i :: 0 <= i < |t| ==> !StartsNumber(t[i])
    requires rest != [] ==> StartsNumber(rest[0])
    ensures UnitRun(t + rest) == |t|
  {
    if t == [] {
      assert t + rest == rest;
    } else {
      assert (t + rest)[1..] == t[1..] + rest;
      UnitRunOf(t[1..], rest);
    }
  }

  lemma LexOneOf(c: Component, rest: bytes)
    requires WellFormed(c) && (rest != [] ==> StartsNumber(rest[0]))
    ensures LexOne(Render(c) + rest) == Some((c, rest))
  {
    var t := UnitText(c.unit);
    var number := NumberText(c.whole, c.dot, c.frac);
    var s := Render(c) + rest;
    assert s == number + (t + rest);
    assert (t + rest)[0] == t[0];
    LexNumberOf(c.whole, c.dot, c.frac, t + rest);
    UnitRunOf(t, rest);
    UnitNamedText(c.unit);
    assert (t + rest)[..|t|] == t && (t + rest)[|t|..] == rest;
    assert StartsNumber(s[0]) by { RenderStarts(c); assert s[0] == Render(c)[0]; }
  }

  lemma RenderStarts(c: Component)
    requires WellFormed(c)
    ensures |Render(c)| >= 2 && StartsNumber(Render(c)[0])
  {
    if c.whole != [] {
      assert Render(c)[0] == c.whole[0];
    } else {
      assert Render(c)[0] == DOT;
    }
  }

  /** Every component list reads back from its text, so no text has two readings. */
  lemma {:induction false} LexOfRender(cs: seq<Component>)
    requires AllWellFormed(cs)
    ensures Lex(RenderAll(cs)) == Some(cs)
    ensures cs != [] ==> |RenderAll(cs)| >= 2 && StartsNumber(RenderAll(cs)[0])
  {
    hide LexOne, Render, WellFormed;
    if cs != [] {
      LexOfRender(cs[1..]);
      LexOneOf(cs[0], RenderAll(cs[1..]));
      RenderStarts(cs[0]);
      assert cs == [cs[0]] + cs[1..];
    }
  }

  lemma LexOneSplits(s: bytes)
    requires s != [] && LexOne(s).Some?
    ensures s == Render(LexOne(s).value.0) + LexOne(s).value.1
  {
    LexNumberSplits(s);
    hide LexNumber, NumberText, UnitNamed;
    var n := LexNumber(s);
    var k := UnitRun(n.rest);
    var number, unit, rest := NumberText(n.whole, n.dot, n.frac), n.rest[..k], n.rest[k..];
    assert n.rest == unit + rest;
    assert number + (unit + rest) == number + unit + rest;
  }

  /** Every text of the grammar is the text of the components read from it. */
  lemma {:induction false} RenderOfLex(s: bytes)
    requires Lex(s).Some?
    ensures RenderAll(Lex(s).value) == s
    decreases |s|
  {
    if s != [] {
      LexOneSplits(s);
      var (c, rest) := LexOne(s).value;
      RenderOfLex(rest);
      assert ([c] + Lex(rest).value)[1..] == Lex(rest).value;
    }
  }

  /** Two component lists with the same text are the same list. */
  lemma RenderInjective(cs: seq<Component>, ds: seq<Component>)
    requires AllWellFormed(cs) && AllWellFormed(ds)
    requires RenderAll(cs) == RenderAll(ds)
    ensures cs == ds
  {
    LexOfRender(cs);
    LexOfRender(ds);
  }

  // --- exactness ----------------------------------------------------------------------------

  predicate Even(c: Component) {
    WellFormed(c) && EvenFraction(c.frac, UnitNanos(c.unit))
  }

  predicate AllEven(cs: seq<Component>) {
    cs == [] || (Even(cs[0]) && AllEven(cs[1..]))
  }

  /** What a component is worth in integer arithmetic. */
  function Worth(c: Component): nat
    requires WellFormed(c)
  {
    hide Value, Pow10, UnitNanos;
    Value(c.whole) * UnitNanos(c.unit) + Value(c.frac) * (UnitNanos(c.unit) / Pow10(|c.frac|))
  }

  function Magnitude(cs: seq<Component>): nat
    requires AllWellFormed(cs)
  {
    if cs == [] then 0 else Worth(cs[0]) + Magnitude(cs[1..])
  }

  /** `Next` is the shape test plus the digit guard of the integer part. */
  lemma NextByShape(s: bytes)
    requires s != []
    ensures LexOne(s).None? ==> Next(s).Err?
    ensures LexOne(s).Some? ==>
              Next(s) == if Value(LexOne(s).value.0.whole) > TWO63 then Err(Invalid) else Ok(LexOne(s).value)
  {
    assert UnitNamed([]).None?;
  }

  lemma WorthOf(rn: real -> real, c: Component)
    requires RoundsLikeF64(rn) && Even(c)
    ensures Nanos(rn, c) == Worth(c) >= Value(c.whole)
  {
    hide FracNanos, Value, Pow10, UnitNanos;
    FracExact(rn, c.frac, UnitNanos(c.unit));
    MulAtLeast(Value(c.whole), UnitNanos(c.unit));
  }

  /** The scan sums in integers: no guard refuses a text whose sum is in range, and none lets one
      through whose sum is not. */
  lemma {:induction false} ScanExact(rn: real -> real, s: bytes, total: nat)
    requires RoundsLikeF64(rn) && total <= TWO63
    requires Lex(s).Some? && AllEven(Lex(s).value)
    ensures Scan(rn, s, total) ==
            if total + Magnitude(Lex(s).value) <= TWO63 then Ok(total + Magnitude(Lex(s).value)) else Err(Invalid)
    decreases |s|
  {
    hide Next, LexOne, Nanos, Worth, WellFormed, EvenFraction;
    if s != [] {
      NextByShape(s);
      var (c, rest) := LexOne(s).value;
      var cs := Lex(s).value;
      assert c == cs[0] && cs[1..] == Lex(rest).value;
      WorthOf(rn, c);
      if total + Worth(c) <= TWO63 { ScanExact(rn, rest, total + Worth(c)); }
    }
  }

  lemma {:induction false} ScanRefuses(rn: real -> real, s: bytes, total: int)
    requires Lex(s).None?
    ensures Scan(rn, s, total).Err?
    decreases |s|
  {
    hide Next, LexOne, Nanos;
    NextByShape(s);
    if Next(s).Ok? {
      var (c, rest) := Next(s).value;
      ScanRefuses(rn, rest, total + Nanos(rn, c));
    }
  }

  function Body(input: bytes): bytes {
    if HasSign(input) then input[1..] else input
  }

  function SignedLimit(input: bytes): nat {
    if input != [] && input[0] == MINUS then TWO63 else I64_MAX
  }

  /** Acceptance, both ways, for every text whose fractions are even (or which is outside the
      grammar): a bare zero, or a non-empty component list whose integer sum is within the sign's
      limit; and then the result is the signed sum. */
  lemma ParseExact(rn: real -> real, input: bytes)
    requires RoundsLikeF64(rn)
    requires Lex(Body(input)).Some? ==> AllEven(Lex(Body(input)).value)
    ensures var b := Body(input);
            Parse(rn, input).Ok? <==>
            b == [ZERO] || (b != [] && Lex(b).Some? && Magnitude(Lex(b).value) <= SignedLimit(input))
    ensures var b := Body(input);
            Parse(rn, input).Ok? && b != [ZERO] ==>
            Parse(rn, input).value == (if input[0] == MINUS then -1 else 1) * Magnitude(Lex(b).value)
  {
    var b := Body(input);
    if Lex(b).Some? { ScanExact(rn, b, 0); } else { ScanRefuses(rn, b, 0); }
  }

  /** What the parser sums for a component list, through the floating-point step. */
  function NanosSum(rn: real -> real, cs: seq<Component>): int
    requires AllWellFormed(cs)
  {
    if cs == [] then 0 else Nanos(rn, cs[0]) + NanosSum(rn, cs[1..])
  }

  lemma {:induction false} ScanSums(rn: real -> real, s: bytes, total: int)
    requires Scan(rn, s, total).Ok?
    ensures Lex(s).Some? && Scan(rn, s, total) == Ok(total + NanosSum(rn, Lex(s).value))
    decreases |s|
  {
    hide Next, LexOne, Nanos, Worth, WellFormed, EvenFraction;
    if s != [] {
      NextByShape(s);
      var (c, rest) := Next(s).value;
      ScanSums(rn, rest, total + Nanos(rn, c));
      var cs := Lex(s).value;
      assert cs[0] == c && cs[1..] == Lex(rest).value;
    }
  }

  /** Whatever the fractions, an accepted text is a sign and a bare zero, or a sign and the text of a
      non-empty component list; and the result is an i64, the signed sum of what each is worth. */
  lemma AcceptedIsGrammatical(rn: real -> real, input: bytes)
    requires RoundsLikeF64(rn) && Parse(rn, input).Ok?
    ensures var b := Body(input); var r := Parse(rn, input).value;
            && I64_MIN <= r <= I64_MAX
            && (b == [ZERO] ==> r == 0)
            && (b != [ZERO] ==>
                  && Lex(b).Some? && Lex(b).value != [] && b == RenderAll(Lex(b).value)
                  && r == (if input[0] == MINUS then -1 else 1) * NanosSum(rn, Lex(b).value))
  {
    var b := Body(input);
    if b != [ZERO] {
      ScanSums(rn, b, 0);
      RenderOfLex(b);
      SumNonNegative(rn, Lex(b).value);
    }
  }

  lemma {:induction false} SumNonNegative(rn: real -> real, cs: seq<Component>)
    requires RoundsLikeF64(rn) && AllWellFormed(cs)
    ensures NanosSum(rn, cs) >= 0
  {
    hide FracNanos, Value, UnitNanos;
    if cs != [] {
      FracBound(rn, cs[0].frac, UnitNanos(cs[0].unit));
      SumNonNegative(rn, cs[1..]);
    }
  }
}
