/** Go's `time.Duration` text form: its components, the floating-point step, and the parser as a
    function on texts. The loops of the source are in GoDurationCode, proved against this module. */
module GoDuration {
  import opened Bytes
  import opened Decimal

  const I64_MIN: int := -0x8000_0000_0000_0000
  const I64_MAX: int := 0x7FFF_FFFF_FFFF_FFFF
  const TWO63: nat := 0x8000_0000_0000_0000
  const TWO64: nat := 0x1_0000_0000_0000_0000

  type i64 = x: int | I64_MIN <= x <= I64_MAX
  type u64 = x: int | 0 <= x < TWO64

  const DOT: byte := 0x2E
  const PLUS: byte := 0x2B
  const MINUS: byte := 0x2D
  const ZERO: byte := 0x30

  datatype DurationError = Invalid | MissingUnit | UnknownUnit(name: bytes)

  /** The accepted unit spellings; `us` has three. */
  datatype Unit = Nano | Micro | MicroSign | MicroMu | Milli | Sec | Minute | Hour

  function UnitText(u: Unit): (t: bytes)
    ensures t != []
    ensures forall i :: 0 <= i < |t| ==> !StartsNumber(t[i])
  {
    match u
    case Nano => [0x6E, 0x73]
    case Micro => [0x75, 0x73]
    case MicroSign => [0xC2, 0xB5, 0x73]
    case MicroMu => [0xCE, 0xBC, 0x73]
    case Milli => [0x6D, 0x73]
    case Sec => [0x73]
    case Minute => [0x6D]
    case Hour => [0x68]
  }

  function UnitNanos(u: Unit): (n: nat)
    ensures 1 <= n <= 3_600_000_000_000
  {
    match u
    case Nano => 1
    case Micro => 1_000
    case MicroSign => 1_000
    case MicroMu => 1_000
    case Milli => 1_000_000
    case Sec => 1_000_000_000
    case Minute => 60 * 1_000_000_000
    case Hour => 3_600 * 1_000_000_000
  }

  function UnitNamed(name: bytes): (u: Option<Unit>)
    ensures u.Some? ==> UnitText(u.value) == name
  {
    if name == [0x6E, 0x73] then Some(Nano)
    else if name == [0x75, 0x73] then Some(Micro)
    else if name == [0xC2, 0xB5, 0x73] then Some(MicroSign)
    else if name == [0xCE, 0xBC, 0x73] then Some(MicroMu)
    else if name == [0x6D, 0x73] then Some(Milli)
    else if name == [0x73] then Some(Sec)
    else if name == [0x6D] then Some(Minute)
    else if name == [0x68] then Some(Hour)
    else None
  }

  lemma UnitNamedText(u: Unit)
    ensures UnitNamed(UnitText(u)) == Some(u)
  {
    match u case Nano => case Micro => case MicroSign => case MicroMu =>
    case Milli => case Sec => case Minute => case Hour =>
  }

  predicate StartsNumber(b: byte) {
    b == DOT || IsDigit(b)
  }

  /** Where the unit name ends: at the next digit or dot, or at the end of the text. */
  function UnitRun(s: bytes): (n: nat)
    ensures n <= |s|
    ensures forall i :: 0 <= i < n ==> !StartsNumber(s[i])
    ensures n < |s| ==> StartsNumber(s[n])
  {
    if s == [] || StartsNumber(s[0]) then 0 else 1 + UnitRun(s[1..])
  }

  /** One number with its unit, as written. */
  datatype Component = Component(whole: bytes, dot: bool, frac: bytes, unit: Unit)

  predicate WellFormed(c: Component) {
    && AllDigits(c.whole) && AllDigits(c.frac)
    && (!c.dot ==> c.frac == [])
    && (c.whole != [] || c.frac != [])
  }

  function Render(c: Component): bytes {
    NumberText(c.whole, c.dot, c.frac) + UnitText(c.unit)
  }

  predicate AllWellFormed(cs: seq<Component>) {
    cs == [] || (WellFormed(cs[0]) && AllWellFormed(cs[1..]))
  }

  function RenderAll(cs: seq<Component>): bytes {
    if cs == [] then [] else Render(cs[0]) + RenderAll(cs[1..])
  }

  // --- the f64 step -------------------------------------------------------------------------

  /** What is used of IEEE 754 binary64 rounding, as a function on the reals: it keeps every integer
      up to 2^53 and every power of ten up to 10^22, it is monotone and idempotent, and it never more
      than doubles a non-negative number. Each fact is named so that a proof uses it where it says so. */
  ghost predicate RoundsLikeF64(rn: real -> real) {
    && (forall n: nat :: KeepsInteger(rn, n))
    && (forall k: nat :: KeepsPower(rn, k))
    && (forall x: real, y: real :: Monotone(rn, x, y))
    && (forall x: real :: Stable(rn, x))
  }

  predicate KeepsInteger(rn: real -> real, n: nat) {
    n <= 0x20_0000_0000_0000 ==> rn(n as real) == n as real
  }

  predicate KeepsPower(rn: real -> real, k: nat) {
    k <= 22 ==> rn(Pow10(k) as real) == Pow10(k) as real
  }

  predicate Monotone(rn: real -> real, x: real, y: real) {
    0.0 <= x <= y ==> rn(x) <= rn(y)
  }

  predicate Stable(rn: real -> real, x: real) {
    0.0 <= x ==> rn(rn(x)) == rn(x) && 0.0 <= rn(x) <= 2.0 * x
  }

  /** The two binary64 operations of the fraction step: the exact result, rounded. */
  function F64Mul(rn: real -> real, x: real, y: real): real {
    rn(x * y)
  }

  function F64Div(rn: real -> real, x: real, y: real): real {
    if y == 0.0 then 0.0 else rn(x / y)
  }

  /** `scale` after `k` multiplications by ten. */
  function Scale(rn: real -> real, k: nat): real {
    if k == 0 then 1.0 else F64Mul(rn, Scale(rn, k - 1), 10.0)
  }

  /** How many fraction digits are accumulated before the overflow guards stop the accumulation. */
  function Kept(frac: bytes): (k: nat)
    requires AllDigits(frac)
    ensures k <= |frac|
    ensures Value(frac[..k]) <= TWO63
  {
    if frac == [] then 0
    else
      var front := frac[..|frac| - 1];
      var k := Kept(front);
      assert front[..k] == frac[..k];
      assert frac[..|frac|] == frac;
      if k < |front| || Value(front) > (TWO63 - 1) / 10 || Value(frac) > TWO63 then k else |frac|
  }

  /** The source's floating-point expression and its cast. */
  function Step(rn: real -> real, f: nat, scale: real, unit: nat): int {
    F64Mul(rn, rn(f as real), F64Div(rn, unit as real, scale)).Floor
  }

  /** The nanoseconds a fraction adds. */
  function FracNanos(rn: real -> real, frac: bytes, unit: nat): int
    requires AllDigits(frac)
  {
    var k := Kept(frac);
    var f := Value(frac[..k]);
    if f == 0 then 0 else Step(rn, f, Scale(rn, k), unit)
  }

  /** The nanoseconds one component is worth in the source's arithmetic. */
  function Nanos(rn: real -> real, c: Component): int
    requires WellFormed(c)
  {
    Value(c.whole) * UnitNanos(c.unit) + FracNanos(rn, c.frac, UnitNanos(c.unit))
  }

  // --- the scan -----------------------------------------------------------------------------

  /** The number at the front of a text: its digits, its dot, its fraction, and what follows. */
  datatype Number = Number(whole: bytes, dot: bool, frac: bytes, rest: bytes)

  function NumberText(whole: bytes, dot: bool, frac: bytes): bytes {
    whole + (if dot then [DOT] + frac else [])
  }

  function LexNumber(s: bytes): (n: Number)
    ensures AllDigits(n.whole) && AllDigits(n.frac) && (!n.dot ==> n.frac == [])
    ensures |n.whole| + |n.frac| + |n.rest| <= |s|
  {
    var i := DigitRun(s);
    var r1 := s[i..];
    if r1 != [] && r1[0] == DOT then
      var r2 := r1[1..];
      var j := DigitRun(r2);
      Number(s[..i], true, r2[..j], r2[j..])
    else
      Number(s[..i], false, [], r1)
  }

  lemma Regroup(a: bytes, d: bytes, f: bytes, rest: bytes)
    ensures a + (d + (f + rest)) == (a + (d + f)) + rest
  {
  }

  lemma LexNumberSplits(s: bytes)
    ensures var n := LexNumber(s); s == NumberText(n.whole, n.dot, n.frac) + n.rest
  {
    hide DigitRun, AllDigits;
    var i := DigitRun(s);
    var r1 := s[i..];
    assert s == s[..i] + r1;
    if r1 != [] && r1[0] == DOT {
      var r2 := r1[1..];
      var j := DigitRun(r2);
      assert r1 == [DOT] + r2;
      assert r2 == r2[..j] + r2[j..];
      Regroup(s[..i], [DOT], r2[..j], r2[j..]);
    } else {
      assert s[..i] + [] == s[..i];
    }
  }

  /** The next component of a non-empty text and what follows it, or why there is none. */
  function Next(s: bytes): (r: Result<(Component, bytes), DurationError>)
    requires s != []
    ensures r.Ok? ==> WellFormed(r.value.0) && |r.value.1| < |s|
  {
    if !StartsNumber(s[0]) then Err(Invalid)
    else
      var n := LexNumber(s);
      if Value(n.whole) > TWO63 then Err(Invalid)
      else if n.whole == [] && n.frac == [] then Err(Invalid)
      else
        var k := UnitRun(n.rest);
        if k == 0 then Err(MissingUnit)
        else
          match UnitNamed(n.rest[..k])
          case None => Err(UnknownUnit(n.rest[..k]))
          case Some(u) =>
            Ok((Component(n.whole, n.dot, n.frac, u), n.rest[k..]))
  }

  /** A component is cut off the front of the text, and it ends where the next one starts. */
  lemma NextSplits(s: bytes)
    requires s != [] && Next(s).Ok?
    ensures s == Render(Next(s).value.0) + Next(s).value.1
    ensures Next(s).value.1 != [] ==> StartsNumber(Next(s).value.1[0])
  {
    LexNumberSplits(s);
    hide LexNumber, NumberText, UnitNamed, Value;
    var n := LexNumber(s);
    var k := UnitRun(n.rest);
    assert n.rest == n.rest[..k] + n.rest[k..];
    var number, unit, rest := NumberText(n.whole, n.dot, n.frac), n.rest[..k], n.rest[k..];
    assert number + (unit + rest) == number + unit + rest;
  }

  /** The magnitude of a signless text, given what was summed before it. One range check a component
      stands for all of the source's digit, product and sum guards. */
  function Scan(rn: real -> real, s: bytes, total: int): (r: Result<int, DurationError>)
    ensures r.Ok? && total <= TWO63 ==> r.value <= TWO63
    decreases |s|
  {
    if s == [] then Ok(total)
    else match Next(s)
      case Err(e) => Err(e)
      case Ok((c, rest)) =>
        var t := total + Nanos(rn, c);
        if t > TWO63 then Err(Invalid) else Scan(rn, rest, t)
  }

  function HasSign(s: bytes): bool {
    s != [] && (s[0] == MINUS || s[0] == PLUS)
  }

  /** `parse_go_duration`. */
  function Parse(rn: real -> real, input: bytes): Result<int, DurationError> {
    var neg := input != [] && input[0] == MINUS;
    var s := if HasSign(input) then input[1..] else input;
    if s == [ZERO] then Ok(0)
    else if s == [] then Err(Invalid)
    else match Scan(rn, s, 0)
      case Err(e) => Err(e)
      case Ok(total) =>
        if neg then Ok(-total) else if total > I64_MAX then Err(Invalid) else Ok(total)
  }
}
