/** Decimal numerals: the printer `{}` of an unsigned integer, the value of a digit run, and the
    reader `str::parse::<uN>`. One print/parse law serves durations, port ranges and octets. */
module Decimal {
  import opened Bytes

  function Pow10(k: nat): (p: nat)
    ensures p >= 1
  {
    if k == 0 then 1 else 10 * Pow10(k - 1)
  }

  lemma {:induction false} Pow10Adds(j: nat, k: nat)
    ensures Pow10(j + k) == Pow10(j) * Pow10(k)
  {
    if j != 0 {
      Pow10Adds(j - 1, k);
      calc {
        Pow10(j + k);
        10 * Pow10(j - 1 + k);
        10 * (Pow10(j - 1) * Pow10(k));
        10 * Pow10(j - 1) * Pow10(k);
      }
    }
  }

  lemma {:induction false} Pow10Grows(j: nat, k: nat)
    requires j <= k
    ensures Pow10(j) <= Pow10(k)
  {
    if j < k { Pow10Grows(j, k - 1); }
  }

  predicate AllDigits(s: bytes) {
    forall i :: 0 <= i < |s| ==> IsDigit(s[i])
  }

  /** Length of the leading run of decimal digits. */
  function DigitRun(s: bytes): (n: nat)
    ensures n <= |s|
    ensures AllDigits(s[..n])
    ensures n < |s| ==> !IsDigit(s[n])
  {
    if s == [] || !IsDigit(s[0]) then 0
    else
      var n := DigitRun(s[1..]);
      assert s[..n + 1] == [s[0]] + s[1..][..n];
      n + 1
  }

  lemma DigitRunIs(s: bytes, n: nat)
    requires n <= |s| && AllDigits(s[..n])
    requires n < |s| ==> !IsDigit(s[n])
    ensures DigitRun(s) == n
  {
    var m := DigitRun(s);
    forall i | 0 <= i < m ensures IsDigit(s[i]) { assert s[..m][i] == s[i]; }
    forall i | 0 <= i < n ensures IsDigit(s[i]) { assert s[..n][i] == s[i]; }
  }

  function Value(s: bytes): nat
    requires AllDigits(s)
  {
    if s == [] then 0 else 10 * Value(s[..|s| - 1]) + (s[|s| - 1] - 0x30)
  }

  function Digits(n: nat): (s: bytes)
    ensures |s| >= 1 && AllDigits(s)
  {
    if n < 10 then [0x30 + n] else Digits(n / 10) + [0x30 + n % 10]
  }

  lemma {:induction false} ValueOfDigits(n: nat)
    ensures Value(Digits(n)) == n
  {
    if n >= 10 {
      ValueOfDigits(n / 10);
      var s := Digits(n);
      assert s[..|s| - 1] == Digits(n / 10);
    } else {
      assert Digits(n)[..0] == [];
    }
  }

  lemma {:induction false} ValueBound(s: bytes)
    requires AllDigits(s)
    ensures Value(s) < Pow10(|s|)
  {
    if s != [] { ValueBound(s[..|s| - 1]); }
  }

  lemma {:induction false} ValueConcat(a: bytes, b: bytes)
    requires AllDigits(a) && AllDigits(b)
    ensures AllDigits(a + b)
    ensures Value(a + b) == Value(a) * Pow10(|b|) + Value(b)
  {
    if b == [] {
      assert a + b == a;
    } else {
      var b' := b[..|b| - 1];
      ValueConcat(a, b');
      assert (a + b)[..|a + b| - 1] == a + b';
      Horner(Value(a), Pow10(|b'|), Value(b'), b[|b| - 1] - 0x30);
    }
  }

  lemma Horner(v: nat, p: nat, w: nat, d: int)
    ensures 10 * (v * p + w) + d == v * (10 * p) + (10 * w + d)
  {
  }

  lemma MulAtLeast(v: nat, p: nat)
    requires p >= 1
    ensures v <= v * p
  {
    assert v * p == v + v * (p - 1);
  }

  lemma ValuePrefix(s: bytes, i: nat)
    requires AllDigits(s) && i <= |s|
    ensures AllDigits(s[..i]) && AllDigits(s[i..])
    ensures Value(s[..i]) * Pow10(|s| - i) <= Value(s)
    ensures Value(s[..i]) <= Value(s)
  {
    var a, b := s[..i], s[i..];
    assert s == a + b;
    ValueConcat(a, b);
    MulAtLeast(Value(a), Pow10(|b|));
  }

  lemma {:induction false} DigitsLength(n: nat, k: nat)
    requires k >= 1 && n < Pow10(k)
    ensures |Digits(n)| <= k
  {
    if n >= 10 {
      assert Pow10(1) == 10 * Pow10(0);
      DigitsLength(n / 10, k - 1);
    }
  }

  /** `Digits` is the only numeral of its value without a redundant leading zero. */
  lemma {:induction false} DigitsCanonical(s: bytes)
    requires s != [] && AllDigits(s)
    requires |s| == 1 || s[0] != 0x30
    ensures Digits(Value(s)) == s
  {
    var t := s[..|s| - 1];
    if t == [] {
      assert s == [s[0]];
    } else {
      DigitsCanonical(t);
      assert s == t + [s[|s| - 1]];
    }
  }

  /** Rust's `str::parse` for an unsigned type with the given maximum: one leading `+` is allowed,
      then at least one digit, nothing but digits, and no overflow. */
  function ParseUnsigned(s: bytes, max: nat): (r: Option<nat>)
    ensures r.Some? ==> r.value <= max
  {
    var d := if s != [] && s[0] == 0x2B then s[1..] else s;
    if d == [] || !AllDigits(d) || Value(d) > max then None else Some(Value(d))
  }

  lemma ParseOfDigits(n: nat, max: nat)
    ensures ParseUnsigned(Digits(n), max) == if n <= max then Some(n) else None
  {
    ValueOfDigits(n);
    assert IsDigit(Digits(n)[0]);
  }

  // --- numerals by their places -------------------------------------------------------------

  /** What the digits are worth each in its place. */
  function PlaceSum(s: bytes): int {
    if s == [] then 0 else (s[0] as int - 0x30) * Pow10(|s| - 1) + PlaceSum(s[1..])
  }

  lemma {:induction false} ValueIsPlaceSum(s: bytes)
    requires AllDigits(s)
    ensures Value(s) == PlaceSum(s)
  {
    if s != [] {
      var lead, rest := [s[0]], s[1..];
      ValueIsPlaceSum(rest);
      ValueConcat(lead, rest);
      assert lead[..0] == [] && lead + rest == s;
    }
  }

  function Zeros(k: nat): (z: bytes)
    ensures |z| == k && forall i :: 0 <= i < k ==> z[i] == 0x30
  {
    seq(k, _ => 0x30)
  }

  lemma {:induction false} ZerosAreWorthNothing(k: nat)
    ensures AllDigits(Zeros(k)) && Value(Zeros(k)) == 0
  {
    if k > 0 {
      ZerosAreWorthNothing(k - 1);
      assert Zeros(k)[..k - 1] == Zeros(k - 1);
    }
  }

  /** A digit run is leading zeros and the numeral of its value. */
  lemma {:induction false} ZerosThenDigits(s: bytes) returns (k: nat)
    requires AllDigits(s) && s != []
    ensures s == Zeros(k) + Digits(Value(s))
  {
    hide Value, Digits, AllDigits;
    if |s| == 1 || s[0] != 0x30 {
      k := 0;
      DigitsCanonical(s);
      assert Zeros(0) + s == s;
    } else {
      LeadingZero(s);
      k := ZerosThenDigits(s[1..]);
      assert Zeros(k + 1) == [0x30] + Zeros(k);
      assert s == [0x30] + s[1..];
      Associative([0x30], Zeros(k), Digits(Value(s)));
      k := k + 1;
    }
  }

  lemma LeadingZero(s: bytes)
    requires AllDigits(s) && |s| > 1 && s[0] == 0x30
    ensures AllDigits(s[1..]) && Value(s[1..]) == Value(s)
  {
    ValueConcat([0x30], s[1..]);
    assert [0x30][..0] == [] && [0x30] + s[1..] == s;
  }

  /** What the unsigned readers accept: an optional plus sign, any leading zeros, the numeral of a number
      within the type. */
  lemma ParseUnsignedExactly(s: bytes, max: nat, n: nat)
    ensures ParseUnsigned(s, max) == Some(n) <==>
            n <= max && exists k: nat :: s == Zeros(k) + Digits(n) || s == [0x2B] + (Zeros(k) + Digits(n))
  {
    hide Value, Digits;
    var d := if s != [] && s[0] == 0x2B then s[1..] else s;
    if ParseUnsigned(s, max) == Some(n) {
      var k := ZerosThenDigits(d);
      if d != s { assert s == [0x2B] + d; }
    }
    forall k: nat | n <= max && (s == Zeros(k) + Digits(n) || s == [0x2B] + (Zeros(k) + Digits(n)))
      ensures ParseUnsigned(s, max) == Some(n)
    {
      PaddedNumeral(k, n);
      assert ([0x2B] + (Zeros(k) + Digits(n)))[1..] == Zeros(k) + Digits(n);
    }
  }

  lemma PaddedNumeral(k: nat, n: nat)
    ensures var d := Zeros(k) + Digits(n); AllDigits(d) && d != [] && d[0] != 0x2B && Value(d) == n
  {
    ZerosAreWorthNothing(k);
    ValueOfDigits(n);
    ValueConcat(Zeros(k), Digits(n));
    hide Value, Digits;
    assert IsDigit((Zeros(k) + Digits(n))[0]);
  }
}
