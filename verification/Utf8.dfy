/** UTF-8 as Rust's `str` guarantees it (RFC 3629, section 4), and the `str` operations the readers
    use: the first character, white space, `trim`. */
module Utf8 {
  import opened Bytes

  predicate IsCont(b: byte) {
    0x80 <= b <= 0xBF
  }

  /** Length in bytes of the well-formed character at the front, or 0 when there is none. */
  function CharLen(s: bytes): (n: nat)
    ensures n <= |s| && n <= 4
  {
    if s == [] then 0
    else if s[0] < 0x80 then 1
    else if |s| < 2 || !IsCont(s[1]) then 0
    else if 0xC2 <= s[0] <= 0xDF then 2
    else if |s| < 3 || !IsCont(s[2]) then 0
    else if s[0] == 0xE0 && s[1] >= 0xA0 then 3
    else if s[0] == 0xED && s[1] <= 0x9F then 3
    else if (0xE1 <= s[0] <= 0xEC) || s[0] == 0xEE || s[0] == 0xEF then 3
    else if |s| < 4 || !IsCont(s[3]) then 0
    else if s[0] == 0xF0 && s[1] >= 0x90 then 4
    else if s[0] == 0xF4 && s[1] <= 0x8F then 4
    else if 0xF1 <= s[0] <= 0xF3 then 4
    else 0
  }

  predicate Valid(s: bytes) {
    s == [] || (CharLen(s) > 0 && Valid(s[CharLen(s)..]))
  }

  /** The character at the front does not depend on what follows it. */
  lemma CharLenExtends(s: bytes, t: bytes)
    requires CharLen(s) > 0
    ensures CharLen(s + t) == CharLen(s)
    ensures CharLen(s[..CharLen(s)]) == CharLen(s)
  {
  }

  lemma {:induction false} ValidConcat(s: bytes, t: bytes)
    requires Valid(s)
    ensures Valid(s + t) <==> Valid(t)
  {
    if s == [] {
      assert s + t == t;
    } else {
      var n := CharLen(s);
      CharLenExtends(s, t);
      assert (s + t)[n..] == s[n..] + t;
      ValidConcat(s[n..], t);
    }
  }

  lemma {:induction false} AsciiValid(s: bytes)
    requires forall i :: 0 <= i < |s| ==> s[i] < 0x80
    ensures Valid(s)
  {
    if s != [] { AsciiValid(s[1..]); }
  }

  /** Only the first byte of a character can be ASCII, and then it is the whole character. */
  lemma AsciiStands(s: bytes, i: nat)
    requires CharLen(s) > 0 && i < |s| && s[i] < 0x80
    ensures if i == 0 then CharLen(s) == 1 else CharLen(s) <= i
  {
  }

  lemma OneCharValid(s: bytes)
    requires CharLen(s) > 0
    ensures Valid(s[..CharLen(s)])
  {
    CharLenExtends(s, []);
    hide CharLen;
    assert s[..CharLen(s)][CharLen(s)..] == [];
  }

  lemma FirstChar(s: bytes)
    requires Valid(s) && s != []
    ensures CharLen(s) > 0 && Valid(s[CharLen(s)..]) && Valid(s[..CharLen(s)])
  {
    OneCharValid(s);
  }

  lemma {:induction false} ValidFromAscii(s: bytes, i: nat)
    requires Valid(s) && i < |s| && s[i] < 0x80
    ensures Valid(s[i..])
  {
    hide CharLen, Valid;
    FirstChar(s);
    AsciiStands(s, i);
    if i == 0 {
      assert s[0..] == s;
    } else {
      var n := CharLen(s);
      ValidFromAscii(s[n..], i - n);
      assert s[n..][i - n..] == s[i..];
    }
  }

  lemma ValidPrefix(s: bytes, n: nat, i: nat)
    requires n <= i <= |s| && Valid(s[..n]) && Valid(s[n..][..i - n])
    ensures Valid(s[..i])
  {
    hide Valid;
    ValidConcat(s[..n], s[n..][..i - n]);
    assert s[..i] == s[..n] + s[n..][..i - n];
  }

  lemma {:induction false} ValidBeforeAscii(s: bytes, i: nat)
    requires Valid(s) && i < |s| && s[i] < 0x80
    ensures Valid(s[..i])
  {
    AsciiValid([]);
    hide CharLen, Valid;
    FirstChar(s);
    AsciiStands(s, i);
    if i == 0 {
      assert s[..0] == [];
    } else {
      var n := CharLen(s);
      ValidBeforeAscii(s[n..], i - n);
      ValidPrefix(s, n, i);
    }
  }

  /** An ASCII byte is a character boundary on both sides. */
  lemma SplitAtAscii(s: bytes, i: nat)
    requires Valid(s) && i < |s| && s[i] < 0x80
    ensures Valid(s[..i]) && Valid(s[i..]) && Valid(s[i + 1..])
  {
    ValidBeforeAscii(s, i);
    ValidFromAscii(s, i);
    FirstChar(s[i..]);
    AsciiStands(s[i..], 0);
    assert s[i..][1..] == s[i + 1..];
  }

  predicate IsScalar(c: nat) {
    c < 0xD800 || 0xE000 <= c <= 0x10FFFF
  }

  /** `char::encode_utf8`. */
  function Encode(c: nat): (s: bytes)
    requires IsScalar(c)
    ensures 1 <= |s| <= 4
  {
    if c < 0x80 then [c]
    else if c < 0x800 then [0xC0 + c / 0x40, 0x80 + c % 0x40]
    else if c < 0x10000 then [0xE0 + c / 0x1000, 0x80 + c / 0x40 % 0x40, 0x80 + c % 0x40]
    else [0xF0 + c / 0x40000, 0x80 + c / 0x1000 % 0x40, 0x80 + c / 0x40 % 0x40, 0x80 + c % 0x40]
  }

  lemma EncodeLen(c: nat)
    requires IsScalar(c)
    ensures CharLen(Encode(c)) == |Encode(c)|
  {
    hide CharLen, Encode;
    if c < 0x800 { ShortLen(c); } else if c < 0x10000 { ThreeLen(c); } else { FourLen(c); }
  }

  lemma ShortLen(c: nat)
    requires c < 0x800
    ensures CharLen(Encode(c)) == |Encode(c)|
  {
  }

  lemma ThreeLen(c: nat)
    requires IsScalar(c) && 0x800 <= c < 0x10000
    ensures CharLen(Encode(c)) == |Encode(c)|
  {
  }

  lemma FourLen(c: nat)
    requires IsScalar(c) && 0x10000 <= c
    ensures CharLen(Encode(c)) == |Encode(c)|
  {
  }

  lemma EncodeIsOneChar(c: nat)
    requires IsScalar(c)
    ensures CharLen(Encode(c)) == |Encode(c)| && Valid(Encode(c))
  {
    hide CharLen, Encode, Valid;
    EncodeLen(c);
    var s := Encode(c);
    OneCharValid(s);
    assert s[..|s|] == s;
  }

  /** The payload of a continuation byte. */
  function Low(b: byte): int {
    b as int - 0x80
  }

  /** The character a well-formed encoding spells. */
  function Decode(s: bytes): (c: int)
    requires 1 <= |s| <= 4
  {
    var a := s[0] as int;
    if |s| == 1 then a
    else if |s| == 2 then (a - 0xC0) * 0x40 + Low(s[1])
    else if |s| == 3 then (a - 0xE0) * 0x1000 + Low(s[1]) * 0x40 + Low(s[2])
    else (a - 0xF0) * 0x40000 + Low(s[1]) * 0x1000 + Low(s[2]) * 0x40 + Low(s[3])
  }

  lemma Base64Digits(c: nat)
    ensures c == c / 0x40 * 0x40 + c % 0x40
    ensures c / 0x40 == c / 0x1000 * 0x40 + c / 0x40 % 0x40
    ensures c / 0x1000 == c / 0x40000 * 0x40 + c / 0x1000 % 0x40
  {
  }

  /** Well-formed characters and scalar values correspond one to one. */
  lemma DecodeOfEncode(c: nat)
    requires IsScalar(c)
    ensures Decode(Encode(c)) == c
  {
    Base64Digits(c);
  }

  lemma Ranges(s: bytes)
    requires CharLen(s) > 0 && CharLen(s) == |s|
    ensures |s| >= 2 ==> 0 <= Low(s[1]) < 0x40
    ensures |s| >= 3 ==> 0 <= Low(s[2]) < 0x40
    ensures |s| == 4 ==> 0 <= Low(s[3]) < 0x40
    ensures |s| == 1 ==> s[0] < 0x80
    ensures |s| == 2 ==> 0xC2 <= s[0] <= 0xDF
    ensures |s| == 3 ==> 0xE0 <= s[0] <= 0xEF && (s[0] == 0xE0 ==> Low(s[1]) >= 0x20) && (s[0] == 0xED ==> Low(s[1]) < 0x20)
    ensures |s| == 4 ==> 0xF0 <= s[0] <= 0xF4 && (s[0] == 0xF0 ==> Low(s[1]) >= 0x10) && (s[0] == 0xF4 ==> Low(s[1]) < 0x10)
  {
  }

  lemma Digits64(a: nat, x: nat, y: nat, z: nat, c: nat)
    requires x < 0x40 && y < 0x40 && z < 0x40
    requires c == a * 0x40000 + x * 0x1000 + y * 0x40 + z
    ensures c % 0x40 == z && c / 0x40 % 0x40 == y && c / 0x1000 % 0x40 == x && c / 0x40000 == a
    ensures a == 0 ==> c / 0x1000 == x
    ensures a == 0 && x == 0 ==> c / 0x40 == y
  {
    assert c / 0x40 == a * 0x1000 + x * 0x40 + y;
    assert c / 0x1000 == a * 0x40 + x;
  }

  lemma EncodeOfDecode(s: bytes)
    requires CharLen(s) > 0 && CharLen(s) == |s|
    ensures Decode(s) >= 0 && IsScalar(Decode(s)) && Encode(Decode(s)) == s
  {
    Ranges(s);
    hide CharLen;
    var c := Decode(s);
    if |s| == 2 {
      Digits64(0, 0, s[0] as int - 0xC0, Low(s[1]), c);
    } else if |s| == 3 {
      Digits64(0, s[0] as int - 0xE0, Low(s[1]), Low(s[2]), c);
    } else if |s| == 4 {
      Digits64(s[0] as int - 0xF0, Low(s[1]), Low(s[2]), Low(s[3]), c);
    }
  }

  // --- white space --------------------------------------------------------------------------

  /** Length of the white-space character at the front (Unicode White_Space), or 0. */
  function SpaceLen(s: bytes): (n: nat)
    ensures n <= |s| && n <= 3
    ensures n > 0 ==> CharLen(s) == n
  {
    if s == [] then 0
    else if 0x09 <= s[0] <= 0x0D || s[0] == 0x20 then 1
    else if |s| < 2 then 0
    else if s[0] == 0xC2 && (s[1] == 0x85 || s[1] == 0xA0) then 2
    else if |s| < 3 then 0
    else if s[0] == 0xE1 && s[1] == 0x9A && s[2] == 0x80 then 3
    else if s[0] == 0xE2 && s[1] == 0x80 && (0x80 <= s[2] <= 0x8A || s[2] == 0xA8 || s[2] == 0xA9 || s[2] == 0xAF) then 3
    else if s[0] == 0xE2 && s[1] == 0x81 && s[2] == 0x9F then 3
    else if s[0] == 0xE3 && s[1] == 0x80 && s[2] == 0x80 then 3
    else 0
  }

  /** How far one character reaches; an ill-formed byte counts as one. */
  function CharStep(s: bytes): (n: nat)
    requires s != []
    ensures 1 <= n <= |s| && n <= 4
  {
    if CharLen(s) == 0 then 1 else CharLen(s)
  }

  function TrimStart(s: bytes): (t: bytes)
    ensures |t| <= |s|
    decreases |s|
  {
    if SpaceLen(s) == 0 then s else TrimStart(s[SpaceLen(s)..])
  }

  function TrimEnd(s: bytes): (t: bytes)
    ensures |t| <= |s|
    decreases |s|
  {
    if s == [] then []
    else
      var n := CharStep(s);
      var t := TrimEnd(s[n..]);
      if t == [] && SpaceLen(s) > 0 then [] else s[..n] + t
  }

  /** `str::trim`. */
  function Trim(s: bytes): bytes {
    TrimEnd(TrimStart(s))
  }

  lemma {:induction false} TrimStartValid(s: bytes)
    requires Valid(s)
    ensures Valid(TrimStart(s))
    decreases |s|
  {
    if SpaceLen(s) > 0 { TrimStartValid(s[SpaceLen(s)..]); }
  }

  lemma {:induction false} TrimEndValid(s: bytes)
    requires Valid(s)
    ensures Valid(TrimEnd(s))
    decreases |s|
  {
    if s != [] {
      var n := CharLen(s);
      TrimEndValid(s[n..]);
      OneCharValid(s);
      ValidConcat(s[..n], TrimEnd(s[n..]));
    }
  }

  lemma TrimValid(s: bytes)
    requires Valid(s)
    ensures Valid(Trim(s))
  {
    TrimStartValid(s);
    TrimEndValid(TrimStart(s));
  }

  /** Trimming only drops bytes: every byte of the result is a byte of the text. */
  lemma TrimBytes(s: bytes, b: byte)
    requires b !in s
    ensures b !in Trim(s)
  {
    hide TrimStart, TrimEnd;
    TrimStartSuffix(s);
    TrimEndPrefix(TrimStart(s));
  }

  lemma {:induction false} TrimStartSuffix(s: bytes)
    ensures TrimStart(s) == s[|s| - |TrimStart(s)|..]
    decreases |s|
  {
    hide SpaceLen;
    if SpaceLen(s) > 0 {
      var t := s[SpaceLen(s)..];
      TrimStartSuffix(t);
      assert t[|t| - |TrimStart(t)|..] == s[|s| - |TrimStart(t)|..];
    }
  }

  lemma {:induction false} TrimEndPrefix(s: bytes)
    ensures TrimEnd(s) == s[..|TrimEnd(s)|]
    decreases |s|
  {
    if s != [] {
      var n := CharStep(s);
      TrimEndPrefix(s[n..]);
    }
  }

  /** A trimmed text starts and ends with something other than white space. */
  lemma {:induction false} TrimmedStart(s: bytes)
    ensures TrimStart(s) == [] || SpaceLen(TrimStart(s)) == 0
    decreases |s|
  {
    if SpaceLen(s) > 0 { TrimmedStart(s[SpaceLen(s)..]); }
  }
}
