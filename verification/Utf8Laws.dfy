/** UTF-8 and white space against their definitions by code point: the encoding keeps the order of the
    scalar values, white space is a list of code points, and trimming takes exactly that off both ends. */
module Utf8Laws {
  import opened Bytes
  import opened Utf8
  import Words

  /** The byte order: the first byte that differs is smaller. */
  predicate Before(s: bytes, t: bytes) {
    exists i | 0 <= i < |s| && i < |t| :: FirstDiffers(s, t, i)
  }

  predicate FirstDiffers(s: bytes, t: bytes, i: nat)
    requires i < |s| && i < |t|
  {
    s[..i] == t[..i] && s[i] < t[i]
  }

  /** Encodings sort as the scalar values do. With the bijection this leaves one encoding only. */
  lemma EncodeKeepsOrder(c: nat, d: nat)
    requires IsScalar(c) && IsScalar(d) && c < d
    ensures Before(Encode(c), Encode(d))
  {
    var s, t := Encode(c), Encode(d);
    if s[0] < t[0] {
      assert FirstDiffers(s, t, 0);
    } else {
      SameLead(c, d);
      var i := DifferAt(c, d);
      assert FirstDiffers(s, t, i);
    }
  }

  lemma SameLead(c: nat, d: nat)
    requires IsScalar(c) && IsScalar(d) && c < d && Encode(c)[0] >= Encode(d)[0]
    ensures |Encode(c)| == |Encode(d)| >= 2 && Encode(c)[0] == Encode(d)[0]
  {
  }

  lemma DifferAt(c: nat, d: nat) returns (i: nat)
    requires IsScalar(c) && IsScalar(d) && c < d
    requires |Encode(c)| == |Encode(d)| >= 2 && Encode(c)[0] == Encode(d)[0]
    ensures i < |Encode(c)| && FirstDiffers(Encode(c), Encode(d), i)
  {
    var s, t := Encode(c), Encode(d);
    Base64Digits(c);
    Base64Digits(d);
    i := if s[1] < t[1] then 1 else if |s| >= 3 && s[2] < t[2] then 2 else |s| - 1;
    if |s| == 2 {
      assert s[..1] == t[..1];
    } else if i == 2 {
      assert s[..2] == [s[0], s[1]] && t[..2] == [t[0], t[1]];
    } else if i == 3 {
      assert s[..3] == [s[0], s[1], s[2]] && t[..3] == [t[0], t[1], t[2]];
    }
  }

  // --- white space and control characters ---------------------------------------------------

  /** Unicode White_Space. */
  predicate IsWhiteSpace(c: int) {
    || 0x09 <= c <= 0x0D || c == 0x20 || c == 0x85 || c == 0xA0 || c == 0x1680
    || 0x2000 <= c <= 0x200A || c == 0x2028 || c == 0x2029 || c == 0x202F || c == 0x205F || c == 0x3000
  }

  /** A white-space character stands at the front exactly when a well-formed one does and it is on the list. */
  lemma SpaceExactly(s: bytes)
    ensures SpaceLen(s) > 0 <==> CharLen(s) > 0 && IsWhiteSpace(Decode(s[..CharLen(s)]))
    ensures SpaceLen(s) > 0 ==> SpaceLen(s) == CharLen(s)
  {
    if CharLen(s) > 0 {
      CharLenExtends(s, []);
      Ranges(s[..CharLen(s)]);
    }
  }

  predicate AllSpace(s: bytes) {
    s == [] || (SpaceLen(s) > 0 && AllSpace(s[SpaceLen(s)..]))
  }

  /** No white space follows where a character of the text ends. */
  predicate NoSpaceEnd(t: bytes) {
    forall i :: 0 <= i < |t| && Valid(t[..i]) ==> !AllSpace(t[i..])
  }

  /** Well-formed text that neither starts nor ends with white space. */
  predicate Trimmed(t: bytes) {
    Valid(t) && SpaceLen(t) == 0 && NoSpaceEnd(t)
  }

  lemma {:induction false} AllSpaceValid(s: bytes)
    requires AllSpace(s)
    ensures Valid(s) && TrimStart(s) == [] && TrimEnd(s) == []
    decreases |s|
  {
    hide CharLen, SpaceLen;
    if s != [] {
      SpaceExactly(s);
      AllSpaceValid(s[SpaceLen(s)..]);
    }
  }

  lemma NoSpaceEndTail(t: bytes)
    requires Valid(t) && t != [] && NoSpaceEnd(t)
    ensures CharLen(t) > 0 && NoSpaceEnd(t[CharLen(t)..]) && (t[CharLen(t)..] == [] ==> SpaceLen(t) == 0)
  {
    hide CharLen, SpaceLen, AllSpace, Valid;
    FirstChar(t);
    var n := CharLen(t);
    forall i | 0 <= i < |t| - n && Valid(t[n..][..i]) ensures !AllSpace(t[n..][i..]) {
      ValidConcat(t[..n], t[n..][..i]);
      Shifted(t, n, i);
    }
    if n == |t| {
      EmptyIsSpace();
      OneCharSpace(t);
      assert t[0..] == t && t[..0] == [];
    }
  }

  lemma Shifted(t: bytes, n: nat, i: nat)
    requires n + i <= |t|
    ensures t[..n] + t[n..][..i] == t[..n + i] && t[n..][i..] == t[n + i..]
  {
  }

  lemma OneCharSpace(t: bytes)
    requires CharLen(t) == |t| > 0
    ensures AllSpace(t) <==> SpaceLen(t) > 0
  {
    hide CharLen, SpaceLen;
    SpaceExactly(t);
  }

  lemma {:induction false} TrimEndExactly(t: bytes, b: bytes)
    requires Valid(t) && NoSpaceEnd(t) && AllSpace(b)
    ensures TrimEnd(t + b) == t
    decreases |t|
  {
    hide CharLen, SpaceLen, NoSpaceEnd, AllSpace, Valid;
    if t == [] {
      AllSpaceValid(b);
      assert t + b == b;
    } else {
      NoSpaceEndTail(t);
      FirstChar(t);
      var n := CharLen(t);
      TrimEndExactly(t[n..], b);
      CharLenExtends(t, b);
      Words.SpaceLenExtends(t, b);
      assert (t + b)[n..] == t[n..] + b && (t + b)[..n] == t[..n];
      assert t == t[..n] + t[n..];
    }
  }

  lemma {:induction false} TrimStartExactly(a: bytes, rest: bytes)
    requires AllSpace(a) && SpaceLen(rest) == 0
    ensures TrimStart(a + rest) == rest
    decreases |a|
  {
    hide CharLen, SpaceLen;
    if a == [] {
      assert a + rest == rest;
    } else {
      var n := SpaceLen(a);
      SpaceExactly(a);
      TrimStartExactly(a[n..], rest);
      Words.SpaceLenExtends(a, rest);
      assert (a + rest)[n..] == a[n..] + rest;
    }
  }

  lemma {:induction false} AllSpaceConcat(a: bytes, b: bytes)
    requires AllSpace(a) && AllSpace(b)
    ensures AllSpace(a + b)
    decreases |a|
  {
    hide CharLen, SpaceLen;
    if a == [] {
      assert a + b == b;
    } else {
      var n := SpaceLen(a);
      SpaceExactly(a);
      AllSpaceConcat(a[n..], b);
      Words.SpaceLenExtends(a, b);
      assert (a + b)[n..] == a[n..] + b;
    }
  }

  /** White space on both ends is what trimming takes, whatever is between. */
  lemma TrimPadded(a: bytes, t: bytes, b: bytes)
    requires AllSpace(a) && Trimmed(t) && AllSpace(b)
    ensures Trim(a + t + b) == t
  {
    hide CharLen, SpaceLen, AllSpace, Valid, NoSpaceEnd, TrimStart, TrimEnd;
    if t == [] {
      AllSpaceConcat(a, b);
      AllSpaceValid(a + b);
      assert a + t + b == a + b;
      NothingTrims();
    } else {
      FirstChar(t);
      Words.SpaceLenExtends(t, b);
      TrimStartExactly(a, t + b);
      assert a + t + b == a + (t + b);
      TrimEndExactly(t, b);
    }
  }

  lemma NothingTrims()
    ensures TrimEnd([]) == [] && TrimStart([]) == []
  {
  }

  /** And every well-formed text is white space around its trimmed form. */
  lemma TrimSplits(s: bytes) returns (a: bytes, b: bytes)
    requires Valid(s)
    ensures s == a + Trim(s) + b && AllSpace(a) && AllSpace(b) && Trimmed(Trim(s))
  {
    hide CharLen, SpaceLen, AllSpace, Valid, NoSpaceEnd, TrimStart, TrimEnd;
    a := StartSplits(s);
    TrimStartValid(s);
    TrimmedStart(s);
    b := EndSplits(TrimStart(s));
    NothingTrims();
    assert s == a + Trim(s) + b;
  }

  lemma {:induction false} StartSplits(s: bytes) returns (a: bytes)
    requires Valid(s)
    ensures s == a + TrimStart(s) && AllSpace(a)
    decreases |s|
  {
    hide CharLen, SpaceLen;
    if SpaceLen(s) == 0 {
      a := [];
    } else {
      var n := SpaceLen(s);
      SpaceExactly(s);
      var more := StartSplits(s[n..]);
      a := s[..n] + more;
      FirstChar(s);
      SpaceInFront(s, more);
    }
  }

  lemma SpaceInFront(s: bytes, more: bytes)
    requires SpaceLen(s) > 0 && AllSpace(more)
    ensures AllSpace(s[..SpaceLen(s)] + more)
  {
    var ch := s[..SpaceLen(s)];
    SpaceExactly(s);
    CharLenExtends(s, []);
    SpaceExactly(ch);
    assert ch[..|ch|] == ch && SpaceLen(ch) == |ch|;
    Words.SpaceLenExtends(ch, more);
    hide SpaceLen, CharLen;
    assert (ch + more)[|ch|..] == more;
  }

  lemma EmptyIsSpace()
    ensures AllSpace([]) && Valid([])
  {
  }

  /** A cut that leaves well-formed text in front does not split the first character. */
  lemma CutAfterFirst(ch: bytes, t: bytes, i: nat)
    requires CharLen(ch) == |ch| > 0 && 0 < i <= |ch + t| && Valid((ch + t)[..i])
    ensures i >= |ch| && Valid(t[..i - |ch|]) && (ch + t)[i..] == t[i - |ch|..]
  {
    hide CharLen, Valid;
    var u := ch + t;
    CharLenExtends(ch, t);
    FirstChar(u[..i]);
    CharLenExtends(u[..i], u[i..]);
    assert u[..i] + u[i..] == u;
    assert u[..i] == ch + t[..i - |ch|];
    OneCharValid(ch);
    assert ch[..|ch|] == ch;
    ValidConcat(ch, t[..i - |ch|]);
  }

  lemma CharThenText(s: bytes, t: bytes)
    requires CharLen(s) > 0 && Valid(t) && NoSpaceEnd(t) && (t == [] ==> SpaceLen(s) == 0)
    ensures NoSpaceEnd(s[..CharLen(s)] + t)
    ensures SpaceLen(s) == 0 ==> SpaceLen(s[..CharLen(s)] + t) == 0
  {
    hide CharLen, SpaceLen, Valid;
    var ch := s[..CharLen(s)];
    var u := ch + t;
    CharLenExtends(s, []);
    assert ch + s[|ch|..] == s;
    Words.SpaceLenExtends(ch, s[|ch|..]);
    Words.SpaceLenExtends(ch, t);
    CharLenExtends(ch, t);
    SpaceExactly(u);
    EmptyIsSpace();
    assert u[|ch|..] == t && t[0..] == t && t[..0] == [];
    forall i | 0 <= i < |u| && Valid(u[..i]) ensures !AllSpace(u[i..]) {
      if i == 0 {
        assert u[0..] == u;
      } else {
        CutAfterFirst(ch, t, i);
      }
    }
  }

  lemma {:induction false} EndSplits(s: bytes) returns (b: bytes)
    requires Valid(s)
    ensures s == TrimEnd(s) + b && AllSpace(b) && NoSpaceEnd(TrimEnd(s)) && Valid(TrimEnd(s))
    ensures SpaceLen(s) == 0 ==> SpaceLen(TrimEnd(s)) == 0
    decreases |s|
  {
    hide CharLen, SpaceLen, Valid, AllSpace, NoSpaceEnd, TrimEnd;
    TrimEndValid(s);
    EmptyIsSpace();
    if s == [] {
      NothingTrims();
      NothingEnds();
      b := [];
    } else {
      FirstChar(s);
      var more := EndSplits(s[CharLen(s)..]);
      b := EndStep(s, more);
    }
  }

  lemma EndStep(s: bytes, more: bytes) returns (b: bytes)
    requires CharLen(s) > 0 && Valid(s)
    requires var t := TrimEnd(s[CharLen(s)..]); s[CharLen(s)..] == t + more && AllSpace(more) && NoSpaceEnd(t) && Valid(t)
    ensures s == TrimEnd(s) + b && AllSpace(b) && NoSpaceEnd(TrimEnd(s))
    ensures SpaceLen(s) == 0 ==> SpaceLen(TrimEnd(s)) == 0
  {
    hide CharLen, SpaceLen, Valid, AllSpace, NoSpaceEnd, TrimEnd;
    var n := CharLen(s);
    var t := TrimEnd(s[n..]);
    TrimEndStep(s);
    assert s == s[..n] + s[n..];
    if t == [] && SpaceLen(s) > 0 {
      SpaceExactly(s);
      SpaceInFront(s, more);
      NothingEnds();
      b := s[..n] + more;
    } else {
      b := more;
      CharThenText(s, t);
      Associative(s[..n], t, more);
    }
  }

  lemma TrimEndStep(s: bytes)
    requires CharLen(s) > 0
    ensures var n := CharLen(s); var t := TrimEnd(s[n..]);
            TrimEnd(s) == if t == [] && SpaceLen(s) > 0 then [] else s[..n] + t
  {
    hide CharLen, SpaceLen;
  }

  lemma NothingEnds()
    ensures NoSpaceEnd([])
  {
  }
}
