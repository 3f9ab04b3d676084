/** `String::from_utf8_lossy`: well-formed text from any bytes. */
module Lossy {
  import opened Bytes
  import opened Utf8

  const REPLACEMENT: bytes := [0xEF, 0xBF, 0xBD]

  /** Length of the ill-formed piece at the front: the longest start of some character, at least one
      byte. */
  function BadLen(s: bytes): (n: nat)
    requires s != []
    ensures 1 <= n <= |s|
  {
    var second :=
      |s| >= 2 && IsCont(s[1])
      && (if s[0] == 0xE0 then s[1] >= 0xA0 else if s[0] == 0xED then s[1] <= 0x9F
          else if s[0] == 0xF0 then s[1] >= 0x90 else if s[0] == 0xF4 then s[1] <= 0x8F
          else 0xE1 <= s[0] <= 0xF3);
    if !second then 1
    else if s[0] >= 0xF0 && |s| >= 3 && IsCont(s[2]) then 3
    else 2
  }

  function FromUtf8Lossy(s: bytes): bytes
    decreases |s|
  {
    if s == [] then []
    else if CharLen(s) > 0 then s[..CharLen(s)] + FromUtf8Lossy(s[CharLen(s)..])
    else REPLACEMENT + FromUtf8Lossy(s[BadLen(s)..])
  }

  lemma ReplacementValid()
    ensures Valid(REPLACEMENT)
  {
    assert REPLACEMENT[3..] == [];
  }

  lemma {:induction false} AlwaysValid(s: bytes)
    ensures Valid(FromUtf8Lossy(s))
    decreases |s|
  {
    hide CharLen, BadLen;
    if s != [] {
      if CharLen(s) > 0 {
        OneCharValid(s);
        AlwaysValid(s[CharLen(s)..]);
        ValidConcat(s[..CharLen(s)], FromUtf8Lossy(s[CharLen(s)..]));
      } else {
        ReplacementValid();
        AlwaysValid(s[BadLen(s)..]);
        ValidConcat(REPLACEMENT, FromUtf8Lossy(s[BadLen(s)..]));
      }
    }
  }

  lemma {:induction false} ValidUnchanged(s: bytes)
    requires Valid(s)
    ensures FromUtf8Lossy(s) == s
    decreases |s|
  {
    hide CharLen, BadLen;
    if s != [] {
      ValidUnchanged(s[CharLen(s)..]);
      assert s == s[..CharLen(s)] + s[CharLen(s)..];
    }
  }

  lemma BadStart(s: bytes)
    requires s != [] && CharLen(s) == 0
    ensures |FromUtf8Lossy(s)| > 0 && FromUtf8Lossy(s)[0] == 0xEF
  {
  }

  /** ASCII text is never the replacement of anything. */
  lemma {:induction false} AsciiOnlyFromItself(s: bytes)
    requires forall i :: 0 <= i < |FromUtf8Lossy(s)| ==> FromUtf8Lossy(s)[i] < 0x80
    ensures FromUtf8Lossy(s) == s
    decreases |s|
  {
    hide CharLen, BadLen;
    if s != [] {
      if CharLen(s) > 0 {
        var n := CharLen(s);
        var rest := FromUtf8Lossy(s[n..]);
        forall i | 0 <= i < |rest| ensures rest[i] < 0x80 {
          assert rest[i] == FromUtf8Lossy(s)[n + i];
        }
        AsciiOnlyFromItself(s[n..]);
        assert s == s[..n] + s[n..];
      } else {
        BadStart(s);
      }
    }
  }

  // --- which pieces are replaced ------------------------------------------------------------

  /** More bytes could make these a character. */
  ghost predicate Begins(s: bytes) {
    exists t: bytes :: Completes(s, t)
  }

  predicate Completes(s: bytes, t: bytes) {
    CharLen(s + t) > |s|
  }

  /** The piece that is replaced is the longest that begins a character, and one byte where none does. */
  lemma BadLenExactly(s: bytes)
    requires s != [] && CharLen(s) == 0
    ensures BadLen(s) == 1 || Begins(s[..BadLen(s)])
    ensures BadLen(s) < |s| ==> !Begins(s[..BadLen(s) + 1])
  {
    var n := BadLen(s);
    if n == 2 {
      assert s[..2] + [0x80, 0x80] == [s[0], s[1], 0x80, 0x80];
      assert Completes(s[..2], [0x80, 0x80]);
    } else if n == 3 {
      assert s[..3] + [0x80] == [s[0], s[1], s[2], 0x80];
      assert Completes(s[..3], [0x80]);
    }
    if n < |s| {
      var front := s[..n + 1];
      forall t: bytes ensures !Completes(front, t) {
        NotLonger(s, t);
      }
    }
  }

  lemma NotLonger(s: bytes, t: bytes)
    requires s != [] && CharLen(s) == 0 && BadLen(s) < |s|
    ensures CharLen(s[..BadLen(s) + 1] + t) <= BadLen(s) + 1
  {
    var u := s[..BadLen(s) + 1] + t;
    assert u[0] == s[0] && u[1] == s[1];
    if BadLen(s) >= 2 { assert u[2] == s[2]; }
  }

  /** Well-formed text stays, the ill-formed piece behind it is replaced, and so on with the rest. */
  lemma {:induction false} OneReplaced(v: bytes, s: bytes)
    requires Valid(v) && s != [] && CharLen(s) == 0
    ensures FromUtf8Lossy(v + s) == v + ([0xEF, 0xBF, 0xBD] + FromUtf8Lossy(s[BadLen(s)..]))
    decreases |v|
  {
    hide CharLen, BadLen;
    if v == [] {
      assert v + s == s;
    } else {
      var n := CharLen(v);
      CharLenExtends(v, s);
      OneReplaced(v[n..], s);
      assert (v + s)[n..] == v[n..] + s && (v + s)[..n] == v[..n] && v == v[..n] + v[n..];
      Associative(v[..n], v[n..], [0xEF, 0xBF, 0xBD] + FromUtf8Lossy(s[BadLen(s)..]));
    }
  }
}
