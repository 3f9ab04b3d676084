/** Words and white space: `str::split_whitespace`, and what trimming leaves alone. */
module Words {
  import opened Bytes
  import opened Utf8

  const SPACE: byte := 0x20

  /** Well-formed text without a white-space character. */
  predicate NoSpace(s: bytes) {
    s == [] || (CharLen(s) > 0 && SpaceLen(s) == 0 && NoSpace(s[CharLen(s)..]))
  }

  /** How far the word at the front reaches. */
  function WordLen(s: bytes): (n: nat)
    ensures n <= |s|
    ensures n == 0 <==> s == [] || SpaceLen(s) > 0
  {
    if s == [] || SpaceLen(s) > 0 then 0 else CharStep(s) + WordLen(s[CharStep(s)..])
  }

  /** `str::split_whitespace`. */
  function Words(s: bytes): seq<bytes>
    decreases |s|
  {
    var t := TrimStart(s);
    if t == [] then []
    else
      TrimmedStart(s);
      [t[..WordLen(t)]] + Words(t[WordLen(t)..])
  }

  lemma SpaceLenExtends(s: bytes, t: bytes)
    requires CharLen(s) > 0
    ensures SpaceLen(s + t) == SpaceLen(s)
  {
  }

  lemma {:induction false} NoSpaceValid(s: bytes)
    requires NoSpace(s)
    ensures Valid(s)
  {
    hide CharLen, SpaceLen;
    if s != [] { NoSpaceValid(s[CharLen(s)..]); }
  }

  lemma {:induction false} NoSpaceConcat(a: bytes, b: bytes)
    requires NoSpace(a) && NoSpace(b)
    ensures NoSpace(a + b)
  {
    hide CharLen, SpaceLen;
    if a == [] {
      assert a + b == b;
    } else {
      CharLenExtends(a, b);
      SpaceLenExtends(a, b);
      assert (a + b)[CharLen(a)..] == a[CharLen(a)..] + b;
      NoSpaceConcat(a[CharLen(a)..], b);
    }
  }

  lemma {:induction false} GraphicNoSpace(s: bytes)
    requires forall i :: 0 <= i < |s| ==> 0x20 < s[i] < 0x80
    ensures NoSpace(s)
  {
    if s != [] { GraphicNoSpace(s[1..]); }
  }

  lemma {:induction false} NoSpaceNoNewline(s: bytes)
    requires NoSpace(s)
    ensures 0x0A !in s
  {
    hide CharLen;
    if s != [] {
      var n := CharLen(s);
      NoSpaceNoNewline(s[n..]);
      forall i | 0 <= i < |s| ensures s[i] != 0x0A {
        if i >= n { assert s[i] == s[n..][i - n]; } else if s[i] < 0x80 { AsciiStands(s, i); }
      }
    }
  }

  lemma {:induction false} WordLenOf(w: bytes, rest: bytes)
    requires NoSpace(w) && (rest == [] || SpaceLen(rest) > 0)
    ensures WordLen(w + rest) == |w|
  {
    hide CharLen, SpaceLen;
    if w == [] {
      assert w + rest == rest;
    } else {
      CharLenExtends(w, rest);
      SpaceLenExtends(w, rest);
      assert (w + rest)[CharLen(w)..] == w[CharLen(w)..] + rest;
      WordLenOf(w[CharLen(w)..], rest);
    }
  }

  lemma LeadingSpace(s: bytes)
    ensures SpaceLen([SPACE] + s) == 1 && TrimStart([SPACE] + s) == TrimStart(s) && Words([SPACE] + s) == Words(s)
  {
    assert SpaceLen([SPACE] + s) == 1;
    hide SpaceLen;
    assert ([SPACE] + s)[1..] == s;
  }

  /** The first word stands before any white space that follows it. */
  lemma WordsStep(w: bytes, rest: bytes)
    requires w != [] && NoSpace(w) && (rest == [] || SpaceLen(rest) > 0)
    ensures Words(w + rest) == [w] + Words(rest)
  {
    hide SpaceLen, CharLen;
    SpaceLenExtends(w, rest);
    WordLenOf(w, rest);
    assert (w + rest)[..|w|] == w && (w + rest)[|w|..] == rest;
  }

  lemma FirstWord(w: bytes, rest: bytes)
    requires w != [] && NoSpace(w)
    ensures Words(w + ([SPACE] + rest)) == [w] + Words(rest)
  {
    hide Words, NoSpace, SpaceLen;
    LeadingSpace(rest);
    WordsStep(w, [SPACE] + rest);
  }

  lemma OnlyWord(w: bytes)
    requires w != [] && NoSpace(w)
    ensures Words(w) == [w]
  {
    WordsStep(w, []);
    hide SpaceLen, CharLen, NoSpace, WordLen;
    assert w + [] == w;
  }

  // --- trimming around a text that ends in a word -------------------------------------------

  lemma {:induction false} TrimEndOfWord(s: bytes)
    requires NoSpace(s)
    ensures TrimEnd(s) == s
    decreases |s|
  {
    hide CharLen, SpaceLen;
    if s != [] {
      var n := CharLen(s);
      TrimEndOfWord(s[n..]);
      assert s == s[..n] + s[n..];
    }
  }

  lemma {:induction false} TrimEndKeeps(s: bytes, w: bytes)
    requires Valid(s) && w != [] && NoSpace(w)
    ensures TrimEnd(s + w) == s + w
    decreases |s|
  {
    hide CharLen, SpaceLen;
    if s == [] {
      assert s + w == w;
      TrimEndOfWord(w);
    } else {
      var n := CharLen(s);
      CharLenExtends(s, w);
      assert (s + w)[n..] == s[n..] + w;
      TrimEndKeeps(s[n..], w);
      assert s + w == (s + w)[..n] + (s + w)[n..];
    }
  }

  /** Trimming the end drops white space behind the text it keeps. */
  lemma {:induction false} TrimEndDrops(s: bytes, tail: bytes)
    requires Valid(s) && TrimEnd(tail) == []
    ensures TrimEnd(s + tail) == TrimEnd(s)
    decreases |s|
  {
    hide CharLen, SpaceLen;
    if s == [] {
      assert s + tail == tail;
    } else {
      var n := CharLen(s);
      CharLenExtends(s, tail);
      SpaceLenExtends(s, tail);
      assert (s + tail)[n..] == s[n..] + tail && (s + tail)[..n] == s[..n];
      TrimEndDrops(s[n..], tail);
    }
  }

  lemma TrimOfWord(w: bytes)
    requires NoSpace(w)
    ensures Trim(w) == w
  {
    TrimEndOfWord(w);
    hide SpaceLen, CharLen;
  }
}
