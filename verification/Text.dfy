/** The `str` splitting operations the readers use: first and last occurrence of a byte, `lines`,
    `split`, `split_whitespace`. */
module Text {
  import opened Bytes
  import Utf8

  const NEWLINE: byte := 0x0A
  const RETURN: byte := 0x0D

  /** Position of the first `b`, or the length when there is none. */
  function IndexOf(s: bytes, b: byte): (i: nat)
    ensures i <= |s|
    ensures forall k :: 0 <= k < i ==> s[k] != b
    ensures i < |s| ==> s[i] == b
  {
    if s == [] || s[0] == b then 0 else 1 + IndexOf(s[1..], b)
  }

  lemma IndexOfIs(s: bytes, b: byte, i: nat)
    requires i <= |s| && (forall k :: 0 <= k < i ==> s[k] != b) && (i < |s| ==> s[i] == b)
    ensures IndexOf(s, b) == i
  {
  }

  /** Position of the last `b`, or the length when there is none. */
  function LastIndexOf(s: bytes, b: byte): (i: nat)
    ensures i <= |s|
    ensures i < |s| ==> s[i] == b && forall k :: i < k < |s| ==> s[k] != b
    ensures i == |s| ==> b !in s
  {
    if s == [] then 0
    else
      var i := LastIndexOf(s[1..], b);
      if i < |s| - 1 then i + 1 else if s[0] == b then 0 else |s|
  }

  lemma LastIndexOfIs(s: bytes, b: byte, i: nat)
    requires i < |s| && s[i] == b && forall k :: i < k < |s| ==> s[k] != b
    ensures LastIndexOf(s, b) == i
  {
  }

  /** `str::split_once` on a byte. */
  function SplitOnce(s: bytes, b: byte): Option<(bytes, bytes)> {
    var i := IndexOf(s, b);
    if i == |s| then None else Some((s[..i], s[i + 1..]))
  }

  /** `str::rsplit_once` on a byte. */
  function RSplitOnce(s: bytes, b: byte): Option<(bytes, bytes)> {
    var i := LastIndexOf(s, b);
    if i == |s| then None else Some((s[..i], s[i + 1..]))
  }

  lemma SplitOnceOf(a: bytes, b: byte, c: bytes)
    requires b !in a
    ensures SplitOnce(a + [b] + c, b) == Some((a, c))
  {
    var s := a + [b] + c;
    assert s[|a|] == b;
    IndexOfIs(s, b, |a|);
    assert s[..|a|] == a && s[|a| + 1..] == c;
  }

  lemma RSplitOnceOf(a: bytes, b: byte, c: bytes)
    requires b !in c
    ensures RSplitOnce(a + [b] + c, b) == Some((a, c))
  {
    var s := a + [b] + c;
    forall k | |a| < k < |s| ensures s[k] != b { assert s[k] == c[k - |a| - 1]; }
    LastIndexOfIs(s, b, |a|);
    assert s[..|a|] == a && s[|a| + 1..] == c;
  }

  lemma NoSplit(s: bytes, b: byte)
    requires b !in s
    ensures SplitOnce(s, b) == None && RSplitOnce(s, b) == None
  {
  }

  // --- lines --------------------------------------------------------------------------------

  /** A terminated line loses one carriage return before its newline. */
  function StripReturn(line: bytes): bytes {
    if line != [] && line[|line| - 1] == RETURN then line[..|line| - 1] else line
  }

  /** `str::lines`. */
  function Lines(s: bytes): seq<bytes>
    decreases |s|
  {
    var i := IndexOf(s, NEWLINE);
    if i == |s| then if s == [] then [] else [s]
    else [StripReturn(s[..i])] + Lines(s[i + 1..])
  }

  predicate Terminated(s: bytes) {
    s == [] || s[|s| - 1] == NEWLINE
  }

  lemma LinesStep(s: bytes, i: nat)
    requires i < |s| && s[i] == NEWLINE && forall k :: 0 <= k < i ==> s[k] != NEWLINE
    ensures Lines(s) == [StripReturn(s[..i])] + Lines(s[i + 1..])
  {
    IndexOfIs(s, NEWLINE, i);
    hide StripReturn;
  }

  lemma LinesOfNothing()
    ensures Lines([]) == []
  {
  }

  /** After a final newline the lines of what follows are simply appended. */
  lemma {:induction false} LinesConcat(a: bytes, b: bytes)
    requires Terminated(a)
    ensures Lines(a + b) == Lines(a) + Lines(b)
    decreases |a|
  {
    hide Lines, IndexOf, StripReturn;
    if a == [] {
      LinesOfNothing();
      assert a + b == b;
    } else {
      var i := IndexOf(a, NEWLINE);
      var rest := a[i + 1..];
      LinesStep(a, i);
      LinesStep(a + b, i);
      assert (a + b)[..i] == a[..i] && (a + b)[i + 1..] == rest + b;
      LinesConcat(rest, b);
    }
  }

  lemma OneLine(line: bytes)
    requires NEWLINE !in line && StripReturn(line) == line
    ensures Lines(line + [NEWLINE]) == [line]
  {
    var s := line + [NEWLINE];
    assert s[|line|] == NEWLINE;
    IndexOfIs(s, NEWLINE, |line|);
    assert s[..|line|] == line && s[|line| + 1..] == [];
    assert [line] + [] == [line];
  }

  lemma {:induction false} LinesValid(s: bytes)
    requires Utf8.Valid(s)
    ensures forall k :: 0 <= k < |Lines(s)| ==> Utf8.Valid(Lines(s)[k])
    decreases |s|
  {
    var i := IndexOf(s, NEWLINE);
    if i < |s| {
      Utf8.SplitAtAscii(s, i);
      LinesValid(s[i + 1..]);
      var line := s[..i];
      if line != [] && line[|line| - 1] == RETURN { Utf8.SplitAtAscii(line, |line| - 1); }
    }
  }

  // --- split --------------------------------------------------------------------------------

  /** `str::split` on a byte: always at least one part. */
  function Split(s: bytes, b: byte): (parts: seq<bytes>)
    ensures |parts| >= 1
    decreases |s|
  {
    var i := IndexOf(s, b);
    if i == |s| then [s] else [s[..i]] + Split(s[i + 1..], b)
  }

  function Join(parts: seq<bytes>, b: byte): bytes {
    if parts == [] then [] else if |parts| == 1 then parts[0] else parts[0] + [b] + Join(parts[1..], b)
  }

  /** `Split` one part at a time. */
  lemma SplitWhole(s: bytes, b: byte)
    requires b !in s
    ensures Split(s, b) == [s]
  {
    IndexOfIs(s, b, |s|);
  }

  lemma SplitPart(p: bytes, b: byte, rest: bytes)
    requires b !in p
    ensures Split(p + [b] + rest, b) == [p] + Split(rest, b)
  {
    hide IndexOf;
    var s := p + [b] + rest;
    assert s[|p|] == b;
    IndexOfIs(s, b, |p|);
    assert s[..|p|] == p && s[|p| + 1..] == rest;
  }

  lemma {:induction false} SplitOfJoin(parts: seq<bytes>, b: byte)
    requires parts != [] && forall k :: 0 <= k < |parts| ==> b !in parts[k]
    ensures Split(Join(parts, b), b) == parts
  {
    hide Split;
    var p := parts[0];
    if |parts| == 1 {
      SplitWhole(p, b);
      assert parts == [p];
    } else {
      SplitOfJoin(parts[1..], b);
      SplitPart(p, b, Join(parts[1..], b));
      assert parts == [p] + parts[1..];
    }
  }

  /** A text is one part, or its first part, the separator and the rest. */
  lemma FirstPart(s: bytes, b: byte) returns (i: nat)
    ensures i <= |s| && b !in s[..i]
    ensures if i == |s| then b !in s else s == s[..i] + [b] + s[i + 1..]
  {
    i := IndexOf(s, b);
  }

  lemma JoinCons(p: bytes, parts: seq<bytes>, b: byte)
    requires parts != []
    ensures Join([p] + parts, b) == p + [b] + Join(parts, b)
  {
    assert ([p] + parts)[1..] == parts;
  }

  lemma {:induction false} JoinOfSplit(s: bytes, b: byte)
    ensures Join(Split(s, b), b) == s
    ensures forall k :: 0 <= k < |Split(s, b)| ==> b !in Split(s, b)[k]
    decreases |s|
  {
    hide Split, Join;
    var i := FirstPart(s, b);
    if i == |s| {
      SplitWhole(s, b);
      JoinOne(s, b);
    } else {
      SplitPart(s[..i], b, s[i + 1..]);
      JoinOfSplit(s[i + 1..], b);
      JoinCons(s[..i], Split(s[i + 1..], b), b);
    }
  }

  lemma JoinOne(p: bytes, b: byte)
    ensures Join([p], b) == p
  {
  }

  lemma {:induction false} SplitConcat(a: bytes, b: byte, c: bytes)
    ensures Split(a + [b] + c, b) == Split(a, b) + Split(c, b)
    decreases |a|
  {
    hide Split;
    var i := FirstPart(a, b);
    if i == |a| {
      SplitWhole(a, b);
      SplitPart(a, b, c);
    } else {
      var p, rest := a[..i], a[i + 1..];
      SplitPart(p, b, rest);
      SplitPart(p, b, rest + [b] + c);
      SplitConcat(rest, b, c);
      assert a + [b] + c == p + [b] + (rest + [b] + c);
    }
  }
}
