/** Go's escapes by their bytes: what each text of a double-quoted literal stands for, said without the
    unquoter's tables, and the unquoter as exactly that. */
module GoEscapes {
  import opened Bytes
  import opened GoString
  import Utf8

  /** A hexadecimal digit, in either case. */
  predicate Nibble(ch: byte, d: int) {
    (0 <= d < 10 && ch as int == 0x30 + d) || (10 <= d < 16 && (ch as int == 0x37 + d || ch as int == 0x57 + d))
  }

  /** The digits of a number, all of them given. */
  predicate HexSpells(d: bytes, c: nat) {
    if d == [] then c == 0 else Nibble(d[|d| - 1], c % 16) && HexSpells(d[..|d| - 1], c / 16)
  }

  predicate OctSpells(d: bytes, c: nat) {
    if d == [] then c == 0 else d[|d| - 1] as int == 0x30 + c % 8 && OctSpells(d[..|d| - 1], c / 8)
  }

  /** The escapes of one letter, and the two that stand for themselves. */
  predicate Letter(l: byte, b: byte) {
    || (l == 0x61 && b == 0x07) || (l == 0x62 && b == 0x08) || (l == 0x66 && b == 0x0C)
    || (l == 0x6E && b == 0x0A) || (l == 0x72 && b == 0x0D) || (l == 0x74 && b == 0x09)
    || (l == 0x76 && b == 0x0B) || (l == 0x5C && b == 0x5C) || (l == 0x22 && b == 0x22)
  }

  predicate OneChar(s: bytes) {
    s != [] && Utf8.CharLen(s) == |s|
  }

  /** One character as it stands, or one escape, and the bytes it stands for. */
  predicate Decodes(t: bytes, out: bytes) {
    || (OneChar(t) && t[0] != 0x22 && t[0] != 0x5C && out == t)
    || (|t| == 2 && t[0] == 0x5C && |out| == 1 && Letter(t[1], out[0]))
    || (|t| == 4 && t[..2] == [0x5C, 0x78] && |out| == 1 && HexSpells(t[2..], out[0]))
    || (|t| == 4 && t[0] == 0x5C && |out| == 1 && OctSpells(t[1..], out[0]))
    || (|t| == 6 && t[..2] == [0x5C, 0x75] && OneChar(out) && Utf8.Decode(out) >= 0 && HexSpells(t[2..], Utf8.Decode(out)))
    || (|t| == 10 && t[..2] == [0x5C, 0x55] && OneChar(out) && Utf8.Decode(out) >= 0 && HexSpells(t[2..], Utf8.Decode(out)))
  }

  lemma NibbleExactly(ch: byte, d: nat)
    ensures HexDigit(ch) == Some(d) <==> Nibble(ch, d)
  {
  }

  lemma {:induction false} HexExactly(d: bytes, c: nat)
    ensures HexSpells(d, c) <==> AllHex(d) && HexValue(d) == c
  {
    hide HexDigit, Nibble;
    if d != [] {
      var front, last := d[..|d| - 1], d[|d| - 1];
      HexExactly(front, c / 16);
      NibbleExactly(last, c % 16);
      AllHexSnoc(d);
    }
  }

  lemma AllHexSnoc(d: bytes)
    requires d != []
    ensures AllHex(d) <==> AllHex(d[..|d| - 1]) && HexDigit(d[|d| - 1]).Some?
  {
    hide HexDigit;
    var front := d[..|d| - 1];
    forall i | 0 <= i < |front| ensures front[i] == d[i] {}
    if AllHex(front) && HexDigit(d[|d| - 1]).Some? {
      forall i | 0 <= i < |d| ensures HexDigit(d[i]).Some? {
        if i < |front| { assert HexDigit(front[i]).Some?; }
      }
    }
  }

  lemma {:induction false} OctExactly(d: bytes, c: nat)
    ensures OctSpells(d, c) <==> AllOctal(d) && OctalValue(d) == c
  {
    if d != [] {
      var front := d[..|d| - 1];
      OctExactly(front, c / 8);
      forall i | 0 <= i < |front| ensures front[i] == d[i] {}
    }
  }

  lemma LetterExactly(l: byte, b: byte)
    ensures SimpleEscape(l) == Some(b) <==> Letter(l, b)
  {
  }

  predicate Reads(p: Piece, t: bytes, out: bytes) {
    ValidPiece(p) && PieceText(p) == t && PieceMeaning(p) == out
  }

  lemma PieceDecodes(p: Piece)
    requires ValidPiece(p)
    ensures Decodes(PieceText(p), PieceMeaning(p))
  {
    hide Utf8.CharLen, Utf8.Encode, Utf8.Decode, HexValue, OctalValue, HexSpells, OctSpells, SimpleEscape, AllHex, AllOctal, Utf8.IsScalar;
    var t := PieceText(p);
    match p
    case Plain(c) =>
    case Simple(l) => LetterExactly(l, SimpleEscape(l).value);
    case HexByte(d) => assert t[2..] == d; HexExactly(d, HexValue(d));
    case ShortRune(d) => assert t[2..] == d; HexExactly(d, HexValue(d)); RuneMeans(HexValue(d));
    case LongRune(d) => assert t[2..] == d; HexExactly(d, HexValue(d)); RuneMeans(HexValue(d));
    case Octal(d) => assert t[1..] == d; OctExactly(d, OctalValue(d));
  }

  lemma RuneMeans(c: nat)
    requires Utf8.IsScalar(c)
    ensures var out := Utf8.Encode(c); OneChar(out) && |out| <= 4 && Utf8.Decode(out) == c
  {
    Utf8.EncodeIsOneChar(c);
    Utf8.DecodeOfEncode(c);
  }

  lemma DecodesIsPiece(t: bytes, out: bytes) returns (p: Piece)
    requires Decodes(t, out)
    ensures Reads(p, t, out)
  {
    hide Utf8.CharLen, Utf8.Encode, Utf8.Decode, HexValue, OctalValue, HexSpells, OctSpells, SimpleEscape, AllHex, AllOctal, Utf8.IsScalar;
    if OneChar(t) && t[0] != 0x22 && t[0] != 0x5C && out == t {
      p := Plain(t);
    } else if |t| == 2 {
      LetterExactly(t[1], out[0]);
      p := Simple(t[1]);
      assert t == [0x5C, t[1]] && out == [out[0]];
    } else if |t| == 4 && t[..2] == [0x5C, 0x78] && |out| == 1 && HexSpells(t[2..], out[0]) {
      HexExactly(t[2..], out[0]);
      p := HexByte(t[2..]);
      assert t == t[..2] + t[2..] && out == [out[0]];
    } else if |t| == 4 {
      OctExactly(t[1..], out[0]);
      p := Octal(t[1..]);
      assert t == [t[0]] + t[1..] && out == [out[0]];
    } else {
      HexExactly(t[2..], Utf8.Decode(out));
      Utf8.EncodeOfDecode(out);
      p := if |t| == 6 then ShortRune(t[2..]) else LongRune(t[2..]);
      assert t == t[..2] + t[2..];
    }
  }

  // --- whole literals -----------------------------------------------------------------------

  function Concat(ts: seq<bytes>): bytes {
    if ts == [] then [] else ts[0] + Concat(ts[1..])
  }

  predicate Written(s: bytes, texts: seq<bytes>, outs: seq<bytes>) {
    && |texts| == |outs| && (forall i :: 0 <= i < |texts| ==> Decodes(texts[i], outs[i]))
    && 0x0A !in Concat(texts) && s == [0x22] + Concat(texts) + [0x22]
  }

  lemma {:induction false} TextsOf(ps: seq<Piece>) returns (texts: seq<bytes>, outs: seq<bytes>)
    requires AllValid(ps)
    ensures |texts| == |outs| && forall i :: 0 <= i < |texts| ==> Decodes(texts[i], outs[i])
    ensures Concat(texts) == TextOf(ps) && Concat(outs) == MeaningOf(ps)
  {
    hide Decodes, ValidPiece, PieceText, PieceMeaning;
    texts, outs := [], [];
    if ps != [] {
      var ts, os := TextsOf(ps[1..]);
      PieceDecodes(ps[0]);
      texts, outs := [PieceText(ps[0])] + ts, [PieceMeaning(ps[0])] + os;
      assert texts[1..] == ts && outs[1..] == os;
    }
  }

  lemma {:induction false} PiecesOf(texts: seq<bytes>, outs: seq<bytes>) returns (ps: seq<Piece>)
    requires |texts| == |outs| && forall i :: 0 <= i < |texts| ==> Decodes(texts[i], outs[i])
    ensures AllValid(ps) && TextOf(ps) == Concat(texts) && MeaningOf(ps) == Concat(outs)
  {
    hide Decodes, ValidPiece, PieceText, PieceMeaning;
    ps := [];
    NoPieces();
    if texts != [] {
      var rest := PiecesOf(texts[1..], outs[1..]);
      var p := DecodesIsPiece(texts[0], outs[0]);
      MeaningCons(p, rest);
      ps := [p] + rest;
    }
  }

  /** A value that starts with a quote is accepted exactly when it is such texts between quotes, without a
      newline, and it means what they stand for, in order. */
  lemma UnquoteExactly(s: bytes, out: bytes)
    requires s != [] && s[0] == 0x22
    ensures Unquote(s) == Some(out) <==> exists texts, outs :: Written(s, texts, outs) && out == Concat(outs)
  {
    hide Unquote, Decodes, Concat, AllValid, TextOf, MeaningOf;
    UnquoteExact(s, out);
    if Unquote(s) == Some(out) {
      var ps :| Spells(s, ps) && out == MeaningOf(ps);
      var texts, outs := TextsOf(ps);
      assert Written(s, texts, outs) && out == Concat(outs);
    }
    forall texts, outs | Written(s, texts, outs) && out == Concat(outs) ensures Unquote(s) == Some(out) {
      var ps := PiecesOf(texts, outs);
      assert Spells(s, ps) && out == MeaningOf(ps);
    }
  }

  // --- quoters ------------------------------------------------------------------------------

  /** A way to write every byte. */
  predicate Quoter(q: byte -> bytes, b: byte) {
    Decodes(q(b), [b]) && 0x0A !in q(b)
  }

  function QuoteWith(q: byte -> bytes, s: bytes): seq<bytes> {
    seq(|s|, i requires 0 <= i < |s| => q(s[i]))
  }

  lemma {:induction false} NoNewline(ts: seq<bytes>)
    requires forall i :: 0 <= i < |ts| ==> 0x0A !in ts[i]
    ensures 0x0A !in Concat(ts)
  {
    if ts != [] { NoNewline(ts[1..]); }
  }

  lemma {:induction false} ByteByByte(s: bytes)
    ensures Concat(seq(|s|, i requires 0 <= i < |s| => [s[i]])) == s
  {
    var outs := seq(|s|, i requires 0 <= i < |s| => [s[i]]);
    if s != [] {
      var t := s[1..];
      ByteByByte(t);
      assert outs[1..] == seq(|t|, i requires 0 <= i < |t| => [t[i]]);
      assert s == [s[0]] + t;
    }
  }

  /** Whatever way each byte is written, the unquoter gives the bytes back. */
  lemma QuoterInverts(q: byte -> bytes, s: bytes)
    requires forall b :: Quoter(q, b)
    ensures Unquote([0x22] + Concat(QuoteWith(q, s)) + [0x22]) == Some(s)
  {
    hide Unquote, Decodes, Concat;
    var texts, outs := QuoteWith(q, s), seq(|s|, i requires 0 <= i < |s| => [s[i]]);
    forall i | 0 <= i < |texts| ensures Decodes(texts[i], outs[i]) && 0x0A !in texts[i] {
      assert Quoter(q, s[i]);
    }
    NoNewline(texts);
    ByteByByte(s);
    var literal := [0x22] + Concat(texts) + [0x22];
    assert Written(literal, texts, outs);
    UnquoteExactly(literal, s);
  }

  function OctalText(b: byte): bytes {
    [0x5C, 0x30 + b / 64, 0x30 + b / 8 % 8, 0x30 + b % 8]
  }

  function LowerHex(b: byte): bytes {
    [0x5C, 0x78, LowerNibble(b / 16), LowerNibble(b % 16)]
  }

  function UpperHex(b: byte): bytes {
    [0x5C, 0x78, UpperNibble(b / 16), UpperNibble(b % 16)]
  }

  function LowerNibble(d: nat): byte
    requires d < 16
  {
    if d < 10 then 0x30 + d else 0x57 + d
  }

  function UpperNibble(d: nat): byte
    requires d < 16
  {
    if d < 10 then 0x30 + d else 0x37 + d
  }

  /** The control bytes that have a letter by it, the rest by hexadecimal digits. */
  function LetterText(b: byte): bytes {
    if b == 0x07 then [0x5C, 0x61] else if b == 0x08 then [0x5C, 0x62] else if b == 0x09 then [0x5C, 0x74]
    else if b == 0x0A then [0x5C, 0x6E] else if b == 0x0B then [0x5C, 0x76] else if b == 0x0C then [0x5C, 0x66]
    else if b == 0x0D then [0x5C, 0x72] else if b == 0x22 || b == 0x5C then [0x5C, b] else LowerHex(b)
  }

  lemma OctalIsQuoter(b: byte)
    ensures Quoter(OctalText, b)
  {
    var d := OctalText(b)[1..];
    assert d == [0x30 + b / 64, 0x30 + b / 8 % 8, 0x30 + b % 8];
    assert d[..2] == [0x30 + b / 64, 0x30 + b / 8 % 8] && d[..2][..1] == [0x30 + b / 64] && d[..2][..1][..0] == [];
    assert OctSpells(d[..2][..1], b as int / 8 / 8);
    assert OctSpells(d[..2], b as int / 8);
  }

  lemma HexPairSpells(x: byte, y: byte, b: byte)
    requires Nibble(x, b as int / 16) && Nibble(y, b as int % 16)
    ensures Decodes([0x5C, 0x78, x, y], [b])
  {
    var t, d := [0x5C, 0x78, x, y], [x, y];
    assert t[2..] == d && d[..1] == [x] && [x][..0] == [];
    assert HexSpells([x], b as int / 16);
  }

  lemma HexIsQuoter(b: byte)
    ensures Quoter(LowerHex, b) && Quoter(UpperHex, b)
  {
    hide Decodes;
    HexPairSpells(LowerNibble(b / 16), LowerNibble(b % 16), b);
    HexPairSpells(UpperNibble(b / 16), UpperNibble(b % 16), b);
  }

  lemma LetterIsQuoter(b: byte)
    ensures Quoter(LetterText, b)
  {
    hide HexSpells, OctSpells, LowerHex, Utf8.CharLen, Utf8.Decode;
    HexIsQuoter(b);
  }

  /** Every byte sequence, written by letters, by three octal digits, or by two hexadecimal ones in either
      case, is read back. */
  lemma EveryQuoterInverts(s: bytes)
    ensures Unquote([0x22] + Concat(QuoteWith(LetterText, s)) + [0x22]) == Some(s)
    ensures Unquote([0x22] + Concat(QuoteWith(OctalText, s)) + [0x22]) == Some(s)
    ensures Unquote([0x22] + Concat(QuoteWith(LowerHex, s)) + [0x22]) == Some(s)
    ensures Unquote([0x22] + Concat(QuoteWith(UpperHex, s)) + [0x22]) == Some(s)
  {
    hide Quoter, Unquote, Concat, QuoteWith, LetterText, OctalText, LowerHex, UpperHex;
    forall b ensures Quoter(LetterText, b) && Quoter(OctalText, b) && Quoter(LowerHex, b) && Quoter(UpperHex, b) {
      LetterIsQuoter(b);
      OctalIsQuoter(b);
      HexIsQuoter(b);
    }
    QuoterInverts(LetterText, s);
    QuoterInverts(OctalText, s);
    QuoterInverts(LowerHex, s);
    QuoterInverts(UpperHex, s);
  }

  /** Every scalar value, by four or by eight hexadecimal digits, gives the one character that is it. */
  lemma RuneReads(d: bytes, c: nat)
    requires Utf8.IsScalar(c) && HexSpells(d, c) && |d| in {4, 8}
    ensures var r := Unquote([0x22, 0x5C, if |d| == 4 then 0x75 else 0x55] + d + [0x22]);
            r.Some? && OneChar(r.value) && |r.value| <= 4 && Utf8.Decode(r.value) == c
  {
    hide Unquote, HexSpells, Utf8.CharLen, Utf8.Encode, Utf8.Decode, Utf8.IsScalar;
    RuneMeans(c);
    var out := Utf8.Encode(c);
    var t := [0x5C, if |d| == 4 then 0x75 else 0x55] + d;
    assert t[..2] == [0x5C, t[1]] && t[2..] == d;
    assert Decodes(t, out);
    OneText(t, out);
    HexHasNoNewline(d, c);
    var s := [0x22, 0x5C, if |d| == 4 then 0x75 else 0x55] + d + [0x22];
    assert s == [0x22] + t + [0x22];
    assert Written(s, [t], [out]);
    UnquoteExactly(s, out);
  }

  lemma OneText(t: bytes, out: bytes)
    ensures Concat([t]) == t && Concat([out]) == out
  {
  }

  lemma {:induction false} HexHasNoNewline(d: bytes, c: nat)
    requires HexSpells(d, c)
    ensures 0x0A !in d
  {
    if d != [] { HexHasNoNewline(d[..|d| - 1], c / 16); }
  }
}
