/** Go's double-quoted string literal: its pieces, what they decode to, and the unquoter. */
module GoString {
  import opened Bytes
  import Utf8

  const QUOTE: byte := 0x22
  const BACKSLASH: byte := 0x5C
  const NEWLINE: byte := 0x0A

  /** What the inside of a literal is made of: a character as it stands, or one of Go's escapes. */
  datatype Piece =
    | Plain(text: bytes)
    | Simple(letter: byte)
    | HexByte(digits: bytes)
    | ShortRune(digits: bytes)
    | LongRune(digits: bytes)
    | Octal(digits: bytes)

  function HexDigit(b: byte): (d: Option<nat>)
    ensures d.Some? ==> d.value < 16
  {
    if 0x30 <= b <= 0x39 then Some(b - 0x30)
    else if 0x41 <= b <= 0x46 then Some(b - 0x41 + 10)
    else if 0x61 <= b <= 0x66 then Some(b - 0x61 + 10)
    else None
  }

  predicate AllHex(s: bytes) {
    forall i :: 0 <= i < |s| ==> HexDigit(s[i]).Some?
  }

  predicate AllOctal(s: bytes) {
    forall i :: 0 <= i < |s| ==> 0x30 <= s[i] <= 0x37
  }

  function HexValue(s: bytes): nat
    requires AllHex(s)
  {
    if s == [] then 0 else 16 * HexValue(s[..|s| - 1]) + HexDigit(s[|s| - 1]).value
  }

  function OctalValue(s: bytes): nat
    requires AllOctal(s)
  {
    if s == [] then 0 else 8 * OctalValue(s[..|s| - 1]) + (s[|s| - 1] - 0x30)
  }

  /** The byte a one-letter escape stands for. The escaped single quote is not among them. */
  function SimpleEscape(letter: byte): Option<byte> {
    if letter == 0x61 then Some(0x07)
    else if letter == 0x62 then Some(0x08)
    else if letter == 0x66 then Some(0x0C)
    else if letter == 0x6E then Some(0x0A)
    else if letter == 0x72 then Some(0x0D)
    else if letter == 0x74 then Some(0x09)
    else if letter == 0x76 then Some(0x0B)
    else if letter == BACKSLASH then Some(BACKSLASH)
    else if letter == QUOTE then Some(QUOTE)
    else None
  }

  predicate ValidPiece(p: Piece) {
    match p
    case Plain(c) => c != [] && Utf8.CharLen(c) == |c| && c[0] != QUOTE && c[0] != BACKSLASH
    case Simple(l) => SimpleEscape(l).Some?
    case HexByte(d) => |d| == 2 && AllHex(d)
    case ShortRune(d) => |d| == 4 && AllHex(d) && Utf8.IsScalar(HexValue(d))
    case LongRune(d) => |d| == 8 && AllHex(d) && Utf8.IsScalar(HexValue(d))
    case Octal(d) => |d| == 3 && AllOctal(d) && OctalValue(d) <= 255
  }

  function PieceText(p: Piece): bytes {
    match p
    case Plain(c) => c
    case Simple(l) => [BACKSLASH, l]
    case HexByte(d) => [BACKSLASH, 0x78] + d
    case ShortRune(d) => [BACKSLASH, 0x75] + d
    case LongRune(d) => [BACKSLASH, 0x55] + d
    case Octal(d) => [BACKSLASH] + d
  }

  lemma HexByteBound(d: bytes)
    requires |d| == 2 && AllHex(d)
    ensures HexValue(d) < 256
  {
    assert d[..1][..0] == [];
    assert HexValue(d[..1]) == 16 * HexValue(d[..1][..0]) + HexDigit(d[0]).value;
  }

  function PieceMeaning(p: Piece): bytes
    requires ValidPiece(p)
  {
    match p
    case Plain(c) => c
    case Simple(l) => [SimpleEscape(l).value]
    case HexByte(d) => HexByteBound(d); [HexValue(d)]
    case ShortRune(d) => Utf8.Encode(HexValue(d))
    case LongRune(d) => Utf8.Encode(HexValue(d))
    case Octal(d) => [OctalValue(d)]
  }

  /** `unquote_char`: the piece at the front, or none. */
  function NextPiece(s: bytes): (r: Option<Piece>)
    requires s != []
  {
    if s[0] == QUOTE then None
    else if s[0] != BACKSLASH then
      if Utf8.CharLen(s) == 0 then None else Some(Plain(s[..Utf8.CharLen(s)]))
    else if |s| < 2 then None
    else if SimpleEscape(s[1]).Some? then Some(Simple(s[1]))
    else if s[1] == 0x78 then IfValid(HexByte(Slice(s, 2, 4)))
    else if s[1] == 0x75 then IfValid(ShortRune(Slice(s, 2, 6)))
    else if s[1] == 0x55 then IfValid(LongRune(Slice(s, 2, 10)))
    else if 0x30 <= s[1] <= 0x37 then IfValid(Octal(Slice(s, 1, 4)))
    else None
  }

  /** `str::get` on a range: what there is of it, which is too short to be valid past the end. */
  function Slice(s: bytes, lo: nat, hi: nat): bytes
    requires lo <= |s| && lo <= hi
  {
    if hi <= |s| then s[lo..hi] else []
  }

  function IfValid(p: Piece): Option<Piece> {
    if ValidPiece(p) then Some(p) else None
  }

  // --- the pieces of a text -----------------------------------------------------------------

  lemma PlainReads(c: bytes, rest: bytes)
    requires ValidPiece(Plain(c))
    ensures NextPiece(c + rest) == Some(Plain(c))
  {
    Utf8.CharLenExtends(c, rest);
    assert (c + rest)[..|c|] == c;
    assert (c + rest)[0] == c[0];
  }

  /** A valid piece is read back whole, whatever follows it. */
  lemma PieceReads(p: Piece, rest: bytes)
    requires ValidPiece(p)
    ensures PieceText(p) != [] && NextPiece(PieceText(p) + rest) == Some(p)
  {
    var s := PieceText(p) + rest;
    match p {
      case Plain(c) => PlainReads(c, rest);
      case Simple(l) =>
      case HexByte(d) => assert s[2..4] == d;
      case ShortRune(d) => assert s[2..6] == d;
      case LongRune(d) => assert s[2..10] == d;
      case Octal(d) => assert s[1..4] == d; assert s[1] == d[0];
    }
  }

  /** What is read is valid and is a non-empty prefix of the text. */
  lemma NextPieceSound(s: bytes)
    requires s != [] && NextPiece(s).Some?
    ensures var p := NextPiece(s).value; var n := |PieceText(p)|;
            ValidPiece(p) && 1 <= n <= |s| && s[..n] == PieceText(p)
  {
    if s[0] != BACKSLASH { Utf8.CharLenExtends(s, []); }
  }

  /** On UTF-8 text every piece ends on a character boundary. */
  lemma PieceKeepsUtf8(s: bytes)
    requires Utf8.Valid(s) && s != [] && NextPiece(s).Some?
    ensures 1 <= |PieceText(NextPiece(s).value)| <= |s| && Utf8.Valid(s[|PieceText(NextPiece(s).value)|..])
  {
    NextPieceSound(s);
    var p := NextPiece(s).value;
    var n := |PieceText(p)|;
    if !p.Plain? {
      EscapeIsAscii(p);
      assert s[n - 1] == PieceText(p)[n - 1];
      Utf8.SplitAtAscii(s, n - 1);
    }
  }

  lemma EscapeIsAscii(p: Piece)
    requires ValidPiece(p) && !p.Plain?
    ensures PieceText(p) != [] && PieceText(p)[|PieceText(p)| - 1] < 0x80
  {
  }

  function Pieces(s: bytes): (r: Option<seq<Piece>>)
    decreases |s|
  {
    if s == [] then Some([])
    else match NextPiece(s)
      case None => None
      case Some(p) =>
        NextPieceSound(s);
        match Pieces(s[|PieceText(p)|..])
        case None => None
        case Some(ps) => Some([p] + ps)
  }

  predicate AllValid(ps: seq<Piece>) {
    ps == [] || (ValidPiece(ps[0]) && AllValid(ps[1..]))
  }

  function TextOf(ps: seq<Piece>): bytes {
    if ps == [] then [] else PieceText(ps[0]) + TextOf(ps[1..])
  }

  function MeaningOf(ps: seq<Piece>): bytes
    requires AllValid(ps)
  {
    if ps == [] then [] else PieceMeaning(ps[0]) + MeaningOf(ps[1..])
  }

  /** Every valid piece list reads back from its text, so no text splits in two ways. */
  lemma {:induction false} PiecesOfText(ps: seq<Piece>)
    requires AllValid(ps)
    ensures Pieces(TextOf(ps)) == Some(ps)
  {
    hide PieceText, ValidPiece, NextPiece;
    if ps != [] {
      var rest := TextOf(ps[1..]);
      PieceReads(ps[0], rest);
      PiecesOfText(ps[1..]);
      assert (PieceText(ps[0]) + rest)[|PieceText(ps[0])|..] == rest;
      assert [ps[0]] + ps[1..] == ps;
    }
  }

  /** Every text that splits is the text of the valid pieces it splits into. */
  lemma {:induction false} TextOfPieces(s: bytes)
    requires Pieces(s).Some?
    ensures AllValid(Pieces(s).value) && TextOf(Pieces(s).value) == s
    decreases |s|
  {
    hide PieceText, ValidPiece, NextPiece;
    if s != [] {
      NextPieceSound(s);
      var p := NextPiece(s).value;
      var rest := s[|PieceText(p)|..];
      TextOfPieces(rest);
      var ps := Pieces(rest).value;
      assert ([p] + ps)[1..] == ps;
      assert s == PieceText(p) + rest;
    }
  }

  // --- the literal --------------------------------------------------------------------------

  /** `unquote_go_string` on a value that starts with a quote. */
  function Unquote(s: bytes): Option<bytes> {
    if |s| < 2 || s[|s| - 1] != QUOTE then None
    else
      var inner := s[1..|s| - 1];
      if NEWLINE in inner then None
      else match Pieces(inner)
        case None => None
        case Some(ps) => TextOfPieces(inner); Some(MeaningOf(ps))
  }

  function Literal(ps: seq<Piece>): bytes {
    [QUOTE] + TextOf(ps) + [QUOTE]
  }

  lemma InnerOfLiteral(ps: seq<Piece>)
    ensures var s := Literal(ps); |s| >= 2 && s[|s| - 1] == QUOTE && s[1..|s| - 1] == TextOf(ps)
  {
  }

  predicate Spells(s: bytes, ps: seq<Piece>) {
    AllValid(ps) && NEWLINE !in TextOf(ps) && s == Literal(ps)
  }

  /** A literal is accepted exactly when its inside is a newline-free text of valid pieces, and it
      means the concatenation of what they mean. */
  lemma UnquoteExact(s: bytes, out: bytes)
    requires s != [] && s[0] == QUOTE
    ensures Unquote(s) == Some(out) <==> exists ps :: Spells(s, ps) && out == MeaningOf(ps)
  {
    hide PieceText, PieceMeaning, ValidPiece, NextPiece;
    if Unquote(s) == Some(out) {
      var inner := s[1..|s| - 1];
      TextOfPieces(inner);
      var ps := Pieces(inner).value;
      assert s == [QUOTE] + inner + [QUOTE];
      assert Spells(s, ps);
    }
    forall ps | Spells(s, ps) ensures Unquote(s) == Some(MeaningOf(ps)) {
      UnquoteLiteral(ps);
    }
  }

  lemma UnquoteLiteral(ps: seq<Piece>)
    requires AllValid(ps) && NEWLINE !in TextOf(ps)
    ensures Unquote(Literal(ps)) == Some(MeaningOf(ps))
  {
    InnerOfLiteral(ps);
    PiecesOfText(ps);
  }

  /** Decoding distributes over concatenation of complete bodies. */
  lemma {:induction false} MeaningConcat(ps: seq<Piece>, qs: seq<Piece>)
    requires AllValid(ps) && AllValid(qs)
    ensures AllValid(ps + qs) && MeaningOf(ps + qs) == MeaningOf(ps) + MeaningOf(qs)
    ensures TextOf(ps + qs) == TextOf(ps) + TextOf(qs)
  {
    hide PieceText, PieceMeaning, ValidPiece, MeaningOf, TextOf;
    if ps == [] {
      assert ps + qs == qs;
      NoPieces();
    } else {
      var p, rest := ps[0], ps[1..];
      MeaningConcat(rest, qs);
      MeaningCons(p, rest);
      MeaningCons(p, rest + qs);
      assert ps == [p] + rest && ps + qs == [p] + (rest + qs);
      Associative(PieceText(p), TextOf(rest), TextOf(qs));
      Associative(PieceMeaning(p), MeaningOf(rest), MeaningOf(qs));
    }
  }

  lemma NoPieces()
    ensures AllValid([]) && MeaningOf([]) == [] && TextOf([]) == []
  {
  }

  lemma MeaningCons(p: Piece, rest: seq<Piece>)
    requires ValidPiece(p) && AllValid(rest)
    ensures AllValid([p] + rest)
    ensures MeaningOf([p] + rest) == PieceMeaning(p) + MeaningOf(rest) && TextOf([p] + rest) == PieceText(p) + TextOf(rest)
  {
    hide PieceText, PieceMeaning, ValidPiece;
    assert ([p] + rest)[1..] == rest;
  }

  lemma PieceShrinks(p: Piece)
    requires ValidPiece(p)
    ensures |PieceMeaning(p)| <= |PieceText(p)|
  {
  }

  /** Decoding never lengthens the text. */
  lemma {:induction false} MeaningShrinks(ps: seq<Piece>)
    requires AllValid(ps)
    ensures |MeaningOf(ps)| <= |TextOf(ps)|
  {
    hide PieceText, PieceMeaning, ValidPiece;
    if ps != [] {
      PieceShrinks(ps[0]);
      MeaningShrinks(ps[1..]);
    }
  }

  // --- a quoter it inverts ------------------------------------------------------------------

  function HexChar(d: nat): byte
    requires d < 16
  {
    if d < 10 then 0x30 + d else 0x61 + d - 10
  }

  /** Printable ASCII stands for itself, the quote and the backslash are escaped, every other byte is
      a hex escape. */
  function QuoteByte(b: byte): Piece {
    if b == QUOTE || b == BACKSLASH then Simple(b)
    else if 0x20 <= b < 0x7F then Plain([b])
    else HexByte(HexOf(b))
  }

  function QuoteAll(s: bytes): seq<Piece> {
    if s == [] then [] else [QuoteByte(s[0])] + QuoteAll(s[1..])
  }

  /** Two hexadecimal digits of a byte. */
  function HexOf(b: byte): (d: bytes)
    ensures |d| == 2
  {
    [HexChar(b / 16), HexChar(b % 16)]
  }

  lemma HexCharMeans(d: nat)
    requires d < 16
    ensures HexDigit(HexChar(d)) == Some(d) && 0x20 <= HexChar(d) < 0x7F
  {
  }

  lemma HexPair(x: byte, y: byte)
    requires HexDigit(x).Some? && HexDigit(y).Some?
    ensures AllHex([x, y]) && HexValue([x, y]) == 16 * HexDigit(x).value + HexDigit(y).value
  {
    hide HexDigit;
    var d := [x, y];
    assert d[..1] == [x] && [x][..0] == [];
    assert HexValue([x]) == HexDigit(x).value;
  }

  lemma HexOfMeans(b: byte)
    ensures AllHex(HexOf(b)) && HexValue(HexOf(b)) == b
    ensures forall i :: 0 <= i < 2 ==> 0x20 <= HexOf(b)[i] < 0x7F
  {
    hide HexDigit, HexValue, HexChar, AllHex;
    HexCharMeans(b / 16);
    HexCharMeans(b % 16);
    HexPair(HexChar(b / 16), HexChar(b % 16));
  }

  lemma QuoteByteMeans(b: byte)
    ensures ValidPiece(QuoteByte(b)) && PieceMeaning(QuoteByte(b)) == [b]
    ensures forall i :: 0 <= i < |PieceText(QuoteByte(b))| ==> 0x20 <= PieceText(QuoteByte(b))[i] < 0x7F
  {
    hide Utf8.Encode, OctalValue, HexValue, HexOf, AllHex, AllOctal;
    HexOfMeans(b);
    var d := HexOf(b);
    assert d == [d[0], d[1]];
  }

  lemma {:induction false} QuoteAllMeans(s: bytes)
    ensures AllValid(QuoteAll(s)) && MeaningOf(QuoteAll(s)) == s
    ensures forall i :: 0 <= i < |TextOf(QuoteAll(s))| ==> 0x20 <= TextOf(QuoteAll(s))[i] < 0x7F
  {
    hide PieceText, PieceMeaning, ValidPiece, QuoteByte;
    if s != [] {
      QuoteByteMeans(s[0]);
      QuoteAllMeans(s[1..]);
      assert ([QuoteByte(s[0])] + QuoteAll(s[1..]))[1..] == QuoteAll(s[1..]);
      assert s == [s[0]] + s[1..];
    }
  }

  /** Every byte sequence survives quoting and unquoting. */
  lemma UnquoteInvertsQuote(s: bytes)
    ensures Unquote(Literal(QuoteAll(s))) == Some(s)
  {
    QuoteAllMeans(s);
    UnquoteLiteral(QuoteAll(s));
  }

  // --- the source's loops -------------------------------------------------------------------

  /** `unquote_char`: appends what the front decodes to and returns how much it consumed. */
  method UnquoteChar(s: bytes, out: ByteVec) returns (consumed: Option<nat>)
    requires s != []
    modifies out
    ensures match NextPiece(s)
            case None => consumed == None && out.data == old(out.data)
            case Some(p) =>
              && ValidPiece(p) && consumed == Some(|PieceText(p)|)
              && out.data == old(out.data) + PieceMeaning(p)
  {
    hide Utf8.CharLen, Utf8.Encode, Utf8.IsScalar, HexValue, OctalValue, AllHex, AllOctal, SimpleEscape;
    if s[0] == QUOTE {
      return None;
    }
    if s[0] != BACKSLASH {
      var len := Utf8.CharLen(s);
      if len == 0 {
        return None;
      }
      NextPieceSound(s);
      out.Extend(s[..len]);
      return Some(len);
    }
    if |s| < 2 {
      return None;
    }
    var oneByte := SimpleEscape(s[1]);
    if oneByte.Some? {
      out.Push(oneByte.value);
      return Some(2);
    }
    if s[1] == 0x78 || s[1] == 0x75 || s[1] == 0x55 {
      var n := if s[1] == 0x78 then 2 else if s[1] == 0x75 then 4 else 8;
      if |s| < 2 + n {
        return None;
      }
      var digits := s[2..2 + n];
      if !AllHex(digits) {
        return None;
      }
      var v := HexValue(digits);
      if s[1] == 0x78 {
        HexByteBound(digits);
        out.Push(v);
      } else {
        if !Utf8.IsScalar(v) {
          return None;
        }
        out.Extend(Utf8.Encode(v));
      }
      return Some(2 + n);
    }
    if 0x30 <= s[1] <= 0x37 {
      if |s| < 4 {
        return None;
      }
      var digits := s[1..4];
      if !AllOctal(digits) {
        return None;
      }
      var v := OctalValue(digits);
      if v > 255 {
        return None;
      }
      out.Push(v);
      return Some(4);
    }
    return None;
  }

  lemma PiecesStep(s: bytes)
    requires s != []
    ensures NextPiece(s).None? ==> Pieces(s).None?
    ensures NextPiece(s).Some? ==>
              var n := |PieceText(NextPiece(s).value)|;
              1 <= n <= |s| && (Pieces(s).Some? <==> Pieces(s[n..]).Some?)
  {
    if NextPiece(s).Some? { NextPieceSound(s); }
  }

  lemma Append(done: seq<Piece>, s: bytes)
    requires AllValid(done) && s != [] && NextPiece(s).Some?
    ensures var p := NextPiece(s).value; var n := |PieceText(p)|;
            && n <= |s| && ValidPiece(p) && AllValid(done + [p])
            && TextOf(done + [p]) + s[n..] == TextOf(done) + s
            && MeaningOf(done + [p]) == MeaningOf(done) + PieceMeaning(p)
  {
    hide PieceText, PieceMeaning, ValidPiece, NextPiece;
    NextPieceSound(s);
    var p := NextPiece(s).value;
    assert [p][1..] == [];
    MeaningConcat(done, [p]);
    assert s == PieceText(p) + s[|PieceText(p)|..];
  }

  lemma Finish(inner: bytes, done: seq<Piece>)
    requires AllValid(done) && inner == TextOf(done) + []
    ensures Pieces(inner) == Some(done)
  {
    assert inner == TextOf(done);
    PiecesOfText(done);
  }

  /** `unquote_go_string`. */
  method UnquoteGoString(s: bytes) returns (r: Option<bytes>)
    ensures r == Unquote(s)
  {
    hide PieceText, PieceMeaning, ValidPiece, NextPiece, Pieces, AllValid, TextOf, MeaningOf;
    if |s| < 2 || s[|s| - 1] != QUOTE {
      return None;
    }
    var inner := s[1..|s| - 1];
    if NEWLINE in inner {
      return None;
    }
    var out := new ByteVec();
    var rest := inner;
    ghost var done: seq<Piece> := [];
    Nothing();
    while rest != []
      invariant fresh(out)
      invariant AllValid(done) && inner == TextOf(done) + rest && out.data == MeaningOf(done)
      invariant Pieces(inner).Some? <==> Pieces(rest).Some?
      decreases |rest|
    {
      var consumed := UnquoteChar(rest, out);
      PiecesStep(rest);
      if consumed.None? {
        return None;
      }
      Append(done, rest);
      done := done + [NextPiece(rest).value];
      rest := rest[consumed.value..];
    }
    Finish(inner, done);
    return Some(out.data);
  }

  lemma Nothing()
    ensures AllValid([]) && TextOf([]) == [] && MeaningOf([]) == []
  {
  }
}
