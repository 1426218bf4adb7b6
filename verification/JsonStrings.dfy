/** The strings of section 2.5 of RFC 4627, piece by piece, and that the reader takes exactly these and what it makes of
    them. */
module JsonStrings {
  import opened Bytes
  import opened Texts
  import opened JsonText
  import Utf8Points

  /** A character that stands for itself, a two-character escape, and one or two \u escapes. */
  datatype Piece = Plain(c: byte) | Short(c: byte) | Unit(digits: seq<byte>) | Pair(high: seq<byte>, low: seq<byte>)

  predicate IsHex4(d: seq<byte>) {
    |d| == 4 && IsHex(d[0]) && IsHex(d[1]) && IsHex(d[2]) && IsHex(d[3])
  }

  /** The 16-bit number that four digits of either case denote. */
  function Unit16(d: seq<byte>): nat
    requires IsHex4(d)
  {
    ((HexValue(d[0]) * 16 + HexValue(d[1])) * 16 + HexValue(d[2])) * 16 + HexValue(d[3])
  }

  predicate PieceOk(p: Piece) {
    match p
    case Plain(c) => c >= 0x20 && c != 0x22 && c != 0x5C
    case Short(c) => c in [0x22, 0x5C, 0x2F, 0x62, 0x66, 0x6E, 0x72, 0x74]
    case Unit(d) => IsHex4(d) && !(0xD800 <= Unit16(d) <= 0xDBFF)
    case Pair(h, l) => IsHex4(h) && 0xD800 <= Unit16(h) <= 0xDBFF && IsHex4(l) && 0xDC00 <= Unit16(l) <= 0xDFFF
  }

  function PieceText(p: Piece): seq<byte> {
    match p
    case Plain(c) => [c]
    case Short(c) => [0x5C, c]
    case Unit(d) => [0x5C, 0x75] + d
    case Pair(h, l) => [0x5C, 0x75] + h + [0x5C, 0x75] + l
  }

  /** What a piece stands for. */
  function CodePoint(p: Piece): nat
    requires PieceOk(p)
  {
    match p
    case Plain(c) => c
    case Short(c) =>
      if c == 0x62 then 0x08
      else if c == 0x66 then 0x0C
      else if c == 0x6E then 0x0A
      else if c == 0x72 then 0x0D
      else if c == 0x74 then 0x09
      else c
    case Unit(d) => Unit16(d)
    case Pair(h, l) => 0x10000 + (Unit16(h) - 0xD800) * 0x400 + (Unit16(l) - 0xDC00)
  }

  /** The bits of a UTF-8 octet above its prefix. */
  function Bits(c: byte, prefix: nat): nat
    requires prefix <= c
  {
    c - prefix
  }

  predicate IsTail(c: byte) {
    0x80 <= c <= 0xBF
  }

  /** The octets of u are those that section 3 of RFC 3629 has for the code point c, were surrogates code points too. */
  predicate IsUtf8Of(c: nat, u: seq<byte>) {
    || (c <= 0x7F && u == [c])
    || (0x80 <= c <= 0x7FF && |u| == 2 && 0xC0 <= u[0] <= 0xDF && IsTail(u[1])
        && c == Bits(u[0], 0xC0) * 64 + Bits(u[1], 0x80))
    || (0x800 <= c <= 0xFFFF && |u| == 3 && 0xE0 <= u[0] <= 0xEF && IsTail(u[1]) && IsTail(u[2])
        && c == (Bits(u[0], 0xE0) * 64 + Bits(u[1], 0x80)) * 64 + Bits(u[2], 0x80))
    || (0x10000 <= c <= 0x10FFFF && |u| == 4 && 0xF0 <= u[0] <= 0xF7 && IsTail(u[1]) && IsTail(u[2]) && IsTail(u[3])
        && c == ((Bits(u[0], 0xF0) * 64 + Bits(u[1], 0x80)) * 64 + Bits(u[2], 0x80)) * 64 + Bits(u[3], 0x80))
  }

  /** What the reader writes for a code point is its sequence. */
  lemma EncodeIs(c: nat)
    requires c <= 0x10FFFF
    ensures IsUtf8Of(c, Encode(c))
  {
    assert c == 64 * (c / 64) + c % 64;
    assert c / 64 == 64 * (c / 4096) + c / 64 % 64;
    assert c / 4096 == 64 * (c / 262144) + c / 4096 % 64;
  }

  /** The bytes a piece stands for: a byte of the text itself, ASCII or not, or the sequence of its code point. */
  function PieceBytes(p: Piece): seq<byte>
    requires PieceOk(p)
  {
    if p.Plain? then [p.c] else Encode(PointFits(p))
  }

  function PointFits(p: Piece): (c: nat)
    requires PieceOk(p)
    ensures c == CodePoint(p) <= 0x10FFFF
  {
    CodePoint(p)
  }

  // ---------- one piece ----------

  lemma Hex4Read(s: seq<byte>, p: nat, d: seq<byte>)
    requires IsHex4(d) && At(s, p, d)
    ensures Hex4(s, p) == Lexed(Unit16(d), p + 4)
  {
    AtPeek(s, p, d, 0);
    AtPeek(s, p, d, 1);
    AtPeek(s, p, d, 2);
    AtPeek(s, p, d, 3);
    HexIs(d[0]);
    HexIs(d[1]);
    HexIs(d[2]);
    HexIs(d[3]);
    hide HexDigit, IsHex, HexValue, Peek;
  }

  lemma Hex4Seen(s: seq<byte>, p: nat)
    requires Hex4(s, p).Lexed?
    ensures p + 4 <= |s| && IsHex4(s[p..p + 4]) && Hex4(s, p) == Lexed(Unit16(s[p..p + 4]), p + 4)
  {
    HexIs(Peek(s, p));
    HexIs(Peek(s, p + 1));
    HexIs(Peek(s, p + 2));
    HexIs(Peek(s, p + 3));
    hide HexDigit, IsHex, HexValue;
  }

  lemma UnitFits(d: seq<byte>)
    requires IsHex4(d)
    ensures Unit16(d) <= 0xFFFF
  {
  }

  lemma ShortRead(c: byte)
    ensures PieceOk(Short(c)) <==> Unescape(c) != 0
    ensures PieceOk(Short(c)) ==> Unescape(c) == CodePoint(Short(c)) && CodePoint(Short(c)) <= 0x7F
  {
  }

  lemma UnitRead(s: seq<byte>, p: nat, d: seq<byte>)
    requires PieceOk(Unit(d)) && At(s, p, d)
    ensures Unicode(s, p) == Lexed(Unit16(d), p + 4)
  {
    Hex4Read(s, p, d);
    UnitFits(d);
    hide Hex4, Unit16;
  }

  lemma PairRead(s: seq<byte>, p: nat, h: seq<byte>, l: seq<byte>)
    requires PieceOk(Pair(h, l)) && At(s, p, h + [0x5C, 0x75] + l)
    ensures Unicode(s, p) == Lexed(CodePoint(Pair(h, l)), p + 10) && CodePoint(Pair(h, l)) <= 0x10FFFF
  {
    AtSplit(s, p, h + [0x5C, 0x75], l);
    AtSplit(s, p, h, [0x5C, 0x75]);
    AtPeek(s, p + 4, [0x5C, 0x75], 0);
    AtPeek(s, p + 4, [0x5C, 0x75], 1);
    Hex4Read(s, p, h);
    Hex4Read(s, p + 6, l);
    hide Hex4, Unit16, At;
  }

  lemma PlainRead(s: seq<byte>, p: nat, c: byte)
    requires PieceOk(Plain(c)) && At(s, p, [c])
    ensures Peek(s, p) != 0x22 && Character(s, p) == Lexed([c], p + 1)
  {
    AtPeek(s, p, [c], 0);
  }

  lemma ShortEscapeRead(s: seq<byte>, p: nat, c: byte)
    requires PieceOk(Short(c)) && At(s, p, [0x5C, c])
    ensures Peek(s, p) != 0x22 && Character(s, p) == Lexed(PieceBytes(Short(c)), p + 2)
  {
    AtPeek(s, p, [0x5C, c], 0);
    AtPeek(s, p, [0x5C, c], 1);
    ShortRead(c);
    hide Unescape, CodePoint;
  }

  lemma EscapeRead(s: seq<byte>, p: nat, c: nat, e: nat)
    requires At(s, p, [0x5C, 0x75]) && Unicode(s, p + 2) == Lexed(c, e)
    ensures Peek(s, p) != 0x22 && c <= 0x10FFFF && Character(s, p) == Lexed(Encode(c), e)
  {
    AtPeek(s, p, [0x5C, 0x75], 0);
    AtPeek(s, p, [0x5C, 0x75], 1);
    ShortRead(0x75);
    hide Unicode, Encode;
  }

  lemma LongEscapeRead(s: seq<byte>, p: nat, x: Piece)
    requires PieceOk(x) && (x.Unit? || x.Pair?) && At(s, p, PieceText(x))
    ensures Peek(s, p) != 0x22 && Character(s, p) == Lexed(PieceBytes(x), p + |PieceText(x)|)
  {
    hide Unicode, Encode, Unit16, IsHex4, Character, Peek, At;
    if x.Unit? {
      AtSplit(s, p, [0x5C, 0x75], x.digits);
      UnitRead(s, p + 2, x.digits);
    } else {
      assert PieceText(x) == [0x5C, 0x75] + (x.high + [0x5C, 0x75] + x.low);
      AtSplit(s, p, [0x5C, 0x75], x.high + [0x5C, 0x75] + x.low);
      PairRead(s, p + 2, x.high, x.low);
      FourDigits(x.high);
      FourDigits(x.low);
    }
    if x.Unit? { FourDigits(x.digits); }
    EscapeRead(s, p, CodePoint(x), p + |PieceText(x)|);
  }

  lemma FourDigits(d: seq<byte>)
    requires IsHex4(d)
    ensures |d| == 4
  {
  }

  /** A piece is read as a whole, and what is read is what it stands for. */
  lemma PieceRead(s: seq<byte>, p: nat, x: Piece)
    requires PieceOk(x) && At(s, p, PieceText(x))
    ensures Peek(s, p) != 0x22 && Character(s, p) == Lexed(PieceBytes(x), p + |PieceText(x)|)
  {
    hide Character, Peek, Encode, At;
    match x {
      case Plain(c) => PlainRead(s, p, c);
      case Short(c) => ShortEscapeRead(s, p, c);
      case _ => LongEscapeRead(s, p, x);
    }
  }

  lemma UnicodeSeen(s: seq<byte>, p: nat) returns (x: Piece)
    requires Unicode(s, p).Lexed?
    ensures PieceOk(x) && (x.Unit? || x.Pair?) && |PieceText(x)| >= 2 && At(s, p, PieceText(x)[2..])
    ensures CodePoint(x) == Unicode(s, p).value && Unicode(s, p).end == p + |PieceText(x)| - 2
  {
    Hex4Seen(s, p);
    var h := s[p..p + 4];
    if 0xD800 <= Unit16(h) <= 0xDBFF {
      Hex4Seen(s, p + 6);
      x := Pair(h, s[p + 6..p + 10]);
      assert s[p..p + 10] == h + [s[p + 4], s[p + 5]] + s[p + 6..p + 10];
      assert PieceText(x)[2..] == s[p..p + 10];
    } else {
      x := Unit(h);
      assert PieceText(x)[2..] == h;
    }
    hide Hex4, Unit16;
  }

  lemma EscapeSeen(s: seq<byte>, p: nat) returns (x: Piece)
    requires At(s, p, [0x5C, 0x75]) && Unicode(s, p + 2).Lexed?
    ensures PieceOk(x) && At(s, p, PieceText(x)) && CodePoint(x) == Unicode(s, p + 2).value && !x.Plain?
    ensures Unicode(s, p + 2).end == p + |PieceText(x)|
  {
    x := UnicodeSeen(s, p + 2);
    hide Unicode, CodePoint, PieceOk;
    JoinAt(s, p, [0x5C, 0x75], PieceText(x)[2..]);
    assert PieceText(x) == [0x5C, 0x75] + PieceText(x)[2..];
  }

  lemma PieceSeen(s: seq<byte>, p: nat) returns (x: Piece)
    requires Character(s, p).Lexed? && Peek(s, p) != 0x22
    ensures PieceOk(x) && At(s, p, PieceText(x)) && Character(s, p) == Lexed(PieceBytes(x), p + |PieceText(x)|)
  {
    var c, e := Peek(s, p), Peek(s, p + 1);
    ShortRead(e);
    if c != 0x5C {
      x := Plain(c);
      assert s[p..p + 1] == [c];
    } else if Unescape(e) != 0 {
      x := Short(e);
      assert s[p..p + 2] == [c, e];
    } else {
      assert s[p..p + 2] == [c, e];
      x := EscapeSeen(s, p);
    }
    hide Unicode, Encode, Unescape, CodePoint, Unit16, IsHex4;
  }

  // ---------- strings ----------

  predicate PiecesOk(ps: seq<Piece>) {
    forall i :: 0 <= i < |ps| ==> PieceOk(ps[i])
  }

  function PiecesText(ps: seq<Piece>): seq<byte> {
    if ps == [] then [] else PieceText(ps[0]) + PiecesText(ps[1..])
  }

  function PiecesBytes(ps: seq<Piece>): seq<byte>
    requires PiecesOk(ps)
  {
    if ps == [] then [] else PieceBytes(ps[0]) + PiecesBytes(ps[1..])
  }

  /** A string behind its opening quote: the pieces, and the closing quote. */
  function Closed(ps: seq<Piece>): seq<byte> {
    PiecesText(ps) + [0x22]
  }

  lemma ClosedParts(ps: seq<Piece>)
    ensures ps == [] ==> Closed(ps) == [0x22]
    ensures ps != [] ==> Closed(ps) == PieceText(ps[0]) + Closed(ps[1..])
  {
    hide PieceText;
  }

  lemma TextStops(s: seq<byte>, p: nat)
    requires p <= |s| && Peek(s, p) == 0x22
    ensures p < |s| && Text(s, p) == Lexed([], p + 1)
  {
  }

  lemma TextGoesOn(s: seq<byte>, p: nat, u: seq<byte>, e: nat, rest: seq<byte>, end: nat)
    requires p <= |s| && Peek(s, p) != 0x22 && Character(s, p) == Lexed(u, e) && e <= |s|
      && Text(s, e) == Lexed(rest, end)
    ensures Text(s, p) == Lexed(u + rest, end)
  {
    hide Character;
  }

  /** Any string of the grammar is read to its closing quote, as the bytes it stands for. */
  lemma {:induction false} StringRead(s: seq<byte>, p: nat, ps: seq<Piece>)
    requires PiecesOk(ps) && At(s, p, Closed(ps))
    ensures p <= |s| && Text(s, p) == Lexed(PiecesBytes(ps), p + |Closed(ps)|)
    decreases |ps|
  {
    hide Text, Character, PieceText, PieceBytes, PieceOk, At, Closed, Peek;
    AtInside(s, p, Closed(ps));
    ClosedParts(ps);
    if ps == [] {
      AtPeek(s, p, [0x22], 0);
      TextStops(s, p);
    } else {
      var x, rest := ps[0], ps[1..];
      AtSplit(s, p, PieceText(x), Closed(rest));
      PieceRead(s, p, x);
      StringRead(s, p + |PieceText(x)|, rest);
      TextGoesOn(s, p, PieceBytes(x), p + |PieceText(x)|, PiecesBytes(rest), p + |Closed(ps)|);
    }
  }

  /** What is read as a string is one of the grammar. */
  lemma {:induction false} StringSeen(s: seq<byte>, p: nat) returns (ps: seq<Piece>)
    requires p <= |s| && Text(s, p).Lexed?
    ensures PiecesOk(ps) && At(s, p, Closed(ps)) && Text(s, p) == Lexed(PiecesBytes(ps), p + |Closed(ps)|)
    decreases |s| - p
  {
    hide *;
    if Peek(s, p) == 0x22 {
      ps := [];
      TextStops(s, p);
      QuoteAt(s, p);
    } else {
      var e := TextBegins(s, p);
      var x := PieceSeen(s, p);
      var rest := StringSeen(s, e);
      ps := [x] + rest;
      assert ps[0] == x && ps[1..] == rest;
      AllOk(ps);
      ClosedParts(ps);
      BytesParts(ps);
      JoinAt(s, p, PieceText(x), Closed(rest));
      TextGoesOn(s, p, PieceBytes(x), e, PiecesBytes(rest), e + |Closed(rest)|);
    }
  }

  lemma QuoteAt(s: seq<byte>, p: nat)
    requires p < |s| && Peek(s, p) == 0x22
    ensures PiecesOk([]) && PiecesBytes([]) == [] && At(s, p, Closed([])) && |Closed([])| == 1
  {
    assert s[p..p + 1] == [0x22];
    ClosedParts([]);
  }

  lemma TextBegins(s: seq<byte>, p: nat) returns (e: nat)
    requires p <= |s| && Text(s, p).Lexed? && Peek(s, p) != 0x22
    ensures Character(s, p).Lexed? && e == Character(s, p).end && p < e <= |s| && Text(s, e).Lexed?
    ensures Text(s, p).end == Text(s, e).end
  {
    e := Character(s, p).end;
    hide Character;
  }

  lemma AllOk(ps: seq<Piece>)
    requires ps != [] && PieceOk(ps[0]) && PiecesOk(ps[1..])
    ensures PiecesOk(ps)
  {
    hide PieceOk;
    forall i | 0 <= i < |ps| ensures PieceOk(ps[i]) { if i > 0 { assert ps[i] == ps[1..][i - 1]; } }
  }

  lemma BytesParts(ps: seq<Piece>)
    requires ps != [] && PiecesOk(ps)
    ensures PiecesOk(ps[1..]) && PieceOk(ps[0]) && PiecesBytes(ps) == PieceBytes(ps[0]) + PiecesBytes(ps[1..])
  {
    hide PieceOk, PieceBytes;
  }

  // ---------- what an escape decodes to ----------

  lemma OnePiece(s: seq<byte>, p: nat, x: Piece)
    requires PieceOk(x) && At(s, p, PieceText(x) + [0x22])
    ensures p <= |s| && Text(s, p) == Lexed(PieceBytes(x), p + |PieceText(x)| + 1)
  {
    hide *;
    assert [x][1..] == [];
    ClosedParts([x]);
    ClosedParts([]);
    QuoteClosed();
    AllOk([x]);
    BytesParts([x]);
    assert PieceBytes(x) + [] == PieceBytes(x);
    StringRead(s, p, [x]);
  }

  lemma QuoteClosed()
    ensures PiecesOk([]) && PiecesBytes([]) == []
  {
  }

  /** A code point beyond the sixteen bits, written as the two escapes of section 2.5 of RFC 4627 with digits of either
      case, is read as a sequence that decodes to it. */
  lemma PairDecodes(s: seq<byte>, p: nat, c: nat, h: seq<byte>, l: seq<byte>)
    requires 0x10000 <= c <= 0x10FFFF && IsHex4(h) && IsHex4(l)
    requires Unit16(h) == 0xD800 + (c - 0x10000) / 0x400 && Unit16(l) == 0xDC00 + (c - 0x10000) % 0x400
    requires At(s, p, [0x5C, 0x75] + h + [0x5C, 0x75] + l + [0x22])
    ensures p <= |s| && Text(s, p).Lexed? && Text(s, p).end == p + 13
    ensures var u := Text(s, p).value; |u| == 4 && Utf8Points.Decode(u, 0) == Utf8Points.Decoded(true, c, 4)
  {
    hide Unit16;
    var x := Pair(h, l);
    PairHalves(c);
    assert PieceOk(x) && CodePoint(x) == c;
    FourDigits(h);
    FourDigits(l);
    hide CodePoint, PieceOk;
    OnePiece(s, p, x);
    hide Text, At, Encode;
    EscapeDecodes(c);
  }

  lemma PairHalves(c: nat)
    requires 0x10000 <= c <= 0x10FFFF
    ensures 0 <= (c - 0x10000) / 0x400 < 0x400 && 0 <= (c - 0x10000) % 0x400 < 0x400
    ensures c == 0x10000 + (c - 0x10000) / 0x400 * 0x400 + (c - 0x10000) % 0x400
  {
  }

  lemma EscapeDecodes(c: nat)
    requires c <= 0x10FFFF && !Utf8Points.IsSurrogate(c)
    ensures Utf8Points.Decode(Encode(c), 0) == Utf8Points.Decoded(true, c, |Encode(c)|)
    ensures c >= 0x10000 ==> |Encode(c)| == 4
  {
    assert At(Encode(c), 0, Encode(c));
    Utf8Points.DecodesEncoded(Encode(c), 0, c);
    hide Utf8Points.Decode;
  }

  /** So is any other code point that is no surrogate, written as one escape. */
  lemma UnitDecodes(s: seq<byte>, p: nat, c: nat, d: seq<byte>)
    requires IsHex4(d) && Unit16(d) == c && !Utf8Points.IsSurrogate(c) && At(s, p, [0x5C, 0x75] + d + [0x22])
    ensures p <= |s| && Text(s, p).Lexed? && Text(s, p).end == p + 7
    ensures var u := Text(s, p).value; u != [] && Utf8Points.Decode(u, 0) == Utf8Points.Decoded(true, c, |u|)
  {
    UnitFits(d);
    hide Unit16;
    OnePiece(s, p, Unit(d));
    hide Text, At, Encode;
    EscapeDecodes(c);
    EncodeIs(c);
  }

  /** Decoding, too, is by the arithmetic of section 3 of RFC 3629. */
  lemma DecodeIsArithmetic(c: nat, u: seq<byte>)
    requires IsUtf8Of(c, u) && !Utf8Points.IsSurrogate(c)
    ensures Utf8Points.Decode(u, 0) == Utf8Points.Decoded(true, c, |u|)
  {
    EncodeIs(c);
    Utf8Unique(c, u, Encode(c));
    EscapeDecodes(c);
  }

  /** No two sequences are those of one code point. */
  lemma Utf8Unique(c: nat, u: seq<byte>, v: seq<byte>)
    requires IsUtf8Of(c, u) && IsUtf8Of(c, v)
    ensures u == v
  {
    if |u| == 2 {
      Digits64(Bits(u[0], 0xC0), Bits(u[1], 0x80), Bits(v[0], 0xC0), Bits(v[1], 0x80));
    }
    if |u| == 3 {
      Digits64(Bits(u[0], 0xE0) * 64 + Bits(u[1], 0x80), Bits(u[2], 0x80),
        Bits(v[0], 0xE0) * 64 + Bits(v[1], 0x80), Bits(v[2], 0x80));
      Digits64(Bits(u[0], 0xE0), Bits(u[1], 0x80), Bits(v[0], 0xE0), Bits(v[1], 0x80));
    }
    if |u| == 4 { Utf8Unique4(c, u, v); }
  }

  lemma Utf8Unique4(c: nat, u: seq<byte>, v: seq<byte>)
    requires IsUtf8Of(c, u) && IsUtf8Of(c, v) && |u| == |v| == 4
    ensures u == v
  {
    var a, b := Bits(u[0], 0xF0) * 64 + Bits(u[1], 0x80), Bits(v[0], 0xF0) * 64 + Bits(v[1], 0x80);
    Digits64(a * 64 + Bits(u[2], 0x80), Bits(u[3], 0x80), b * 64 + Bits(v[2], 0x80), Bits(v[3], 0x80));
    Digits64(a, Bits(u[2], 0x80), b, Bits(v[2], 0x80));
    Digits64(Bits(u[0], 0xF0), Bits(u[1], 0x80), Bits(v[0], 0xF0), Bits(v[1], 0x80));
  }

  lemma Digits64(a: nat, b: nat, c: nat, d: nat)
    requires b < 64 && d < 64
    ensures a * 64 + b == c * 64 + d <==> a == c && b == d
  {
  }
}
