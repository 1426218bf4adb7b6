/** Where a token of a JSON text is refused, and with which error code. */
module JsonErrors {
  import opened Bytes
  import opened Texts
  import opened JsonText
  import opened JsonNumbers
  import opened JsonStrings
  import opened JsonGaps

  // ---------- comments ----------

  /** At p begins a comment that neither of the two forms can complete. */
  ghost predicate CommentBroken(s: seq<byte>, p: nat) {
    && Peek(s, p) == 0x2F
    && (Peek(s, p + 1) == 0x2A ==> forall body :: 0 !in body ==> !At(s, p + 2, body + [0x2A, 0x2F]))
    && Peek(s, p + 1) != 0x2F
  }

  lemma {:induction false} BlockOpen(s: seq<byte>, p: nat, body: seq<byte>)
    requires p <= |s| && 0 !in body && At(s, p, body + [0x2A, 0x2F])
    ensures BlockEnd(s, p).Lexed?
    decreases |body|
  {
    var all := body + [0x2A, 0x2F];
    AtPeek(s, p, all, 0);
    AtPeek(s, p, all, 1);
    AtInside(s, p, all);
    if body != [] {
      assert all == [body[0]] + (body[1..] + [0x2A, 0x2F]);
      AtSplit(s, p, [body[0]], body[1..] + [0x2A, 0x2F]);
      BlockOpen(s, p + 1, body[1..]);
    }
    hide At;
  }

  lemma {:induction false} BlockCode(s: seq<byte>, p: nat)
    requires p <= |s| && BlockEnd(s, p).Bad?
    ensures BlockEnd(s, p) == Bad(UnspecificSyntaxError)
    decreases |s| - p
  {
    if p < |s| && BlockEnd(s, p + 1).Bad? { BlockCode(s, p + 1); }
  }

  lemma CommentFails(s: seq<byte>, p: nat)
    requires p < |s| && s[p] == 0x2F && Comment(s, p + 1).Bad?
    ensures Comment(s, p + 1) == Bad(UnspecificSyntaxError) && CommentBroken(s, p)
  {
    CommentIs(s, p + 1);
    PeekInside(s, p + 1);
    if Peek(s, p + 1) == 0x2A {
      BlockCode(s, p + 2);
      forall body | 0 !in body ensures !At(s, p + 2, body + [0x2A, 0x2F]) {
        if At(s, p + 2, body + [0x2A, 0x2F]) { BlockOpen(s, p + 2, body); }
      }
    }
    hide BlockEnd, LineEnd, At;
  }

  /** Skipping fails behind a gap, at a comment that is broken, and with one code. */
  lemma {:induction false} SkipFails(env: Env, s: seq<byte>, p: nat) returns (g: Gap)
    requires p <= |s| && Skip(env, s, p).Bad?
    ensures Skip(env, s, p) == Bad(UnspecificSyntaxError) && env.comments
    ensures At(s, p, GapText(g)) && GapOk(true, g, false) && CommentBroken(s, p + |GapText(g)|)
    decreases |s| - p
  {
    hide *;
    SpaceIs(Peek(s, p));
    g := [];
    NoGapHere(s, p);
    var x: Lay;
    if Peek(s, p) == 0x20 || Peek(s, p) == 0x09 || Peek(s, p) == 0x0A || Peek(s, p) == 0x0D {
      x := BlankSeen(env, s, p);
    } else if env.comments && Peek(s, p) == 0x2F {
      PeekInside(s, p);
      SkipGoesOn(env, s, p);
      if Comment(s, p + 1).Bad? {
        CommentFails(s, p);
        return;
      }
      x := CommentSeen(s, p);
    } else {
      SolidHere(env, s, p);
      SkipStops(env, s, p);
      return;
    }
    LayLong(x);
    AtInside(s, p, LayText(x));
    var rest := SkipFails(env, s, p + |LayText(x)|);
    GapNotEnd(s, p + |LayText(x)|, rest);
    assert env.comments;
    g := [x] + rest;
    assert g[0] == x && g[1..] == rest;
    GapParts(g);
    JoinAt(s, p, LayText(x), GapText(rest));
    BlankIsOk(env.comments, x);
    MoreOk(true, x, rest, false);
  }

  lemma BlankIsOk(comments: bool, x: Lay)
    requires LayOk(comments, x)
    ensures LayOk(true, x)
  {
  }

  lemma NoGapHere(s: seq<byte>, p: nat)
    requires p <= |s|
    ensures GapText([]) == [] && At(s, p, []) && GapOk(true, [], false)
  {
  }

  /** A broken comment, or a gap before one, is no end of the text. */
  lemma GapNotEnd(s: seq<byte>, p: nat, g: Gap)
    requires At(s, p, GapText(g)) && GapOk(true, g, false) && CommentBroken(s, p + |GapText(g)|)
    ensures Peek(s, p) != 0
  {
    if g != [] { GapStarts(true, s, p, g, 1); }
    hide At, GapOk;
  }

  // ---------- strings ----------

  predicate HexAt(s: seq<byte>, p: nat) {
    p + 4 <= |s| && IsHex4(s[p..p + 4])
  }

  function UnitAt(s: seq<byte>, p: nat): nat
    requires HexAt(s, p)
  {
    Unit16(s[p..p + 4])
  }

  ghost predicate HighAt(s: seq<byte>, p: nat) {
    HexAt(s, p) && 0xD800 <= UnitAt(s, p) <= 0xDBFF
  }

  ghost predicate LowAt(s: seq<byte>, p: nat) {
    HexAt(s, p) && 0xDC00 <= UnitAt(s, p) <= 0xDFFF
  }

  /** No piece of a string stands at q, nor its closing quote, and how that is reported. */
  ghost predicate StringStuck(s: seq<byte>, q: nat, code: Code) {
    match code
    case StringMissQuotationMark => Peek(s, q) == 0
    case StringInvalidEncoding => 0 < Peek(s, q) < 0x20
    case StringEscapeInvalid =>
      Peek(s, q) == 0x5C && Peek(s, q + 1) !in [0x22, 0x5C, 0x2F, 0x62, 0x66, 0x6E, 0x72, 0x74, 0x75]
    case StringUnicodeEscapeInvalidHex =>
      && At(s, q, [0x5C, 0x75])
      && (!HexAt(s, q + 2) || (HighAt(s, q + 2) && At(s, q + 6, [0x5C, 0x75]) && !HexAt(s, q + 8)))
    case StringUnicodeSurrogateInvalid =>
      && At(s, q, [0x5C, 0x75]) && HighAt(s, q + 2)
      && (!At(s, q + 6, [0x5C, 0x75]) || (HexAt(s, q + 8) && !LowAt(s, q + 8)))
    case _ => false
  }

  lemma Hex4Is(s: seq<byte>, p: nat)
    ensures Hex4(s, p) == if HexAt(s, p) then Lexed(UnitAt(s, p), p + 4) else Bad(StringUnicodeEscapeInvalidHex)
  {
    if Hex4(s, p).Lexed? { Hex4Seen(s, p); }
    if HexAt(s, p) {
      SliceAt(s, p, p + 4);
      Hex4Read(s, p, s[p..p + 4]);
    }
    hide HexDigit, Unit16, IsHex4;
  }

  lemma EscapeIs(s: seq<byte>, q: nat)
    ensures At(s, q, [0x5C, 0x75]) <==> Peek(s, q) == 0x5C && Peek(s, q + 1) == 0x75
  {
    if q + 2 <= |s| { assert s[q..q + 2] == [s[q], s[q + 1]]; }
  }

  lemma UnicodeIs(s: seq<byte>, p: nat)
    ensures Unicode(s, p).Bad? <==>
      || !HexAt(s, p)
      || (HighAt(s, p) && (!At(s, p + 4, [0x5C, 0x75]) || !HexAt(s, p + 6) || !LowAt(s, p + 6)))
    ensures Unicode(s, p).Bad? ==>
      Unicode(s, p).code ==
      if !HexAt(s, p) || (At(s, p + 4, [0x5C, 0x75]) && !HexAt(s, p + 6)) then StringUnicodeEscapeInvalidHex
      else StringUnicodeSurrogateInvalid
  {
    Hex4Is(s, p);
    Hex4Is(s, p + 6);
    EscapeIs(s, p + 4);
    hide Hex4, HexAt, UnitAt, At;
  }

  lemma CharacterIs(s: seq<byte>, q: nat)
    ensures var c, e := Peek(s, q), Peek(s, q + 1);
      && (c == 0 ==> Character(s, q) == Bad(StringMissQuotationMark))
      && (0 < c < 0x20 ==> Character(s, q) == Bad(StringInvalidEncoding))
      && (c >= 0x20 && c != 0x5C ==> Character(s, q).Lexed?)
      && (c == 0x5C && e in [0x22, 0x5C, 0x2F, 0x62, 0x66, 0x6E, 0x72, 0x74] ==> Character(s, q).Lexed?)
      && (c == 0x5C && e == 0x75 ==>
            if Unicode(s, q + 2).Bad? then Character(s, q) == Bad(Unicode(s, q + 2).code) else Character(s, q).Lexed?)
      && (c == 0x5C && e !in [0x22, 0x5C, 0x2F, 0x62, 0x66, 0x6E, 0x72, 0x74, 0x75] ==>
            Character(s, q) == Bad(StringEscapeInvalid))
  {
    ShortRead(Peek(s, q + 1));
    hide Unicode, Encode, Unescape, CodePoint, Peek;
  }

  /** A character is refused exactly where the string is stuck, with that code. */
  lemma CharacterFails(s: seq<byte>, q: nat, code: Code)
    ensures Character(s, q) == Bad(code) <==> StringStuck(s, q, code)
  {
    CharacterIs(s, q);
    UnicodeIs(s, q + 2);
    EscapeIs(s, q);
    hide Character, Unicode, HexAt, HighAt, LowAt, At, Peek;
  }

  lemma TextBreaks(s: seq<byte>, q: nat)
    requires q <= |s| && Character(s, q).Bad? && Peek(s, q) != 0x22
    ensures Text(s, q) == Bad(Character(s, q).code)
  {
    hide Character;
  }

  lemma StuckIsNoQuote(s: seq<byte>, q: nat, code: Code)
    requires StringStuck(s, q, code)
    ensures Peek(s, q) != 0x22
  {
    EscapeIs(s, q);
    hide HexAt, HighAt, LowAt, At, Peek;
  }

  lemma TextBreaksOn(s: seq<byte>, p: nat)
    requires p <= |s| && Peek(s, p) != 0x22 && Character(s, p).Lexed? && Character(s, p).end <= |s|
    ensures Text(s, Character(s, p).end).Bad? ==> Text(s, p) == Text(s, Character(s, p).end)
    ensures Text(s, p).Bad? ==> Text(s, Character(s, p).end).Bad?
  {
    hide Character;
  }

  lemma NoPieces(s: seq<byte>, p: nat)
    requires p <= |s|
    ensures PiecesOk([]) && PiecesText([]) == [] && At(s, p, [])
  {
  }

  lemma PiecesFirst(ps: seq<Piece>)
    requires ps != []
    ensures PiecesText(ps) == PieceText(ps[0]) + PiecesText(ps[1..])
    ensures PiecesOk(ps) <==> PieceOk(ps[0]) && PiecesOk(ps[1..])
  {
    if PieceOk(ps[0]) && PiecesOk(ps[1..]) { AllOk(ps); }
    hide PieceText, PieceOk;
  }

  /** A string is refused behind some pieces, where it is stuck, with that code. */
  lemma {:induction false} TextFails(s: seq<byte>, p: nat) returns (ps: seq<Piece>)
    requires p <= |s| && Text(s, p).Bad?
    ensures PiecesOk(ps) && At(s, p, PiecesText(ps)) && StringStuck(s, p + |PiecesText(ps)|, Text(s, p).code)
    decreases |s| - p
  {
    hide *;
    ps := [];
    NoPieces(s, p);
    if Peek(s, p) == 0x22 {
      TextStops(s, p);
    } else if Character(s, p).Bad? {
      CharacterFails(s, p, Character(s, p).code);
      TextBreaks(s, p);
    } else {
      var x := PieceSeen(s, p);
      CharacterGrows(s, p);
      TextBreaksOn(s, p);
      var rest := TextFails(s, Character(s, p).end);
      ps := [x] + rest;
      assert ps[0] == x && ps[1..] == rest;
      PiecesFirst(ps);
      JoinAt(s, p, PieceText(x), PiecesText(rest));
    }
  }

  lemma CharacterGrows(s: seq<byte>, p: nat)
    ensures Character(s, p).Lexed? ==> p < Character(s, p).end <= |s|
  {
    hide *;
  }

  /** And wherever a string is stuck behind some pieces, it is refused with that code. */
  lemma {:induction false} TextRefused(s: seq<byte>, p: nat, ps: seq<Piece>, code: Code)
    requires PiecesOk(ps) && At(s, p, PiecesText(ps)) && StringStuck(s, p + |PiecesText(ps)|, code)
    ensures p <= |s| && Text(s, p) == Bad(code)
    decreases |ps|
  {
    hide *;
    AtInside(s, p, PiecesText(ps));
    NoPieces(s, p);
    if ps == [] {
      CharacterFails(s, p, code);
      StuckIsNoQuote(s, p, code);
      TextBreaks(s, p);
    } else {
      PiecesFirst(ps);
      AtSplit(s, p, PieceText(ps[0]), PiecesText(ps[1..]));
      PieceRead(s, p, ps[0]);
      CharacterGrows(s, p);
      TextRefused(s, p + |PieceText(ps[0])|, ps[1..], code);
      TextBreaksOn(s, p);
    }
  }

  // ---------- numbers ----------

  /** No number literal stands at p, and how that is reported. */
  ghost predicate NumberStuck(env: Env, s: seq<byte>, p: nat, code: Code) {
    match code
    case ValueInvalid => !(0x30 <= Peek(s, if Peek(s, p) == 0x2D then p + 1 else p) <= 0x39)
    case NumberMissFraction => exists x :: IsWhole(x) && OpenFraction(s, p, x)
    case NumberMissExponent => exists x :: IsFixed(x) && OpenExponent(s, p, x)
    case NumberTooBig => exists x :: IsNumberText(x) && At(s, p, x) && env.tooBig(x)
    case _ => false
  }

  ghost predicate IsWhole(x: seq<byte>) {
    exists a, b :: IsSign(a) && IsInt(b) && x == a + b
  }

  ghost predicate IsFixed(x: seq<byte>) {
    exists a, b, c :: IsSign(a) && IsInt(b) && IsFrac(c) && x == a + b + c
  }

  /** Behind x stands a point, and no digit. */
  ghost predicate OpenFraction(s: seq<byte>, p: nat, x: seq<byte>) {
    At(s, p, x + [0x2E]) && !(0x30 <= Peek(s, p + |x| + 1) <= 0x39)
  }

  /** Behind x stands an e, perhaps a sign, and no digit. */
  ghost predicate OpenExponent(s: seq<byte>, p: nat, x: seq<byte>) {
    var q := p + |x|;
    var sign := Peek(s, q + 1) == 0x2B || Peek(s, q + 1) == 0x2D;
    && (At(s, p, x + [0x65]) || At(s, p, x + [0x45]))
    && !(0x30 <= Peek(s, if sign then q + 2 else q + 1) <= 0x39)
  }

  lemma SignHere(s: seq<byte>, p: nat, e: nat)
    requires p <= e < |s|
    ensures At(s, p, s[p..e] + [s[e]]) && |s[p..e]| == e - p
  {
    assert s[p..e + 1] == s[p..e] + [s[e]];
  }

  lemma IntFails(s: seq<byte>, p: nat)
    requires p <= |s| && IntEnd(s, p).Bad?
    ensures IntEnd(s, p) == Bad(ValueInvalid) && !(0x30 <= Peek(s, if Peek(s, p) == 0x2D then p + 1 else p) <= 0x39)
  {
    hide DigitsEnd;
  }

  lemma WholeHere(s: seq<byte>, p: nat)
    requires p <= |s| && IntEnd(s, p).Lexed?
    ensures p <= IntEnd(s, p).end <= |s| && IsWhole(s[p..IntEnd(s, p).end])
  {
    var q, e := if Peek(s, p) == 0x2D then p + 1 else p, IntEnd(s, p).end;
    IntSeen(s, p);
    hide IntEnd, IsSign, IsInt;
    assert s[p..e] == s[p..q] + s[q..e];
  }

  lemma FixedIf(a: seq<byte>, b: seq<byte>, c: seq<byte>)
    requires IsSign(a) && IsInt(b) && IsFrac(c)
    ensures IsFixed(a + b + c)
  {
    hide IsSign, IsInt, IsFrac;
  }

  lemma ThreePieces(s: seq<byte>, p: nat, q: nat, i: nat, e: nat)
    requires p <= q <= i <= e <= |s|
    ensures s[p..e] == s[p..q] + s[q..i] + s[i..e]
  {
    assert s[p..i] == s[p..q] + s[q..i];
    assert s[p..e] == s[p..i] + s[i..e];
  }

  lemma FixedHere(s: seq<byte>, p: nat, i: nat)
    requires p <= |s| && IntEnd(s, p) == Lexed((), i) && FracEnd(s, i).Lexed?
    ensures p <= i <= FracEnd(s, i).end <= |s| && IsFixed(s[p..FracEnd(s, i).end])
  {
    hide *;
    var q, e := if Peek(s, p) == 0x2D then p + 1 else p, FracEnd(s, i).end;
    IntSeen(s, p);
    FracSeen(s, i);
    FixedIf(s[p..q], s[q..i], s[i..e]);
    ThreePieces(s, p, q, i, e);
  }

  lemma FracFails(s: seq<byte>, p: nat, i: nat)
    requires p <= i <= |s| && FracEnd(s, i).Bad?
    ensures FracEnd(s, i) == Bad(NumberMissFraction) && OpenFraction(s, p, s[p..i])
  {
    SignHere(s, p, i);
    hide DigitsEnd;
  }

  lemma ExpFails(s: seq<byte>, p: nat, f: nat)
    requires p <= f <= |s| && ExpEnd(s, f).Bad?
    ensures ExpEnd(s, f) == Bad(NumberMissExponent) && OpenExponent(s, p, s[p..f])
  {
    SignHere(s, p, f);
    hide DigitsEnd, At;
  }

  /** A number is refused where it is stuck, with that code. */
  lemma NumberFails(env: Env, s: seq<byte>, p: nat)
    requires p <= |s| && NumberEnd(env, s, p).Bad?
    ensures NumberStuck(env, s, p, NumberEnd(env, s, p).code)
  {
    hide IntEnd, FracEnd, ExpEnd, IsWhole, IsFixed, OpenFraction, OpenExponent, IsNumberText, Peek, At;
    var i := IntEnd(s, p);
    if i.Bad? {
      IntFails(s, p);
    } else {
      WholeHere(s, p);
      var f := FracEnd(s, i.end);
      if f.Bad? {
        FracFails(s, p, i.end);
      } else {
        UnitIs(i);
        FixedHere(s, p, i.end);
        var e := ExpEnd(s, f.end);
        if e.Bad? {
          ExpFails(s, p, f.end);
        } else {
          PartsSeen(s, p, i.end, f.end);
        }
      }
    }
  }

  lemma UnitIs(r: Lexed<()>)
    requires r.Lexed?
    ensures r == Lexed((), r.end)
  {
    match r.value { case () => }
  }
}
