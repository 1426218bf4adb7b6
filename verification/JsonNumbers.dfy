/** The number literals of section 2.4 of RFC 4627, by their parts, and that the reader takes exactly these. */
module JsonNumbers {
  import opened Bytes
  import opened Texts
  import opened JsonText
  import IntLiteral

  predicate AllDigits(s: seq<byte>) {
    forall i :: 0 <= i < |s| ==> 0x30 <= s[i] <= 0x39
  }

  /** [ minus ] */
  predicate IsSign(s: seq<byte>) {
    s == [] || s == [0x2D]
  }

  /** int = zero / ( digit1-9 *DIGIT ) */
  predicate IsInt(s: seq<byte>) {
    s != [] && AllDigits(s) && (s[0] == 0x30 ==> |s| == 1)
  }

  /** [ frac ], frac = decimal-point 1*DIGIT */
  predicate IsFrac(s: seq<byte>) {
    s == [] || (|s| >= 2 && s[0] == 0x2E && AllDigits(s[1..]))
  }

  /** [ exp ], exp = e [ minus / plus ] 1*DIGIT */
  predicate IsExp(s: seq<byte>) {
    s == [] ||
    (&& |s| >= 2 && (s[0] == 0x65 || s[0] == 0x45)
     && if s[1] == 0x2B || s[1] == 0x2D then |s| >= 3 && AllDigits(s[2..]) else AllDigits(s[1..]))
  }

  ghost predicate AreParts(a: seq<byte>, b: seq<byte>, c: seq<byte>, d: seq<byte>) {
    IsSign(a) && IsInt(b) && IsFrac(c) && IsExp(d)
  }

  /** number = [ minus ] int [ frac ] [ exp ] */
  ghost predicate IsNumberText(text: seq<byte>) {
    exists a, b, c, d :: AreParts(a, b, c, d) && text == a + b + c + d
  }

  /** A character that a literal could go on with. */
  predicate GoesOnNumber(c: byte) {
    0x30 <= c <= 0x39 || c == 0x2E || c == 0x65 || c == 0x45
  }

  // ---------- a literal is read to its end ----------

  lemma {:induction false} DigitsRead(s: seq<byte>, p: nat, d: seq<byte>)
    requires At(s, p, d) && AllDigits(d) && !IsDigit(Peek(s, p + |d|))
    ensures DigitsEnd(s, p) == p + |d|
    decreases |d|
  {
    if d != [] {
      AtPeek(s, p, d, 0);
      assert d == [d[0]] + d[1..];
      AtSplit(s, p, [d[0]], d[1..]);
      DigitsRead(s, p + 1, d[1..]);
    }
  }

  lemma IntRead(s: seq<byte>, p: nat, a: seq<byte>, b: seq<byte>)
    requires IsSign(a) && IsInt(b) && At(s, p, a + b) && !IsDigit(Peek(s, p + |a| + |b|))
    ensures IntEnd(s, p) == Lexed((), p + |a| + |b|)
    ensures p < |s| && (Peek(s, p) == 0x2D || 0x30 <= Peek(s, p) <= 0x39)
  {
    AtSplit(s, p, a, b);
    if a != [] { AtPeek(s, p, a, 0); }
    AtPeek(s, p + |a|, b, 0);
    assert b == [b[0]] + b[1..];
    AtSplit(s, p + |a|, [b[0]], b[1..]);
    DigitsRead(s, p + |a| + 1, b[1..]);
    hide DigitsEnd, At;
  }

  lemma FracRead(s: seq<byte>, p: nat, c: seq<byte>)
    requires IsFrac(c) && At(s, p, c) && !IsDigit(Peek(s, p + |c|)) && (c == [] ==> Peek(s, p) != 0x2E)
    ensures FracEnd(s, p) == Lexed((), p + |c|)
  {
    if c != [] {
      AtPeek(s, p, c, 0);
      AtPeek(s, p, c, 1);
      assert c == [c[0]] + c[1..] && c[1..][0] == c[1];
      AtSplit(s, p, [c[0]], c[1..]);
      DigitsRead(s, p + 1, c[1..]);
    }
    hide DigitsEnd;
  }

  lemma ExpRead(s: seq<byte>, p: nat, d: seq<byte>)
    requires IsExp(d) && At(s, p, d) && !IsDigit(Peek(s, p + |d|))
      && (d == [] ==> Peek(s, p) != 0x65 && Peek(s, p) != 0x45)
    ensures ExpEnd(s, p) == Lexed((), p + |d|)
  {
    if d != [] {
      var i := if d[1] == 0x2B || d[1] == 0x2D then 2 else 1;
      AtPeek(s, p, d, 0);
      AtPeek(s, p, d, 1);
      AtPeek(s, p, d, i);
      assert d == d[..i] + d[i..] && d[i..][0] == d[i];
      AtSplit(s, p, d[..i], d[i..]);
      DigitsRead(s, p + i, d[i..]);
    }
    hide DigitsEnd;
  }

  /** What stands behind one part: the next one, or what follows the literal. */
  lemma BehindPart(s: seq<byte>, p: nat, x: seq<byte>, y: seq<byte>)
    requires At(s, p, x + y)
    ensures At(s, p, x) && At(s, p + |x|, y)
    ensures Peek(s, p + |x|) == if y != [] then y[0] else Peek(s, p + |x + y|)
  {
    AtSplit(s, p, x, y);
    if y != [] { AtPeek(s, p + |x|, y, 0); }
  }

  lemma PartsRead(env: Env, s: seq<byte>, p: nat, a: seq<byte>, b: seq<byte>, c: seq<byte>, d: seq<byte>)
    requires AreParts(a, b, c, d) && At(s, p, a + b + c + d) && !GoesOnNumber(Peek(s, p + |a + b + c + d|))
    requires !env.tooBig(a + b + c + d)
    ensures NumberEnd(env, s, p) == Lexed((), p + |a + b + c + d|)
    ensures p < |s| && (Peek(s, p) == 0x2D || 0x30 <= Peek(s, p) <= 0x39)
  {
    hide *;
    var text := a + b + c + d;
    PartsAre(a, b, c, d);
    PartsStand(s, p, a + b, c, d);
    IntRead(s, p, a, b);
    FracRead(s, p + |a + b|, c);
    ExpRead(s, p + |a + b + c|, d);
    TextAt(s, p, text);
    EndsAre(env, s, p, p + |a + b|, p + |a + b + c|, p + |text|);
  }

  /** Where the parts stand, and that each ends where it does. */
  lemma PartsStand(s: seq<byte>, p: nat, m: seq<byte>, c: seq<byte>, d: seq<byte>)
    requires IsFrac(c) && IsExp(d) && At(s, p, m + c + d) && !GoesOnNumber(Peek(s, p + |m + c + d|))
    ensures At(s, p, m) && At(s, p + |m|, c) && At(s, p + |m + c|, d)
    ensures !IsDigit(Peek(s, p + |m|)) && !IsDigit(Peek(s, p + |m + c|)) && !IsDigit(Peek(s, p + |m + c + d|))
    ensures c == [] ==> Peek(s, p + |m|) != 0x2E
    ensures d == [] ==> Peek(s, p + |m + c|) != 0x65 && Peek(s, p + |m + c|) != 0x45
  {
    hide *;
    BehindPart(s, p, m + c, d);
    BehindPart(s, p, m, c);
    assert m + c + d == m + (c + d);
    BehindPart(s, p, m, c + d);
    FirstOf(c, d);
    FollowIs(Peek(s, p + |m + c + d|));
  }

  lemma PartsAre(a: seq<byte>, b: seq<byte>, c: seq<byte>, d: seq<byte>)
    ensures AreParts(a, b, c, d) <==> IsSign(a) && IsInt(b) && IsFrac(c) && IsExp(d)
  {
  }

  lemma FirstOf(c: seq<byte>, d: seq<byte>)
    requires IsFrac(c) && IsExp(d)
    ensures c + d != [] ==> !IsDigit((c + d)[0]) && (c == [] ==> (c + d)[0] != 0x2E)
    ensures c != [] ==> !IsDigit(c[0])
    ensures d != [] ==> !IsDigit(d[0]) && d[0] != 0x2E
  {
  }

  lemma FollowIs(c: byte)
    ensures !GoesOnNumber(c) ==> !IsDigit(c) && c != 0x2E && c != 0x65 && c != 0x45
  {
  }

  lemma TextAt(s: seq<byte>, p: nat, text: seq<byte>)
    requires At(s, p, text)
    ensures p + |text| <= |s| && s[p..p + |text|] == text
  {
  }

  lemma EndsAre(env: Env, s: seq<byte>, p: nat, i: nat, f: nat, e: nat)
    requires p <= |s| && IntEnd(s, p) == Lexed((), i) && FracEnd(s, i) == Lexed((), f) && ExpEnd(s, f) == Lexed((), e)
    requires !env.tooBig(s[p..e])
    ensures NumberEnd(env, s, p) == Lexed((), e)
  {
    hide IntEnd, FracEnd, ExpEnd;
  }

  /** A literal is read to its end, wherever it stands, if nothing behind it could belong to it. */
  lemma LiteralRead(env: Env, s: seq<byte>, p: nat, text: seq<byte>)
    requires IsNumberText(text) && At(s, p, text) && !GoesOnNumber(Peek(s, p + |text|)) && !env.tooBig(text)
    ensures NumberEnd(env, s, p) == Lexed((), p + |text|)
    ensures p < |s| && (Peek(s, p) == 0x2D || 0x30 <= Peek(s, p) <= 0x39)
  {
    var a, b, c, d :| AreParts(a, b, c, d) && text == a + b + c + d;
    hide *;
    PartsRead(env, s, p, a, b, c, d);
  }

  // ---------- what is read is a literal ----------

  lemma {:induction false} DigitsSeen(s: seq<byte>, p: nat)
    requires p <= |s|
    ensures AllDigits(s[p..DigitsEnd(s, p)])
    decreases |s| - p
  {
    if IsDigit(Peek(s, p)) {
      DigitsSeen(s, p + 1);
      var e := DigitsEnd(s, p + 1);
      assert s[p..e] == [s[p]] + s[p + 1..e];
    }
  }

  lemma IntSeen(s: seq<byte>, p: nat)
    requires p <= |s| && IntEnd(s, p).Lexed?
    ensures var q, e := if Peek(s, p) == 0x2D then p + 1 else p, IntEnd(s, p).end;
      q < e && IsSign(s[p..q]) && IsInt(s[q..e])
  {
    var q, e := if Peek(s, p) == 0x2D then p + 1 else p, IntEnd(s, p).end;
    if q + 1 <= |s| {
      DigitsSeen(s, q + 1);
      assert s[q..e] == [s[q]] + s[q + 1..e];
    }
    hide DigitsEnd;
  }

  lemma FracSeen(s: seq<byte>, p: nat)
    requires p <= |s| && FracEnd(s, p).Lexed?
    ensures IsFrac(s[p..FracEnd(s, p).end])
  {
    var e := FracEnd(s, p).end;
    if Peek(s, p) == DOT {
      DigitsSeen(s, p + 1);
      DigitsGo(s, p + 1);
      assert s[p..e][1..] == s[p + 1..e];
    }
    hide DigitsEnd;
  }

  lemma DigitsGo(s: seq<byte>, p: nat)
    requires p <= |s| && IsDigit(Peek(s, p))
    ensures DigitsEnd(s, p) > p
  {
  }

  lemma ExpSeen(s: seq<byte>, p: nat)
    requires p <= |s| && ExpEnd(s, p).Lexed?
    ensures IsExp(s[p..ExpEnd(s, p).end])
  {
    var e := ExpEnd(s, p).end;
    if Peek(s, p) == 101 || Peek(s, p) == 69 {
      var q := if Peek(s, p + 1) == PLUS || Peek(s, p + 1) == MINUS then p + 2 else p + 1;
      DigitsSeen(s, q);
      DigitsGo(s, q);
      assert s[p..e][q - p..] == s[q..e];
    }
    hide DigitsEnd;
  }

  lemma NumberSeen(env: Env, s: seq<byte>, p: nat)
    requires p <= |s| && NumberEnd(env, s, p).Lexed?
    ensures var text := s[p..NumberEnd(env, s, p).end]; IsNumberText(text) && !env.tooBig(text)
  {
    var i := IntEnd(s, p).end;
    PartsSeen(s, p, i, FracEnd(s, i).end);
    hide IntEnd, FracEnd, ExpEnd, IsNumberText;
  }

  /** What the three scans have gone over is a literal. */
  lemma PartsSeen(s: seq<byte>, p: nat, i: nat, f: nat)
    requires p <= |s| && IntEnd(s, p).Lexed? && i == IntEnd(s, p).end
    requires FracEnd(s, i).Lexed? && f == FracEnd(s, i).end
    requires ExpEnd(s, f).Lexed?
    ensures var e := ExpEnd(s, f).end; p <= e <= |s| && IsNumberText(s[p..e]) && At(s, p, s[p..e])
  {
    hide *;
    var q, e := if Peek(s, p) == 0x2D then p + 1 else p, ExpEnd(s, f).end;
    IntSeen(s, p);
    FracSeen(s, i);
    ExpSeen(s, f);
    PartsAre(s[p..q], s[q..i], s[i..f], s[f..e]);
    FourPieces(s, p, q, i, f, e);
    LiteralIf(s[p..q], s[q..i], s[i..f], s[f..e]);
    SliceAt(s, p, e);
  }

  lemma LiteralIf(a: seq<byte>, b: seq<byte>, c: seq<byte>, d: seq<byte>)
    requires AreParts(a, b, c, d)
    ensures IsNumberText(a + b + c + d)
  {
    hide AreParts;
  }

  lemma FourPieces(s: seq<byte>, p: nat, q: nat, i: nat, f: nat, e: nat)
    requires p <= q <= i <= f <= e <= |s|
    ensures s[p..e] == s[p..q] + s[q..i] + s[i..f] + s[f..e]
  {
    assert s[p..i] == s[p..q] + s[q..i];
    assert s[p..f] == s[p..i] + s[i..f];
    assert s[p..e] == s[p..f] + s[f..e];
  }

  /** The whole of a text is read as one number if and only if it is a number literal, and not too big. */
  lemma NumberIff(env: Env, text: seq<byte>)
    ensures NumberEnd(env, text, 0) == Lexed((), |text|) <==> IsNumberText(text) && !env.tooBig(text)
  {
    assert text[0..|text|] == text;
    if NumberEnd(env, text, 0) == Lexed((), |text|) { NumberSeen(env, text, 0); }
    if IsNumberText(text) && !env.tooBig(text) { LiteralRead(env, text, 0, text); }
    hide NumberEnd, IsNumberText;
  }

  /** The literals without fraction and exponent are literals of that grammar. */
  lemma IntegerIsNumber(text: seq<byte>)
    requires IntLiteral.IsIntegerLiteral(text)
    ensures IsNumberText(text)
  {
    var b := IntLiteral.Unsigned(text);
    var a: seq<byte> := if IntLiteral.IsNegative(text) then [0x2D] else [];
    assert AreParts(a, b, [], []) && text == a + b + [] + [];
  }
}
