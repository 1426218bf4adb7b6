/** The parts of a text of the repository's own parser: blanks, names, strings, numbers and truth values, wherever they
    stand. */
module BasicRead {
  import opened Bytes
  import opened Options
  import opened Texts
  import opened Decimals
  import opened BasicText

  predicate IsSkipped(c: byte, enter: bool) {
    c == 32 || c == 13 || (enter && c == 10)
  }

  /** The last character before j that is not skipped is there, and is no quote. */
  ghost predicate Covered(str: seq<byte>, j: nat, enter: bool) {
    exists i :: 0 <= i < j <= |str| && !IsSkipped(str[i], enter) && str[i] != QUOTE
      && forall m :: i < m < j ==> IsSkipped(str[m], enter)
  }

  /** A name this parser can read: no colon in it looks like the one behind it. */
  ghost predicate NameOk(name: seq<byte>) {
    forall j :: 0 <= j < |name| && name[j] == COLON ==> Covered(name, j, false)
  }

  /** A string this parser can read: no end character in it looks like the one behind it. */
  ghost predicate StringOk(str: seq<byte>) {
    forall j :: 0 <= j < |str| && IsEnd(str[j]) ==> Covered(str, j, true)
  }

  predicate IsPlain(str: seq<byte>) {
    forall j :: 0 <= j < |str| ==> str[j] != QUOTE && str[j] != COLON && !IsEnd(str[j])
  }

  /** Strings without quote, comma, colon and closing bracket or brace are readable. */
  lemma PlainIsOk(str: seq<byte>)
    requires IsPlain(str)
    ensures NameOk(str) && StringOk(str)
  {
  }

  // ---------- blanks ----------

  /** Spaces, line feeds and carriage returns. */
  predicate AreBlanks(b: seq<byte>) {
    forall i :: 0 <= i < |b| ==> b[i] == 0x20 || b[i] == 0x0A || b[i] == 0x0D
  }

  /** Between a name and its colon no line feed may stand. */
  predicate AreNarrow(b: seq<byte>) {
    forall i :: 0 <= i < |b| ==> b[i] == 0x20 || b[i] == 0x0D
  }

  /** No blank. */
  predicate IsInk(c: byte) {
    c != 0x20 && c != 0x0A && c != 0x0D
  }

  lemma {:induction false} BlanksSkipped(s: seq<byte>, p: nat, b: seq<byte>)
    requires At(s, p, b) && AreBlanks(b) && (p + |b| < |s| ==> IsInk(s[p + |b|]))
    ensures p + |b| <= |s| && SkipBlank(s, p) == p + |b|
    decreases |b|
  {
    AtInside(s, p, b);
    if b != [] {
      SameChars(s, p, b);
      assert b == [b[0]] + b[1..];
      AtSplit(s, p, [b[0]], b[1..]);
      BlanksSkipped(s, p + 1, b[1..]);
    }
    hide At;
  }

  /** Blanks, and an end character behind them. */
  lemma EndRead(s: seq<byte>, p: nat, b: seq<byte>)
    requires At(s, p, b) && AreBlanks(b) && p + |b| < |s| && IsClosing(s[p + |b|])
    ensures ToEnd(s, p) == Some(p + |b|)
  {
    BlanksSkipped(s, p, b);
    hide SkipBlank, At;
  }

  /** A comma, or the end of a container. */
  predicate IsClosing(c: byte) {
    c == 0x2C || c == 0x5D || c == 0x7D
  }

  // ---------- strings and names ----------

  lemma {:induction false} BackFinds(s: seq<byte>, p: nat, q: nat, b: nat, i: nat, enter: bool)
    requires p <= i < q <= |s| && 1 <= b <= q - i && !IsSkipped(s[i], enter)
    requires forall m :: i < m < q ==> IsSkipped(s[m], enter)
    ensures Back(s, p, q, b, enter) == q - i
    decreases q - i - b
  {
    if b < q - i {
      assert IsSkipped(s[q - b], enter);
      BackFinds(s, p, q, b + 1, i, enter);
    }
  }

  /** An end character, or a colon, inside the string is passed over. */
  lemma PassedOver(s: seq<byte>, p: nat, str: seq<byte>, j: nat, enter: bool)
    requires At(s, p, str) && j < |str| && Covered(str, j, enter)
    ensures p + j <= |s| && Back(s, p, p + j, 1, enter) != 0 && s[p + j - Back(s, p, p + j, 1, enter)] != QUOTE
  {
    var i :| 0 <= i < j <= |str| && !IsSkipped(str[i], enter) && str[i] != QUOTE
      && forall m :: i < m < j ==> IsSkipped(str[m], enter);
    SameChars(s, p, str);
    BackFinds(s, p, p + j, 1, p + i, enter);
  }

  lemma SameChars(s: seq<byte>, p: nat, str: seq<byte>)
    requires At(s, p, str)
    ensures p + |str| <= |s|
    ensures forall m :: p <= m < p + |str| ==> s[m] == str[m - p]
    ensures forall m :: 0 <= m < |str| ==> s[p + m] == str[m]
  {
    forall m | 0 <= m < |str| ensures s[p + m] == str[m] { assert s[p..p + |str|][m] == s[p + m]; }
  }

  /** A character that does not end the string. */
  lemma StringGoesOn(s: seq<byte>, p: nat, q: nat)
    requires p <= q < |s|
    requires IsEnd(s[q]) ==> var b := Back(s, p, q, 1, true); b != 0 && s[q - b] != QUOTE
    ensures GetString(s, p, q) == GetString(s, p, q + 1)
  {
    hide Back, IsEnd;
  }

  lemma StringStops(s: seq<byte>, p: nat, q: nat, i: nat)
    requires p <= i < q < |s| && IsClosing(s[q]) && s[i] == 0x22
    requires forall m :: i < m < q ==> s[m] == 0x20 || s[m] == 0x0A || s[m] == 0x0D
    ensures GetString(s, p, q) == Some((s[p..i], q))
  {
    BackFinds(s, p, q, 1, i, true);
    hide Back;
  }

  /** What stands behind the closing quote is no end character. */
  lemma BlanksAre(s: seq<byte>, p: nat, b: seq<byte>)
    requires At(s, p, b) && AreBlanks(b)
    ensures p + |b| <= |s| && forall m :: p <= m < p + |b| ==> s[m] == 0x20 || s[m] == 0x0A || s[m] == 0x0D
  {
    SameChars(s, p, b);
    forall m | p <= m < p + |b| ensures s[m] == 0x20 || s[m] == 0x0A || s[m] == 0x0D { assert s[m] == b[m - p]; }
    hide At;
  }

  lemma {:induction false} StringScan(s: seq<byte>, p: nat, str: seq<byte>, i: nat, e: nat, q: nat)
    requires At(s, p, str) && StringOk(str) && i == p + |str| && s[p..i] == str
    requires p <= q <= e && i < e < |s| && s[i] == 0x22 && IsClosing(s[e])
    requires forall m :: i < m < e ==> s[m] == 0x20 || s[m] == 0x0A || s[m] == 0x0D
    ensures GetString(s, p, q) == Some((str, e))
    decreases |s| - q
  {
    if q == e {
      StringStops(s, p, e, i);
    } else {
      SameChars(s, p, str);
      if q < i && IsEnd(str[q - p]) { PassedOver(s, p, str, q - p, true); }
      StringGoesOn(s, p, q);
      StringScan(s, p, str, i, e, q + 1);
    }
    hide Back, IsSkipped, At, GetString, Covered;
  }

  /** A string, its closing quote, blanks, and an end character behind them. */
  lemma StringReads(s: seq<byte>, p: nat, str: seq<byte>, after: seq<byte>)
    requires At(s, p, str + ([0x22] + after)) && AreBlanks(after) && StringOk(str)
    requires var e := p + |str| + 1 + |after|; e < |s| && IsClosing(s[e])
    ensures GetString(s, p, p) == Some((str, p + |str| + 1 + |after|))
  {
    hide *;
    AtSplit(s, p, str, [0x22] + after);
    AtSplit(s, p + |str|, [0x22], after);
    SameChars(s, p + |str|, [0x22]);
    BlanksAre(s, p + |str| + 1, after);
    SliceIs(s, p, str);
    StringScan(s, p, str, p + |str|, p + |str| + 1 + |after|, p);
  }

  lemma SliceIs(s: seq<byte>, p: nat, w: seq<byte>)
    requires At(s, p, w)
    ensures p + |w| <= |s| && s[p..p + |w|] == w
  {
  }

  lemma NameGoesOn(s: seq<byte>, p: nat, q: nat)
    requires p <= q < |s|
    requires s[q] == COLON ==> var b := Back(s, p, q, 1, false); b != 0 && s[q - b] != QUOTE
    ensures GetKey(s, p, q) == GetKey(s, p, q + 1)
  {
    hide Back;
  }

  lemma NameStops(s: seq<byte>, p: nat, q: nat, i: nat)
    requires p <= i < q < |s| && s[q] == 0x3A && s[i] == 0x22
    requires forall m :: i < m < q ==> s[m] == 0x20 || s[m] == 0x0D
    ensures GetKey(s, p, q) == Some((s[p..i], q + 1))
  {
    BackFinds(s, p, q, 1, i, false);
    hide Back;
  }

  lemma NarrowAre(s: seq<byte>, p: nat, b: seq<byte>)
    requires At(s, p, b) && AreNarrow(b)
    ensures p + |b| <= |s| && forall m :: p <= m < p + |b| ==> s[m] == 0x20 || s[m] == 0x0D
  {
    SameChars(s, p, b);
    forall m | p <= m < p + |b| ensures s[m] == 0x20 || s[m] == 0x0D { assert s[m] == b[m - p]; }
    hide At;
  }

  lemma {:induction false} NameScan(s: seq<byte>, p: nat, name: seq<byte>, i: nat, e: nat, q: nat)
    requires At(s, p, name) && NameOk(name) && i == p + |name| && s[p..i] == name
    requires p <= q <= e && i < e < |s| && s[i] == 0x22 && s[e] == 0x3A
    requires forall m :: i < m < e ==> s[m] == 0x20 || s[m] == 0x0D
    ensures GetKey(s, p, q) == Some((name, e + 1))
    decreases |s| - q
  {
    if q == e {
      NameStops(s, p, e, i);
    } else {
      SameChars(s, p, name);
      if q < i && name[q - p] == COLON { PassedOver(s, p, name, q - p, false); }
      NameGoesOn(s, p, q);
      NameScan(s, p, name, i, e, q + 1);
    }
    hide Back, IsSkipped, At, GetKey, Covered;
  }

  /** A name, its closing quote, blanks without a line feed, and the colon. */
  lemma NameReads(s: seq<byte>, p: nat, name: seq<byte>, behind: seq<byte>)
    requires At(s, p, name + ([0x22] + (behind + [0x3A]))) && AreNarrow(behind) && NameOk(name)
    ensures p + |name| + 2 + |behind| <= |s| && GetKey(s, p, p) == Some((name, p + |name| + 2 + |behind|))
  {
    hide *;
    AtSplit(s, p, name, [0x22] + (behind + [0x3A]));
    AtSplit(s, p + |name|, [0x22], behind + [0x3A]);
    AtSplit(s, p + |name| + 1, behind, [0x3A]);
    SameChars(s, p + |name|, [0x22]);
    SameChars(s, p + |name| + 1 + |behind|, [0x3A]);
    NarrowAre(s, p + |name| + 1, behind);
    SliceIs(s, p, name);
    NameScan(s, p, name, p + |name|, p + |name| + 1 + |behind|, p);
  }

  // ---------- exactly which names and strings are read back ----------

  /** What is found behind something not covered: nothing, or a quote. */
  lemma {:induction false} BackMisses(s: seq<byte>, p: nat, str: seq<byte>, j: nat, b: nat, enter: bool)
    requires At(s, p, str) && j <= |str| && !Covered(str, j, enter) && 1 <= b && p + j <= |s|
    requires forall m :: j - b < m < j && 0 <= m ==> IsSkipped(str[m], enter)
    ensures var r := Back(s, p, p + j, b, enter); r == 0 || s[p + j - r] == QUOTE
    decreases j + 1 - b
  {
    SameChars(s, p, str);
    if b <= j {
      var c := str[j - b];
      assert s[p + j - b] == c;
      if IsSkipped(c, enter) { BackMisses(s, p, str, j, b + 1, enter); }
    }
    hide At;
  }

  lemma {:induction false} NameCut(s: seq<byte>, p: nat, name: seq<byte>, q: nat, j: nat)
    requires At(s, p, name) && p <= q <= p + j && j < |name| && name[j] == COLON && !Covered(name, j, false)
    ensures q <= |s| && (var g := GetKey(s, p, q); g.None? || |g.value.0| < |name|)
    decreases p + j - q
  {
    SameChars(s, p, name);
    if q < p + j {
      NameCut(s, p, name, q + 1, j);
    } else {
      BackMisses(s, p, name, j, 1, false);
    }
    hide Covered, At;
  }

  lemma {:induction false} StringCut(s: seq<byte>, p: nat, str: seq<byte>, q: nat, j: nat)
    requires At(s, p, str) && p <= q <= p + j && j < |str| && IsEnd(str[j]) && !Covered(str, j, true)
    ensures q <= |s| && (var g := GetString(s, p, q); g.None? || |g.value.0| < |str|)
    decreases p + j - q
  {
    SameChars(s, p, str);
    if q < p + j {
      StringCut(s, p, str, q + 1, j);
    } else {
      BackMisses(s, p, str, j, 1, true);
    }
    hide Covered, At, IsEnd;
  }

  /** A name with a colon behind it is read whole if and only if no colon in it looks like the one behind it. */
  lemma NameReadIff(s: seq<byte>, p: nat, name: seq<byte>, behind: seq<byte>)
    requires At(s, p, name + ([0x22] + (behind + [0x3A]))) && AreNarrow(behind) && p <= |s|
    ensures GetKey(s, p, p) == Some((name, p + |name| + 2 + |behind|)) <==> NameOk(name)
  {
    AtSplit(s, p, name, [0x22] + (behind + [0x3A]));
    if NameOk(name) {
      NameReads(s, p, name, behind);
    } else {
      var j :| 0 <= j < |name| && name[j] == COLON && !Covered(name, j, false);
      NameCut(s, p, name, p, j);
    }
    hide At, Covered, GetKey, AreNarrow;
  }

  /** A string with an end character behind it is read whole if and only if no end character in it looks like that
      one. */
  lemma StringReadIff(s: seq<byte>, p: nat, str: seq<byte>, after: seq<byte>)
    requires At(s, p, str + ([0x22] + after)) && AreBlanks(after)
    requires var e := p + |str| + 1 + |after|; e < |s| && IsClosing(s[e])
    ensures GetString(s, p, p) == Some((str, p + |str| + 1 + |after|)) <==> StringOk(str)
  {
    AtSplit(s, p, str, [0x22] + after);
    if StringOk(str) {
      StringReads(s, p, str, after);
    } else {
      var j :| 0 <= j < |str| && IsEnd(str[j]) && !Covered(str, j, true);
      StringCut(s, p, str, p, j);
    }
    hide At, Covered, GetString, IsEnd, AreBlanks, IsClosing;
  }

  // ---------- numbers ----------

  function Decimal(n: nat): (d: seq<byte>)
    ensures d != []
  {
    if n < 10 then [48 + n] else Decimal(n / 10) + [48 + n % 10]
  }

  lemma {:induction false} DecimalDigits(n: nat)
    ensures AreDigits(Decimal(n)) && Number(Decimal(n)) == n
  {
    if n >= 10 {
      DecimalDigits(n / 10);
      MoreDigits(Decimal(n / 10), 48 + n % 10);
    } else {
      assert [48 + n][..0] == [];
    }
  }

  lemma {:induction false} AllDigitsOnly(d: seq<byte>)
    requires AreDigits(d)
    ensures DigitsOnly(d) == d
    decreases |d|
  {
    if d != [] { AllDigitsOnly(d[1..]); }
  }

  /** Over digits. */
  lemma {:induction false} DigitsOver(s: seq<byte>, p: nat, d: seq<byte>, point: bool)
    requires At(s, p, d) && AreDigits(d)
    ensures p + |d| <= |s| && Digits(s, p, point) == Digits(s, p + |d|, point)
    decreases |d|
  {
    AtInside(s, p, d);
    if d != [] {
      SameChars(s, p, d);
      assert d == [d[0]] + d[1..];
      AtSplit(s, p, [d[0]], d[1..]);
      DigitsOver(s, p + 1, d[1..], point);
    }
    hide At;
  }

  /** A number: an optional minus, digits, and with a point further digits. */
  datatype Numeral = Numeral(minus: bool, digits: seq<byte>, fraction: Option<seq<byte>>)

  predicate NumeralOk(n: Numeral) {
    && AreDigits(n.digits) && (n.fraction.Some? ==> AreDigits(n.fraction.value))
    && (n.minus || n.digits != [] || n.fraction.Some?)
  }

  function NumeralText(n: Numeral): seq<byte> {
    (if n.minus then [0x2D] else []) + (n.digits + PointText(n.fraction))
  }

  function PointText(fraction: Option<seq<byte>>): seq<byte> {
    if fraction.Some? then [0x2E] + fraction.value else []
  }

  /** The number that a numeral without a point stands for; no digits stand for 0. */
  function NumeralValue(n: Numeral): int {
    if n.minus then 0 - Number(n.digits) else Number(n.digits)
  }

  function NumeralNode(n: Numeral): Node {
    if n.fraction.Some? then DoubleNode(NumeralText(n)) else IntNode(NumeralValue(n))
  }

  /** What stands behind a number ends it. */
  predicate IsBreak(c: byte) {
    !(0x30 <= c <= 0x39) && c != 0x2E
  }

  lemma DigitsStop(s: seq<byte>, p: nat, point: bool)
    requires p < |s| && IsBreak(s[p])
    ensures Digits(s, p, point) == Some((p, point))
  {
  }

  lemma DigitsPoint(s: seq<byte>, p: nat)
    requires p < |s| && s[p] == 0x2E
    ensures Digits(s, p, false) == Digits(s, p + 1, true)
  {
  }

  lemma PointIs(f: Option<seq<byte>>)
    ensures PointText(f) == if f.Some? then [0x2E] + f.value else []
  {
  }

  lemma FractionScan(s: seq<byte>, p: nat, f: Option<seq<byte>>)
    requires At(s, p, PointText(f)) && (f.Some? ==> AreDigits(f.value))
    requires var e := p + |PointText(f)|; e < |s| && IsBreak(s[e])
    ensures Digits(s, p, false) == Some((p + |PointText(f)|, f.Some?))
  {
    hide *;
    PointIs(f);
    if f.Some? {
      AtSplit(s, p, [0x2E], f.value);
      SameChars(s, p, [0x2E]);
      DigitsPoint(s, p);
      DigitsOver(s, p + 1, f.value, true);
    }
    DigitsStop(s, p + |PointText(f)|, f.Some?);
  }

  lemma NumeralParts(n: Numeral)
    requires NumeralOk(n)
    ensures AreDigits(n.digits) && (n.fraction.Some? ==> AreDigits(n.fraction.value))
    ensures var w := n.digits + PointText(n.fraction);
      && NumeralText(n) == (if n.minus then [0x2D] else []) + w && (w == [] ==> n.minus)
      && (w != [] ==> 0x30 <= w[0] <= 0x39 || w[0] == 0x2E)
  {
    if n.digits != [] { assert (n.digits + PointText(n.fraction))[0] == n.digits[0]; }
  }

  lemma NumeralFirst(s: seq<byte>, p: nat, n: Numeral)
    requires NumeralOk(n) && At(s, p, NumeralText(n))
    ensures p < |s| && (s[p] == 0x2D || 0x30 <= s[p] <= 0x39 || s[p] == 0x2E) && (n.minus <==> s[p] == 0x2D)
    ensures var w, q := n.digits + PointText(n.fraction), if n.minus then p + 1 else p;
      At(s, q, w) && p + |NumeralText(n)| == q + |w|
  {
    hide *;
    NumeralParts(n);
    var w := n.digits + PointText(n.fraction);
    if n.minus {
      AtSplit(s, p, [0x2D], w);
      SameChars(s, p, [0x2D]);
    } else {
      assert [] + w == w;
      SameChars(s, p, w);
    }
  }

  lemma NumeralScan(s: seq<byte>, p: nat, n: Numeral)
    requires NumeralOk(n) && At(s, p, NumeralText(n))
    requires var e := p + |NumeralText(n)|; e < |s| && IsBreak(s[e])
    ensures p < |s| && (s[p] == 0x2D || 0x30 <= s[p] <= 0x39 || s[p] == 0x2E) && (n.minus <==> s[p] == 0x2D)
    ensures Digits(s, if n.minus then p + 1 else p, false) == Some((p + |NumeralText(n)|, n.fraction.Some?))
  {
    hide *;
    NumeralParts(n);
    NumeralFirst(s, p, n);
    var q := if n.minus then p + 1 else p;
    AtSplit(s, q, n.digits, PointText(n.fraction));
    DigitsOver(s, q, n.digits, false);
    FractionScan(s, q + |n.digits|, n.fraction);
  }

  lemma AtoiIs(n: Numeral)
    requires NumeralOk(n) && n.fraction.None?
    ensures Atoi(NumeralText(n)) == NumeralValue(n)
  {
    AllDigitsOnly(n.digits);
    assert n.digits + [] == n.digits;
    if n.minus {
      assert NumeralText(n)[1..] == n.digits;
    } else {
      assert NumeralText(n) == n.digits;
    }
    hide DigitsOnly, Number;
  }

  /** A number, blanks, and an end character behind them. */
  lemma NumeralRead(s: seq<byte>, p: nat, n: Numeral, after: seq<byte>, nextId: nat)
    requires NumeralOk(n) && At(s, p, NumeralText(n) + after) && AreBlanks(after)
    requires var e := p + |NumeralText(n) + after|; e < |s| && IsClosing(s[e])
    ensures p <= |s| && GetValue(s, p, nextId) == Some((NumeralNode(n), p + |NumeralText(n) + after|))
  {
    hide *;
    var w := NumeralText(n);
    AtSplit(s, p, w, after);
    Breaks(s, p + |w|, after);
    NumeralScan(s, p, n);
    EndRead(s, p + |w|, after);
    if n.fraction.None? { AtoiIs(n); }
    NumberFirst(s, p, nextId);
    NumberIs(s, p, n);
    NodeIs(n);
    SliceIs(s, p, w);
  }

  lemma NodeIs(n: Numeral)
    ensures NumeralNode(n) == if n.fraction.Some? then DoubleNode(NumeralText(n)) else IntNode(NumeralValue(n))
  {
    hide NumeralText, NumeralValue;
  }

  lemma Breaks(s: seq<byte>, p: nat, after: seq<byte>)
    requires At(s, p, after) && AreBlanks(after) && p + |after| < |s| && IsClosing(s[p + |after|])
    ensures p < |s| && IsBreak(s[p])
  {
    if after != [] { SameChars(s, p, after); }
  }

  lemma NumberFirst(s: seq<byte>, p: nat, nextId: nat)
    requires p < |s| && (s[p] == 0x2D || 0x30 <= s[p] <= 0x39 || s[p] == 0x2E)
    ensures GetValue(s, p, nextId) == GetNumber(s, p)
  {
    hide GetNumber, GetString;
  }

  lemma NumberIs(s: seq<byte>, p: nat, n: Numeral)
    requires p < |s| && (n.minus <==> s[p] == 0x2D)
    requires Digits(s, if n.minus then p + 1 else p, false).Some?
    ensures var d := Digits(s, if n.minus then p + 1 else p, false).value;
      && p <= d.0 < |s|
      && GetNumber(s, p) ==
        var e := ToEnd(s, d.0);
        if e.None? then None
        else Some((if d.1 then DoubleNode(s[p..d.0]) else IntNode(Atoi(s[p..d.0])), e.value))
  {
    hide Digits, Atoi, ToEnd;
  }

  // ---------- other values ----------

  /** The spellings of a truth value. */
  function BoolText(b: bool, upper: bool): seq<byte> {
    if b then (if upper then [0x54, 0x52, 0x55, 0x45] else [0x74, 0x72, 0x75, 0x65])
    else if upper then [0x46, 0x41, 0x4C, 0x53, 0x45] else [0x66, 0x61, 0x6C, 0x73, 0x65]
  }

  lemma BoolRead(s: seq<byte>, p: nat, b: bool, upper: bool, after: seq<byte>, nextId: nat)
    requires At(s, p, BoolText(b, upper) + after) && AreBlanks(after)
    requires var e := p + |BoolText(b, upper) + after|; e < |s| && IsClosing(s[e])
    ensures p <= |s| && GetValue(s, p, nextId) == Some((BoolNode(b), p + |BoolText(b, upper) + after|))
  {
    var w := BoolText(b, upper);
    AtSplit(s, p, w, after);
    SameChars(s, p, w);
    assert s[p..p + |w|] == w;
    EndRead(s, p + |w|, after);
    BoolIs(s, p, b, upper, nextId);
    hide ToEnd, GetBool, GetValue, At, AreBlanks;
    GetBoolIs(s, p, b, upper);
  }

  lemma BoolIs(s: seq<byte>, p: nat, b: bool, upper: bool, nextId: nat)
    requires p < |s| && s[p] == BoolText(b, upper)[0]
    ensures GetValue(s, p, nextId)
      == if b then GetBool(s, p, TRUES, 4, true) else GetBool(s, p, FALSES, 5, false)
  {
    hide GetBool, GetString, GetNumber;
  }

  lemma GetBoolIs(s: seq<byte>, p: nat, b: bool, upper: bool)
    requires var w := BoolText(b, upper); p + |w| < |s| && s[p..p + |w|] == w && ToEnd(s, p + |w|).Some?
    ensures (if b then GetBool(s, p, TRUES, 4, true) else GetBool(s, p, FALSES, 5, false))
      == Some((BoolNode(b), ToEnd(s, p + |BoolText(b, upper)|).value))
  {
    hide ToEnd;
    var w := BoolText(b, upper);
    assert if b then |w| == 4 && w in TRUES else |w| == 5 && w in FALSES;
  }

  lemma StringRead(s: seq<byte>, p: nat, str: seq<byte>, after: seq<byte>, nextId: nat)
    requires At(s, p, [0x22] + (str + ([0x22] + after))) && AreBlanks(after) && StringOk(str)
    requires var e := p + |str| + 2 + |after|; e < |s| && IsClosing(s[e])
    ensures p <= |s| && GetValue(s, p, nextId) == Some((StrNode(str), p + |str| + 2 + |after|))
  {
    AtSplit(s, p, [0x22], str + ([0x22] + after));
    SameChars(s, p, [0x22]);
    StringReads(s, p + 1, str, after);
    hide GetString, StringOk, At, AreBlanks, IsClosing;
  }
}
