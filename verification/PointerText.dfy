/** The two textual forms of a JSON pointer, section 3 and section 6 of RFC 6901: what Parse makes of a text, what
    Stringify makes of names, and that the one undoes the other. */
module PointerText {
  import opened Bytes
  import opened Options
  import opened Texts
  import opened Utf8


  datatype ErrorCode = TokenMustBeginWithSolidus | InvalidEscape | InvalidPercentEncoding | CharacterMustPercentEncode

  datatype Parsed<T> = Parsed(value: T, end: nat) | Wrong(code: ErrorCode, offset: nat)

  const INVALID_INDEX: nat := 0xFFFF_FFFF // kPointerInvalidIndex

  datatype Token = Token(name: seq<byte>, index: nat)

  // ---------- the index of a name ----------

  /** The conversion to SizeType: it wraps, and notices a wrap only where the result has become smaller. */
  function Fold(name: seq<byte>, j: nat, n: nat): nat
    requires j <= |name| && forall i :: j <= i < |name| ==> ZERO <= name[i]
    decreases |name| - j
  {
    if j == |name| then n
    else
      var m := (n * 10 + (name[j] - 48)) % 0x1_0000_0000;
      if m < n then INVALID_INDEX else Fold(name, j + 1, m)
  }

  predicate AllDigits(name: seq<byte>) {
    forall i :: 0 <= i < |name| ==> ZERO <= name[i] <= NINE
  }

  function IndexOf(name: seq<byte>): nat {
    if name == [] || !AllDigits(name) || (|name| > 1 && name[0] == ZERO) then INVALID_INDEX else Fold(name, 0, 0)
  }

  // ---------- Parse ----------

  /** NeedPercentEncode. */
  predicate NeedsPercent(c: byte) {
    !(ZERO <= c <= NINE || 65 <= c <= 90 || 97 <= c <= 122 || c == 45 || c == 46 || c == 95 || c == TILDE)
  }

  /** A %XY triplet at i. */
  function Triplet(s: seq<byte>, i: nat): Option<byte> {
    if i + 3 <= |s| && s[i] == PERCENT && HexDigit(s[i + 1]) < 16 && HexDigit(s[i + 2]) < 16 then
      Some(16 * HexDigit(s[i + 1]) + HexDigit(s[i + 2]))
    else None
  }

  /** The bytes of the triplets from i on. */
  function Triplets(s: seq<byte>, i: nat): (d: seq<byte>)
    ensures i <= |s| ==> i + 3 * |d| <= |s|
    decreases |s| - i
  {
    var t := Triplet(s, i);
    if t.None? then [] else [t.value] + Triplets(s, i + 3)
  }

  /** A percent-encoded UTF-8 sequence at i. */
  function Sequence(s: seq<byte>, i: nat): (r: Parsed<seq<byte>>)
    requires i <= |s|
    ensures r.Parsed? ==> r.value != [] && r.end == i + 3 * |r.value| <= |s|
  {
    var d := Triplets(s, i);
    var v := Validate(d, 0);
    if v.ok && v.taken <= |d| then Parsed(d[..v.taken], i + 3 * v.taken) else Wrong(InvalidPercentEncoding, i)
  }

  /** A character c that ends at i, or the escape it begins. */
  function Unescaped(s: seq<byte>, c: byte, i: nat): (r: Parsed<seq<byte>>)
    requires i <= |s|
    ensures r.Parsed? ==> |r.value| == 1 && i <= r.end <= |s|
  {
    if c != TILDE then Parsed([c], i)
    else if i >= |s| then Wrong(InvalidEscape, i)
    else if s[i] == ZERO then Parsed([TILDE], i + 1)
    else if s[i] == ONE then Parsed([SLASH], i + 1)
    else Wrong(InvalidEscape, i)
  }

  /** One turn of the loop over a name. */
  function Piece(s: seq<byte>, i: nat, uri: bool): (r: Parsed<seq<byte>>)
    requires i < |s|
    ensures r.Parsed? ==> r.value != [] && i + |r.value| <= r.end <= |s|
  {
    if uri && s[i] == PERCENT then
      var q := Sequence(s, i);
      if q.Wrong? || |q.value| > 1 then q else Unescaped(s, q.value[0], q.end)
    else if uri && NeedsPercent(s[i]) then Wrong(CharacterMustPercentEncode, i)
    else Unescaped(s, s[i], i + 1)
  }

  /** A name from i up to the next solidus or the end. */
  function Name(s: seq<byte>, i: nat, uri: bool): (r: Parsed<seq<byte>>)
    requires i <= |s|
    ensures r.Parsed? ==> i + |r.value| <= r.end <= |s| && (r.end < |s| ==> s[r.end] == SLASH)
    decreases |s| - i
  {
    if i == |s| || s[i] == SLASH then Parsed([], i)
    else
      var p := Piece(s, i, uri);
      if p.Wrong? then p
      else
        var rest := Name(s, p.end, uri);
        if rest.Wrong? then rest else Parsed(p.value + rest.value, rest.end)
  }

  function Names(s: seq<byte>, i: nat, uri: bool): (r: Parsed<seq<Token>>)
    requires i <= |s| && (i < |s| ==> s[i] == SLASH)
    decreases |s| - i
  {
    if i == |s| then Parsed([], i)
    else
      var n := Name(s, i + 1, uri);
      if n.Wrong? then Wrong(n.code, n.offset)
      else
        var rest := Names(s, n.end, uri);
        if rest.Wrong? then rest else Parsed([Token(n.value, IndexOf(n.value))] + rest.value, rest.end)
  }

  predicate IsFragment(s: seq<byte>) {
    Peek(s, 0) == HASH
  }

  /** Parse: the tokens of a text in either form. */
  function Pointer(s: seq<byte>): Parsed<seq<Token>> {
    var i := if IsFragment(s) then 1 else 0;
    if i < |s| && s[i] != SLASH then Wrong(TokenMustBeginWithSolidus, i) else Names(s, i, IsFragment(s))
  }

  // ---------- Stringify ----------

  function Percents(u: seq<byte>): seq<byte> {
    if u == [] then [] else [PERCENT, HexChar(u[0] / 16), HexChar(u[0] % 16)] + Percents(u[1..])
  }

  /** A name as written, from j on; None where it is not UTF-8. */
  function Written(name: seq<byte>, j: nat, uri: bool): (r: Option<seq<byte>>)
    requires j <= |name|
    decreases |name| - j
  {
    if j == |name| then Some([])
    else
      var c := name[j];
      if c == TILDE then Behind([TILDE, ZERO], Written(name, j + 1, uri))
      else if c == SLASH then Behind([TILDE, ONE], Written(name, j + 1, uri))
      else if uri && NeedsPercent(c) then
        var v := Validate(name, j);
        if v.ok && j + v.taken <= |name| then Behind(Percents(name[j..j + v.taken]), Written(name, j + v.taken, uri))
          else None
      else Behind([c], Written(name, j + 1, uri))
  }

  function Behind(d: seq<byte>, rest: Option<seq<byte>>): Option<seq<byte>> {
    if rest.None? then None else Some(d + rest.value)
  }

  function AllWritten(names: seq<seq<byte>>, uri: bool): Option<seq<byte>>
    decreases |names|
  {
    if names == [] then Some([])
    else
      var n := Written(names[0], 0, uri);
      if n.None? then None else Behind([SLASH] + n.value, AllWritten(names[1..], uri))
  }

  function Stringified(names: seq<seq<byte>>, uri: bool): Option<seq<byte>> {
    Behind(if uri then [HASH] else [], AllWritten(names, uri))
  }

  // ---------- the round trip ----------

  lemma {:induction false} TripletsOf(s: seq<byte>, p: nat, u: seq<byte>)
    requires At(s, p, Percents(u))
    ensures |Percents(u)| == 3 * |u| && u <= Triplets(s, p)
    decreases |u|
  {
    if u != [] {
      var t := [PERCENT, HexChar(u[0] / 16), HexChar(u[0] % 16)];
      AtSplit(s, p, t, Percents(u[1..]));
      AtPeek(s, p, t, 0);
      AtPeek(s, p, t, 1);
      AtPeek(s, p, t, 2);
      AtInside(s, p, t);
      HexBack(u[0] / 16);
      HexBack(u[0] % 16);
      assert Triplet(s, p) == Some(u[0]);
      TripletsOf(s, p + 3, u[1..]);
      hide Triplet, HexChar, At;
    }
  }

  lemma SequenceIf(s: seq<byte>, i: nat, u: seq<byte>)
    requires i <= |s| && u != [] && u <= Triplets(s, i) && Validate(Triplets(s, i), 0) == Checked(true, |u|)
    ensures Sequence(s, i) == Parsed(u, i + 3 * |u|)
  {
    assert Triplets(s, i)[..|u|] == u;
    hide Triplets, Validate;
  }

  lemma PrefixAt(d: seq<byte>, u: seq<byte>)
    requires u <= d
    ensures At(d, 0, u)
  {
  }

  lemma PercentsHead(u: seq<byte>)
    requires u != []
    ensures |Percents(u)| >= 3 && Percents(u)[0] == PERCENT
  {
  }

  lemma CharacterNotEmpty(u: seq<byte>)
    requires IsCharacter(u)
    ensures u != []
  {
  }

  /** A percent-encoded character reads back. */
  lemma SequenceReads(s: seq<byte>, p: nat, u: seq<byte>)
    requires At(s, p, Percents(u)) && IsCharacter(u)
    ensures p + 3 * |u| <= |s| && Sequence(s, p) == Parsed(u, p + 3 * |u|)
    ensures p < |s| && Peek(s, p) == PERCENT
  {
    hide *;
    CharacterNotEmpty(u);
    TripletsOf(s, p, u);
    AtInside(s, p, Percents(u));
    PercentsHead(u);
    AtPeek(s, p, Percents(u), 0);
    PrefixAt(Triplets(s, p), u);
    ValidateCharacter(Triplets(s, p), 0, u);
    SequenceIf(s, p, u);
  }

  lemma PieceOfSequence(s: seq<byte>, p: nat, u: seq<byte>, end: nat)
    requires p < |s| && Peek(s, p) == PERCENT && u != [] && u[0] != TILDE && Sequence(s, p) == Parsed(u, end)
    ensures s[p] != SLASH && Piece(s, p, true) == Parsed(u, end)
  {
    assert |u| == 1 ==> u == [u[0]];
    hide Sequence;
  }

  /** What the first characters of a name from j on are written as, and how many they are. */
  function Chunk(name: seq<byte>, j: nat, uri: bool): (seq<byte>, nat)
    requires j < |name|
  {
    var c := name[j];
    if c == TILDE then ([TILDE, ZERO], 1)
    else if c == SLASH then ([TILDE, ONE], 1)
    else if uri && NeedsPercent(c) then
      var n := Validate(name, j).taken;
      if j + n <= |name| then (Percents(name[j..j + n]), n) else ([], 1)
    else ([c], 1)
  }

  lemma ChunkIs(name: seq<byte>, j: nat, uri: bool)
    requires j < |name| && Written(name, j, uri).Some?
    ensures var (d, n) := Chunk(name, j, uri);
      && 1 <= n && j + n <= |name| && Written(name, j + n, uri).Some?
      && Written(name, j, uri).value == d + Written(name, j + n, uri).value
      && name[j..] == name[j..j + n] + name[j + n..]
  {
    hide Percents, Validate, NeedsPercent;
  }

  /** An escaped solidus or tilde reads back. */
  lemma EscapeReads(s: seq<byte>, p: nat, c: byte, uri: bool)
    requires c == TILDE || c == SLASH
    requires At(s, p, if c == TILDE then [TILDE, ZERO] else [TILDE, ONE])
    ensures p + 2 <= |s| && s[p] != SLASH && Piece(s, p, uri) == Parsed([c], p + 2)
  {
    var d := if c == TILDE then [TILDE, ZERO] else [TILDE, ONE];
    AtPeek(s, p, d, 0);
    AtPeek(s, p, d, 1);
    AtInside(s, p, d);
    hide Sequence, At;
  }

  lemma PlainReads(s: seq<byte>, p: nat, c: byte, uri: bool)
    requires c != TILDE && c != SLASH && !(uri && NeedsPercent(c)) && At(s, p, [c])
    ensures p < |s| && s[p] == c && Piece(s, p, uri) == Parsed([c], p + 1)
  {
    AtPeek(s, p, [c], 0);
    AtInside(s, p, [c]);
    assert NeedsPercent(PERCENT);
    hide Sequence, At;
  }

  lemma EncodedReads(s: seq<byte>, p: nat, u: seq<byte>)
    requires At(s, p, Percents(u)) && IsCharacter(u) && u[0] != TILDE
    ensures |Percents(u)| == 3 * |u| && p + |Percents(u)| <= |s| && p < |s| && s[p] != SLASH
    ensures Piece(s, p, true) == Parsed(u, p + |Percents(u)|)
  {
    hide *;
    CharacterNotEmpty(u);
    TripletsOf(s, p, u);
    SequenceReads(s, p, u);
    PieceOfSequence(s, p, u, p + 3 * |u|);
  }

  /** A chunk of a written name reads back. */
  lemma ChunkReads(s: seq<byte>, p: nat, name: seq<byte>, j: nat, uri: bool)
    requires j < |name| && Written(name, j, uri).Some? && At(s, p, Chunk(name, j, uri).0)
    ensures var (d, n) := Chunk(name, j, uri);
      && p + |d| <= |s| && p < |s| && s[p] != SLASH
      && j + n <= |name| && Piece(s, p, uri) == Parsed(name[j..j + n], p + |d|)
  {
    var c := name[j];
    assert name[j..j + 1] == [c];
    if c == TILDE || c == SLASH {
      EscapeReads(s, p, c, uri);
    } else if uri && NeedsPercent(c) {
      var n := Validate(name, j).taken;
      ValidateIsGrammar(name, j, n);
      hide Validate, Percents, IsCharacter, NeedsPercent, Piece;
      EncodedReads(s, p, name[j..j + n]);
    } else {
      PlainReads(s, p, c, uri);
    }
    hide Validate, Percents, IsCharacter, NeedsPercent, Piece, Written;
  }

  lemma NameStep(s: seq<byte>, p: nat, uri: bool, d: seq<byte>, e: nat, rest: seq<byte>, end: nat)
    requires p < |s| && s[p] != SLASH && e <= |s| && Piece(s, p, uri) == Parsed(d, e)
      && Name(s, e, uri) == Parsed(rest, end)
    ensures Name(s, p, uri) == Parsed(d + rest, end)
  {
    hide Piece;
  }

  lemma NameEnd(s: seq<byte>, p: nat, name: seq<byte>, uri: bool)
    requires p <= |s| && (p < |s| ==> s[p] == SLASH)
    ensures Name(s, p, uri) == Parsed([], p) && Written(name, |name|, uri) == Some([]) && name[|name|..] == []
  {
  }

  /** A name as written reads back, wherever it stands, up to the solidus or the end behind it. */
  lemma {:induction false} NameReads(s: seq<byte>, p: nat, name: seq<byte>, j: nat, uri: bool)
    requires j <= |name| && Written(name, j, uri).Some?
    requires var w := Written(name, j, uri).value; At(s, p, w) && (p + |w| < |s| ==> s[p + |w|] == SLASH)
    ensures p <= |s| && Name(s, p, uri) == Parsed(name[j..], p + |Written(name, j, uri).value|)
    decreases |name| - j
  {
    hide *;
    AtInside(s, p, Written(name, j, uri).value);
    if j == |name| {
      WrittenNone(name, uri);
      NameEnd(s, p, name, uri);
    } else {
      var (d, n) := Chunk(name, j, uri);
      ChunkIs(name, j, uri);
      AtSplit(s, p, d, Written(name, j + n, uri).value);
      ChunkReads(s, p, name, j, uri);
      NameReads(s, p + |d|, name, j + n, uri);
      NameStep(s, p, uri, name[j..j + n], p + |d|, name[j + n..], p + |Written(name, j, uri).value|);
    }
  }

  lemma WrittenNone(name: seq<byte>, uri: bool)
    ensures Written(name, |name|, uri) == Some([])
  {
  }

  /** The tokens that names make. */
  function TokensOf(names: seq<seq<byte>>): (t: seq<Token>)
    ensures |t| == |names|
  {
    if names == [] then [] else [Token(names[0], IndexOf(names[0]))] + TokensOf(names[1..])
  }

  lemma AllWrittenIs(names: seq<seq<byte>>, uri: bool)
    requires names != [] && AllWritten(names, uri).Some?
    ensures Written(names[0], 0, uri).Some? && AllWritten(names[1..], uri).Some?
    ensures var w, rest := Written(names[0], 0, uri).value, AllWritten(names[1..], uri).value;
      AllWritten(names, uri).value == [SLASH] + (w + rest) && (rest != [] ==> rest[0] == SLASH)
  {
    hide Written;
    var w, rest := Written(names[0], 0, uri).value, AllWritten(names[1..], uri).value;
    assert AllWritten(names, uri).value == [SLASH] + w + rest;
    if rest != [] { BeginsWithSlash(names[1..], uri); }
    hide *;
    Joined([SLASH], w, rest);
  }

  lemma BeginsWithSlash(names: seq<seq<byte>>, uri: bool)
    requires AllWritten(names, uri).Some? && AllWritten(names, uri).value != []
    ensures AllWritten(names, uri).value[0] == SLASH
  {
    hide Written;
  }

  lemma Joined(a: seq<byte>, b: seq<byte>, c: seq<byte>)
    ensures a + b + c == a + (b + c)
  {
  }

  lemma NamesStep(s: seq<byte>, p: nat, uri: bool, name: seq<byte>, e: nat, rest: seq<Token>, end: nat)
    requires p < |s| && s[p] == SLASH && e <= |s| && (e < |s| ==> s[e] == SLASH)
    requires Name(s, p + 1, uri) == Parsed(name, e) && Names(s, e, uri) == Parsed(rest, end)
    ensures Names(s, p, uri) == Parsed([Token(name, IndexOf(name))] + rest, end)
  {
    hide Name, IndexOf;
  }

  lemma AtEnd(s: seq<byte>, p: nat, d: seq<byte>, e: seq<byte>)
    requires At(s, p, d + e) && p + |d + e| == |s|
    ensures At(s, p, d) && At(s, p + |d|, e) && p + |d| <= |s|
    ensures e != [] ==> p + |d| < |s| && s[p + |d|] == e[0]
    ensures e == [] ==> p + |d| == |s|
    ensures d != [] ==> p < |s| && s[p] == d[0]
  {
    AtSplit(s, p, d, e);
    if e != [] { AtPeek(s, p + |d|, e, 0); }
    if d != [] { AtPeek(s, p, d, 0); }
  }

  lemma {:induction false} NamesRead(s: seq<byte>, p: nat, names: seq<seq<byte>>, uri: bool)
    requires AllWritten(names, uri).Some?
    requires var w := AllWritten(names, uri).value; At(s, p, w) && p + |w| == |s|
    ensures p <= |s| && (p < |s| ==> s[p] == SLASH)
    ensures Names(s, p, uri) == Parsed(TokensOf(names), |s|)
    decreases |names|
  {
    hide *;
    if names == [] {
      NamesNone(s, p, uri);
    } else {
      AllWrittenIs(names, uri);
      var w, rest := Written(names[0], 0, uri).value, AllWritten(names[1..], uri).value;
      AtEnd(s, p, [SLASH], w + rest);
      AtEnd(s, p + 1, w, rest);
      assert names[0][0..] == names[0];
      NameReads(s, p + 1, names[0], 0, uri);
      NamesRead(s, p + 1 + |w|, names[1..], uri);
      NamesStep(s, p, uri, names[0], p + 1 + |w|, TokensOf(names[1..]), |s|);
      TokensFirst(names);
    }
  }

  lemma NamesNone(s: seq<byte>, p: nat, uri: bool)
    ensures AllWritten([], uri) == Some([]) && TokensOf([]) == []
    ensures p == |s| ==> Names(s, p, uri) == Parsed([], p)
  {
  }

  lemma TokensFirst(names: seq<seq<byte>>)
    requires names != []
    ensures TokensOf(names) == [Token(names[0], IndexOf(names[0]))] + TokensOf(names[1..])
  {
    hide IndexOf;
  }

  /** Whatever the names, what Stringify writes for them in either form, Parse reads back as them, each with its
      index. */
  lemma StringifiedParses(names: seq<seq<byte>>, uri: bool)
    requires Stringified(names, uri).Some?
    ensures var s := Stringified(names, uri).value; Pointer(s) == Parsed(TokensOf(names), |s|)
  {
    assert AllWritten(names, uri).Some?;
    var h, w := if uri then [HASH] else [], AllWritten(names, uri).value;
    var s := h + w;
    assert At(s, |h|, w);
    FirstWritten(names, uri);
    hide AllWritten, At, TokensOf, Names;
    NamesRead(s, |h|, names, uri);
  }

  lemma FirstWritten(names: seq<seq<byte>>, uri: bool)
    requires AllWritten(names, uri).Some?
    ensures var w := AllWritten(names, uri).value; w != [] ==> w[0] == SLASH
  {
    if names != [] { AllWrittenIs(names, uri); }
    hide Written;
  }

  // ---------- pointers that Parse accepts ----------

  function NamesOf(t: seq<Token>): (names: seq<seq<byte>>)
    ensures |names| == |t|
  {
    if t == [] then [] else [t[0].name] + NamesOf(t[1..])
  }

  /** The index of a parsed token is that of its name. */
  lemma {:induction false} ParsedIndexes(s: seq<byte>, i: nat, uri: bool)
    requires i <= |s| && (i < |s| ==> s[i] == SLASH) && Names(s, i, uri).Parsed?
    ensures TokensOf(NamesOf(Names(s, i, uri).value)) == Names(s, i, uri).value
    decreases |s| - i
  {
    if i < |s| {
      ParsedIndexes(s, Name(s, i + 1, uri).end, uri);
      var n, rest := Name(s, i + 1, uri), Names(s, Name(s, i + 1, uri).end, uri).value;
      var t := Names(s, i, uri).value;
      assert t[0] == Token(n.value, IndexOf(n.value)) && t[1..] == rest;
      hide Name, IndexOf;
    }
  }

  lemma {:induction false} StringFormExists(name: seq<byte>, j: nat)
    requires j <= |name|
    ensures Written(name, j, false).Some?
    decreases |name| - j
  {
    if j < |name| { StringFormExists(name, j + 1); }
  }

  lemma {:induction false} StringFormsExist(names: seq<seq<byte>>)
    ensures AllWritten(names, false).Some?
    decreases |names|
  {
    if names != [] {
      StringFormExists(names[0], 0);
      StringFormsExist(names[1..]);
      hide Written;
    }
  }

  /** For every pointer Parse accepts, in whichever form it came: the string form can be written and reads back as an
      equal pointer, and so does the URI fragment form where it can be written. Equal means the same names and
      indexes. */
  lemma RoundTrip(s: seq<byte>)
    requires Pointer(s).Parsed?
    ensures var t := Pointer(s).value; var names := NamesOf(t);
      && Stringified(names, false).Some? && Pointer(Stringified(names, false).value).Parsed?
      && Pointer(Stringified(names, false).value).value == t
      && (Stringified(names, true).Some? ==>
            Pointer(Stringified(names, true).value).Parsed? && Pointer(Stringified(names, true).value).value == t)
  {
    var t := Pointer(s).value;
    var names := NamesOf(t);
    ParsedIndexes(s, if IsFragment(s) then 1 else 0, IsFragment(s));
    StringFormsExist(names);
    assert Stringified(names, false).Some?;
    hide *;
    StringifiedParses(names, false);
    if Stringified(names, true).Some? { StringifiedParses(names, true); }
  }

  // ---------- when the URI fragment form can be written ----------

  /** A sequence of characters of section 4 of RFC 3629. */
  ghost predicate IsUtf8(u: seq<byte>)
    decreases |u|
  {
    u == [] || exists n :: 1 <= n <= |u| && IsCharacter(u[..n]) && IsUtf8(u[n..])
  }

  lemma {:induction false} WrittenIsUtf8(name: seq<byte>, j: nat)
    requires j <= |name| && Written(name, j, true).Some?
    ensures IsUtf8(name[j..])
    decreases |name| - j
  {
    if j < |name| {
      var c, u := name[j], name[j..];
      var n := if c == TILDE || c == SLASH || !NeedsPercent(c) then 1 else Validate(name, j).taken;
      assert u[..n] == name[j..j + n] && u[n..] == name[j + n..];
      if n == 1 && c < 0x80 {
        assert IsCharacter(u[..1]);
      } else {
        ValidateIsGrammar(name, j, n);
      }
      WrittenIsUtf8(name, j + n);
      hide Validate, IsCharacter, Percents;
      assert IsCharacter(u[..n]) && IsUtf8(u[n..]);
    }
  }

  lemma {:induction false} Utf8IsWritten(name: seq<byte>, j: nat)
    requires j <= |name| && IsUtf8(name[j..])
    ensures Written(name, j, true).Some?
    decreases |name| - j
  {
    hide *;
    if j < |name| {
      var u := name[j..];
      var n := Utf8Front(u);
      assert u[..n] == name[j..j + n] && u[n..] == name[j + n..];
      ValidateIsGrammar(name, j, n);
      AsciiAlone(u[..n], name, j);
      Utf8IsWritten(name, j + n);
      WrittenOn(name, j, n);
    } else {
      WrittenEnds(name);
    }
  }

  lemma Utf8Front(u: seq<byte>) returns (n: nat)
    requires u != [] && IsUtf8(u)
    ensures 1 <= n <= |u| && IsCharacter(u[..n]) && IsUtf8(u[n..])
  {
    n :| 1 <= n <= |u| && IsCharacter(u[..n]) && IsUtf8(u[n..]);
    hide IsCharacter;
  }

  lemma WrittenEnds(name: seq<byte>)
    ensures Written(name, |name|, true).Some?
  {
  }

  lemma WrittenOn(name: seq<byte>, j: nat, n: nat)
    requires j < |name| && 1 <= n && j + n <= |name| && Validate(name, j) == Checked(true, n)
    requires name[j] == TILDE || name[j] == SLASH || !NeedsPercent(name[j]) ==> n == 1
    requires Written(name, j + n, true).Some?
    ensures Written(name, j, true).Some?
  {
    hide Validate, Percents, NeedsPercent;
  }

  /** What stands for itself, or is escaped with a tilde, is a character of one byte. */
  lemma AsciiAlone(u: seq<byte>, name: seq<byte>, j: nat)
    requires j < |name| && IsCharacter(u) && u[0] == name[j]
    ensures name[j] == TILDE || name[j] == SLASH || !NeedsPercent(name[j]) ==> |u| == 1
  {
  }

  lemma {:induction false} UriFormExists(names: seq<seq<byte>>)
    ensures Stringified(names, true).Some? <==> forall i :: 0 <= i < |names| ==> IsUtf8(names[i])
    decreases |names|
  {
    if names != [] {
      UriFormExists(names[1..]);
      assert names[0][0..] == names[0];
      if Written(names[0], 0, true).Some? { WrittenIsUtf8(names[0], 0); }
      if IsUtf8(names[0]) { Utf8IsWritten(names[0], 0); }
      hide Written, IsUtf8;
      assert forall i :: 1 <= i < |names| ==> names[i] == names[1..][i - 1];
    }
  }
}
