/** JSON pointers piece by piece, after sections 3, 4 and 6 of RFC 6901 and section 2 of RFC 3986; that Parse takes
    exactly these, where it refuses others, and what Stringify writes. */
module PointerForms {
  import opened Bytes
  import opened Options
  import opened Texts
  import opened Utf8
  import opened PointerText

  /** The unreserved characters: letters, digits, '-', '.', '_' and '~'. */
  predicate IsUnreserved(c: byte) {
    0x41 <= c <= 0x5A || 0x61 <= c <= 0x7A || 0x30 <= c <= 0x39 || c == 0x2D || c == 0x2E || c == 0x5F || c == 0x7E
  }

  /** A percent-encoded byte by its two digits. */
  datatype Octet = Octet(high: byte, low: byte)

  /** A character that stands for itself, a tilde in some form and the digit behind it, and a percent-encoded
      character. */
  datatype Atom = Self(c: byte) | Escape(tilde: seq<byte>, digit: byte) | Encoded(octets: seq<Octet>)

  predicate OctetsOk(h: seq<Octet>) {
    forall i :: 0 <= i < |h| ==> IsHex(h[i].high) && IsHex(h[i].low)
  }

  function OctetsText(h: seq<Octet>): seq<byte> {
    if h == [] then [] else [0x25, h[0].high, h[0].low] + OctetsText(h[1..])
  }

  function OctetsBytes(h: seq<Octet>): seq<byte>
    requires OctetsOk(h)
  {
    if h == [] then [] else [HexValue(h[0].high) * 16 + HexValue(h[0].low)] + OctetsBytes(h[1..])
  }

  /** A tilde, as such or percent-encoded in a fragment. */
  predicate IsTilde(uri: bool, t: seq<byte>) {
    t == [0x7E] || (uri && (t == [0x25, 0x37, 0x45] || t == [0x25, 0x37, 0x65]))
  }

  predicate AtomOk(uri: bool, a: Atom) {
    match a
    case Self(c) => c != 0x2F && c != 0x7E && (uri ==> IsUnreserved(c))
    case Escape(t, d) => IsTilde(uri, t) && (d == 0x30 || d == 0x31)
    case Encoded(h) => uri && OctetsOk(h) && IsCharacter(OctetsBytes(h)) && OctetsBytes(h) != [0x7E]
  }

  function AtomText(a: Atom): seq<byte> {
    match a
    case Self(c) => [c]
    case Escape(t, d) => t + [d]
    case Encoded(h) => OctetsText(h)
  }

  /** ~0 stands for a tilde, and ~1 for a solidus. */
  function AtomBytes(a: Atom): seq<byte> {
    match a
    case Self(c) => [c]
    case Escape(_, d) => if d == 0x30 then [0x7E] else [0x2F]
    case Encoded(h) => if OctetsOk(h) then OctetsBytes(h) else []
  }

  predicate AtomsOk(uri: bool, atoms: seq<Atom>) {
    forall i :: 0 <= i < |atoms| ==> AtomOk(uri, atoms[i])
  }

  function AtomsText(atoms: seq<Atom>): seq<byte> {
    if atoms == [] then [] else AtomText(atoms[0]) + AtomsText(atoms[1..])
  }

  function AtomsBytes(atoms: seq<Atom>): seq<byte> {
    if atoms == [] then [] else AtomBytes(atoms[0]) + AtomsBytes(atoms[1..])
  }

  /** No name can go on at q, and how that is reported. */
  ghost predicate IsStuck(s: seq<byte>, uri: bool, q: nat, code: ErrorCode, offset: nat) {
    && q < |s| && s[q] != 0x2F
    && match code
       case InvalidPercentEncoding => uri && s[q] == 0x25 && offset == q && !HasCharacter(s, q)
       case CharacterMustPercentEncode => uri && s[q] != 0x25 && !IsUnreserved(s[q]) && offset == q
       case InvalidEscape => HasOpenTilde(s, uri, q, offset)
       case TokenMustBeginWithSolidus => false
  }

  ghost predicate HasCharacter(s: seq<byte>, q: nat) {
    exists h :: IsEncoded(h) && At(s, q, OctetsText(h))
  }

  predicate IsEncoded(h: seq<Octet>) {
    OctetsOk(h) && IsCharacter(OctetsBytes(h))
  }

  /** At q stands a tilde, and behind it no 0 or 1. */
  ghost predicate HasOpenTilde(s: seq<byte>, uri: bool, q: nat, offset: nat) {
    exists t :: IsTilde(uri, t) && At(s, q, t) && offset == q + |t| && Peek(s, offset) != 0x30
      && Peek(s, offset) != 0x31
  }

  // ---------- octets ----------

  lemma {:induction false} TripletsRead(s: seq<byte>, p: nat, h: seq<Octet>)
    requires OctetsOk(h) && At(s, p, OctetsText(h))
    ensures |OctetsText(h)| == 3 * |h| && |OctetsBytes(h)| == |h| && OctetsBytes(h) <= Triplets(s, p)
    decreases |h|
  {
    if h != [] {
      OctetRead(s, p, h[0], OctetsText(h[1..]));
      TripletsRead(s, p + 3, h[1..]);
      hide Triplet, At;
    }
  }

  lemma OctetRead(s: seq<byte>, p: nat, o: Octet, rest: seq<byte>)
    requires IsHex(o.high) && IsHex(o.low) && At(s, p, [0x25, o.high, o.low] + rest)
    ensures Triplet(s, p) == Some(HexValue(o.high) * 16 + HexValue(o.low)) && At(s, p + 3, rest)
  {
    var t := [0x25, o.high, o.low];
    AtSplit(s, p, t, rest);
    AtPeek(s, p, t, 0);
    AtPeek(s, p, t, 1);
    AtPeek(s, p, t, 2);
    AtInside(s, p, t);
    HexIs(o.high);
    HexIs(o.low);
    hide At, HexDigit, HexValue, IsHex;
  }

  lemma {:induction false} TripletsSeen(s: seq<byte>, p: nat, n: nat) returns (h: seq<Octet>)
    requires p <= |s| && n <= |Triplets(s, p)|
    ensures |h| == n && OctetsOk(h) && At(s, p, OctetsText(h)) && OctetsBytes(h) == Triplets(s, p)[..n]
    decreases n
  {
    if n == 0 {
      h := [];
    } else {
      var rest := TripletsSeen(s, p + 3, n - 1);
      var o := OctetSeen(s, p);
      h := [o] + rest;
      assert h[1..] == rest;
      JoinAt(s, p, [0x25, o.high, o.low], OctetsText(rest));
      hide Triplet, At;
    }
  }

  lemma OctetSeen(s: seq<byte>, p: nat) returns (o: Octet)
    requires Triplet(s, p).Some?
    ensures p + 3 <= |s| && IsHex(o.high) && IsHex(o.low) && At(s, p, [0x25, o.high, o.low])
    ensures Triplet(s, p).value == HexValue(o.high) * 16 + HexValue(o.low)
  {
    o := Octet(s[p + 1], s[p + 2]);
    HexIs(o.high);
    HexIs(o.low);
    assert s[p..p + 3] == [0x25, o.high, o.low];
    hide HexDigit, HexValue, IsHex;
  }

  /** A percent-encoded character is taken as a whole. */
  lemma SequenceRead(s: seq<byte>, p: nat, h: seq<Octet>)
    requires IsEncoded(h) && At(s, p, OctetsText(h))
    ensures p + 3 * |h| <= |s| && |OctetsText(h)| == 3 * |h| && |OctetsBytes(h)| == |h| > 0 && Peek(s, p) == 0x25
    ensures Sequence(s, p) == Parsed(OctetsBytes(h), p + 3 * |h|)
  {
    var u := OctetsBytes(h);
    assert u != [];
    assert OctetsText(h)[0] == 0x25;
    hide *;
    TripletsRead(s, p, h);
    AtInside(s, p, OctetsText(h));
    AtPeek(s, p, OctetsText(h), 0);
    PrefixAt(Triplets(s, p), u);
    ValidateCharacter(Triplets(s, p), 0, u);
    SequenceIf(s, p, u);
  }

  lemma EncodedIs(h: seq<Octet>)
    ensures IsEncoded(h) <==> OctetsOk(h) && IsCharacter(OctetsBytes(h))
  {
  }

  /** Whether there is one at all. */
  lemma SequenceSeen(s: seq<byte>, p: nat)
    requires p < |s|
    ensures Sequence(s, p).Wrong? ==> Sequence(s, p) == Wrong(InvalidPercentEncoding, p) && !HasCharacter(s, p)
    ensures Sequence(s, p).Parsed? ==> exists h :: IsEncoded(h) && At(s, p, OctetsText(h))
  {
    if Sequence(s, p).Parsed? {
      var h := CharacterSeen(s, p);
    } else if h :| IsEncoded(h) && At(s, p, OctetsText(h)) {
      SequenceRead(s, p, h);
    }
    hide Triplets, Validate, At, OctetsText, IsEncoded;
  }

  lemma CharacterSeen(s: seq<byte>, p: nat) returns (h: seq<Octet>)
    requires p <= |s| && Sequence(s, p).Parsed?
    ensures IsEncoded(h) && At(s, p, OctetsText(h)) && Sequence(s, p) == Parsed(OctetsBytes(h), p + |OctetsText(h)|)
  {
    var d := Triplets(s, p);
    var n := Validate(d, 0).taken;
    assert d[0..n] == d[..n];
    assert n > 0 && n <= |d| && Validate(d, 0) == Checked(true, n);
    ValidateIsGrammar(d, 0, n);
    h := TripletsSeen(s, p, n);
    TripletsRead(s, p, h);
    hide Triplets, Validate, IsCharacter, OctetsText, OctetsBytes, OctetsOk, At;
  }

  // ---------- one atom ----------

  lemma UnreservedIs(c: byte)
    ensures NeedsPercent(c) <==> !IsUnreserved(c)
  {
  }

  lemma PieceIs(s: seq<byte>, i: nat, uri: bool)
    requires i < |s|
    ensures uri && s[i] == 0x25 ==>
      var q := Sequence(s, i);
      Piece(s, i, uri) == if q.Wrong? || |q.value| > 1 then q else Unescaped(s, q.value[0], q.end)
    ensures uri && s[i] != 0x25 && !IsUnreserved(s[i]) ==> Piece(s, i, uri) == Wrong(CharacterMustPercentEncode, i)
    ensures !uri || (s[i] != 0x25 && IsUnreserved(s[i])) ==> Piece(s, i, uri) == Unescaped(s, s[i], i + 1)
  {
    UnreservedIs(s[i]);
    hide Sequence, Unescaped, NeedsPercent, IsUnreserved;
  }

  lemma UnescapedIs(s: seq<byte>, c: byte, i: nat)
    requires i <= |s|
    ensures c != 0x7E ==> Unescaped(s, c, i) == Parsed([c], i)
    ensures c == 0x7E ==>
      Unescaped(s, c, i) ==
      if Peek(s, i) == 0x30 then Parsed([0x7E], i + 1)
      else if Peek(s, i) == 0x31 then Parsed([0x2F], i + 1)
      else Wrong(InvalidEscape, i)
  {
  }

  /** A tilde in any form leads to the digit behind it. */
  lemma TildeRead(s: seq<byte>, p: nat, uri: bool, t: seq<byte>)
    requires IsTilde(uri, t) && At(s, p, t)
    ensures p + |t| <= |s| && p < |s| && s[p] != 0x2F && Piece(s, p, uri) == Unescaped(s, 0x7E, p + |t|)
  {
    AtInside(s, p, t);
    AtPeek(s, p, t, 0);
    PieceIs(s, p, uri);
    hide Sequence, Unescaped, Piece, At;
    if t != [0x7E] {
      var h := [Octet(0x37, t[2])];
      assert h[1..] == [];
      assert OctetsBytes(h) == [0x7E] && OctetsText(h) == t;
      SequenceRead(s, p, h);
    }
  }

  lemma SelfRead(s: seq<byte>, p: nat, c: byte, uri: bool)
    requires AtomOk(uri, Self(c)) && At(s, p, [c])
    ensures p < |s| && s[p] != 0x2F && Piece(s, p, uri) == Parsed([c], p + 1)
  {
    AtInside(s, p, [c]);
    AtPeek(s, p, [c], 0);
    PieceIs(s, p, uri);
    UnescapedIs(s, c, p + 1);
    hide Sequence, Unescaped, Piece, At;
  }

  lemma EncodedRead(s: seq<byte>, p: nat, h: seq<Octet>)
    requires IsEncoded(h) && OctetsBytes(h) != [0x7E] && At(s, p, OctetsText(h))
    ensures p < |s| && s[p] != 0x2F && Piece(s, p, true) == Parsed(OctetsBytes(h), p + |OctetsText(h)|)
  {
    SequenceRead(s, p, h);
    var u := OctetsBytes(h);
    PieceIs(s, p, true);
    UnescapedIs(s, u[0], p + |OctetsText(h)|);
    assert |u| == 1 ==> u == [u[0]];
    hide *;
  }

  /** An atom is taken as a whole, and for what it stands for. */
  lemma AtomRead(s: seq<byte>, p: nat, a: Atom, uri: bool)
    requires AtomOk(uri, a) && At(s, p, AtomText(a))
    ensures p < |s| && s[p] != 0x2F && p + |AtomText(a)| <= |s|
    ensures Piece(s, p, uri) == Parsed(AtomBytes(a), p + |AtomText(a)|)
  {
    AtInside(s, p, AtomText(a));
    hide At, Piece, IsUnreserved, OctetsText, OctetsBytes, IsCharacter, IsTilde, Peek, Unescaped;
    match a {
      case Self(c) => SelfRead(s, p, c, uri);
      case Escape(t, d) =>
        AtSplit(s, p, t, [d]);
        AtPeek(s, p + |t|, [d], 0);
        TildeRead(s, p, uri, t);
        UnescapedIs(s, 0x7E, p + |t|);
      case Encoded(h) => EncodedRead(s, p, h);
    }
  }

  /** What is taken is an atom. */
  lemma AtomSeen(s: seq<byte>, p: nat, uri: bool) returns (a: Atom)
    requires p < |s| && s[p] != 0x2F && Piece(s, p, uri).Parsed?
    ensures AtomOk(uri, a) && At(s, p, AtomText(a)) && Piece(s, p, uri) == Parsed(AtomBytes(a), p + |AtomText(a)|)
  {
    hide *;
    PieceIs(s, p, uri);
    OneAt(s, p);
    if uri && s[p] == 0x25 {
      var h := CharacterSeen(s, p);
      EncodedIs(h);
      if OctetsBytes(h) == [0x7E] {
        TildeOctets(h);
        a := TildeSeen(s, p, uri, OctetsText(h));
      } else {
        a := Encoded(h);
        EncodedOk(h);
        EncodedRead(s, p, h);
      }
    } else if s[p] == 0x7E {
      TildeAlone(uri);
      a := TildeSeen(s, p, uri, [0x7E]);
    } else {
      a := Self(s[p]);
      SelfOk(uri, s[p]);
      SelfRead(s, p, s[p], uri);
    }
  }

  lemma OneAt(s: seq<byte>, p: nat)
    requires p < |s|
    ensures At(s, p, [s[p]])
  {
  }

  lemma TildeAlone(uri: bool)
    ensures IsTilde(uri, [0x7E]) && IsUnreserved(0x7E)
  {
  }

  lemma SelfOk(uri: bool, c: byte)
    requires c != 0x2F && c != 0x7E && (uri ==> IsUnreserved(c))
    ensures AtomOk(uri, Self(c)) && AtomText(Self(c)) == AtomBytes(Self(c)) == [c]
  {
  }

  lemma EncodedOk(h: seq<Octet>)
    requires IsEncoded(h) && OctetsBytes(h) != [0x7E]
    ensures AtomOk(true, Encoded(h)) && AtomText(Encoded(h)) == OctetsText(h) && AtomBytes(Encoded(h)) == OctetsBytes(h)
  {
  }

  lemma EscapeOk(uri: bool, t: seq<byte>, d: byte)
    requires IsTilde(uri, t) && (d == 0x30 || d == 0x31)
    ensures AtomOk(uri, Escape(t, d)) && AtomText(Escape(t, d)) == t + [d]
    ensures AtomBytes(Escape(t, d)) == if d == 0x30 then [0x7E] else [0x2F]
  {
  }

  lemma {:induction false} OctetsLong(h: seq<Octet>)
    requires OctetsOk(h)
    ensures |OctetsBytes(h)| == |h|
    decreases |h|
  {
    if h != [] { OctetsLong(h[1..]); }
  }

  /** The two ways to percent-encode a tilde. */
  lemma TildeOctets(h: seq<Octet>)
    requires OctetsOk(h) && OctetsBytes(h) == [0x7E]
    ensures IsTilde(true, OctetsText(h))
  {
    OctetsLong(h);
    var x, y := h[0].high, h[0].low;
    assert OctetsBytes(h)[0] == HexValue(x) * 16 + HexValue(y);
    assert h[1..] == [];
    assert OctetsText(h) == [0x25, x, y];
    HexIs(x);
    HexIs(y);
  }

  lemma TildeSeen(s: seq<byte>, p: nat, uri: bool, t: seq<byte>) returns (a: Atom)
    requires p < |s| && IsTilde(uri, t) && At(s, p, t) && Piece(s, p, uri).Parsed?
    ensures AtomOk(uri, a) && At(s, p, AtomText(a)) && Piece(s, p, uri) == Parsed(AtomBytes(a), p + |AtomText(a)|)
  {
    hide *;
    TildeRead(s, p, uri, t);
    UnescapedIs(s, 0x7E, p + |t|);
    var d := Peek(s, p + |t|);
    a := Escape(t, d);
    EscapeOk(uri, t, d);
    PeekAt(s, p + |t|);
    JoinAt(s, p, t, [d]);
  }

  lemma PeekAt(s: seq<byte>, p: nat)
    requires Peek(s, p) != 0
    ensures At(s, p, [Peek(s, p)])
  {
  }

  /** Where no atom is taken, the name is stuck, and the report says how. */
  lemma PieceStuck(s: seq<byte>, p: nat, uri: bool)
    requires p < |s| && s[p] != 0x2F && Piece(s, p, uri).Wrong?
    ensures IsStuck(s, uri, p, Piece(s, p, uri).code, Piece(s, p, uri).offset)
  {
    hide *;
    PieceIs(s, p, uri);
    OneAt(s, p);
    if uri && s[p] == 0x25 {
      SequenceSeen(s, p);
      if Sequence(s, p).Parsed? {
        var h := CharacterSeen(s, p);
        EncodedIs(h);
        if OctetsBytes(h) == [0x7E] {
          TildeOctets(h);
          OpenTilde(s, p, uri, OctetsText(h));
        } else {
          EncodedRead(s, p, h);
        }
      } else {
        StuckEncoding(s, p);
      }
    } else if uri && !IsUnreserved(s[p]) {
      StuckCharacter(s, p);
    } else if s[p] == 0x7E {
      TildeAlone(uri);
      OpenTilde(s, p, uri, [0x7E]);
    } else {
      SelfOk(uri, s[p]);
      SelfRead(s, p, s[p], uri);
    }
  }

  lemma OpenTilde(s: seq<byte>, p: nat, uri: bool, t: seq<byte>)
    requires p < |s| && s[p] != 0x2F && IsTilde(uri, t) && At(s, p, t) && Piece(s, p, uri).Wrong?
    ensures IsStuck(s, uri, p, Piece(s, p, uri).code, Piece(s, p, uri).offset)
  {
    TildeRead(s, p, uri, t);
    UnescapedIs(s, 0x7E, p + |t|);
    hide IsTilde, At, Piece, Unescaped, Peek;
  }

  lemma StuckEncoding(s: seq<byte>, p: nat)
    requires p < |s| && s[p] == 0x25 && !HasCharacter(s, p)
    ensures IsStuck(s, true, p, InvalidPercentEncoding, p)
  {
    hide HasCharacter;
  }

  lemma StuckCharacter(s: seq<byte>, p: nat)
    requires p < |s| && s[p] != 0x2F && s[p] != 0x25 && !IsUnreserved(s[p])
    ensures IsStuck(s, true, p, CharacterMustPercentEncode, p)
  {
    hide IsUnreserved;
  }

  /** A stuck name is refused there, with that report. */
  lemma StuckPiece(s: seq<byte>, p: nat, uri: bool, code: ErrorCode, offset: nat)
    requires IsStuck(s, uri, p, code, offset)
    ensures p < |s| && s[p] != 0x2F && Piece(s, p, uri) == Wrong(code, offset)
  {
    PieceIs(s, p, uri);
    hide Piece, Sequence, Unescaped, IsTilde, At, IsUnreserved;
    match code {
      case InvalidPercentEncoding =>
        SequenceSeen(s, p);
        hide HasCharacter;
      case CharacterMustPercentEncode =>
      case InvalidEscape =>
        var t :| IsTilde(uri, t) && At(s, p, t) && offset == p + |t|
          && Peek(s, offset) != 0x30 && Peek(s, offset) != 0x31;
        TildeRead(s, p, uri, t);
        UnescapedIs(s, 0x7E, p + |t|);
    }
  }

  // ---------- names ----------

  lemma NameIs(s: seq<byte>, p: nat, uri: bool)
    requires p <= |s|
    ensures p == |s| || s[p] == 0x2F ==> Name(s, p, uri) == Parsed([], p)
    ensures p < |s| && s[p] != 0x2F && Piece(s, p, uri).Wrong? ==> Name(s, p, uri) == Piece(s, p, uri)
    ensures p < |s| && s[p] != 0x2F && Piece(s, p, uri).Parsed? ==>
      var a := Piece(s, p, uri);
      var rest := Name(s, a.end, uri);
      Name(s, p, uri) == if rest.Wrong? then rest else Parsed(a.value + rest.value, rest.end)
  {
    hide Piece;
  }

  lemma AtomsFirst(uri: bool, atoms: seq<Atom>)
    requires atoms != []
    ensures AtomsOk(uri, atoms) <==> AtomOk(uri, atoms[0]) && AtomsOk(uri, atoms[1..])
    ensures AtomsText(atoms) == AtomText(atoms[0]) + AtomsText(atoms[1..])
    ensures AtomsBytes(atoms) == AtomBytes(atoms[0]) + AtomsBytes(atoms[1..])
  {
    hide AtomOk, AtomText, AtomBytes;
    if AtomOk(uri, atoms[0]) && AtomsOk(uri, atoms[1..]) {
      forall i | 0 <= i < |atoms| ensures AtomOk(uri, atoms[i]) { if i > 0 { assert atoms[i] == atoms[1..][i - 1]; } }
    }
  }

  lemma NoAtoms(uri: bool, s: seq<byte>, p: nat)
    requires p <= |s|
    ensures AtomsOk(uri, []) && AtomsText([]) == [] && AtomsBytes([]) == [] && At(s, p, [])
  {
  }

  /** Over some atoms, wherever they stand, the rest of the name decides. */
  lemma {:induction false} NameOver(s: seq<byte>, p: nat, atoms: seq<Atom>, uri: bool)
    requires AtomsOk(uri, atoms) && At(s, p, AtomsText(atoms))
    ensures p + |AtomsText(atoms)| <= |s|
    ensures var rest := Name(s, p + |AtomsText(atoms)|, uri);
      Name(s, p, uri) == if rest.Wrong? then rest else Parsed(AtomsBytes(atoms) + rest.value, rest.end)
    decreases |atoms|
  {
    hide *;
    AtInside(s, p, AtomsText(atoms));
    if atoms == [] {
      NoAtoms(uri, s, p);
      Nothing(Name(s, p, uri));
    } else {
      var a, more := atoms[0], atoms[1..];
      AtomsFirst(uri, atoms);
      AtSplit(s, p, AtomText(a), AtomsText(more));
      AtomRead(s, p, a, uri);
      NameIs(s, p, uri);
      NameOver(s, p + |AtomText(a)|, more, uri);
      BytesJoin(AtomBytes(a), AtomsBytes(more), Name(s, p + |AtomsText(atoms)|, uri));
    }
  }

  lemma Nothing(r: Parsed<seq<byte>>)
    ensures r == if r.Wrong? then r else Parsed([] + r.value, r.end)
  {
    if r.Parsed? { assert [] + r.value == r.value; }
  }

  lemma BytesJoin(a: seq<byte>, b: seq<byte>, r: Parsed<seq<byte>>)
    ensures r.Parsed? ==> a + (b + r.value) == a + b + r.value
  {
  }

  /** A name up to the solidus or the end behind it. */
  lemma NameRead(s: seq<byte>, p: nat, atoms: seq<Atom>, uri: bool)
    requires AtomsOk(uri, atoms) && At(s, p, AtomsText(atoms))
    requires var e := p + |AtomsText(atoms)|; e < |s| ==> s[e] == 0x2F
    ensures p + |AtomsText(atoms)| <= |s| && Name(s, p, uri) == Parsed(AtomsBytes(atoms), p + |AtomsText(atoms)|)
  {
    hide *;
    NameOver(s, p, atoms, uri);
    NameIs(s, p + |AtomsText(atoms)|, uri);
    assert AtomsBytes(atoms) + [] == AtomsBytes(atoms);
  }

  /** What is taken as a name is one, and a name that is refused is stuck behind some atoms. */
  lemma {:induction false} NameSeen(s: seq<byte>, p: nat, uri: bool) returns (atoms: seq<Atom>)
    requires p <= |s|
    ensures AtomsOk(uri, atoms) && At(s, p, AtomsText(atoms))
    ensures Name(s, p, uri).Parsed? ==> Name(s, p, uri) == Parsed(AtomsBytes(atoms), p + |AtomsText(atoms)|)
    ensures Name(s, p, uri).Wrong? ==>
      IsStuck(s, uri, p + |AtomsText(atoms)|, Name(s, p, uri).code, Name(s, p, uri).offset)
    decreases |s| - p
  {
    hide *;
    NameIs(s, p, uri);
    NoAtoms(uri, s, p);
    if p == |s| || s[p] == 0x2F {
      atoms := [];
    } else if Piece(s, p, uri).Wrong? {
      atoms := [];
      PieceStuck(s, p, uri);
    } else {
      var a := AtomSeen(s, p, uri);
      PieceGrows(s, p, uri);
      var more := NameSeen(s, Piece(s, p, uri).end, uri);
      atoms := [a] + more;
      assert atoms[1..] == more;
      AtomsFirst(uri, atoms);
      JoinAt(s, p, AtomText(a), AtomsText(more));
    }
  }

  lemma PieceGrows(s: seq<byte>, p: nat, uri: bool)
    requires p < |s|
    ensures Piece(s, p, uri).Parsed? ==> p < Piece(s, p, uri).end <= |s|
  {
    hide *;
  }

  // ---------- whole pointers ----------

  predicate NamesOk(uri: bool, names: seq<seq<Atom>>) {
    forall i :: 0 <= i < |names| ==> AtomsOk(uri, names[i])
  }

  /** A solidus before each name. */
  function NamesText(names: seq<seq<Atom>>): seq<byte> {
    if names == [] then [] else [0x2F] + (AtomsText(names[0]) + NamesText(names[1..]))
  }

  function BytesOf(names: seq<seq<Atom>>): seq<seq<byte>> {
    if names == [] then [] else [AtomsBytes(names[0])] + BytesOf(names[1..])
  }

  /** The text in either form; a fragment has its number sign. */
  function PointerOf(uri: bool, names: seq<seq<Atom>>): seq<byte> {
    if uri then [0x23] + NamesText(names) else NamesText(names)
  }

  /** Where and how a text is refused: at its first character, or in a name behind well-formed ones. */
  ghost predicate IsRefused(s: seq<byte>, uri: bool, code: ErrorCode, offset: nat) {
    var p := if uri then 1 else 0;
    || (code == TokenMustBeginWithSolidus && offset == p < |s| && s[p] != 0x2F)
    || exists names, last :: IsRefusedBehind(s, uri, p, names, last, code, offset)
  }

  ghost predicate IsRefusedBehind(s: seq<byte>, uri: bool, p: nat, names: seq<seq<Atom>>, last: seq<Atom>,
      code: ErrorCode, offset: nat)
  {
    && NamesOk(uri, names) && AtomsOk(uri, last) && At(s, p, NamesText(names) + ([0x2F] + AtomsText(last)))
    && IsStuck(s, uri, p + |NamesText(names)| + 1 + |AtomsText(last)|, code, offset)
  }

  lemma NamesFirst(uri: bool, names: seq<seq<Atom>>)
    requires names != []
    ensures NamesOk(uri, names) <==> AtomsOk(uri, names[0]) && NamesOk(uri, names[1..])
    ensures NamesText(names) == [0x2F] + (AtomsText(names[0]) + NamesText(names[1..]))
    ensures TokensOf(BytesOf(names))
      == [Token(AtomsBytes(names[0]), IndexOf(AtomsBytes(names[0])))] + TokensOf(BytesOf(names[1..]))
  {
    FirstOk(uri, names);
    FirstToken(names);
    hide AtomsOk, NamesOk, AtomsText, TokensOf, IndexOf;
  }

  lemma FirstOk(uri: bool, names: seq<seq<Atom>>)
    requires names != []
    ensures NamesOk(uri, names) <==> AtomsOk(uri, names[0]) && NamesOk(uri, names[1..])
  {
    hide AtomsOk;
    if AtomsOk(uri, names[0]) && NamesOk(uri, names[1..]) {
      forall i | 0 <= i < |names| ensures AtomsOk(uri, names[i]) { if i > 0 { assert names[i] == names[1..][i - 1]; } }
    }
  }

  lemma FirstToken(names: seq<seq<Atom>>)
    requires names != []
    ensures TokensOf(BytesOf(names))
      == [Token(AtomsBytes(names[0]), IndexOf(AtomsBytes(names[0])))] + TokensOf(BytesOf(names[1..]))
  {
    hide AtomsBytes, IndexOf;
    assert BytesOf(names)[1..] == BytesOf(names[1..]);
  }

  lemma NoNames(uri: bool)
    ensures NamesOk(uri, []) && NamesText([]) == [] && TokensOf(BytesOf([])) == []
  {
  }

  lemma NamesIs(s: seq<byte>, p: nat, uri: bool)
    requires p <= |s| && (p < |s| ==> s[p] == 0x2F)
    ensures p == |s| ==> Names(s, p, uri) == Parsed([], p)
    ensures p < |s| && Name(s, p + 1, uri).Wrong? ==>
      Names(s, p, uri) == Wrong(Name(s, p + 1, uri).code, Name(s, p + 1, uri).offset)
    ensures p < |s| && Name(s, p + 1, uri).Parsed? ==>
      var n := Name(s, p + 1, uri);
      var rest := Names(s, n.end, uri);
      Names(s, p, uri) == if rest.Wrong? then rest
        else Parsed([Token(n.value, IndexOf(n.value))] + rest.value, rest.end)
  {
    hide Name, IndexOf;
  }

  lemma NamesBegin(names: seq<seq<Atom>>)
    ensures NamesText(names) != [] ==> NamesText(names)[0] == 0x2F
  {
  }

  /** Over some names, what stands behind them decides. */
  lemma {:induction false} NamesOver(s: seq<byte>, p: nat, names: seq<seq<Atom>>, rest: seq<byte>, uri: bool)
    requires NamesOk(uri, names) && At(s, p, NamesText(names) + rest) && p + |NamesText(names) + rest| <= |s|
    requires rest == [] ==> p + |NamesText(names)| == |s|
    requires rest != [] ==> rest[0] == 0x2F
    ensures var e := p + |NamesText(names)|;
      && e <= |s| && (e < |s| ==> s[e] == 0x2F) && p <= |s| && (p < |s| ==> s[p] == 0x2F) && At(s, e, rest)
    ensures var r := Names(s, p + |NamesText(names)|, uri);
      Names(s, p, uri) == if r.Wrong? then r else Parsed(TokensOf(BytesOf(names)) + r.value, r.end)
    decreases |names|
  {
    hide *;
    if names == [] {
      NoNames(uri);
      assert [] + rest == rest;
      FirstAt(s, p, rest);
      assert p < |s| ==> rest != [];
      NoneBefore(s, p, uri);
    } else {
      var n, more := names[0], names[1..];
      NamesFirst(uri, names);
      NamesAt(s, p, names, rest);
      NamesOver(s, p + 1 + |AtomsText(n)|, more, rest, uri);
      NameRead(s, p + 1, n, uri);
      NamesIs(s, p, uri);
      TokensJoin(AtomsBytes(n), TokensOf(BytesOf(more)), Names(s, p + |NamesText(names)|, uri));
    }
  }

  /** A name, and what stands behind it. */
  lemma NamesAt(s: seq<byte>, p: nat, names: seq<seq<Atom>>, rest: seq<byte>)
    requires names != [] && At(s, p, NamesText(names) + rest) && (rest == [] || rest[0] == 0x2F)
    ensures p < |s| && s[p] == 0x2F && At(s, p + 1, AtomsText(names[0]))
    ensures var e := p + 1 + |AtomsText(names[0])|;
      && At(s, e, NamesText(names[1..]) + rest) && e <= |s|
      && p + |NamesText(names)| == e + |NamesText(names[1..])|
      && (e < p + |NamesText(names) + rest| ==> e < |s| && s[e] == 0x2F)
  {
    hide *;
    NamesFirst(false, names);
    NamesBegin(names[1..]);
    var n, tail := AtomsText(names[0]), NamesText(names[1..]) + rest;
    assert tail == [] || tail[0] == 0x2F;
    assert NamesText(names) + rest == [0x2F] + (n + tail);
    BehindName(s, p, n, tail);
  }

  lemma BehindName(s: seq<byte>, p: nat, n: seq<byte>, tail: seq<byte>)
    requires At(s, p, [0x2F] + (n + tail))
    ensures p < |s| && s[p] == 0x2F && At(s, p + 1, n) && At(s, p + 1 + |n|, tail) && p + 1 + |n| <= |s|
    ensures tail != [] ==> p + 1 + |n| < |s| && s[p + 1 + |n|] == tail[0]
  {
    hide *;
    AtSplit(s, p, [0x2F], n + tail);
    AtSplit(s, p + 1, n, tail);
    FirstAt(s, p, [0x2F]);
    FirstAt(s, p + 1 + |n|, tail);
  }

  lemma TokensJoin(name: seq<byte>, more: seq<Token>, r: Parsed<seq<Token>>)
    ensures r.Parsed? ==>
      [Token(name, IndexOf(name))] + (more + r.value) == [Token(name, IndexOf(name))] + more + r.value
  {
    hide IndexOf;
  }

  lemma NoneBefore(s: seq<byte>, p: nat, uri: bool)
    requires p <= |s| && (p < |s| ==> s[p] == 0x2F)
    ensures var r := Names(s, p, uri); r == if r.Wrong? then r else Parsed([] + r.value, r.end)
  {
    hide Names;
    var r := Names(s, p, uri);
    if r.Parsed? { assert [] + r.value == r.value; }
  }

  lemma FirstAt(s: seq<byte>, p: nat, d: seq<byte>)
    requires At(s, p, d)
    ensures p <= |s| && (d != [] ==> p < |s| && s[p] == d[0])
  {
    if d != [] { AtPeek(s, p, d, 0); }
  }

  /** Names to the end, or to a name that is refused. */
  lemma {:induction false} NamesSeen(s: seq<byte>, p: nat, uri: bool) returns (names: seq<seq<Atom>>, last: seq<Atom>)
    requires p <= |s| && (p < |s| ==> s[p] == 0x2F)
    ensures NamesOk(uri, names)
    ensures Names(s, p, uri).Parsed? ==>
      && At(s, p, NamesText(names)) && p + |NamesText(names)| == |s|
      && Names(s, p, uri) == Parsed(TokensOf(BytesOf(names)), |s|)
    ensures Names(s, p, uri).Wrong? ==>
      IsRefusedBehind(s, uri, p, names, last, Names(s, p, uri).code, Names(s, p, uri).offset)
    decreases |s| - p
  {
    hide *;
    NamesIs(s, p, uri);
    NoNames(uri);
    NoAtoms(uri, s, p);
    names, last := [], [];
    if p < |s| {
      var atoms := NameSeen(s, p + 1, uri);
      OneAt(s, p);
      JoinAt(s, p, [0x2F], AtomsText(atoms));
      if Name(s, p + 1, uri).Wrong? {
        last := atoms;
        assert [] + ([0x2F] + AtomsText(atoms)) == [0x2F] + AtomsText(atoms);
        RefusedIs(s, uri, p, [], atoms, Name(s, p + 1, uri).code, Name(s, p + 1, uri).offset);
      } else {
        var e := Name(s, p + 1, uri).end;
        NameGrows(s, p + 1, uri);
        var more;
        more, last := NamesSeen(s, e, uri);
        names := [atoms] + more;
        assert names[0] == atoms && names[1..] == more;
        NamesFirst(uri, names);
        assert NamesText(names) == [0x2F] + AtomsText(atoms) + NamesText(more);
        if Names(s, e, uri).Parsed? {
          JoinAt(s, p, [0x2F] + AtomsText(atoms), NamesText(more));
        } else {
          RefusedOver(s, uri, p, atoms, more, last, Names(s, e, uri).code, Names(s, e, uri).offset);
        }
      }
    }
  }

  lemma NameGrows(s: seq<byte>, p: nat, uri: bool)
    requires p <= |s|
    ensures Name(s, p, uri).Parsed? ==>
      && p <= Name(s, p, uri).end <= |s| && (Name(s, p, uri).end < |s| ==> s[Name(s, p, uri).end] == 0x2F)
  {
  }

  lemma RefusedIs(s: seq<byte>, uri: bool, p: nat, names: seq<seq<Atom>>, last: seq<Atom>, code: ErrorCode, offset: nat)
    ensures IsRefusedBehind(s, uri, p, names, last, code, offset) <==>
      && NamesOk(uri, names) && AtomsOk(uri, last) && At(s, p, NamesText(names) + ([0x2F] + AtomsText(last)))
      && IsStuck(s, uri, p + |NamesText(names)| + 1 + |AtomsText(last)|, code, offset)
  {
    hide NamesOk, AtomsOk, At, NamesText, AtomsText, IsStuck;
  }

  lemma RefusedOver(s: seq<byte>, uri: bool, p: nat, atoms: seq<Atom>, more: seq<seq<Atom>>, last: seq<Atom>,
      code: ErrorCode, offset: nat)
    requires AtomsOk(uri, atoms) && At(s, p, [0x2F] + AtomsText(atoms))
    requires IsRefusedBehind(s, uri, p + 1 + |AtomsText(atoms)|, more, last, code, offset)
    ensures IsRefusedBehind(s, uri, p, [atoms] + more, last, code, offset)
  {
    hide *;
    var names, tail := [atoms] + more, [0x2F] + AtomsText(last);
    assert names[0] == atoms && names[1..] == more;
    NamesFirst(uri, names);
    RefusedIs(s, uri, p + 1 + |AtomsText(atoms)|, more, last, code, offset);
    JoinAt(s, p, [0x2F] + AtomsText(atoms), NamesText(more) + tail);
    assert NamesText(names) + tail == [0x2F] + AtomsText(atoms) + (NamesText(more) + tail);
    RefusedIs(s, uri, p, names, last, code, offset);
  }

  lemma PointerIs(s: seq<byte>)
    ensures var p := if Peek(s, 0) == 0x23 then 1 else 0;
      && p <= |s|
      && (p < |s| && s[p] != 0x2F ==> Pointer(s) == Wrong(TokenMustBeginWithSolidus, p))
      && (p == |s| || s[p] == 0x2F ==> Pointer(s) == Names(s, p, Peek(s, 0) == 0x23))
  {
    hide Names;
  }

  /** Parse takes every pointer in either form, for the names it stands for, each with its index. */
  lemma PointerRead(uri: bool, names: seq<seq<Atom>>)
    requires NamesOk(uri, names)
    ensures var s := PointerOf(uri, names); Pointer(s) == Parsed(TokensOf(BytesOf(names)), |s|)
  {
    var s, p := PointerOf(uri, names), if uri then 1 else 0;
    NamesBegin(names);
    assert (Peek(s, 0) == 0x23) == uri && At(s, p, NamesText(names)) && p + |NamesText(names)| == |s|;
    hide *;
    PointerIs(s);
    assert NamesText(names) + [] == NamesText(names);
    NamesOver(s, p, names, [], uri);
    NamesIs(s, |s|, uri);
    assert TokensOf(BytesOf(names)) + [] == TokensOf(BytesOf(names));
  }

  /** What Parse takes is such a pointer. */
  lemma PointerSeen(s: seq<byte>) returns (uri: bool, names: seq<seq<Atom>>)
    requires Pointer(s).Parsed?
    ensures NamesOk(uri, names) && s == PointerOf(uri, names)
    ensures Pointer(s) == Parsed(TokensOf(BytesOf(names)), |s|)
  {
    hide *;
    uri := Peek(s, 0) == 0x23;
    var p := if uri then 1 else 0;
    PointerIs(s);
    var last;
    names, last := NamesSeen(s, p, uri);
    WholeIs(s, uri, names);
  }

  lemma WholeIs(s: seq<byte>, uri: bool, names: seq<seq<Atom>>)
    requires var p := if uri then 1 else 0; At(s, p, NamesText(names)) && p + |NamesText(names)| == |s|
    requires uri ==> Peek(s, 0) == 0x23
    ensures s == PointerOf(uri, names)
  {
    hide NamesText;
    if uri { assert s == [s[0]] + s[1..]; }
  }

  /** What Parse refuses is refused for that reason, at that offset, and nothing else is. */
  lemma PointerRefused(s: seq<byte>, code: ErrorCode, offset: nat)
    ensures Pointer(s) == Wrong(code, offset) <==> IsRefused(s, Peek(s, 0) == 0x23, code, offset)
  {
    var uri := Peek(s, 0) == 0x23;
    var p := if uri then 1 else 0;
    hide Pointer, Names, IsRefusedBehind, Peek;
    PointerIs(s);
    if Pointer(s) == Wrong(code, offset) {
      if p == |s| || s[p] == 0x2F { var names, last := NamesSeen(s, p, uri); }
    }
    if names, last :| IsRefusedBehind(s, uri, p, names, last, code, offset) {
      RefusedNames(s, uri, p, names, last, code, offset);
    }
  }

  lemma RefusedNames(s: seq<byte>, uri: bool, p: nat, names: seq<seq<Atom>>, last: seq<Atom>, code: ErrorCode,
      offset: nat)
    requires IsRefusedBehind(s, uri, p, names, last, code, offset)
    ensures p < |s| && s[p] == 0x2F && Names(s, p, uri) == Wrong(code, offset)
  {
    hide *;
    RefusedIs(s, uri, p, names, last, code, offset);
    var tail := [0x2F] + AtomsText(last);
    AtInside(s, p, NamesText(names) + tail);
    NamesOver(s, p, names, tail, uri);
    var q := p + |NamesText(names)|;
    AtSplit(s, q, [0x2F], AtomsText(last));
    FirstAt(s, q, [0x2F]);
    NameOver(s, q + 1, last, uri);
    StuckPiece(s, q + 1 + |AtomsText(last)|, uri, code, offset);
    NameIs(s, q + 1 + |AtomsText(last)|, uri);
    NamesIs(s, q, uri);
  }

  // ---------- what Stringify writes ----------

  /** An upper-case hexadecimal digit. */
  function UpperHex(d: nat): byte
    requires d < 16
  {
    if d < 10 then 0x30 + d else 0x41 + (d - 10)
  }

  /** A byte of a name in either form. */
  function ByteText(uri: bool, c: byte): seq<byte> {
    if c == 0x7E then [0x7E, 0x30]
    else if c == 0x2F then [0x7E, 0x31]
    else if uri && !IsUnreserved(c) then [0x25, UpperHex(c / 16), UpperHex(c % 16)]
    else [c]
  }

  function BytesText(uri: bool, name: seq<byte>): seq<byte> {
    if name == [] then [] else ByteText(uri, name[0]) + BytesText(uri, name[1..])
  }

  lemma {:induction false} BytesTextJoin(uri: bool, a: seq<byte>, b: seq<byte>)
    ensures BytesText(uri, a + b) == BytesText(uri, a) + BytesText(uri, b)
    decreases |a|
  {
    hide ByteText;
    if a == [] {
      assert a + b == b;
    } else {
      assert (a + b)[1..] == a[1..] + b;
      BytesTextJoin(uri, a[1..], b);
    }
  }

  lemma {:induction false} PercentsAre(u: seq<byte>)
    requires forall i :: 0 <= i < |u| ==> !IsUnreserved(u[i]) && u[i] != 0x2F
    ensures Percents(u) == BytesText(true, u)
    decreases |u|
  {
    if u != [] {
      PercentsAre(u[1..]);
      assert HexChar(u[0] / 16) == UpperHex(u[0] / 16) && HexChar(u[0] % 16) == UpperHex(u[0] % 16);
      assert u[0] != 0x7E;
    }
    hide HexChar, UpperHex, IsUnreserved;
  }

  /** No byte of a character of several bytes is an ASCII character. */
  lemma BytesOfCharacter(u: seq<byte>)
    requires IsCharacter(u) && !IsUnreserved(u[0]) && u[0] != 0x2F
    ensures forall i :: 0 <= i < |u| ==> !IsUnreserved(u[i]) && u[i] != 0x2F
  {
  }

  /** What a name is written as, byte by byte, wherever it can be written. */
  lemma {:induction false} WrittenIs(name: seq<byte>, j: nat, uri: bool)
    requires j <= |name| && Written(name, j, uri).Some?
    ensures Written(name, j, uri) == Some(BytesText(uri, name[j..]))
    decreases |name| - j
  {
    hide *;
    if j == |name| {
      WrittenNothing(name, uri);
    } else {
      var (d, n) := Chunk(name, j, uri);
      ChunkIs(name, j, uri);
      WrittenIs(name, j + n, uri);
      ChunkText(name, j, uri);
      BytesTextJoin(uri, name[j..j + n], name[j + n..]);
    }
  }

  lemma WrittenNothing(name: seq<byte>, uri: bool)
    ensures Written(name, |name|, uri) == Some([]) && name[|name|..] == [] && BytesText(uri, []) == []
  {
  }

  lemma ChunkText(name: seq<byte>, j: nat, uri: bool)
    requires j < |name| && Written(name, j, uri).Some?
    ensures var (d, n) := Chunk(name, j, uri); j + n <= |name| && d == BytesText(uri, name[j..j + n])
  {
    ChunkIs(name, j, uri);
    var c, n := name[j], Chunk(name, j, uri).1;
    var u := name[j..j + n];
    UnreservedIs(c);
    if uri && NeedsPercent(c) && c != 0x7E && c != 0x2F {
      var v := Validate(name, j);
      assert v.ok && v.taken == n;
      ValidateIsGrammar(name, j, n);
      assert u[0] == c;
      hide Validate, IsCharacter, IsUnreserved, NeedsPercent, Percents;
      BytesOfCharacter(u);
      PercentsAre(u);
    } else {
      assert u == [c];
      assert u[1..] == [];
      assert BytesText(uri, u) == ByteText(uri, c) + BytesText(uri, []);
    }
    hide Validate, IsCharacter, Percents, Written, IsUnreserved, NeedsPercent, UpperHex;
  }

  function NamesTexts(uri: bool, names: seq<seq<byte>>): seq<byte> {
    if names == [] then [] else [0x2F] + BytesText(uri, names[0]) + NamesTexts(uri, names[1..])
  }

  lemma {:induction false} AllWrittenAre(names: seq<seq<byte>>, uri: bool)
    requires AllWritten(names, uri).Some?
    ensures AllWritten(names, uri) == Some(NamesTexts(uri, names))
    decreases |names|
  {
    if names != [] {
      assert names[0][0..] == names[0];
      WrittenIs(names[0], 0, uri);
      AllWrittenAre(names[1..], uri);
      hide Written, BytesText;
    }
  }

  /** What Stringify writes: the string form of any names, and the fragment form of names in UTF-8. */
  lemma StringifiedIs(names: seq<seq<byte>>, uri: bool)
    ensures Stringified(names, uri) ==
      if uri && exists i :: 0 <= i < |names| && !IsUtf8(names[i]) then None
      else Some(if uri then [0x23] + NamesTexts(uri, names) else NamesTexts(uri, names))
  {
    if uri { UriFormExists(names); } else { StringFormsExist(names); }
    if AllWritten(names, uri).Some? { AllWrittenAre(names, uri); }
    assert [] + NamesTexts(uri, names) == NamesTexts(uri, names);
    hide IsUtf8, AllWritten, NamesTexts;
  }

  /** A name of unreserved characters but the tilde stands for itself in either form, both ways. */
  lemma {:induction false} UnreservedStays(name: seq<byte>, uri: bool)
    requires forall i :: 0 <= i < |name| ==> IsUnreserved(name[i]) && name[i] != 0x7E
    ensures Name(name, 0, uri) == Parsed(name, |name|) && Written(name, 0, uri) == Some(name)
  {
    var atoms := SelfAtoms(name, uri);
    hide *;
    assert name[0..] == name;
    WholeAt(name);
    NameRead(name, 0, atoms, uri);
    StaysWritten(name, 0, uri);
  }

  lemma {:induction false} SelfAtoms(name: seq<byte>, uri: bool) returns (atoms: seq<Atom>)
    requires forall i :: 0 <= i < |name| ==> IsUnreserved(name[i]) && name[i] != 0x7E
    ensures AtomsOk(uri, atoms) && AtomsText(atoms) == name && AtomsBytes(atoms) == name
    decreases |name|
  {
    hide AtomsOk, AtomOk;
    if name == [] {
      atoms := [];
      NoAtoms(uri, [], 0);
    } else {
      var rest := SelfAtoms(name[1..], uri);
      atoms := [Self(name[0])] + rest;
      assert atoms[1..] == rest;
      SelfOk(uri, name[0]);
      AtomsFirst(uri, atoms);
    }
  }

  lemma WholeAt(name: seq<byte>)
    ensures At(name, 0, name)
  {
  }

  lemma {:induction false} StaysWritten(name: seq<byte>, j: nat, uri: bool)
    requires j <= |name| && forall i :: 0 <= i < |name| ==> IsUnreserved(name[i]) && name[i] != 0x7E
    ensures Written(name, j, uri) == Some(name[j..])
    decreases |name| - j
  {
    if j < |name| {
      StaysWritten(name, j + 1, uri);
      UnreservedIs(name[j]);
      assert [name[j]] + name[j + 1..] == name[j..];
    }
    hide Validate, Percents;
  }
}
