/** Code points and their UTF-8 sequences: encoding and decoding undo each other, and surrogates have no place in
    either. */
module Utf8Points {
  import opened Bytes
  import opened Texts
  import opened Utf8
  import opened JsonText

  /** Decode: whether the sequence at p is well-formed, its code point, and how many code units it takes. */
  datatype Decoded = Decoded(ok: bool, codepoint: nat, taken: nat)

  /** The bits of a continuation: shifted in behind those before it. */
  function Shifted(codepoint: nat, c: byte): nat {
    64 * codepoint + c % 64
  }

  /** What (0xFF >> range) & c leaves of the first code unit. */
  function Lead(c: byte): nat {
    var range := GetRange(c);
    if range == 2 then c % 64
    else if range == 3 then c % 32
    else if range == 4 then c % 16
    else if range == 5 then c % 8
    else if range == 6 then c % 4
    else 0
  }

  function Decode(s: seq<byte>, p: nat): (r: Decoded)
    ensures r.ok == Validate(s, p).ok && (r.ok ==> r.taken == Validate(s, p).taken)
  {
    var v := Validate(s, p);
    var c := Peek(s, p);
    var one := Shifted(Lead(c), Peek(s, p + 1));
    var two := Shifted(one, Peek(s, p + 2));
    if v.taken == 1 then Decoded(v.ok, c, 1)
    else if v.taken == 2 then Decoded(v.ok, one, 2)
    else if v.taken == 3 then Decoded(v.ok, two, 3)
    else Decoded(v.ok, Shifted(two, Peek(s, p + 3)), 4)
  }

  predicate IsSurrogate(codepoint: nat) {
    0xD800 <= codepoint <= 0xDFFF
  }

  /** What Encode writes is a character of the grammar if and only if the code point is no surrogate. */
  lemma EncodedIsCharacter(codepoint: nat)
    requires codepoint <= 0x10FFFF
    ensures IsCharacter(Encode(codepoint)) <==> !IsSurrogate(codepoint)
  {
    assert codepoint / 4096 / 64 == codepoint / 262144 && codepoint / 64 / 64 == codepoint / 4096;
    assert codepoint / 64 % 64 == codepoint / 64 - 64 * (codepoint / 4096);
    assert codepoint / 4096 % 64 == codepoint / 4096 - 64 * (codepoint / 262144);
  }

  lemma LeadIs(c: byte)
    ensures 0xC2 <= c <= 0xDF ==> Lead(c) == c - 0xC0
    ensures 0xE0 <= c <= 0xEF ==> Lead(c) == c - 0xE0
    ensures 0xF0 <= c <= 0xF4 ==> Lead(c) == c - 0xF0
  {
  }

  /** The code point of a sequence. */
  function PointOf(u: seq<byte>): nat
    requires 1 <= |u| <= 4
  {
    if |u| == 1 then u[0]
    else
      var one := Shifted(Lead(u[0]), u[1]);
      if |u| == 2 then one
      else if |u| == 3 then Shifted(one, u[2])
      else Shifted(Shifted(one, u[2]), u[3])
  }

  lemma DecodeIs(s: seq<byte>, p: nat, u: seq<byte>)
    requires At(s, p, u) && IsCharacter(u) && 1 <= |u| <= 4
    ensures Decode(s, p) == Decoded(true, PointOf(u), |u|)
  {
    ValidateCharacter(s, p, u);
    AtPeek(s, p, u, 0);
    if |u| > 1 { AtPeek(s, p, u, 1); }
    if |u| > 2 { AtPeek(s, p, u, 2); }
    if |u| > 3 { AtPeek(s, p, u, 3); }
    hide Validate, Lead, Shifted, At, IsCharacter, Peek;
  }

  // ---------- digits to the base 64 ----------

  lemma Split64(n: nat)
    ensures n == 64 * (n / 64) + n % 64
    ensures n / 64 == 64 * (n / 4096) + n / 64 % 64
    ensures n / 4096 == 64 * (n / 262144) + n / 4096 % 64
  {
  }

  lemma Join64(a: nat, b: nat, c: nat, d: nat, n: nat)
    requires b < 64 && c < 64 && d < 64 && n == 64 * (64 * (64 * a + b) + c) + d
    ensures n / 262144 == a && n / 4096 % 64 == b && n / 64 % 64 == c && n % 64 == d
    ensures n / 4096 == 64 * a + b && n / 64 == 64 * (64 * a + b) + c
  {
    assert n / 64 == 64 * (64 * a + b) + c;
    assert n / 4096 == 64 * a + b;
  }

  lemma TailIs(codepoint: nat, c: byte, x: nat)
    requires x < 64 && c == 0x80 + x
    ensures Shifted(codepoint, c) == 64 * codepoint + x
  {
  }

  lemma PointOfEncoded(codepoint: nat)
    requires codepoint <= 0x10FFFF
    ensures 1 <= |Encode(codepoint)| <= 4
    ensures !IsSurrogate(codepoint) ==> PointOf(Encode(codepoint)) == codepoint
  {
    var u := Encode(codepoint);
    EncodedIsCharacter(codepoint);
    LeadIs(u[0]);
    Split64(codepoint);
    hide Lead;
    if |u| > 1 && !IsSurrogate(codepoint) {
      var l := Lead(u[0]);
      TailIs(l, u[1], u[1] - 0x80);
      if |u| > 2 { TailIs(Shifted(l, u[1]), u[2], u[2] - 0x80); }
      if |u| > 3 { TailIs(Shifted(Shifted(l, u[1]), u[2]), u[3], u[3] - 0x80); }
    }
    hide Shifted;
  }

  /** What Encode makes of a number, by its digits. */
  lemma EncodeDigits(a: nat, b: nat, c: nat, d: nat, n: nat)
    requires b < 64 && c < 64 && d < 64 && n == 64 * (64 * (64 * a + b) + c) + d && n <= 0x10FFFF
    ensures 0x80 <= n <= 0x7FF ==> Encode(n) == [0xC0 + c, 0x80 + d]
    ensures 0x800 <= n <= 0xFFFF ==> Encode(n) == [0xE0 + b, 0x80 + c, 0x80 + d]
    ensures 0x1_0000 <= n ==> Encode(n) == [0xF0 + a, 0x80 + b, 0x80 + c, 0x80 + d]
  {
    Join64(a, b, c, d, n);
  }

  lemma EncodedTwo(u: seq<byte>)
    requires |u| == 2 && IsCharacter(u)
    ensures PointOf(u) <= 0x10FFFF && !IsSurrogate(PointOf(u)) && Encode(PointOf(u)) == u
  {
    LeadIs(u[0]);
    var l := Lead(u[0]);
    TailIs(l, u[1], u[1] - 0x80);
    hide Shifted, Lead, Encode;
    EncodeDigits(0, 0, l, u[1] - 0x80, PointOf(u));
  }

  lemma EncodedThree(u: seq<byte>)
    requires |u| == 3 && IsCharacter(u)
    ensures PointOf(u) <= 0x10FFFF && !IsSurrogate(PointOf(u)) && Encode(PointOf(u)) == u
  {
    LeadIs(u[0]);
    var l := Lead(u[0]);
    TailIs(l, u[1], u[1] - 0x80);
    TailIs(Shifted(l, u[1]), u[2], u[2] - 0x80);
    hide Shifted, Lead, Encode;
    EncodeDigits(0, l, u[1] - 0x80, u[2] - 0x80, PointOf(u));
  }

  lemma EncodedFour(u: seq<byte>)
    requires |u| == 4 && IsCharacter(u)
    ensures PointOf(u) <= 0x10FFFF && !IsSurrogate(PointOf(u)) && Encode(PointOf(u)) == u
  {
    LeadIs(u[0]);
    var l := Lead(u[0]);
    TailIs(l, u[1], u[1] - 0x80);
    TailIs(Shifted(l, u[1]), u[2], u[2] - 0x80);
    TailIs(Shifted(Shifted(l, u[1]), u[2]), u[3], u[3] - 0x80);
    hide Shifted, Lead, Encode;
    EncodeDigits(l, u[1] - 0x80, u[2] - 0x80, u[3] - 0x80, PointOf(u));
  }

  lemma EncodedPoint(u: seq<byte>)
    requires IsCharacter(u) && 1 <= |u| <= 4
    ensures PointOf(u) <= 0x10FFFF && !IsSurrogate(PointOf(u)) && Encode(PointOf(u)) == u
  {
    if |u| == 1 {
      EncodeOne(u[0]);
    } else if |u| == 2 {
      EncodedTwo(u);
    } else if |u| == 3 {
      EncodedThree(u);
    } else {
      EncodedFour(u);
    }
    hide Shifted, Lead, Encode;
  }

  lemma EncodeOne(c: byte)
    requires c <= 0x7F
    ensures Encode(c) == [c]
  {
  }

  /** Decode undoes Encode. */
  lemma DecodesEncoded(s: seq<byte>, p: nat, codepoint: nat)
    requires codepoint <= 0x10FFFF && !IsSurrogate(codepoint) && At(s, p, Encode(codepoint))
    ensures Decode(s, p) == Decoded(true, codepoint, |Encode(codepoint)|)
  {
    hide *;
    EncodedIsCharacter(codepoint);
    PointOfEncoded(codepoint);
    DecodeIs(s, p, Encode(codepoint));
  }

  /** Encode undoes Decode: a sequence that decodes is the one sequence for its code point. */
  lemma EncodesDecoded(s: seq<byte>, p: nat)
    requires p < |s| && Decode(s, p).ok
    ensures var r := Decode(s, p);
      && r.codepoint <= 0x10FFFF && !IsSurrogate(r.codepoint)
      && At(s, p, Encode(r.codepoint)) && |Encode(r.codepoint)| == r.taken
  {
    hide *;
    var n := Validate(s, p).taken;
    ValidateInside(s, p);
    ValidateIsGrammar(s, p, n);
    var u := s[p..p + n];
    Standing(s, p, n);
    CheckedIs(s, p);
    DecodeIs(s, p, u);
    EncodedPoint(u);
  }

  lemma Standing(s: seq<byte>, p: nat, n: nat)
    requires p + n <= |s|
    ensures At(s, p, s[p..p + n])
  {
  }

  lemma CheckedIs(s: seq<byte>, p: nat)
    requires Validate(s, p).ok
    ensures Validate(s, p) == Checked(true, Validate(s, p).taken)
  {
  }
}
