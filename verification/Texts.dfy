/** Byte strings as streams, and what stands where in them. */
module Texts {
  import opened Bytes

  const QUOTE: byte := 34
  const HASH: byte := 35
  const PERCENT: byte := 37
  const STAR: byte := 42
  const PLUS: byte := 43
  const COMMA: byte := 44
  const MINUS: byte := 45
  const DOT: byte := 46
  const SLASH: byte := 47
  const ZERO: byte := 48
  const ONE: byte := 49
  const NINE: byte := 57
  const COLON: byte := 58
  const LBRACKET: byte := 91
  const BACKSLASH: byte := 92
  const RBRACKET: byte := 93
  const LOWER_F: byte := 102
  const LOWER_N: byte := 110
  const LOWER_T: byte := 116
  const LOWER_U: byte := 117
  const LBRACE: byte := 123
  const RBRACE: byte := 125
  const TILDE: byte := 126

  predicate IsDigit(c: byte) {
    48 <= c <= 57
  }

  /** The stream: past the end it gives 0. */
  function Peek(s: seq<byte>, p: nat): byte {
    if p < |s| then s[p] else 0
  }

  /** The value of a hexadecimal digit; 16 when it is none. */
  function HexDigit(c: byte): (d: nat)
    ensures d <= 16
  {
    if 48 <= c <= 57 then c - 48
    else if 65 <= c <= 70 then c - 55
    else if 97 <= c <= 102 then c - 87
    else 16
  }

  function HexChar(d: nat): byte
    requires d < 16
  {
    if d < 10 then 48 + d else 55 + d
  }

  /** The hexadecimal digits of the standards, of either case. */
  predicate IsHex(c: byte) {
    0x30 <= c <= 0x39 || 0x41 <= c <= 0x46 || 0x61 <= c <= 0x66
  }

  function HexValue(c: byte): nat
    requires IsHex(c)
  {
    if c <= 0x39 then c - 0x30 else if c <= 0x46 then c - 0x41 + 10 else c - 0x61 + 10
  }

  lemma HexIs(c: byte)
    ensures HexDigit(c) < 16 <==> IsHex(c)
    ensures IsHex(c) ==> HexDigit(c) == HexValue(c) < 16
  {
  }

  lemma HexBack(d: nat)
    requires d < 16
    ensures HexDigit(HexChar(d)) == d
  {
  }

  /** d stands at position p of s. */
  ghost predicate At(s: seq<byte>, p: nat, d: seq<byte>) {
    p + |d| <= |s| && s[p..p + |d|] == d
  }

  lemma AtPeek(s: seq<byte>, p: nat, d: seq<byte>, i: nat)
    requires At(s, p, d) && i < |d|
    ensures Peek(s, p + i) == d[i]
  {
    assert s[p..p + |d|][i] == s[p + i];
  }

  lemma AtSplit(s: seq<byte>, p: nat, d: seq<byte>, e: seq<byte>)
    requires At(s, p, d + e)
    ensures At(s, p, d) && At(s, p + |d|, e)
  {
    assert s[p..p + |d|] == s[p..p + |d + e|][..|d|];
    assert s[p + |d|..p + |d| + |e|] == s[p..p + |d + e|][|d|..];
  }

  lemma JoinAt(s: seq<byte>, p: nat, d: seq<byte>, e: seq<byte>)
    requires At(s, p, d) && At(s, p + |d|, e)
    ensures At(s, p, d + e)
  {
    assert s[p..p + |d + e|] == s[p..p + |d|] + s[p + |d|..p + |d| + |e|];
  }

  lemma SliceAt(s: seq<byte>, p: nat, e: nat)
    requires p <= e <= |s|
    ensures At(s, p, s[p..e])
  {
  }

  lemma AtInside(s: seq<byte>, p: nat, d: seq<byte>)
    requires At(s, p, d)
    ensures p + |d| <= |s|
  {
  }
}
