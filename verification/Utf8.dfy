/** UTF-8 validation by character ranges, and that it accepts exactly the sequences of section 4 of RFC 3629. */
module Utf8 {
  import opened Bytes
  import opened Texts

  /** GetRange. */
  function GetRange(c: byte): bv8 {
    if c < 0x80 then 0
    else if c < 0x90 then 0x10
    else if c < 0xA0 then 0x40
    else if c < 0xC0 then 0x20
    else if c < 0xC2 then 8
    else if c < 0xE0 then 2
    else if c == 0xE0 then 10
    else if c == 0xED then 4
    else if c < 0xF0 then 3
    else if c == 0xF0 then 11
    else if c < 0xF4 then 6
    else if c == 0xF4 then 5
    else 8
  }

  predicate Trans(c: byte, mask: bv8) {
    GetRange(c) & mask != 0
  }

  predicate Tail(c: byte) {
    Trans(c, 0x70)
  }

  /** Validate: whether the sequence that begins at p is well-formed, and how many code units have been taken for it. */
  datatype Checked = Checked(ok: bool, taken: nat)

  function Validate(s: seq<byte>, p: nat): (r: Checked)
    ensures 1 <= r.taken <= 4
  {
    var c, d, e, f := Peek(s, p), Peek(s, p + 1), Peek(s, p + 2), Peek(s, p + 3);
    var range := GetRange(c);
    if c < 0x80 then Checked(true, 1)
    else if range == 2 then Checked(Tail(d), 2)
    else if range == 3 then Checked(Tail(d) && Tail(e), 3)
    else if range == 4 then Checked(Trans(d, 0x50) && Tail(e), 3)
    else if range == 5 then Checked(Trans(d, 0x10) && Tail(e) && Tail(f), 4)
    else if range == 6 then Checked(Tail(d) && Tail(e) && Tail(f), 4)
    else if range == 10 then Checked(Trans(d, 0x20) && Tail(e), 3)
    else if range == 11 then Checked(Trans(d, 0x60) && Tail(e) && Tail(f), 4)
    else Checked(false, 1)
  }

  // ---------- the grammar of the standard ----------

  /** UTF8-1, UTF8-2, UTF8-3 and UTF8-4. */
  predicate IsCharacter(u: seq<byte>) {
    || (|u| == 1 && u[0] <= 0x7F)
    || (|u| == 2 && 0xC2 <= u[0] <= 0xDF && IsTail(u[1]))
    || (|u| == 3 && IsTail(u[2]) &&
        ((u[0] == 0xE0 && 0xA0 <= u[1] <= 0xBF) || (0xE1 <= u[0] <= 0xEC && IsTail(u[1]))
         || (u[0] == 0xED && 0x80 <= u[1] <= 0x9F) || (0xEE <= u[0] <= 0xEF && IsTail(u[1]))))
    || (|u| == 4 && IsTail(u[2]) && IsTail(u[3]) &&
        ((u[0] == 0xF0 && 0x90 <= u[1] <= 0xBF) || (0xF1 <= u[0] <= 0xF3 && IsTail(u[1]))
         || (u[0] == 0xF4 && 0x80 <= u[1] <= 0x8F)))
  }

  predicate IsTail(c: byte) {
    0x80 <= c <= 0xBF
  }

  lemma TransIs(c: byte)
    ensures Trans(c, 0x70) <==> 0x80 <= c <= 0xBF
    ensures Trans(c, 0x50) <==> 0x80 <= c <= 0x9F
    ensures Trans(c, 0x10) <==> 0x80 <= c <= 0x8F
    ensures Trans(c, 0x20) <==> 0xA0 <= c <= 0xBF
    ensures Trans(c, 0x60) <==> 0x90 <= c <= 0xBF
  {
  }

  /** Nothing past the end is a continuation, so an accepted sequence lies within the string. */
  lemma ValidateInside(s: seq<byte>, p: nat)
    requires p < |s| && Validate(s, p).ok
    ensures p + Validate(s, p).taken <= |s|
  {
    TransIs(0);
    hide Trans, GetRange;
  }

  /** Validate accepts exactly the characters of the grammar. */
  lemma ValidateIsGrammar(s: seq<byte>, p: nat, n: nat)
    requires p < |s| && 1 <= n && p + n <= |s|
    ensures IsCharacter(s[p..p + n]) <==> Validate(s, p) == Checked(true, n)
  {
    var u := s[p..p + n];
    assert u[0] == Peek(s, p);
    if n > 1 { assert u[1] == Peek(s, p + 1); TransIs(Peek(s, p + 1)); }
    if n > 2 { assert u[2] == Peek(s, p + 2); TransIs(Peek(s, p + 2)); }
    if n > 3 { assert u[3] == Peek(s, p + 3); TransIs(Peek(s, p + 3)); }
    hide Trans, Peek;
  }

  /** A character reads the same wherever it stands. */
  lemma ValidateCharacter(s: seq<byte>, p: nat, u: seq<byte>)
    requires At(s, p, u) && IsCharacter(u)
    ensures Validate(s, p) == Checked(true, |u|)
  {
    ValidateIsGrammar(s, p, |u|);
    hide Validate;
  }
}
