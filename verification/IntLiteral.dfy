/** The integer part of ParseNumber: what a literal without fraction and exponent is reported as. */
module IntLiteral {
  import opened Bytes
  import opened Decimals
  import opened Texts
  import opened Words


  datatype Number32Or64 =
    | Int(i: int)
    | Uint(u: int)
    | Int64(i64: int)
    | Uint64(u64: int)
    | Double

  /** A literal as the grammar has it: an optional minus, then 0 alone or digits that do not begin with 0. */
  predicate IsIntegerLiteral(s: seq<byte>) {
    var d := Unsigned(s);
    d != [] && AreDigits(d) && (d[0] == ZERO ==> |d| == 1)
  }

  predicate IsNegative(s: seq<byte>) {
    s != [] && s[0] == MINUS
  }

  function Unsigned(s: seq<byte>): seq<byte> {
    if IsNegative(s) then s[1..] else s
  }

  /** The number a literal stands for. */
  function ValueOf(s: seq<byte>): int {
    if IsNegative(s) then -Number(Unsigned(s)) else Number(Unsigned(s))
  }

  /** What the value asks for: the narrowest of the two widths, or a double. */
  function Reported(v: int, negative: bool): Number32Or64 {
    if negative then
      if -0x8000_0000 <= v then Int(v) else if -0x8000_0000_0000_0000 <= v then Int64(v) else Double
    else
      if v <= 0xFFFF_FFFF then Uint(v) else if v <= 0xFFFF_FFFF_FFFF_FFFF then Uint64(v) else Double
  }

  /** ~x + 1 in an unsigned type of the given width, which is width - 1 - x + 1 as it wraps, read as signed. */
  function Negated(x: nat, width: nat): int
    requires x < width
  {
    var u := if x == 0 then 0 else width - x;
    if 2 * u < width then u else u - width
  }

  lemma NegatedIs(x: nat, width: nat)
    requires x < width
    ensures 2 * x <= width ==> Negated(x, width) == 0 - x
  {
  }

  lemma {:induction false} NumberGrows(s: seq<byte>, i: nat)
    requires AreDigits(s) && i <= |s|
    ensures Number(s[..i]) <= Number(s)
    decreases |s| - i
  {
    if i == |s| {
      assert s[..i] == s;
    } else {
      assert s[..i + 1] == s[..i] + [s[i]];
      MoreDigits(s[..i], s[i]);
      NumberNotNegative(s[..i]);
      NumberGrows(s, i + 1);
    }
  }

  /** One of the four digit loops: acc takes digits on as long as the number stays within 10 * tenth + last, which is
      less than the modulus of acc's type, so it never wraps. */
  method Accumulate(d: seq<byte>, p0: nat, acc0: nat, tenth: nat, last: nat, modulus: nat) returns (p: nat, acc: nat)
    requires AreDigits(d) && p0 <= |d| && acc0 == Number(d[..p0]) && acc0 <= 10 * tenth + last < modulus && last < 10
    ensures p0 <= p <= |d| && acc == Number(d[..p]) <= 10 * tenth + last
    ensures p < |d| ==> Number(d) > 10 * tenth + last
    ensures p == p0 && p < |d| ==> Number(d[..p + 1]) > 10 * tenth + last
  {
    hide *;
    p, acc := p0, acc0;
    while p < |d|
      invariant p0 <= p <= |d| && acc == Number(d[..p]) <= 10 * tenth + last
    {
      NextDigit(d, p);
      var c := d[p] - 48;
      if acc >= tenth {
        if acc != tenth || c > last { break; }
      }
      NoWrap(acc * 10 + c, modulus);
      acc := (acc * 10 + c) % modulus;
      p := p + 1;
    }
  }

  lemma NextDigit(d: seq<byte>, p: nat)
    requires AreDigits(d) && p < |d|
    ensures 48 <= d[p] <= 57 && Number(d[..p + 1]) == 10 * Number(d[..p]) + (d[p] - 48)
      && Number(d[..p + 1]) <= Number(d)
  {
    hide Number;
    assert d[..p + 1] == d[..p] + [d[p]];
    MoreDigits(d[..p], d[p]);
    NumberGrows(d, p + 1);
  }

  lemma NoWrap(x: nat, modulus: nat)
    requires x < modulus
    ensures x % modulus == x
  {
  }

  /** ParseNumber on a literal without fraction and exponent. */
  method ParseInteger(s: seq<byte>) returns (e: Number32Or64)
    requires IsIntegerLiteral(s)
    ensures e == Reported(ValueOf(s), IsNegative(s))
  {
    var minus := s != [] && s[0] == MINUS;
    var d := if minus then s[1..] else s;
    var i: nat := d[0] - 48;
    assert d[..1] == [d[0]] && d[..0] == [];
    assert [] + [d[0]] == [d[0]];
    MoreDigits([], d[0]);
    var p := 1;
    NumberOfNone();
    if d[0] != ZERO {
      if minus {
        p, i := Accumulate(d, 1, i, 214748364, 8, WORD);
      } else {
        p, i := Accumulate(d, 1, i, 429496729, 5, WORD);
      }
    }
    var use64bit := p < |d|;
    var i64, useDouble := i, false;
    if use64bit {
      if minus {
        p, i64 := Accumulate(d, p, i64, 0x0CCCCCCCCCCCCCCC, 8, TWO64);
      } else {
        p, i64 := Accumulate(d, p, i64, 0x1999999999999999, 5, TWO64);
      }
      useDouble := p < |d|;
    }
    assert p == |d| ==> d[..p] == d;
    NumberNotNegative(d);
    e := if useDouble then Double
         else if use64bit then (if minus then Int64(Negated(i64, TWO64)) else Uint64(i64))
         else (if minus then Int(Negated(i, WORD)) else Uint(i));
    Classified(e, i, i64, minus, p == |d|, use64bit, Number(d));
    hide Number, Negated, AreDigits, Reported;
  }

  /** The tests of the loops amount to the ranges of the two widths. */
  lemma Classified(e: Number32Or64, i: nat, i64: nat, minus: bool, whole: bool, use64bit: bool, v: int)
    requires i < WORD && i64 < TWO64 && v >= 0
    requires if use64bit then v > (if minus then 0x8000_0000 else 0xFFFF_FFFF)
             else whole && v == i <= (if minus then 0x8000_0000 else 0xFFFF_FFFF)
    requires use64bit ==>
      if whole then v == i64 <= (if minus then 0x8000_0000_0000_0000 else 0xFFFF_FFFF_FFFF_FFFF)
      else v > (if minus then 0x8000_0000_0000_0000 else 0xFFFF_FFFF_FFFF_FFFF)
    requires e == (if !whole then Double
                   else if use64bit then (if minus then Int64(Negated(i64, TWO64)) else Uint64(i64))
                   else (if minus then Int(Negated(i, WORD)) else Uint(i)))
    ensures e == Reported(if minus then 0 - v else v, minus)
  {
    NegatedIs(i64, TWO64);
    NegatedIs(i, WORD);
    hide Negated;
  }
}
