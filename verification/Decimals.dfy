/** Strings of decimal digits as numbers. */
module Decimals {
  import opened Bytes

  function Pow10(n: nat): (r: nat)
    ensures r > 0
  {
    if n == 0 then 1 else 10 * Pow10(n - 1)
  }

  /** The number a string of decimal digits stands for. */
  function Number(s: seq<byte>): int
    decreases |s|
  {
    if s == [] then 0 else 10 * Number(s[..|s| - 1]) + (s[|s| - 1] as int - 48)
  }

  predicate AreDigits(s: seq<byte>) {
    forall i :: 0 <= i < |s| ==> 48 <= s[i] <= 57
  }

  lemma Tens()
    ensures Pow10(0) == 1 && Pow10(1) == 10 && Pow10(2) == 100 && Pow10(3) == 1000 && Pow10(4) == 10000
    ensures Pow10(5) == 100000 && Pow10(6) == 1000000 && Pow10(7) == 10000000 && Pow10(8) == 100000000
    ensures Pow10(9) == 1000000000
  {
  }

  lemma {:induction false} Pow10Grows(a: nat, b: nat)
    requires a <= b
    ensures Pow10(a) <= Pow10(b)
    decreases b - a
  {
    if a < b { Pow10Grows(a, b - 1); }
  }

  /** Appending a digit. */
  lemma MoreDigits(s: seq<byte>, c: byte)
    ensures Number(s + [c]) == 10 * Number(s) + (c - 48)
  {
    assert (s + [c])[..|s|] == s;
  }

  lemma NumberOfNone()
    ensures Number([]) == 0 && AreDigits([])
  {
  }

  lemma {:induction false} NumberNotNegative(s: seq<byte>)
    requires AreDigits(s)
    ensures Number(s) >= 0
    decreases |s|
  {
    if s != [] { NumberNotNegative(s[..|s| - 1]); }
  }

  lemma {:induction false} Pow10Add(m: nat, n: nat)
    ensures Pow10(m + n) == Pow10(m) * Pow10(n)
    decreases m
  {
    if m > 0 {
      Pow10Add(m - 1, n);
      assert Pow10(m) == 10 * Pow10(m - 1) && Pow10(m + n) == 10 * Pow10(m - 1 + n);
      hide Pow10;
      TenTimes(Pow10(m - 1), Pow10(n));
    }
  }

  lemma TenTimes(x: nat, y: nat)
    ensures 10 * x * y == 10 * (x * y)
  {
  }

  /** The number of one string behind another. */
  lemma {:induction false} NumberJoin(s: seq<byte>, t: seq<byte>)
    ensures Number(s + t) == Number(s) * Pow10(|t|) + Number(t)
    decreases |t|
  {
    if t == [] {
      assert s + t == s;
    } else {
      var u := t[..|t| - 1];
      assert (s + t)[..|s + t| - 1] == s + u;
      NumberJoin(s, u);
      assert Number(s) * (10 * Pow10(|t| - 1)) == 10 * (Number(s) * Pow10(|t| - 1));
    }
  }

  lemma {:induction false} NumberBelow(s: seq<byte>)
    requires AreDigits(s)
    ensures 0 <= Number(s) < Pow10(|s|)
    decreases |s|
  {
    if s != [] { NumberBelow(s[..|s| - 1]); }
  }
}
