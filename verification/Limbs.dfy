/** Sequences of 64-bit limbs as numbers, least significant limb first. */
module Limbs {
  import opened Words

  const HALF: nat := 0x1_0000_0000

  type Limb = x: nat | x < TWO64

  function Val(s: seq<Limb>): nat {
    if s == [] then 0 else s[0] + TWO64 * Val(s[1..])
  }

  /** The weight of limb n. */
  function Weight(n: nat): (w: nat)
    ensures w > 0
  {
    if n == 0 then 1 else TWO64 * Weight(n - 1)
  }

  function Pow(b: nat, n: nat): nat {
    if n == 0 then 1 else b * Pow(b, n - 1)
  }

  // ---------- arithmetic ----------

  lemma Mono(a: nat, b: nat, c: nat)
    ensures a <= b ==> a * c <= b * c
    ensures a < b && c > 0 ==> a * c < b * c
  {
  }

  lemma Assoc(a: int, b: int, c: int)
    ensures a * b * c == a * (b * c) && a * (b * c) == b * (a * c)
  {
  }

  lemma Distrib(a: int, b: int, c: int)
    ensures (a + b) * c == a * c + b * c && c * (a + b) == c * a + c * b
  {
  }

  lemma {:induction false} PowAdd(b: nat, m: nat, n: nat)
    ensures Pow(b, m + n) == Pow(b, m) * Pow(b, n)
    decreases m
  {
    if m > 0 {
      PowAdd(b, m - 1, n);
      Assoc(b, Pow(b, m - 1), Pow(b, n));
    }
  }

  lemma {:induction false} PowPositive(b: nat, n: nat)
    requires b > 0
    ensures Pow(b, n) > 0
  {
    if n > 0 {
      PowPositive(b, n - 1);
      Mono(1, b, Pow(b, n - 1));
    }
  }

  lemma {:induction false} PowProduct(a: nat, b: nat, n: nat)
    ensures Pow(a, n) * Pow(b, n) == Pow(a * b, n)
  {
    if n > 0 {
      PowProduct(a, b, n - 1);
      var x, y := Pow(a, n - 1), Pow(b, n - 1);
      calc {
        a * x * (b * y);
        == { Assoc(a, x, b * y); Assoc(x, b, y); }
        a * (b * (x * y));
        == { Assoc(a, b, x * y); }
        a * b * (x * y);
      }
    }
  }

  lemma {:induction false} WeightGrows(m: nat, n: nat)
    requires m <= n
    ensures Weight(m) <= Weight(n)
    decreases n - m
  {
    if m < n { WeightGrows(m, n - 1); }
  }

  // ---------- the value of limbs ----------

  lemma {:induction false} ValAppend(s: seq<Limb>, x: Limb)
    ensures Val(s + [x]) == Val(s) + x * Weight(|s|)
  {
    if s == [] {
      assert s + [x] == [x];
    } else {
      assert (s + [x])[1..] == s[1..] + [x];
      ValAppend(s[1..], x);
      Assoc(TWO64, x, Weight(|s| - 1));
      Distrib(Val(s[1..]), x * Weight(|s| - 1), TWO64);
    }
  }

  lemma {:induction false} ValBelow(s: seq<Limb>)
    ensures Val(s) < Weight(|s|)
  {
    if s != [] {
      ValBelow(s[1..]);
      Mono(Val(s[1..]) + 1, Weight(|s| - 1), TWO64);
    }
  }

  /** Without a leading zero, the number of limbs is known from the value. */
  lemma ValAtLeast(s: seq<Limb>)
    requires s != [] && s[|s| - 1] != 0
    ensures Weight(|s| - 1) <= Val(s)
  {
    assert s == s[..|s| - 1] + [s[|s| - 1]];
    ValAppend(s[..|s| - 1], s[|s| - 1]);
    Mono(1, s[|s| - 1], Weight(|s| - 1));
  }

  /** Of two numbers of equally many limbs, the one with the smaller highest differing limb is smaller. */
  lemma {:induction false} ValOrder(s: seq<Limb>, t: seq<Limb>, i: nat)
    requires |s| == |t| && i < |s| && s[i] < t[i] && s[i + 1..] == t[i + 1..]
    ensures Val(s) < Val(t)
  {
    if i == 0 {
      assert s[1..] == t[1..];
    } else {
      assert s[1..][i..] == s[i + 1..] && t[1..][i..] == t[i + 1..];
      ValOrder(s[1..], t[1..], i - 1);
      Mono(Val(s[1..]) + 1, Val(t[1..]), TWO64);
    }
  }

  lemma {:induction false} ValZeros(n: nat, s: seq<Limb>)
    ensures Val(seq<Limb>(n, _ => 0) + s) == Weight(n) * Val(s)
    decreases n
  {
    var z := seq<Limb>(n, _ => 0);
    if n == 0 {
      assert z + s == s;
    } else {
      assert (z + s)[1..] == seq<Limb>(n - 1, _ => 0) + s;
      ValZeros(n - 1, s);
      Assoc(TWO64, Weight(n - 1), Val(s));
    }
  }

  // ---------- times a limb ----------

  /** Some low limbs have been multiplied by u: done holds them, k is carried, rest is still to do. */
  ghost predicate Multiplying(done: seq<Limb>, k: nat, rest: seq<Limb>, u: nat, total: nat) {
    Val(done) + Weight(|done|) * (k + u * Val(rest)) == total
  }

  lemma MultiplyStart(rest: seq<Limb>, u: nat)
    ensures Multiplying([], 0, rest, u, u * Val(rest))
  {
  }

  lemma MultiplyStep(done: seq<Limb>, k: nat, rest: seq<Limb>, u: nat, total: nat, lo: Limb, hi: nat)
    requires rest != [] && Multiplying(done, k, rest, u, total) && lo + TWO64 * hi == rest[0] * u + k
    ensures Multiplying(done + [lo], hi, rest[1..], u, total)
  {
    var w, v := Weight(|done|), Val(rest[1..]);
    ValAppend(done, lo);
    calc {
      w * (k + u * Val(rest));
      == { assert Val(rest) == rest[0] + TWO64 * v; Distrib(rest[0], TWO64 * v, u); Assoc(u, TWO64, v); }
      w * (lo + TWO64 * hi + TWO64 * (u * v));
      == { Distrib(hi, u * v, TWO64); Distrib(lo, TWO64 * (hi + u * v), w); }
      lo * w + w * (TWO64 * (hi + u * v));
      == { Assoc(w, TWO64, hi + u * v); }
      lo * w + TWO64 * w * (hi + u * v);
    }
    assert Weight(|done| + 1) == TWO64 * w;
  }

  lemma MultiplyEnd(done: seq<Limb>, k: Limb, u: nat, total: nat)
    requires Multiplying(done, k, [], u, total)
    ensures Val(done) + k * Weight(|done|) == total
    ensures k > 0 ==> Val(done + [k]) == total && Weight(|done|) <= total
    ensures k == 0 ==> Val(done) == total
  {
    EmptyRest(done, k, u, total);
    hide *;
    ValAppend(done, k);
    Commute(k, Weight(|done|));
    Mono(1, k, Weight(|done|));
  }

  lemma Commute(a: int, b: int)
    ensures a * b == b * a
  {
  }

  lemma EmptyRest(done: seq<Limb>, k: nat, u: nat, total: nat)
    requires Multiplying(done, k, [], u, total)
    ensures total == Val(done) + Weight(|done|) * k
  {
    assert Val([]) == 0 && u * 0 == 0;
    hide Val, Weight;
  }

  // ---------- shifted by less than a limb ----------

  /** The limbs of p times s, with a carry in: what each limb loses above goes to the next. */
  function Shifted(s: seq<Limb>, p: nat, q: nat, carry: nat): (r: seq<nat>)
    requires q > 0
    ensures |r| == |s| + 1
  {
    if s == [] then [carry] else [s[0] * p % TWO64 + carry] + Shifted(s[1..], p, q, s[0] / q)
  }

  lemma {:induction false} ShiftedAt(s: seq<Limb>, p: nat, q: nat, carry: nat, i: nat)
    requires q > 0 && i <= |s|
    ensures Shifted(s, p, q, carry)[i] ==
      (if i < |s| then s[i] * p % TWO64 else 0) + (if i == 0 then carry else s[i - 1] / q)
  {
    if i > 0 { ShiftedAt(s[1..], p, q, s[0] / q, i - 1); }
  }

  /** Splitting a shifted limb: its low part and what goes over. */
  lemma SplitLimb(x: Limb, p: nat, q: nat)
    requires p > 0 && q > 0 && p * q == TWO64
    ensures x * p == x * p % TWO64 + x / q * TWO64
    ensures x / q < p && x * p % TWO64 + p <= TWO64
    ensures x / q == 0 && x > 0 ==> x * p % TWO64 > 0
  {
    var a, b := x / q, x % q;
    assert x == a * q + b && b < q;
    SplitProduct(a, b, p, q);
    hide *;
    ModOf(a, b * p);
    if a >= p { Mono(p, a, q); }
    if b > 0 { Mono(1, b, p); }
  }

  lemma SplitProduct(a: nat, b: nat, p: nat, q: nat)
    requires p * q == TWO64 && b < q
    ensures (a * q + b) * p == a * TWO64 + b * p && b * p + p <= TWO64
  {
    hide TWO64;
    Distrib(a * q, b, p);
    Assoc(a, q, p);
    Commute(p, q);
    Mono(b + 1, q, p);
    Distrib(b, 1, p);
  }

  lemma ModOf(a: nat, r: nat)
    requires r < TWO64
    ensures (a * TWO64 + r) % TWO64 == r
  {
  }

  lemma {:induction false} ShiftedLimbs(s: seq<Limb>, p: nat, q: nat, carry: nat)
    requires p > 0 && q > 0 && p * q == TWO64 && carry < p && p <= TWO64
    ensures forall i :: 0 <= i <= |s| ==> Shifted(s, p, q, carry)[i] < TWO64
  {
    if s != [] {
      SplitLimb(s[0], p, q);
      ShiftedLimbs(s[1..], p, q, s[0] / q);
    }
  }

  lemma {:induction false} ShiftedVal(s: seq<Limb>, p: nat, q: nat, carry: nat, r: seq<Limb>)
    requires p > 0 && q > 0 && p * q == TWO64 && carry < p && r == Shifted(s, p, q, carry)
    ensures Val(r) == p * Val(s) + carry
  {
    if s != [] {
      SplitLimb(s[0], p, q);
      ShiftedVal(s[1..], p, q, s[0] / q, r[1..]);
      var v := Val(s[1..]);
      calc {
        Val(r);
        ==
        s[0] * p % TWO64 + carry + TWO64 * (p * v + s[0] / q);
        == { Distrib(p * v, s[0] / q, TWO64); Assoc(TWO64, p, v); }
        s[0] * p + carry + p * (TWO64 * v);
        == { Distrib(s[0], TWO64 * v, p); }
        p * Val(s) + carry;
      }
    } else {
      assert r == [carry];
      assert Val(r) == carry + TWO64 * Val(r[1..]);
    }
  }
}
