/** Stretches of a circular array. */
module Rings {
  /** An index i places behind start in a ring of n, for i <= n. */
  function Ahead(n: nat, start: nat, i: nat): nat
    requires start < n && i <= n
  {
    if start + i < n then start + i else start + i - n
  }

  lemma AheadIsMod(n: nat, start: nat, i: nat)
    requires start < n && i <= n
    ensures Ahead(n, start, i) < n && (start + i) % n == Ahead(n, start, i)
  {
    if start + i < n { SmallMod(start + i, n); } else { LargeMod(start + i, n); }
  }

  lemma SmallMod(x: nat, n: nat)
    requires x < n
    ensures x % n == x
  {
  }

  lemma LargeMod(x: nat, n: nat)
    requires n <= x < 2 * n
    ensures x % n == x - n
  {
  }

  /** The k elements from start on. */
  function Ring<T>(s: seq<T>, start: nat, k: nat): (r: seq<T>)
    requires start < |s| && k <= |s|
    ensures |r| == k
  {
    seq(k, i requires 0 <= i < k => s[Ahead(|s|, start, i)])
  }

  lemma RingJoin<T>(s: seq<T>, start: nat, j: nat, k: nat)
    requires start < |s| && j + k <= |s|
    ensures Ahead(|s|, start, j) < |s|
    ensures Ring(s, start, j + k) == Ring(s, start, j) + Ring(s, Ahead(|s|, start, j), k)
  {
  }

  /** A stretch that does not go over the end is a slice. */
  lemma RingFlat<T>(s: seq<T>, start: nat, k: nat)
    requires start < |s| && start + k <= |s|
    ensures Ring(s, start, k) == s[start..start + k]
  {
  }

  /** One that does is two. */
  lemma RingWraps<T>(s: seq<T>, start: nat, k: nat)
    requires start < |s| && k <= |s| <= start + k
    ensures Ring(s, start, k) == s[start..] + s[..start + k - |s|]
  {
  }

  /** t is s with d written from start on. */
  ghost predicate Written<T>(s: seq<T>, start: nat, d: seq<T>, t: seq<T>) {
    && start < |s| == |t| && |d| <= |s|
    && (forall i :: 0 <= i < |d| ==> t[Ahead(|s|, start, i)] == d[i])
    && (forall x :: 0 <= x < |s| && Behind(|s|, start, x) >= |d| ==> t[x] == s[x])
  }

  lemma WrittenFlat<T>(s: seq<T>, start: nat, d: seq<T>, t: seq<T>)
    requires start < |s| == |t| && start + |d| <= |s|
    requires forall x :: 0 <= x < |s| ==> t[x] == if start <= x < start + |d| then d[x - start] else s[x]
    ensures Written(s, start, d, t)
  {
  }

  /** How far x lies behind start. */
  function Behind(n: nat, start: nat, x: nat): nat
    requires start < n && x < n
  {
    if start <= x then x - start else x + n - start
  }

  /** What was written is there, and the stretch that ends where it begins is as it was. */
  lemma WrittenRing<T>(s: seq<T>, begin: nat, k: nat, d: seq<T>, t: seq<T>)
    requires begin < |s| && k + |d| <= |s| && k < |s| && Written(s, Ahead(|s|, begin, k), d, t)
    ensures Ring(t, begin, k + |d|) == Ring(s, begin, k) + d
  {
    var start := Ahead(|s|, begin, k);
    RingJoin(t, begin, k, |d|);
    assert Ring(t, start, |d|) == d;
    forall i | 0 <= i < k ensures Ring(t, begin, k)[i] == Ring(s, begin, k)[i] {
      var x := Ahead(|s|, begin, i);
      assert Behind(|s|, start, x) == |s| - k + i;
    }
    assert Ring(t, begin, k) == Ring(s, begin, k);
  }

  /** Writing one stretch behind another is writing both. */
  lemma WrittenTwice<T>(s: seq<T>, start: nat, d: seq<T>, t: seq<T>, e: seq<T>, u: seq<T>)
    requires Written(s, start, d, t) && |d| + |e| <= |s| && |d| < |s| && Written(t, Ahead(|s|, start, |d|), e, u)
    ensures Written(s, start, d + e, u)
  {
    var mid := Ahead(|s|, start, |d|);
    forall i | 0 <= i < |d + e| ensures u[Ahead(|s|, start, i)] == (d + e)[i] {
      if i < |d| {
        var x := Ahead(|s|, start, i);
        assert Behind(|s|, mid, x) == |s| - |d| + i;
      } else {
        assert Ahead(|s|, start, i) == Ahead(|s|, mid, i - |d|);
      }
    }
    forall x | 0 <= x < |s| && Behind(|s|, start, x) >= |d + e| ensures u[x] == s[x] {
      assert Behind(|s|, mid, x) == Behind(|s|, start, x) - |d|;
    }
  }
}
