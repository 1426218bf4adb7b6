/** Subtraction of limbs with a borrow that is told from the wrapped difference. */
module Borrows {
  import opened Limbs
  import opened Words

  const ALL_ONES: Limb := TWO64 - 1

  /** The limbs of b below limb i. */
  function Below(b: seq<Limb>, i: nat): seq<Limb> {
    if i < |b| then b[..i] else b
  }

  function LimbAt(b: seq<Limb>, i: nat): Limb {
    if i < |b| then b[i] else 0
  }

  /** The limbs below i borrow from limb i, and limb i of b is all ones: the difference wraps round to the limb it began
      with, and looks as if nothing had to be borrowed. */
  ghost predicate LostAt(a: seq<Limb>, b: seq<Limb>, i: nat) {
    i < |a| && i < |b| && b[i] == ALL_ONES && Val(a[..i]) < Val(b[..i])
  }

  ghost predicate BorrowLost(a: seq<Limb>, b: seq<Limb>) {
    exists i: nat :: LostAt(a, b, i)
  }

  ghost predicate LostBelow(a: seq<Limb>, b: seq<Limb>, n: nat) {
    exists i: nat :: i < n && LostAt(a, b, i)
  }

  lemma LostSteps(a: seq<Limb>, b: seq<Limb>, n: nat)
    ensures !LostBelow(a, b, 0) && (LostBelow(a, b, |a|) <==> BorrowLost(a, b))
    ensures LostBelow(a, b, n + 1) <==> LostBelow(a, b, n) || LostAt(a, b, n)
  {
    hide Val;
  }

  /** The smallest such numbers have three limbs and two. */
  lemma LostExample()
    ensures var a, b := [0, 0, 1], [1, ALL_ONES]; BorrowLost(a, b) && Val(a) > Val(b)
  {
    var a, b: seq<Limb> := [0, 0, 1], [1, ALL_ONES];
    assert a[..1] == [0] && b[..1] == [1];
    assert LostAt(a, b, 1);
    ValBelow(b);
    ValAtLeast(a);
  }

  /** One limb of the difference, as the code computes it. */
  function Minus(x: Limb, borrow: nat, y: Limb): Limb {
    U64(U64(x - borrow) - y)
  }

  lemma LimbStep(x: Limb, borrow: nat, y: Limb)
    requires borrow <= 1
    ensures var d := Minus(x, borrow, y);
      d + y + borrow == x + TWO64 * ((if d > x then 1 else 0) + (if borrow == 1 && y == ALL_ONES then 1 else 0))
  {
  }

  lemma BelowStep(b: seq<Limb>, i: nat)
    ensures Val(Below(b, i + 1)) == Val(Below(b, i)) + LimbAt(b, i) * Weight(i)
  {
    if i < |b| {
      assert Below(b, i + 1) == Below(b, i) + [b[i]];
      ValAppend(Below(b, i), b[i]);
    }
    hide Val, Weight;
  }

  /** i limbs of the difference have been computed: they are too great by excess. */
  ghost predicate Differs(a: seq<Limb>, b: seq<Limb>, done: seq<Limb>, borrow: nat, excess: nat) {
    && |done| <= |a| && borrow <= 1
    && Val(done) + Val(Below(b, |done|)) == Val(a[..|done|]) + borrow * Weight(|done|) + excess
    && (excess > 0 <==> LostBelow(a, b, |done|))
  }

  lemma DiffersFirst(a: seq<Limb>, b: seq<Limb>)
    ensures Differs(a, b, [], 0, 0)
  {
    assert Below(b, 0) == [];
    LostSteps(a, b, 0);
    hide LostBelow;
  }

  lemma DiffersParts(a: seq<Limb>, b: seq<Limb>, done: seq<Limb>, borrow: nat, excess: nat)
    ensures Differs(a, b, done, borrow, excess) <==>
      && |done| <= |a| && borrow <= 1
      && Val(done) + Val(Below(b, |done|)) == Val(a[..|done|]) + borrow * Weight(|done|) + excess
      && (excess > 0 <==> LostBelow(a, b, |done|))
  {
    hide Val, Below, Weight, LostBelow;
  }

  lemma StepSum(vd: nat, vb: nat, va: nat, borrow: nat, excess: nat, w: nat, d: nat, y: nat, x: nat, next: nat,
      lost: nat)
    requires vd + vb == va + borrow * w + excess && d + y + borrow == x + TWO64 * (next + lost)
    ensures vd + d * w + (vb + y * w) == va + x * w + next * (TWO64 * w) + (excess + lost * (TWO64 * w))
  {
    Distrib(d, y, w);
    Distrib(d + y, borrow, w);
    Distrib(x, TWO64 * (next + lost), w);
    Assoc(TWO64, next + lost, w);
    Distrib(next, lost, TWO64 * w);
    Assoc(next + lost, TWO64, w);
  }

  /** While nothing has been lost, the borrow is the true one. */
  lemma BorrowIs(a: seq<Limb>, b: seq<Limb>, done: seq<Limb>, borrow: nat)
    requires Differs(a, b, done, borrow, 0)
    ensures borrow == 1 <==> Val(a[..|done|]) < Val(Below(b, |done|))
  {
    ValBelow(done);
    if borrow == 1 { assert borrow * Weight(|done|) == Weight(|done|); }
    hide Val, Below, LostAt, Weight;
  }

  lemma DiffersStep(a: seq<Limb>, b: seq<Limb>, done: seq<Limb>, borrow: nat, excess: nat) returns (excess': nat)
    requires Differs(a, b, done, borrow, excess) && |done| < |a|
    ensures var d := Minus(a[|done|], borrow, LimbAt(b, |done|));
      Differs(a, b, done + [d], if d > a[|done|] then 1 else 0, excess')
  {
    hide *;
    var i := |done|;
    var x, y := a[i], LimbAt(b, i);
    var d := Minus(x, borrow, y);
    var next, lost := if d > x then 1 else 0, if borrow == 1 && y == ALL_ONES then 1 else 0;
    excess' := excess + lost * Weight(i + 1);
    DiffersParts(a, b, done, borrow, excess);
    LimbStep(x, borrow, y);
    if excess == 0 {
      BorrowIs(a, b, done, borrow);
      LostIs(a, b, i, borrow);
    }
    LostSteps(a, b, i);
    SumStep(a, b, done, borrow, excess, d, next, lost);
    NoneOrOne(lost, Weight(i + 1));
    DiffersParts(a, b, done + [d], next, excess');
  }

  lemma LostIs(a: seq<Limb>, b: seq<Limb>, i: nat, borrow: nat)
    requires i < |a| && borrow <= 1 && (borrow == 1 <==> Val(a[..i]) < Val(Below(b, i)))
    ensures LostAt(a, b, i) <==> borrow == 1 && LimbAt(b, i) == ALL_ONES
  {
    hide Val;
  }

  lemma SumStep(a: seq<Limb>, b: seq<Limb>, done: seq<Limb>, borrow: nat, excess: nat, d: Limb, next: nat, lost: nat)
    requires |done| < |a| && d + LimbAt(b, |done|) + borrow == a[|done|] + TWO64 * (next + lost)
    requires Val(done) + Val(Below(b, |done|)) == Val(a[..|done|]) + borrow * Weight(|done|) + excess
    ensures var i := |done| + 1;
      Val(done + [d]) + Val(Below(b, i)) == Val(a[..i]) + next * Weight(i) + (excess + lost * Weight(i))
  {
    var i := |done|;
    assert Weight(i + 1) == TWO64 * Weight(i);
    ValAppend(done, d);
    BelowStep(b, i);
    assert a[..i + 1] == a[..i] + [a[i]];
    ValAppend(a[..i], a[i]);
    hide *;
    StepSum(Val(done), Val(Below(b, i)), Val(a[..i]), borrow, excess, Weight(i), d, LimbAt(b, i), a[i], next, lost);
  }

  lemma NoneOrOne(n: nat, w: nat)
    ensures n == 0 ==> n * w == 0
    ensures n == 1 ==> n * w == w
  {
  }

  /** At the end there is nothing left to borrow, and what has been lost makes the difference too great. */
  lemma DiffersLast(a: seq<Limb>, b: seq<Limb>, done: seq<Limb>, borrow: nat, excess: nat)
    requires Differs(a, b, done, borrow, excess) && |done| == |a| >= |b| && Val(a) > Val(b)
    ensures Val(done) >= Val(a) - Val(b)
    ensures Val(done) == Val(a) - Val(b) <==> !BorrowLost(a, b)
  {
    hide *;
    DiffersParts(a, b, done, borrow, excess);
    ValBelow(done);
    assert a[..|a|] == a;
    AllBelow(b, |a|);
    LostSteps(a, b, 0);
    NothingBorrowed(Val(done), Val(a), Val(b), borrow, Weight(|done|), excess);
  }

  lemma AllBelow(b: seq<Limb>, n: nat)
    requires n >= |b|
    ensures Below(b, n) == b
  {
  }

  lemma NothingBorrowed(vd: nat, va: nat, vb: nat, borrow: nat, w: nat, excess: nat)
    requires vd + vb == va + borrow * w + excess && vd < w && va > vb && borrow <= 1
    ensures vd == va - vb + excess
  {
    NoneOrOne(borrow, w);
  }

  /** c is the number of limbs up to the highest that is not 0, if there is one. */
  ghost predicate Counted(done: seq<Limb>, c: nat) {
    Val(done) > 0 ==> 0 < c <= |done| && done[c - 1] != 0 && Val(done[..c]) == Val(done)
  }

  lemma CountedFirst(c: nat)
    ensures Counted([], c)
  {
  }

  lemma CountedStep(done: seq<Limb>, c: nat, d: Limb)
    requires Counted(done, c)
    ensures Counted(done + [d], if d != 0 then |done| + 1 else c)
  {
    var all := done + [d];
    ValAppend(done, d);
    assert all[..|all|] == all;
    assert c <= |done| ==> all[..c] == done[..c];
    hide Val, Weight;
  }
}
