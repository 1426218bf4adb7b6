/** Big integers of 64-bit limbs, changed in place. */
module BigIntegers {
  import opened Borrows
  import opened Bytes
  import opened Decimals
  import opened Limbs
  import opened Words

  const CAPACITY: nat := 416 // kCapacity: 3328 / sizeof(Type)

  /** x + y as it wraps. */
  function Plus(x: Limb, y: Limb): Limb {
    U64(x as int + y as int)
  }

  // ---------- multiplying two limbs ----------

  lemma Halves(a: Limb)
    ensures a == a / HALF * HALF + a % HALF && 0 <= a / HALF < HALF && 0 <= a % HALF < HALF
  {
  }

  const MAX_PRODUCT: nat := 0xFFFF_FFFE_0000_0001 // of two halves

  lemma HalfProduct(a: nat, b: nat)
    requires a < HALF && b < HALF
    ensures a * b <= MAX_PRODUCT
  {
    Mono(a, HALF - 1, b);
    Mono(b, HALF - 1, HALF - 1);
  }

  /** The product of two limbs by halves. */
  lemma ByHalves(a0: nat, a1: nat, b0: nat, b1: nat)
    ensures (a1 * HALF + a0) * (b1 * HALF + b0) == a1 * b1 * TWO64 + (a0 * b1 + a1 * b0) * HALF + a0 * b0
  {
    var a, b := a1 * HALF, b1 * HALF;
    Distrib(a, a0, b + b0);
    Distrib(b, b0, a);
    Distrib(b, b0, a0);
    assert a * b == a1 * b1 * TWO64;
    assert a0 * b == a0 * b1 * HALF;
    assert a * b0 == a1 * b0 * HALF;
    Distrib(a0 * b1, a1 * b0, HALF);
  }

  function High(a: Limb): (h: nat)
    ensures h < HALF
  {
    a / HALF
  }

  function Low(a: Limb): (l: nat)
    ensures l < HALF
  {
    a % HALF
  }

  /** The product of two halves, which does not wrap. */
  function Product(x: nat, y: nat): (r: Limb)
    requires x < HALF && y < HALF
    ensures r <= MAX_PRODUCT
  {
    HalfProduct(x, y);
    U64(x * y)
  }

  /** The portable MulAdd64: a 64-by-64-bit product plus k, in 64-bit operations that wrap. */
  method MulAdd64(a: Limb, b: Limb, k: Limb) returns (lo: Limb, hi: Limb)
    ensures a * b + k < TWO64 * TWO64 && hi * TWO64 + lo == a * b + k
  {
    hide *;
    var x0, y1 := Product(Low(a), Low(b)), Product(Low(a), High(b));
    var x2, y3 := Product(High(a), Low(b)), Product(High(a), High(b));
    ProductsOf(a, b);
    FullProduct(a, b, k);
    lo, hi := Combine(x0, y1, x2, y3, k, a * b);
  }

  lemma HalfIs()
    ensures HALF == 0x1_0000_0000 && TWO64 == HALF * HALF
  {
  }

  lemma ProductIs(x: nat, y: nat)
    requires x < HALF && y < HALF
    ensures Product(x, y) == x * y
  {
    HalfProduct(x, y);
  }

  lemma HalvesAre(a: Limb)
    ensures a == High(a) * HALF + Low(a)
  {
  }

  lemma ProductsOf(a: Limb, b: Limb)
    ensures a * b == Product(High(a), High(b)) * TWO64 + (Product(Low(a), High(b)) + Product(High(a), Low(b))) * HALF
                     + Product(Low(a), Low(b))
  {
    HalvesAre(a);
    HalvesAre(b);
    ProductIs(High(a), High(b));
    ProductIs(Low(a), High(b));
    ProductIs(High(a), Low(b));
    ProductIs(Low(a), Low(b));
    hide Product, High, Low;
    ByHalves(Low(a), High(a), Low(b), High(b));
  }

  lemma FullProduct(a: Limb, b: Limb, k: Limb)
    ensures a * b + k < TWO64 * TWO64
  {
    Mono(a, TWO64 - 1, b);
    Mono(b, TWO64 - 1, TWO64 - 1);
  }

  /** The four partial products put together. */
  method Combine(x0: Limb, y1: Limb, x2: Limb, y3: Limb, k: Limb, ghost ab: nat) returns (lo: Limb, hi: Limb)
    requires y1 <= MAX_PRODUCT && x2 <= MAX_PRODUCT
    requires ab == y3 * TWO64 + (y1 + x2) * HALF + x0 && ab + k < TWO64 * TWO64
    ensures hi * TWO64 + lo == ab + k
  {
    Halves(x0);
    var x1 := U64(y1 + x0 / HALF);
    ghost var m := x1 + x2;
    x1 := U64(x1 + x2);
    ghost var carry := if x1 < x2 then 1 else 0;
    Halves(x1);
    Together(y3, m, carry, x1, x0, y1, x2, ab);
    ghost var low := x1 % HALF * HALF + x0 % HALF;
    HighFits(y3 + carry * HALF + x1 / HALF, low, ab, k);
    var x3 := y3;
    if x1 < x2 { x3 := U64(x3 + HALF); }
    lo := U64(U64(x1 * HALF) + x0 % HALF);
    hi := U64(x3 + x1 / HALF);
    LowLimb(x1, x0);
    lo := U64(lo + k);
    if lo < k { hi := U64(hi + 1); }
  }

  lemma Together(y3: Limb, m: nat, carry: nat, x1: Limb, x0: Limb, y1: Limb, x2: Limb, ab: nat)
    requires m == y1 + x0 / HALF + x2 && m == carry * TWO64 + x1
    requires ab == y3 * TWO64 + (y1 + x2) * HALF + x0
    ensures ab == (y3 + carry * HALF + x1 / HALF) * TWO64 + (x1 % HALF * HALF + x0 % HALF)
  {
    Halves(x0);
    Halves(x1);
  }

  lemma HighFits(y: nat, low: nat, ab: nat, k: nat)
    requires ab == y * TWO64 + low && ab + k < TWO64 * TWO64
    ensures y < TWO64 && (low + k >= TWO64 ==> y + 1 < TWO64)
  {
  }

  lemma LowLimb(x1: Limb, x0: Limb)
    ensures U64(U64(x1 * HALF) + x0 % HALF) == x1 % HALF * HALF + x0 % HALF < TWO64
  {
    Halves(x1);
    Halves(x0);
    ModOf(x1 / HALF, x1 % HALF * HALF);
  }

  // ---------- the class ----------

  /** A number without leading zero limbs. */
  ghost predicate Normal(s: seq<Limb>) {
    0 < |s| <= CAPACITY && (|s| > 1 ==> s[|s| - 1] != 0)
  }

  lemma OneLimb(x: Limb)
    ensures Val([x]) == x
  {
    assert [x][1..] == [];
  }

  /** s[i..] begins with s[i]. */
  lemma RestIs(s: seq<Limb>, i: nat)
    requires i < |s|
    ensures s[i..] != [] && s[i..][0] == s[i] && s[i..][1..] == s[i + 1..]
  {
  }

  /** Changing one limb changes the value by the difference at its weight. */
  lemma {:induction false} ValUpdate(s: seq<Limb>, i: nat, x: Limb)
    requires i < |s|
    ensures Val(s[i := x]) + s[i] * Weight(i) == Val(s) + x * Weight(i)
    decreases i
  {
    if i == 0 {
      assert s[0 := x][1..] == s[1..];
    } else {
      assert s[i := x][1..] == s[1..][i - 1 := x];
      ValUpdate(s[1..], i - 1, x);
      var w := Weight(i - 1);
      Assoc(TWO64, s[i], w);
      Assoc(TWO64, x, w);
      Distrib(Val(s[1..][i - 1 := x]), s[i] * w, TWO64);
      Distrib(Val(s[1..]), x * w, TWO64);
    }
  }

  /** Limb i of s is what an addition left there, backup what was there before: if it has become less, TWO64 is owed to
      the limbs above; those are as they were. */
  ghost predicate Carrying(was: seq<Limb>, s: seq<Limb>, i: nat, u: nat, backup: Limb) {
    && |s| == |was| && i < |s| && s[i + 1..] == was[i + 1..] && backup == was[i]
    && (s[i] < backup ==> Val(s) + Weight(i + 1) == Val(was) + u)
    && (s[i] >= backup ==> Val(s) == Val(was) + u)
    && Normal(was)
  }

  lemma CarryStart(was: seq<Limb>, s: seq<Limb>, u: Limb)
    requires Normal(was) && s == was[0 := Plus(was[0], u)]
    ensures Carrying(was, s, 0, u, was[0])
  {
    ValUpdate(was, 0, s[0]);
    assert Weight(0) == 1 && Weight(1) == TWO64;
    hide Val, Weight, Normal;
  }

  lemma CarryStep(was: seq<Limb>, s: seq<Limb>, i: nat, u: nat, backup: Limb, s': seq<Limb>)
    requires Carrying(was, s, i, u, backup) && s[i] < backup && i + 1 < |s| && s' == s[i + 1 := Plus(s[i + 1], 1)]
    ensures Carrying(was, s', i + 1, u, s[i + 1])
  {
    ValUpdate(s, i + 1, s'[i + 1]);
    assert s[i + 1] == was[i + 1] by { assert s[i + 1..][0] == was[i + 1..][0]; }
    assert s'[i + 2..] == was[i + 2..] by { assert s[i + 1..][1..] == was[i + 1..][1..]; }
    CarriedOver(s[i + 1], s'[i + 1], i);
    hide Val, Weight, U64, Normal;
  }

  lemma CarriedOver(x: Limb, y: Limb, i: nat)
    requires y == Plus(x, 1)
    ensures y < x ==> y * Weight(i + 1) + Weight(i + 2) == x * Weight(i + 1) + Weight(i + 1)
    ensures y >= x ==> y * Weight(i + 1) == x * Weight(i + 1) + Weight(i + 1)
  {
    var w := Weight(i + 1);
    assert Weight(i + 2) == TWO64 * w;
    hide Weight;
    if x == TWO64 - 1 {
      Distrib(TWO64 - 1, 1, w);
    } else {
      Distrib(x, 1, w);
    }
  }

  lemma CarryDone(was: seq<Limb>, s: seq<Limb>, i: nat, u: nat, backup: Limb)
    requires Carrying(was, s, i, u, backup) && s[i] >= backup
    ensures Val(s) == Val(was) + u && Normal(s)
  {
    if |s| > 1 && i < |s| - 1 { assert s[i + 1..][|s| - 2 - i] == was[i + 1..][|s| - 2 - i]; }
    hide Val, Weight;
  }

  lemma CarryOut(was: seq<Limb>, s: seq<Limb>, u: nat, backup: Limb)
    requires s != [] && Carrying(was, s, |s| - 1, u, backup) && s[|s| - 1] < backup && Val(was) + u < Weight(CAPACITY)
    ensures |s| < CAPACITY && Val(s + [1]) == Val(was) + u
  {
    hide *;
    CarriedOut(was, s, u, backup);
    ValAppend(s, 1);
    TimesNone(Weight(|s|));
    WeightGrows(CAPACITY, if |s| < CAPACITY then CAPACITY else |s|);
  }

  lemma CarriedOut(was: seq<Limb>, s: seq<Limb>, u: nat, backup: Limb)
    requires s != [] && Carrying(was, s, |s| - 1, u, backup) && s[|s| - 1] < backup
    ensures Val(s) + Weight(|s|) == Val(was) + u && |s| <= CAPACITY
  {
    hide Val, Weight;
  }

  /** The product never has a leading zero limb. */
  lemma ProductNormal(was: seq<Limb>, s: seq<Limb>, k: Limb, u: nat)
    requires Normal(was) && |s| == |was| && u > 0
    requires was[|was| - 1] > 0 && k == 0 ==> s[|s| - 1] > 0
    ensures k == 0 ==> Normal(s)
  {
  }

  /** The top limb of a product without a carry out. */
  lemma TopLimb(d: Limb, u: nat, k: nat, lo: Limb, hi: nat)
    requires lo + TWO64 * hi == d * u + k && u > 0
    ensures d > 0 && hi == 0 ==> lo > 0
  {
    Mono(1, u, d);
  }

  lemma TimesNone(v: nat)
    ensures 0 * v == 0 && 1 * v == v && v * 1 == v && v * 0 == 0
  {
  }

  lemma RoomForCarry(s: seq<Limb>, total: nat)
    requires |s| <= CAPACITY && Weight(|s|) <= total < Weight(CAPACITY)
    ensures |s| < CAPACITY
  {
    WeightGrows(CAPACITY, if |s| < CAPACITY then CAPACITY else |s|);
    hide Weight;
  }

  /** A limb times a 32-bit number, by halves, with what is carried in and out. */
  method MulAdd32(d: Limb, u: nat, k: nat) returns (lo: Limb, hi: nat)
    requires u < HALF && k < HALF
    ensures lo + TWO64 * hi == d * u + k && hi < HALF
  {
    var uc, ud := TimesHalves(d, u);
    lo, hi := CombineHalves(uc, ud, k);
  }

  method TimesHalves(d: Limb, u: nat) returns (uc: Limb, ud: Limb)
    requires u < HALF
    ensures uc <= MAX_PRODUCT && ud <= MAX_PRODUCT && uc * HALF + ud == d * u
  {
    hide *;
    HalvesTimes(d, u);
    uc, ud := Product(u, High(d)), Product(u, Low(d));
  }

  lemma HalvesTimes(d: Limb, u: nat)
    requires u < HALF
    ensures Product(u, High(d)) * HALF + Product(u, Low(d)) == d * u
  {
    hide *;
    var c, e := High(d), Low(d);
    HalvesAre(d);
    ProductIs(u, c);
    ProductIs(u, e);
    Distrib(c * HALF, e, u);
    Commute(c, u);
    Commute(e, u);
    Assoc(u, c, HALF);
    Commute(c * HALF, u);
    Assoc(c, u, HALF);
    Assoc(c, HALF, u);
    Commute(HALF, u);
  }

  method CombineHalves(uc: Limb, ud: Limb, k: nat) returns (lo: Limb, hi: nat)
    requires uc <= MAX_PRODUCT && ud <= MAX_PRODUCT && k < HALF
    ensures lo + TWO64 * hi == uc * HALF + ud + k && hi < HALF
  {
    var p0 := U64(ud as int + k);
    Halves(p0);
    var p1 := U64(uc as int + p0 / HALF);
    Halves(p1);
    LowLimb(p1, p0);
    lo := U64(U64(p1 * HALF) + p0 % HALF);
    hi := p1 / HALF;
  }

  // ---------- shifting ----------

  lemma {:induction false} PowBase()
    ensures Pow(2, 64) == TWO64
  {
    assert Pow(2, 8) == 256;
    PowAdd(2, 8, 8);
    PowAdd(2, 16, 16);
    PowAdd(2, 32, 32);
  }

  lemma {:induction false} WeightIsPow(n: nat)
    ensures Weight(n) == Pow(2, 64 * n)
  {
    if n > 0 {
      WeightIsPow(n - 1);
      PowBase();
      PowAdd(2, 64, 64 * (n - 1));
    }
  }

  /** A shift by whole limbs and by the bits left over. */
  lemma ShiftSplits(shift: nat, v: nat)
    ensures v * Pow(2, shift) == Weight(shift / 64) * (Pow(2, shift % 64) * v)
  {
    var n, m := shift / 64, shift % 64;
    WeightIsPow(n);
    PowAdd(2, 64 * n, m);
    Assoc(Weight(n), Pow(2, m), v);
    Commute(v, Pow(2, shift));
    hide Pow, Weight;
  }

  lemma ShiftFactors(m: nat)
    requires 0 < m < 64
    ensures var p, q := Pow(2, m), Pow(2, 64 - m); p > 0 && q > 0 && p * q == TWO64 && p <= TWO64
  {
    PowBase();
    PowAdd(2, m, 64 - m);
    PowPositive(2, m);
    PowPositive(2, 64 - m);
    Mono(1, Pow(2, 64 - m), Pow(2, m));
    hide Pow;
  }

  /** The highest limb of a shifted number: if nothing goes over the top, it is not zero. */
  lemma ShiftedTop(was: seq<Limb>, p: nat, q: nat)
    requires was != [] && was[|was| - 1] > 0 && p > 0 && q > 0 && p * q == TWO64
    ensures Shifted(was, p, q, 0)[|was|] == 0 ==> Shifted(was, p, q, 0)[|was| - 1] > 0
  {
    hide *;
    ShiftedAt(was, p, q, 0, |was|);
    ShiftedAt(was, p, q, 0, |was| - 1);
    SplitLimb(was[|was| - 1], p, q);
  }

  lemma SliceIs(s: seq<Limb>, offset: nat, r: seq<nat>)
    requires offset + |r| <= |s| && forall j :: offset <= j < offset + |r| ==> s[j] == r[j - offset]
    ensures s[offset..offset + |r|] == r
  {
  }

  lemma ZerosAppend(n: nat, r: seq<Limb>)
    requires n + |r| <= CAPACITY && r != [] && r[|r| - 1] != 0
    ensures Normal(seq<Limb>(n, _ => 0) + r)
  {
  }

  lemma NonZeroTop(s: seq<Limb>)
    requires Normal(s) && Val(s) != 0
    ensures s[|s| - 1] > 0
  {
    if |s| == 1 {
      assert s == [s[0]];
      OneLimb(s[0]);
    }
    hide Val;
  }

  lemma NoShift(v: nat, shift: nat)
    ensures 0 * Pow(2, shift) == 0 && v * Pow(2, 0) == v
  {
  }

  // ---------- decimals ----------

  lemma {:induction false} TenPow(n: nat)
    ensures Pow(5, n) * Pow(2, n) == Pow10(n)
  {
    PowProduct(5, 2, n);
    TenIs(n);
  }

  lemma {:induction false} TenIs(n: nat)
    ensures Pow(10, n) == Pow10(n)
  {
    if n > 0 { TenIs(n - 1); }
  }

  /** Times 5^n then shifted by n is times 10^n. */
  lemma FiveTwo(v: nat, n: nat)
    ensures v * Pow(5, n) * Pow(2, n) == v * Pow10(n)
    ensures v * Pow(5, n) <= v * Pow10(n)
  {
    TenPow(n);
    Assoc(v, Pow(5, n), Pow(2, n));
    PowPositive(2, n);
    Mono(1, Pow(2, n), v * Pow(5, n));
    Commute(Pow(2, n), v * Pow(5, n));
    hide Pow, Pow10;
  }

  /** One factor of a power of five taken off. */
  lemma FiveStep(v: nat, exp: nat, n: nat)
    requires n <= exp
    ensures v * Pow(5, n) * Pow(5, exp - n) == v * Pow(5, exp)
    ensures v * Pow(5, n) <= v * Pow(5, exp)
  {
    PowAdd(5, n, exp - n);
    Assoc(v, Pow(5, n), Pow(5, exp - n));
    PowPositive(5, exp - n);
    Mono(1, Pow(5, exp - n), v * Pow(5, n));
    Commute(Pow(5, exp - n), v * Pow(5, n));
    hide Pow;
  }

  lemma FivePowers()
    ensures Pow(5, 27) == 7450580596923828125 < TWO64 && Pow(5, 13) == 1220703125 < HALF
    ensures Pow(5, 1) == 5 && Pow(5, 2) == 25 && Pow(5, 3) == 125 && Pow(5, 4) == 625 && Pow(5, 5) == 3125
      && Pow(5, 6) == 15625
    ensures Pow(5, 7) == 78125 && Pow(5, 8) == 390625 && Pow(5, 9) == 1953125 && Pow(5, 10) == 9765625
    ensures Pow(5, 11) == 48828125 && Pow(5, 12) == 244140625 < HALF
  {
    FiveSmall();
    PowAdd(5, 12, 1);
    PowAdd(5, 13, 13);
    PowAdd(5, 26, 1);
  }

  lemma FiveSmall()
    ensures Pow(5, 1) == 5 && Pow(5, 2) == 25 && Pow(5, 3) == 125 && Pow(5, 4) == 625 && Pow(5, 5) == 3125
      && Pow(5, 6) == 15625
    ensures Pow(5, 7) == 78125 && Pow(5, 8) == 390625 && Pow(5, 9) == 1953125 && Pow(5, 10) == 9765625
    ensures Pow(5, 11) == 48828125 && Pow(5, 12) == 244140625
  {
  }

  const FIVES: seq<nat> := [5, 25, 125, 625, 3125, 15625, 78125, 390625, 1953125, 9765625, 48828125, 244140625]

  lemma FivesAre(n: nat)
    requires 0 < n < 13
    ensures |FIVES| == 12 && FIVES[n - 1] == Pow(5, n) < HALF
  {
    FiveSmall();
    hide Pow;
  }

  /** Nineteen digits fit in a limb. */
  lemma NineteenDigits(n: nat)
    requires n <= 19
    ensures Pow10(n) < TWO64
  {
    Pow10Grows(n, 19);
    Tens();
    assert Pow10(14) == 100000000000000;
  }

  lemma DigitsPart(s: seq<byte>, i: nat, j: nat)
    requires AreDigits(s) && i <= j <= |s|
    ensures AreDigits(s[i..j]) && s[..j] == s[..i] + s[i..j]
  {
  }

  class BigInteger {
    const digits: array<Limb>
    var count: nat

    ghost predicate Valid()
      reads this, digits
    {
      digits.Length == CAPACITY && count <= CAPACITY && Normal(digits[..count])
    }

    ghost function Limbs(): seq<Limb>
      reads this, digits
    {
      if count <= digits.Length then digits[..count] else []
    }

    /** The number. */
    ghost function Value(): nat
      reads this, digits
    {
      Val(Limbs())
    }

    lemma LimbsAre()
      requires Valid()
      ensures Limbs() == digits[..count] && Normal(Limbs()) && 0 < count <= CAPACITY == digits.Length
        && Value() == Val(digits[..count])
    {
      hide Val;
    }

    lemma ValidIf()
      requires digits.Length == CAPACITY && count <= CAPACITY && Normal(digits[..count])
      ensures Valid() && Limbs() == digits[..count] && Value() == Val(digits[..count])
    {
      hide Val;
    }

    method IsZero() returns (zero: bool)
      requires Valid()
      ensures zero <==> Value() == 0
    {
      zero := count == 1 && digits[0] == 0;
      LimbsAre();
      if count == 1 { assert digits[..1] == [digits[0]]; OneLimb(digits[0]); }
      else { ValAtLeast(digits[..count]); }
      hide Val;
    }

    method IsSmall(u: Limb) returns (same: bool)
      requires Valid()
      ensures same ==> Value() == u && count == 1
      ensures count == 1 && digits[0] == u ==> same
    {
      same := count == 1 && digits[0] == u;
      if same { assert digits[..1] == [u]; OneLimb(u); }
      hide Val;
    }

    /** *this = u */
    method Assign(u: Limb)
      requires digits.Length == CAPACITY
      modifies this, digits
      ensures Valid() && Value() == u && count == 1
    {
      digits[0] := u;
      count := 1;
      assert digits[..1] == [u];
      OneLimb(u);
      ValidIf();
      hide Val;
    }

    constructor FromWord(u: Limb)
      ensures Valid() && fresh(digits) && Value() == u && count == 1
    {
      digits := new Limb[CAPACITY];
      count := 1;
      new;
      Assign(u);
    }

    method PushBack(digit: Limb)
      requires digits.Length == CAPACITY && 0 < count < CAPACITY && digit != 0
      modifies this, digits
      ensures Valid() && Limbs() == old(digits[..count]) + [digit]
    {
      digits[count] := digit;
      count := count + 1;
      assert digits[..count] == old(digits[..count]) + [digit];
      ValidIf();
    }

    // ---------- += ----------

    /** *this += u: the carry runs up as far as it must. */
    method AddSmall(u: Limb)
      requires Valid() && Value() + u < Weight(CAPACITY)
      modifies this, digits
      ensures Valid() && Value() == old(Value()) + u
    {
      hide *;
      LimbsAre();
      ghost var was := digits[..count];
      var backup := digits[0];
      digits[0] := Plus(digits[0], u);
      CarryStart(was, digits[..count], u);
      var i := 0;
      while i < count - 1
        invariant i < count == |was| && digits.Length == CAPACITY >= count
          && Carrying(was, digits[..count], i, u, backup)
        invariant count == old(count)
      {
        if digits[i] >= backup {
          CarryDone(was, digits[..count], i, u, backup);
          ValidIf();
          return;
        }
        ghost var s, b := digits[..count], backup;
        backup := digits[i + 1];
        digits[i + 1] := Plus(digits[i + 1], 1);
        CarryStep(was, s, i, u, b, digits[..count]);
        i := i + 1;
      }
      if digits[count - 1] < backup {
        CarryOut(was, digits[..count], u, backup);
        PushBack(1);
        LimbsAre();
      } else {
        CarryDone(was, digits[..count], i, u, backup);
        ValidIf();
      }
    }

    // ---------- *= ----------

    /** *this *= u for a 64-bit u. */
    method MulWord(u: Limb)
      requires Valid() && Value() * u < Weight(CAPACITY)
      modifies this, digits
      ensures Valid() && Value() == old(Value()) * u
    {
      hide *;
      TimesNone(Value());
      if u == 0 {
        LimbsAre();
        Assign(0);
        return;
      }
      if u == 1 { return; }
      LimbsAre();
      var one := IsSmall(1);
      TimesNone(u);
      if one {
        Assign(u);
        return;
      }
      ghost var was := digits[..count];
      ghost var total := u * Val(was);
      Commute(u, Val(was));
      MultiplyStart(was, u);
      var k: Limb := 0;
      var i := 0;
      assert digits[..0] == [] && digits[0..count] == was;
      while i < count
        invariant i <= count == |was| == old(count) && digits.Length == CAPACITY && digits[i..count] == was[i..]
        invariant Multiplying(digits[..i], k, was[i..], u, total)
        invariant i == count && was[count - 1] > 0 && k == 0 ==> digits[count - 1] > 0
      {
        RestIs(was, i);
        assert digits[i] == was[i] by { assert digits[i..count][0] == was[i..][0]; }
        ghost var done := digits[..i];
        var lo, hi := MulAdd64(digits[i], u, k);
        Commute(hi, TWO64);
        TopLimb(digits[i], u, k, lo, hi);
        MultiplyStep(done, k, was[i..], u, total, lo, hi);
        digits[i] := lo;
        assert digits[..i + 1] == done + [lo];
        assert digits[i + 1..count] == was[i + 1..] by { assert was[i..][1..] == was[i + 1..]; }
        k := hi;
        i := i + 1;
      }
      Finish(was, k, u, total);
    }

    /** The end of a multiplication: what is carried out becomes a limb. */
    method Finish(ghost was: seq<Limb>, k: Limb, ghost u: nat, ghost total: nat)
      requires digits.Length == CAPACITY && count == |was| <= CAPACITY && Normal(was) && u > 0
        && total < Weight(CAPACITY)
      requires Multiplying(digits[..count], k, was[count..], u, total)
      requires count > 0 && (was[count - 1] > 0 && k == 0 ==> digits[count - 1] > 0)
      modifies this, digits
      ensures Valid() && Value() == total
    {
      hide *;
      assert was[count..] == [];
      MultiplyEnd(digits[..count], k, u, total);
      ProductNormal(was, digits[..count], k, u);
      if k > 0 {
        RoomForCarry(digits[..count], total);
        PushBack(k);
        LimbsAre();
      } else {
        ValidIf();
      }
    }

    /** *this *= u for a 32-bit u. */
    method MulHalf(u: nat)
      requires Valid() && u < HALF && Value() * u < Weight(CAPACITY)
      modifies this, digits
      ensures Valid() && Value() == old(Value()) * u
    {
      hide *;
      HalfIs();
      TimesNone(Value());
      if u == 0 {
        LimbsAre();
        Assign(0);
        return;
      }
      if u == 1 { return; }
      LimbsAre();
      var one := IsSmall(1);
      TimesNone(u);
      if one {
        Assign(u);
        return;
      }
      ghost var was := digits[..count];
      ghost var total := u * Val(was);
      Commute(u, Val(was));
      MultiplyStart(was, u);
      var k: nat := 0;
      var i := 0;
      assert digits[..0] == [] && digits[0..count] == was;
      while i < count
        invariant i <= count == |was| == old(count) && digits.Length == CAPACITY && digits[i..count] == was[i..]
        invariant Multiplying(digits[..i], k, was[i..], u, total) && k < HALF
        invariant i == count && was[count - 1] > 0 && k == 0 ==> digits[count - 1] > 0
      {
        RestIs(was, i);
        assert digits[i] == was[i] by { assert digits[i..count][0] == was[i..][0]; }
        ghost var done := digits[..i];
        var lo, hi := MulAdd32(digits[i], u, k);
        TopLimb(digits[i], u, k, lo, hi);
        MultiplyStep(done, k, was[i..], u, total, lo, hi);
        digits[i] := lo;
        assert digits[..i + 1] == done + [lo];
        assert digits[i + 1..count] == was[i + 1..] by { assert was[i..][1..] == was[i + 1..]; }
        k := hi;
        i := i + 1;
      }
      Finish(was, k, u, total);
    }

    // ---------- <<= ----------

    /** *this <<= shift, under the assertion the code makes. When bits are shifted too, the limb behind the shifted
        number is written whether or not it is needed: overrun says that this is the one behind the array. */
    method ShiftLeft(shift: nat) returns (overrun: bool)
      requires Valid()
      requires Value() == 0 || shift == 0 || count + shift / 64 <= CAPACITY
      modifies this, digits
      ensures overrun <==> old(Value()) != 0 && shift % 64 != 0 && old(count) + shift / 64 == CAPACITY
      ensures !overrun ==> Valid() && Value() == old(Value()) * Pow(2, shift)
    {
      hide *;
      LimbsAre();
      var zero := IsZero();
      NoShift(Value(), shift);
      if zero || shift == 0 { return false; }
      var offset, interShift := shift / 64, shift % 64;
      ghost var was := digits[..count];
      NonZeroTop(was);
      ShiftSplits(shift, Val(was));
      ghost var r: seq<Limb> := [];
      if interShift == 0 {
        MoveUp(offset);
        r := was;
        PowNone(Val(was));
        count := count + offset;
      } else {
        if count + offset == CAPACITY { return true; }
        r := ShiftBits(offset, interShift);
        count := count + offset;
        if digits[count] != 0 { count := count + 1; }
      }
      ClearLow(offset, r);
      ValZeros(offset, r);
      ZerosAppend(offset, r);
      ValidIf();
      overrun := false;
    }

    lemma PowNone(v: nat)
      ensures Pow(2, 0) * v == v
    {
    }

    /** memmove of the limbs to offset on. */
    method MoveUp(offset: nat)
      requires digits.Length == CAPACITY && count + offset <= CAPACITY
      modifies digits
      ensures digits[offset..offset + count] == old(digits[..count])
    {
      ghost var was := digits[..count];
      var i := count;
      while i > 0
        invariant 0 <= i <= count == |was|
        invariant forall j :: offset + i <= j < offset + count ==> digits[j] == was[j - offset]
        invariant forall j :: 0 <= j < i ==> digits[j] == was[j]
      {
        i := i - 1;
        digits[i + offset] := digits[i];
      }
      SliceIs(digits[..], offset, was);
    }

    /** A limb shifted up, and what comes up from the limb below. */
    static function ShiftedLimb(d: Limb, below: Limb, p: nat, q: nat): nat
      requires q > 0
    {
      d * p % TWO64 + below / q
    }

    /** The limbs shifted by less than a limb and moved up by offset; r is what they are then, without a leading
        zero. */
    method ShiftBits(offset: nat, interShift: nat) returns (ghost r: seq<Limb>)
      requires Valid() && Value() != 0 && 0 < interShift < 64 && count + offset + 1 <= CAPACITY
      modifies digits
      ensures Val(r) == Pow(2, interShift) * old(Val(digits[..count])) && r != [] && r[|r| - 1] != 0
      ensures |r| == count + (if digits[count + offset] != 0 then 1 else 0) && digits[offset..offset + |r|] == r
    {
      hide *;
      LimbsAre();
      ghost var was := digits[..count];
      NonZeroTop(was);
      var p, q := Pow(2, interShift), Pow(2, 64 - interShift);
      ShiftFactors(interShift);
      ghost var t := Shifted(was, p, q, 0);
      ShiftedLimbs(was, p, q, 0);
      digits[count] := 0;
      var i := count;
      while i > 0
        invariant 0 <= i <= count == |was|
        invariant forall j :: offset + i < j <= offset + count ==> digits[j] == t[j - offset]
        invariant forall j :: 0 <= j <= i && j < count ==> digits[j] == was[j]
        invariant i == count ==> digits[count] == 0
      {
        ShiftedAt(was, p, q, 0, i);
        ShiftedLimbIs(digits[i], digits[i - 1], p, q);
        digits[i + offset] := ShiftedLimb(digits[i], digits[i - 1], p, q);
        i := i - 1;
      }
      ShiftedAt(was, p, q, 0, 0);
      digits[offset] := digits[0] * p % TWO64;
      ShiftedTop(was, p, q);
      ghost var whole := digits[offset..offset + count + 1];
      SliceIs(digits[..], offset, t);
      ShiftedVal(was, p, q, 0, whole);
      r := if whole[count] != 0 then whole else whole[..count];
      if whole[count] == 0 {
        assert whole == whole[..count] + [whole[count]];
        ValAppend(whole[..count], 0);
        TimesNone(Weight(count));
      }
    }

    lemma ShiftedLimbIs(d: Limb, below: Limb, p: nat, q: nat)
      requires q > 0
      ensures ShiftedLimb(d, below, p, q) == d * p % TWO64 + below / q
      ensures ShiftedLimb(0, below, p, q) == below / q
    {
      TimesNone(p);
    }

    /** memset of the limbs below offset. */
    method ClearLow(offset: nat, ghost r: seq<Limb>)
      requires digits.Length == CAPACITY && count <= CAPACITY && count == offset + |r| && digits[offset..count] == r
      modifies digits
      ensures digits[..count] == seq<Limb>(offset, _ => 0) + r
    {
      var i := 0;
      while i < offset
        invariant i <= offset && digits[offset..count] == r
        invariant forall j :: 0 <= j < i ==> digits[j] == 0
      {
        digits[i] := 0;
        i := i + 1;
      }
      assert digits[..count] == digits[..offset] + digits[offset..count];
    }

    // ---------- decimals ----------

    /** MultiplyPow5: times 5^27, 5^13 and a table entry, as long as there is a power left. */
    method MultiplyPow5(exp0: nat)
      requires Valid() && Value() * Pow(5, exp0) < Weight(CAPACITY)
      modifies this, digits
      ensures Valid() && Value() == old(Value()) * Pow(5, exp0)
    {
      hide *;
      FivePowers();
      ghost var total := Value() * Pow(5, exp0);
      FiveNone(Value());
      if exp0 == 0 { return; }
      var exp := exp0;
      while exp >= 27
        invariant Valid() && 0 <= exp && Value() * Pow(5, exp) == total
      {
        FiveStep(Value(), exp, 27);
        MulWord(7450580596923828125);
        exp := exp - 27;
      }
      while exp >= 13
        invariant Valid() && 0 <= exp < 27 && Value() * Pow(5, exp) == total
      {
        FiveStep(Value(), exp, 13);
        MulHalf(1220703125);
        exp := exp - 13;
      }
      FiveNone(Value());
      if exp > 0 {
        FivesAre(exp);
        MulHalf(FIVES[exp - 1]);
      }
    }

    lemma FiveNone(v: nat)
      ensures v * Pow(5, 0) == v
    {
    }

    static method ParseUint64(s: seq<byte>) returns (r: Limb)
      requires AreDigits(s) && |s| <= 19
      ensures r == Number(s) < Pow10(|s|)
    {
      r := 0;
      hide *;
      var p := 0;
      assert s[..0] == [];
      NumberOfNone();
      while p != |s|
        invariant p <= |s| && r as int == Number(s[..p])
        decreases |s| - p
      {
        NextDigit(s, p);
        DigitIs(s, p);
        r := U64(U64(r as int * 10) as int + (s[p] - 48));
        p := p + 1;
      }
      assert s[..p] == s;
      NumberBelow(s);
    }

    static lemma NextDigit(s: seq<byte>, p: nat)
      requires AreDigits(s) && p < |s| <= 19
      ensures Number(s[..p + 1]) == 10 * Number(s[..p]) + (s[p] - 48) && 0 <= Number(s[..p])
        && Number(s[..p + 1]) < TWO64
    {
      hide *;
      assert s[..p + 1] == s[..p] + [s[p]];
      MoreDigits(s[..p], s[p]);
      DigitsPart(s, 0, p);
      DigitsPart(s, 0, p + 1);
      assert s[0..p + 1] == s[..p + 1] && s[0..p] == s[..p];
      NumberNotNegative(s[..p]);
      NumberBelow(s[..p + 1]);
      NineteenDigits(p + 1);
    }

    static lemma DigitIs(s: seq<byte>, p: nat)
      requires AreDigits(s) && p < |s|
      ensures 48 <= s[p] <= 57
      ensures forall x: int :: 0 <= x < TWO64 ==> U64(x) == x
    {
    }

    /** AppendDecimal64: up to nineteen more digits. The shift by their number overruns the array exactly when the
        number times the power of five already takes all the limbs. */
    method AppendDecimal64(s: seq<byte>) returns (overrun: bool)
      requires Valid() && AreDigits(s) && 0 < |s| <= 19 && Value() * Pow10(|s|) + Number(s) < Weight(CAPACITY)
      modifies this, digits
      ensures overrun <==> old(Value()) * Pow(5, |s|) >= Weight(CAPACITY - 1)
      ensures !overrun ==> Valid() && Value() == old(Value()) * Pow10(|s|) + Number(s)
    {
      hide *;
      LimbsAre();
      overrun := false;
      var u := ParseUint64(s);
      var zero := IsZero();
      TimesNone(Pow10(|s|));
      TimesNone(Pow(5, |s|));
      if zero {
        Assign(u);
      } else {
        var exp := |s|;
        FiveTwo(Value(), exp);
        CapacityIs();
        MultiplyPow5(exp);
        LimbsAre();
        FullCount(Limbs());
        overrun := ShiftLeft(exp);
        if !overrun { AddSmall(u); }
      }
    }

    /** All the limbs are taken exactly from the weight of the last on. */
    static lemma FullCount(s: seq<Limb>)
      requires Normal(s) && |s| <= CAPACITY
      ensures |s| == CAPACITY <==> Val(s) >= Weight(CAPACITY - 1)
      ensures 0 < CAPACITY
    {
      CapacityIs();
      ValBelow(s);
      if |s| < CAPACITY { WeightGrows(|s|, CAPACITY - 1); } else { ValAtLeast(s); }
      hide Val, Weight;
    }

    static lemma CapacityIs()
      ensures CAPACITY == 416
    {
    }

    /** The number a string of decimal digits denotes. */
    constructor FromDecimals(decimals: seq<byte>)
      requires decimals != [] && AreDigits(decimals) && Number(decimals) < Weight(CAPACITY - 1)
      ensures Valid() && fresh(digits) && Value() == Number(decimals)
    {
      digits := new Limb[CAPACITY];
      count := 1;
      new;
      hide *;
      Assign(0);
      ReadAll(decimals);
    }

    /** The loop of that constructor, nineteen digits at a time. */
    method ReadAll(decimals: seq<byte>)
      requires Valid() && Value() == 0 && AreDigits(decimals) && Number(decimals) < Weight(CAPACITY - 1)
      modifies this, digits
      ensures Valid() && Value() == Number(decimals)
    {
      hide *;
      CapacityIs();
      var length, i := |decimals|, 0;
      assert decimals[..0] == [];
      NumberOfNone();
      while length >= 19
        invariant Valid() && length + i == |decimals| && length >= 0 && Value() == Number(decimals[..i])
      {
        NextChunk(decimals, i, 19);
        var overrun := AppendDecimal64(decimals[i..i + 19]);
        length := length - 19;
        i := i + 19;
      }
      if length > 0 {
        NextChunk(decimals, i, length);
        var overrun := AppendDecimal64(decimals[i..i + length]);
        assert decimals[..i + length] == decimals;
      } else {
        assert decimals[..i] == decimals;
      }
    }

    lemma NextChunk(s: seq<byte>, i: nat, c: nat)
      requires AreDigits(s) && i + c <= |s| && Value() == Number(s[..i]) && Number(s) < Weight(CAPACITY - 1)
      ensures AreDigits(s[i..i + c]) && Value() * Pow10(c) + Number(s[i..i + c]) < Weight(CAPACITY)
      ensures Value() * Pow(5, c) < Weight(CAPACITY - 1)
      ensures Number(s[..i + c]) == Value() * Pow10(c) + Number(s[i..i + c])
    {
      hide *;
      CapacityIs();
      WeightGrows(CAPACITY - 1, CAPACITY);
      DigitsPart(s, i, i + c);
      NumberNotNegative(s[i..i + c]);
      NumberJoin(s[..i], s[i..i + c]);
      FiveTwo(Value(), c);
      PrefixBelow(s, i + c);
    }

    static lemma PrefixBelow(s: seq<byte>, k: nat)
      requires AreDigits(s) && k <= |s|
      ensures Number(s[..k]) <= Number(s)
    {
      hide *;
      DigitsPart(s, 0, k);
      DigitsPart(s, k, |s|);
      assert s[0..k] == s[..k] && s[k..|s|] == s[k..] && s[..|s|] == s;
      NumberJoin(s[..k], s[k..]);
      NumberNotNegative(s[..k]);
      NumberNotNegative(s[k..]);
      Mono(1, Pow10(|s[k..]|), Number(s[..k]));
      Commute(Pow10(|s[k..]|), Number(s[..k]));
    }

    // ---------- Compare ----------

    /** Compare: the order of the numbers. */
    method Compare(rhs: BigInteger) returns (cmp: int)
      requires Valid() && rhs.Valid()
      ensures cmp == (if Value() < rhs.Value() then -1 else if Value() > rhs.Value() then 1 else 0)
    {
      hide *;
      LimbsAre();
      rhs.LimbsAre();
      ghost var s, t := Limbs(), rhs.Limbs();
      if count != rhs.count {
        if count < rhs.count { FewerLimbs(s, t); } else { FewerLimbs(t, s); }
        return if count < rhs.count then -1 else 1;
      }
      var i := count;
      while i > 0
        invariant 0 <= i <= |s| == |t| == count == rhs.count && s[i..] == t[i..]
        invariant count <= digits.Length && count <= rhs.digits.Length && s == digits[..count]
          && t == rhs.digits[..count]
      {
        i := i - 1;
        if digits[i] != rhs.digits[i] {
          if digits[i] < rhs.digits[i] { ValOrder(s, t, i); } else { ValOrder(t, s, i); }
          return if digits[i] < rhs.digits[i] then -1 else 1;
        }
        assert s[i..] == [s[i]] + s[i + 1..] && t[i..] == [t[i]] + t[i + 1..];
      }
      assert s[0..] == s && t[0..] == t;
      return 0;
    }

    // ---------- Difference ----------

    /** Difference: which of the two is smaller, and in out the greater less the smaller, exactly unless a borrow is
        lost. */
    method Difference(rhs: BigInteger, out: BigInteger) returns (ret: bool)
      requires Valid() && rhs.Valid() && Value() != rhs.Value()
      requires out != this && out != rhs && out.digits !in {digits, rhs.digits} && out.digits.Length == CAPACITY
      modifies out`count, out.digits
      ensures out.Valid() && ret == (Value() < rhs.Value())
      ensures var a, b := if ret then rhs.Limbs() else Limbs(), if ret then Limbs() else rhs.Limbs();
        out.Value() == Val(a) - Val(b) <==> !BorrowLost(a, b)
    {
      hide *;
      LimbsAre();
      rhs.LimbsAre();
      var cmp := Compare(rhs);
      if cmp < 0 {
        Subtract(rhs, this, out);
        ret := true;
      } else {
        Subtract(this, rhs, out);
        ret := false;
      }
    }

    /** The loop of Difference, on a greater than b. */
    static method Subtract(a: BigInteger, b: BigInteger, out: BigInteger)
      requires a.Valid() && b.Valid() && a.Value() > b.Value()
      requires out != a && out != b && out.digits !in {a.digits, b.digits} && out.digits.Length == CAPACITY
      modifies out`count, out.digits
      ensures out.Valid()
      ensures out.Value() == Val(a.Limbs()) - Val(b.Limbs()) <==> !BorrowLost(a.Limbs(), b.Limbs())
    {
      hide *;
      a.LimbsAre();
      b.LimbsAre();
      ghost var s, t := a.digits[..a.count], b.digits[..b.count];
      if |s| < |t| { FewerLimbs(s, t); }
      var borrow, i := 0, 0;
      ghost var excess: nat := 0;
      assert out.digits[..0] == [];
      DiffersFirst(s, t);
      CountedFirst(out.count);
      while i < a.count
        invariant i <= a.count && borrow <= 1 && s == a.digits[..a.count] && t == b.digits[..b.count]
        invariant Differs(s, t, out.digits[..i], borrow, excess) && Counted(out.digits[..i], out.count)
      {
        ghost var done := out.digits[..i];
        MinusIs(a.digits[i], borrow, t, i);
        var d := U64(a.digits[i] as int - borrow);
        if i < b.count { d := U64(d as int - b.digits[i]); }
        excess := DiffersStep(s, t, done, borrow, excess);
        CountedStep(done, out.count, d);
        borrow := if d > a.digits[i] then 1 else 0;
        out.digits[i] := d;
        assert out.digits[..i + 1] == done + [d];
        if d != 0 { out.count := i + 1; }
        i := i + 1;
      }
      DiffersLast(s, t, out.digits[..i], borrow, excess);
      CountedLast(out.digits[..i], out.count);
      assert out.digits[..i][..out.count] == out.digits[..out.count];
      out.ValidIf();
    }
  }

  /** 1 shifted to limb k. */
  method OneAt(k: nat) returns (b: BigInteger, overrun: bool)
    requires k < CAPACITY
    ensures fresh(b) && fresh(b.digits) && b.Valid() && b.Value() == Weight(k) && !overrun
  {
    b := new BigInteger.FromWord(1);
    hide *;
    PowPositive(2, 64 * k);
    WeightIsPow(k);
    TimesNone(Pow(2, 64 * k));
    overrun := b.ShiftLeft(64 * k);
  }

  /** From the last limb, by one bit: the limb behind the array is written. */
  method LastLimb() returns (b: BigInteger, overrun: bool)
    ensures fresh(b) && overrun
  {
    hide *;
    BigInteger.CapacityIs();
    b, overrun := OneAt(CAPACITY - 1);
    b.LimbsAre();
    BigInteger.FullCount(b.Limbs());
    overrun := b.ShiftLeft(1);
  }

  lemma FewerLimbs(s: seq<Limb>, t: seq<Limb>)
    requires Normal(s) && Normal(t) && |s| < |t|
    ensures Val(s) < Val(t)
  {
    ValBelow(s);
    ValAtLeast(t);
    WeightGrows(|s|, |t| - 1);
    hide Val, Weight;
  }

  lemma MinusIs(x: Limb, borrow: nat, t: seq<Limb>, i: nat)
    requires borrow <= 1
    ensures i < |t| ==> LimbAt(t, i) == t[i] && Minus(x, borrow, t[i]) == U64(U64(x - borrow) - t[i])
    ensures i >= |t| ==> Minus(x, borrow, LimbAt(t, i)) == U64(x - borrow)
  {
  }

  lemma CountedLast(done: seq<Limb>, c: nat)
    requires Counted(done, c) && Val(done) > 0 && |done| <= CAPACITY
    ensures 0 < c <= |done| && Normal(done[..c]) && Val(done[..c]) == Val(done)
  {
    assert done[..c][c - 1] == done[c - 1];
    hide Val;
  }
}
