/** Digit generation of Grisu2: the fewest digits whose number lies in the rounding interval. */
module DigitGeneration {
  import opened Bytes
  import opened Decimals
  import opened Words

  const MAX_SHIFT_ONE: nat := 0x1000_0000_0000_0000 // 2^60

  function Dist(a: int, b: int): nat {
    if a < b then b - a else a - b
  }

  method CountDecimalDigit32(n: nat) returns (digits: nat)
    requires n < 1000000000
    ensures 1 <= digits <= 9 && n < Pow10(digits)
    ensures n > 0 ==> Pow10(digits - 1) <= n
  {
    Tens();
    if n < 10 { return 1; }
    if n < 100 { return 2; }
    if n < 1000 { return 3; }
    if n < 10000 { return 4; }
    if n < 100000 { return 5; }
    if n < 1000000 { return 6; }
    if n < 10000000 { return 7; }
    if n < 100000000 { return 8; }
    return 9;
  }

  /** Taking k off the last digit. */
  lemma LessLast(s: seq<byte>, t: seq<byte>, k: nat)
    requires |s| == |t| > 0 && s[..|s| - 1] == t[..|t| - 1] && t[|t| - 1] as int == s[|s| - 1] as int - k
    ensures Number(t) == Number(s) - k
  {
  }

  lemma MulOrder(a: int, b: int, c: nat)
    ensures a <= b ==> a * c <= b * c
    ensures (a + 1) * c == a * c + c
  {
  }

  /** The distance from the upper bound when the last digit, of weight ten, has been lowered k times. */
  function Lowered(rest: nat, k: int, ten: nat): int {
    rest + k * ten
  }

  lemma LoweredSteps(rest: nat, k: int, ten: nat)
    ensures Lowered(rest, 0, ten) == rest && Lowered(rest, k + 1, ten) == Lowered(rest, k, ten) + ten
  {
    MulOrder(k, k, ten);
  }

  lemma LoweredOrder(rest: nat, a: int, b: int, ten: nat)
    requires ten > 0
    ensures a <= b <==> Lowered(rest, a, ten) <= Lowered(rest, b, ten)
  {
    MulOrder(a, b, ten);
    MulOrder(b, a, ten);
    MulOrder(b + 1, a, ten);
    MulOrder(b, b, ten);
  }

  /** The last digit is lowered while that stays within delta and comes closer to wpW. rest is the distance from the
      upper bound to the number generated, tenKappa the weight of the last digit. Of all the numbers the last digit can
      be lowered to within delta, the result is the closest; the digit never drops below '0', and no operation
      wraps. */
  method GrisuRound(buffer: array<byte>, len: nat, delta: nat, rest: nat, tenKappa: nat, wpW: nat)
      returns (ghost k: nat)
    requires 0 < len <= buffer.Length && 48 <= buffer[len - 1] <= 57
    requires rest <= delta < TWO64 && 0 < tenKappa < TWO64 && wpW < TWO64
    requires delta <= Lowered(rest, buffer[len - 1] - 48, tenKappa)
    modifies buffer
    ensures Lowered(rest, k, tenKappa) <= delta
    ensures forall j: nat :: Lowered(rest, j, tenKappa) <= delta ==>
      Dist(Lowered(rest, k, tenKappa), wpW) <= Dist(Lowered(rest, j, tenKappa), wpW)
    ensures buffer[len - 1] == old(buffer[len - 1]) - k >= 48
    ensures forall i :: 0 <= i < buffer.Length && i != len - 1 ==> buffer[i] == old(buffer[i])
    ensures delta < Lowered(rest, old(buffer[len - 1]) - 48, tenKappa) ==> buffer[len - 1] > 48
  {
    hide Lowered, U64, Dist;
    ghost var d := buffer[len - 1] - 48;
    var r := rest;
    k := 0;
    LoweredSteps(rest, 0, tenKappa);
    while r < wpW && U64(delta - r) >= tenKappa
      && (U64(r + tenKappa) < wpW || U64(wpW - r) > U64(U64(r + tenKappa) - wpW))
      invariant r == Lowered(rest, k, tenKappa) <= delta
      invariant buffer[len - 1] == d + 48 - k && k <= d
      invariant forall i :: 0 <= i < buffer.Length && i != len - 1 ==> buffer[i] == old(buffer[i])
      invariant forall j: nat :: j < k ==> Dist(r, wpW) <= Dist(Lowered(rest, j, tenKappa), wpW)
      decreases delta - r
    {
      LoweredSteps(rest, k, tenKappa);
      LoweredOrder(rest, k + 1, d, tenKappa);
      Closer(r, tenKappa, wpW);
      buffer[len - 1] := buffer[len - 1] - 1;
      r := U64(r + tenKappa);
      k := k + 1;
    }
    forall j: nat | Lowered(rest, j, tenKappa) <= delta
      ensures Dist(Lowered(rest, k, tenKappa), wpW) <= Dist(Lowered(rest, j, tenKappa), wpW)
    {
      LoweredSteps(rest, k, tenKappa);
      LoweredOrder(rest, k + 1, j, tenKappa);
      if j > k { Farther(r, delta, tenKappa, wpW, Lowered(rest, j, tenKappa)); }
    }
    LoweredOrder(rest, d, k, tenKappa);
  }

  lemma Closer(r: nat, ten: nat, wpW: nat)
    requires r < wpW && (r + ten < wpW || wpW - r > r + ten - wpW)
    ensures Dist(r + ten, wpW) <= Dist(r, wpW)
  {
  }

  /** Where the loop stops, going on does not come closer. */
  lemma Farther(r: nat, delta: nat, ten: nat, wpW: nat, x: int)
    requires r + ten <= x <= delta < TWO64 && wpW < TWO64
    requires !(r < wpW && U64(delta - r) >= ten && (U64(r + ten) < wpW || U64(wpW - r) > U64(U64(r + ten) - wpW)))
    ensures Dist(r, wpW) <= Dist(x, wpW)
  {
  }

  // ---------- the digits ----------

  function Pow2(n: nat): (r: nat)
    ensures r > 0
  {
    if n == 0 then 1 else 2 * Pow2(n - 1)
  }

  lemma {:induction false} Pow2Grows(a: nat, b: nat)
    requires a <= b
    ensures Pow2(a) <= Pow2(b)
    decreases b - a
  {
    if a < b { Pow2Grows(a, b - 1); }
  }

  lemma OneIs(shift: nat)
    requires 32 <= shift <= 60
    ensures Pow2(shift) <= MAX_SHIFT_ONE
  {
    Pow2Grows(shift, 60);
    Pow2Sixty();
  }

  lemma Pow2Sixty()
    ensures Pow2(32) == 0x1_0000_0000 && Pow2(60) == MAX_SHIFT_ONE
  {
    assert Pow2(10) == 1024;
    assert Pow2(20) == 1048576;
    assert Pow2(30) == 1073741824;
    assert Pow2(40) == 1099511627776;
    assert Pow2(50) == 1125899906842624;
  }

  lemma Pow10Nineteen()
    ensures Pow10(19) == 10000000000000000000 > MAX_SHIFT_ONE
  {
    Tens();
    assert Pow10(14) == 100000000000000;
  }

  /** One division of the integral part: the digit, and that the number generated and what is left still add up. */
  lemma IntegralStep(n: int, p1: nat, kappa: nat, p10: nat)
    requires kappa > 0 && n * Pow10(kappa) + p1 == p10 && p1 < Pow10(kappa)
    ensures var unit := Pow10(kappa - 1);
      p1 / unit <= 9 && p1 % unit < unit && (10 * n + p1 / unit) * unit + p1 % unit == p10
        && p1 == p1 / unit * unit + p1 % unit
  {
    var unit := Pow10(kappa - 1);
    var d := p1 / unit;
    assert p1 == d * unit + p1 % unit;
    if d >= 10 { MulOrder(10, d, unit); }
    assert n * (10 * unit) == 10 * n * unit;
    assert (10 * n + d) * unit == 10 * n * unit + d * unit;
  }

  /** The bound on what is left once the integral part is reduced: it is what the number generated falls short by. */
  lemma Short(n: int, p1: nat, unit: nat, one: nat, p2: nat, p10: nat, f: nat)
    requires n * unit + p1 == p10 && f == Left(p10, one, p2)
    ensures n * (unit * one) + Left(p1, one, p2) == f
  {
    assert (n * unit + p1) * one == n * unit * one + p1 * one;
    assert n * unit * one == n * (unit * one);
  }

  /** What is left before a digit d is taken off. */
  lemma Before(tmp: nat, d: nat, unit: nat, one: nat, p1: nat, p1': nat, p2: nat)
    requires p1 == d * unit + p1' && tmp == Left(p1', one, p2)
    ensures Lowered(tmp, d, unit * one) == Left(p1, one, p2)
  {
    assert (d * unit + p1') * one == d * unit * one + p1' * one;
    assert d * unit * one == d * (unit * one);
  }

  // ---------- what is generated: inside the interval, closest, and no shorter ----------

  /** n units are in the interval from f - delta to f. */
  ghost predicate Inside(n: int, unit: nat, f: int, delta: nat) {
    f - delta <= n * unit <= f
  }

  /** No other number of units in the interval is closer to f - wpW. */
  ghost predicate Closest(n: int, unit: nat, f: int, delta: nat, wpW: nat) {
    forall m: nat :: Inside(m, unit, f, delta) ==> Dist(f - n * unit, wpW) <= Dist(f - m * unit, wpW)
  }

  /** No number of ten units is in the interval, but for its lower end when that is not taken. */
  ghost predicate NoShorter(unit: nat, f: int, delta: nat, lowerEnd: bool) {
    forall m: nat :: Inside(m, 10 * unit, f, delta) ==> !lowerEnd && m * (10 * unit) == f - delta
  }

  /** What is left of the interval's upper end below the last digit: where the loop stops. */
  ghost predicate Stops(unit: nat, f: nat, delta: nat, lowerEnd: bool) {
    unit > 0 && if lowerEnd then f % unit <= delta else f % unit < delta
  }

  function Unit(kappa: int, one: nat): nat {
    if kappa >= 0 then Pow10(kappa) * one else one
  }

  function Scaled(x: nat, kappa: int): nat {
    if kappa >= 0 then x else x * Pow10(-kappa)
  }

  /** What the distance from the upper bound is compared with; behind the ninth digit of the fraction it is 0. */
  function Bound(wpW: nat, kappa: int): nat {
    if kappa >= 0 then wpW else U64(wpW * if -kappa < 9 then Pow10(-kappa) else 0)
  }

  /** The decimal digits * 10^kappa: in the interval from f - delta to f, counted in units of 1 / one, of all with this
      exponent the closest, and with a greater exponent there is none. The fraction loop passes over the lower end. */
  ghost predicate Generated(digits: seq<byte>, kappa: int, f: nat, delta: nat, one: nat, wpW: nat) {
    var unit, top, width := Unit(kappa, one), Scaled(f, kappa), Scaled(delta, kappa);
    && Inside(Number(digits), unit, top, width)
    && Closest(Number(digits), unit, top, width, Bound(wpW, kappa))
    && NoShorter(unit, top, width, kappa >= 0) && Stops(unit, top, width, kappa >= 0)
  }

  lemma GeneratedIf(digits: seq<byte>, kappa: int, f: nat, delta: nat, one: nat, wpW: nat, unit: nat, top: nat,
      width: nat, bound: nat)
    requires unit == Unit(kappa, one) && top == Scaled(f, kappa) && width == Scaled(delta, kappa)
      && bound == Bound(wpW, kappa)
    requires Inside(Number(digits), unit, top, width)
    requires Closest(Number(digits), unit, top, width, bound)
    requires NoShorter(unit, top, width, kappa >= 0) && Stops(unit, top, width, kappa >= 0)
    ensures Generated(digits, kappa, f, delta, one, wpW)
  {
    hide Inside, Closest, NoShorter, Stops, Unit, Scaled, Bound, Number;
  }

  /** The number of n units with rest left of f, lowered by k. */
  lemma LoweredIs(n: int, k: int, ten: nat, rest: nat, f: int)
    requires n * ten + rest == f
    ensures (n - k) * ten == f - Lowered(rest, k, ten)
  {
    assert (n - k) * ten == n * ten - k * ten;
  }

  /** What is left is less than a unit: any number of units up to f is this one lowered. */
  lemma AllLowered(n: int, m: int, ten: nat, rest: nat, f: int)
    requires n * ten + rest == f && rest < ten && m * ten <= f
    ensures m <= n
  {
    if m > n { MulOrder(n + 1, m, ten); MulOrder(n, n, ten); }
  }

  /** Lowering the last digit k times leads into the interval, and to the closest number there. */
  lemma Rounded(n: int, k: nat, ten: nat, rest: nat, f: int, delta: nat, wpW: nat)
    requires n * ten + rest == f && rest < ten && Lowered(rest, k, ten) <= delta
    requires forall j: nat :: Lowered(rest, j, ten) <= delta ==>
      Dist(Lowered(rest, k, ten), wpW) <= Dist(Lowered(rest, j, ten), wpW)
    ensures Inside(n - k, ten, f, delta) && Closest(n - k, ten, f, delta, wpW)
  {
    hide Dist;
    LoweredIs(n, k, ten, rest, f);
    MulOrder(0, k, ten);
    forall m: nat | Inside(m, ten, f, delta) ensures Dist(f - (n - k) * ten, wpW) <= Dist(f - m * ten, wpW) {
      AllLowered(n, m, ten, rest, f);
      LoweredIs(n, n - m, ten, rest, f);
      hide Lowered;
    }
    hide Lowered;
  }

  lemma StopsIf(n: nat, ten: nat, rest: nat, f: nat, delta: nat, lowerEnd: bool)
    requires n * ten + rest == f && rest < ten && if lowerEnd then rest <= delta else rest < delta
    ensures Stops(ten, f, delta, lowerEnd)
  {
    Remainder(n, ten, rest, f);
  }

  lemma Remainder(n: nat, ten: nat, rest: nat, f: nat)
    requires n * ten + rest == f && rest < ten
    ensures f % ten == rest
  {
    var q, r := f / ten, f % ten;
    assert q * ten + r == f;
    if q < n { MulOrder(q + 1, n, ten); MulOrder(q, q, ten); }
    if n < q { MulOrder(n + 1, q, ten); MulOrder(n, n, ten); }
  }

  /** With the last digit d left off too much would be left. */
  lemma LastNeeded(n: int, d: nat, ten: nat, rest: nat, f: int, delta: nat, lowerEnd: bool)
    requires (10 * n + d) * ten + rest == f && rest < ten && d <= 9
    requires if lowerEnd then delta < Lowered(rest, d, ten) else delta <= Lowered(rest, d, ten)
    ensures NoShorter(ten, f, delta, lowerEnd)
  {
    var left := Lowered(rest, d, ten);
    LoweredIs(10 * n + d, d, ten, rest, f);
    assert 10 * n * ten == n * (10 * ten);
    MulOrder(d, 9, ten);
    MulOrder(0, d, ten);
    assert n * (10 * ten) + left == f && left < 10 * ten;
    forall m: nat | Inside(m, 10 * ten, f, delta) ensures !lowerEnd && m * (10 * ten) == f - delta {
      AllLowered(n, m, 10 * ten, left, f);
      MulOrder(m, n, 10 * ten);
    }
  }

  lemma UnitFits(unit: nat, one: nat, p10: nat, p2: nat, f: nat)
    requires unit <= p10 && f == Left(p10, one, p2)
    ensures unit * one <= f
  {
    MulOrder(unit, p10, one);
  }

  lemma TmpFits(p1: nat, one: nat, p10: nat, p2: nat, f: nat)
    requires p1 <= p10 && f == Left(p10, one, p2)
    ensures Left(p1, one, p2) <= f
  {
    MulOrder(p1, p10, one);
  }

  lemma PositiveProduct(a: nat, b: nat)
    requires a > 0 && b > 0
    ensures a * b > 0
  {
  }

  /** What is left of the upper bound: p1 in units of one, and p2. */
  function Left(p1: int, one: nat, p2: nat): int {
    p1 * one + p2
  }

  lemma FractionStep(n: int, p2: nat, one: nat, f: nat, e: nat, q: nat)
    requires one > 0 && p2 < one && Left(n, one, p2) == f * Pow10(e) && q == p2 * 10
    ensures q / one <= 9 && q % one < one
    ensures Left(10 * n + q / one, one, q % one) == f * Pow10(e + 1)
    ensures Lowered(q % one, q / one, one) == q
  {
    var d, r := q / one, q % one;
    assert q == d * one + r;
    if d >= 10 { MulOrder(10, d, one); }
    assert (10 * n + d) * one == 10 * (n * one) + d * one;
    ScaleTen(f, e);
    hide Pow10;
  }

  lemma ScaleTen(x: nat, e: nat)
    ensures x * Pow10(e + 1) == 10 * (x * Pow10(e))
  {
  }

  /** The digits of the integral part have been generated down to weight 10^kappa and none may be left off. */
  ghost predicate Integral(digits: seq<byte>, p1: nat, p2: nat, kappa: int, count: nat, p10: nat, delta: nat,
      one: nat) {
    && 0 <= kappa && |digits| + kappa == count
    && Number(digits) * Pow10(kappa) + p1 == p10 && p1 < Pow10(kappa)
    && AreDigits(digits) && (digits != [] ==> digits[0] > 48)
    && Left(p1, one, p2) > delta
  }

  lemma IntegralStart(p1: nat, p2: nat, kappa: nat, delta: nat, one: nat)
    requires p1 < Pow10(kappa) && Left(p1, one, p2) > delta
    ensures Integral([], p1, p2, kappa, kappa, p1, delta, one)
  {
  }

  lemma IntegralIs(digits: seq<byte>, p1: nat, p2: nat, kappa: int, count: nat, p10: nat, delta: nat, one: nat)
    requires Integral(digits, p1, p2, kappa, count, p10, delta, one)
    ensures 0 <= kappa && |digits| + kappa == count
    ensures Number(digits) * Pow10(kappa) + p1 == p10 && p1 < Pow10(kappa)
    ensures AreDigits(digits) && (digits != [] ==> digits[0] > 48)
    ensures Left(p1, one, p2) > delta
    ensures digits == [] ==> p1 == p10
    ensures kappa == 0 ==> p1 == 0 && Number(digits) == p10
  {
    hide AreDigits;
  }

  lemma IntegralIf(digits: seq<byte>, p1: nat, p2: nat, kappa: int, count: nat, p10: nat, delta: nat, one: nat)
    requires 0 <= kappa && |digits| + kappa == count
    requires Number(digits) * Pow10(kappa) + p1 == p10 && p1 < Pow10(kappa)
    requires AreDigits(digits) && (digits != [] ==> digits[0] > 48)
    requires Left(p1, one, p2) > delta
    ensures Integral(digits, p1, p2, kappa, count, p10, delta, one)
  {
  }

  lemma FirstDigit(p1: nat, unit: nat)
    requires 0 < unit <= p1
    ensures p1 / unit > 0
  {
  }

  lemma AppendedDigits(s: seq<byte>, c: byte)
    requires AreDigits(s) && 48 <= c <= 57 && (s != [] ==> s[0] > 48)
    ensures AreDigits(s + [c]) && (s != [] || c > 48 ==> (s + [c])[0] > 48)
  {
  }

  lemma LoweredDigits(t: seq<byte>, u: seq<byte>)
    requires |t| == |u| > 0 && AreDigits(t) && t[0] > 48 && (|t| == 1 ==> u[0] > 48)
    requires forall i :: 0 <= i < |t| - 1 ==> u[i] == t[i]
    requires 48 <= u[|u| - 1] <= t[|t| - 1]
    ensures AreDigits(u) && u[0] > 48
  {
  }

  /** The digit of weight 10^(kappa - 1) goes to the buffer; a leading zero would not, but there is none. */
  method TakeDigit(buffer: array<byte>, len: nat, p1: nat, kappa: nat, ghost p10: nat, ghost count: nat)
    returns (newLen: nat, left: nat, ghost d: nat)
    requires len < buffer.Length && 0 < kappa && len + kappa == count && p1 < Pow10(kappa) && Pow10(count - 1) <= p10
    requires Number(buffer[..len]) * Pow10(kappa) + p1 == p10 && AreDigits(buffer[..len])
      && (len > 0 ==> buffer[0] > 48)
    modifies buffer
    ensures newLen == len + 1 && d <= 9 && p1 == d * Pow10(kappa - 1) + left && left < Pow10(kappa - 1)
    ensures buffer[..newLen] == old(buffer[..len]) + [48 + d] && buffer[len] == 48 + d
    ensures Number(buffer[..newLen]) * Pow10(kappa - 1) + left == p10 && AreDigits(buffer[..newLen]) && buffer[0] > 48
  {
    hide *;
    ghost var s := buffer[..len];
    var unit := Pow10(kappa - 1);
    IntegralStep(Number(s), p1, kappa, p10);
    var digit := p1 / unit;
    d := digit;
    left := p1 % unit;
    newLen := len;
    if len == 0 {
      assert s == [];
      NumberOfNone();
      FirstDigit(p1, unit);
    }
    if digit != 0 || len != 0 {
      buffer[newLen] := 48 + digit;
      newLen := newLen + 1;
    }
    assert buffer[..newLen] == s + [48 + d];
    MoreDigits(s, 48 + d);
    AppendedDigits(s, 48 + d);
  }

  method Split(f: nat, one: nat) returns (p1: nat, p2: nat)
    requires 0 < one <= f < 1000000000 * one
    ensures Left(p1, one, p2) == f && p2 < one && 0 < p1 < 1000000000
  {
    p1 := f / one;
    p2 := f % one;
    if p1 >= 1000000000 { MulOrder(1000000000, p1, one); }
  }

  /** The integral loop of DigitGen. stopped says that it has returned; otherwise the fraction is still to come. */
  method IntegralDigits(f: nat, one: nat, delta: nat, wpW: nat, buffer: array<byte>)
    returns (len: nat, p2: nat, kappa: nat, stopped: bool)
    requires buffer.Length >= 28 && 0 < one <= f < 1000000000 * one && f < TWO64 && 1 <= delta < f && wpW < TWO64
    modifies buffer
    ensures 0 < len <= 9 && AreDigits(buffer[..len]) && buffer[0] > 48
    ensures stopped ==> Generated(buffer[..len], kappa, f, delta, one, wpW)
    ensures !stopped ==> kappa == 0 && p2 < one && delta < p2 && Left(Number(buffer[..len]), one, p2) == f
  {
    hide *;
    var p1: nat;
    p1, p2 := Split(f, one);
    ghost var p10 := p1;
    kappa := CountDecimalDigit32(p1);
    ghost var count := kappa;
    len := 0;
    stopped := false;
    assert buffer[..0] == [];
    IntegralStart(p1, p2, kappa, delta, one);
    while kappa > 0
      invariant len <= count && Integral(buffer[..len], p1, p2, kappa, count, p10, delta, one)
      decreases kappa
    {
      IntegralIs(buffer[..len], p1, p2, kappa, count, p10, delta, one);
      ghost var was, d := p1, 0;
      len, p1, d := TakeDigit(buffer, len, p1, kappa, p10, count);
      kappa := kappa - 1;
      NumberNotNegative(buffer[..len]);
      RemainderFits(p1, p10, one, p2, f, Number(buffer[..len]), kappa);
      var tmp := U64(U64(p1 * one) + p2);
      if tmp <= delta {
        stopped := true;
        Pow10Grows(kappa, count - 1);
        UnitFits(Pow10(kappa), one, p10, p2, f);
        Before(tmp, d, Pow10(kappa), one, was, p1, p2);
        RoundIntegral(buffer, len, kappa, delta, tmp, one, wpW, f, p1, p2, p10, d);
        return;
      }
      IntegralIf(buffer[..len], p1, p2, kappa, count, p10, delta, one);
    }
    IntegralIs(buffer[..len], p1, p2, kappa, count, p10, delta, one);
    IntegralEnd(p1, one, p2);
  }

  lemma IntegralEnd(p1: nat, one: nat, p2: nat)
    ensures p1 == 0 ==> Left(p1, one, p2) == p2
  {
  }

  /** The remainder, shifted back, fits in 64 bits. */
  lemma RemainderFits(p1: nat, p10: nat, one: nat, p2: nat, f: nat, n: int, kappa: nat)
    requires n * Pow10(kappa) + p1 == p10 && n >= 0 && f == Left(p10, one, p2) < TWO64
    ensures U64(U64(p1 * one) + p2) == Left(p1, one, p2) <= f
  {
    MulOrder(0, n, Pow10(kappa));
    TmpFits(p1, one, p10, p2, f);
    hide U64, Pow10;
  }

  /** The return from the integral loop. */
  method RoundIntegral(buffer: array<byte>, len: nat, kappa: nat, delta: nat, tmp: nat, one: nat, wpW: nat,
                       ghost f: nat, ghost p1: nat, ghost p2: nat, ghost p10: nat, ghost d: nat)
    requires 0 < len <= buffer.Length && AreDigits(buffer[..len]) && buffer[0] > 48 && buffer[len - 1] == 48 + d
    requires tmp == Left(p1, one, p2) <= delta < TWO64 && wpW < TWO64 && one > 0 && Pow10(kappa) * one < TWO64
    requires p1 < Pow10(kappa) && p2 < one
    requires f == Left(p10, one, p2) && Number(buffer[..len]) * Pow10(kappa) + p1 == p10
    requires delta < Lowered(tmp, d, Pow10(kappa) * one) && d <= 9
    modifies buffer
    ensures AreDigits(buffer[..len]) && buffer[0] > 48
    ensures Generated(buffer[..len], kappa, f, delta, one, wpW)
  {
    hide *;
    var unit := Pow10(kappa);
    ghost var t := buffer[..len];
    Short(Number(t), p1, unit, one, p2, p10, f);
    LeftBelow(p1, unit, one, p2);
    PositiveProduct(unit, one);
    LastIs(t);
    LastNeeded(Number(t[..len - 1]), d, unit * one, tmp, f, delta, true);
    NumberNotNegative(t);
    StopsIf(Number(t), unit * one, tmp, f, delta, true);
    ghost var k := GrisuRound(buffer, len, delta, tmp, U64(unit * one), wpW);
    assert buffer[..len][..len - 1] == t[..len - 1];
    LessLast(t, buffer[..len], k);
    Rounded(Number(t), k, unit * one, tmp, f, delta, wpW);
    AtWeight(kappa, one, f, delta, wpW);
    GeneratedIf(buffer[..len], kappa, f, delta, one, wpW, unit * one, f, delta, wpW);
    LoweredDigits(t, buffer[..len]);
  }

  lemma AtWeight(kappa: nat, one: nat, f: nat, delta: nat, wpW: nat)
    ensures Unit(kappa, one) == Pow10(kappa) * one && Scaled(f, kappa) == f && Scaled(delta, kappa) == delta
      && Bound(wpW, kappa) == wpW
  {
  }

  lemma LeftBelow(p1: nat, unit: nat, one: nat, p2: nat)
    requires p1 < unit && p2 < one
    ensures Left(p1, one, p2) < unit * one
  {
    MulOrder(p1 + 1, unit, one);
    MulOrder(p1, p1, one);
  }

  lemma LastIs(s: seq<byte>)
    requires s != []
    ensures Number(s) == 10 * Number(s[..|s| - 1]) + (s[|s| - 1] as int - 48)
  {
  }

  /** n digits of the fraction have been generated and none may be left off: the interval and what is left are
      scaled. */
  ghost predicate Fraction(digits: seq<byte>, p2: nat, n: nat, scaled: nat, f: nat, delta: nat, one: nat) {
    && AreDigits(digits) && digits != [] && digits[0] > 48
    && Left(Number(digits), one, p2) == f * Pow10(n) && scaled == delta * Pow10(n)
    && p2 < one && scaled <= p2
  }

  /** Within nineteen digits the interval is wider than what is left. */
  lemma FewDigits(p2: nat, n: nat, scaled: nat, delta: nat, one: nat)
    requires scaled == delta * Pow10(n) && delta >= 1 && scaled <= p2 < one <= MAX_SHIFT_ONE
    ensures n < 19 && 1 <= scaled && one <= MAX_SHIFT_ONE && MAX_SHIFT_ONE * 10 < TWO64
  {
    MulOrder(1, delta, Pow10(n));
    if n >= 19 { Pow10Grows(19, n); }
    Pow10Nineteen();
    hide Pow10;
  }

  lemma FractionStart(digits: seq<byte>, p2: nat, f: nat, delta: nat, one: nat)
    requires AreDigits(digits) && digits != [] && digits[0] > 48 && p2 < one && delta < p2
      && Left(Number(digits), one, p2) == f
    ensures Fraction(digits, p2, 0, delta, f, delta, one)
  {
    Tens();
    hide Pow10, Left, Number, AreDigits;
  }

  lemma FractionIs(digits: seq<byte>, p2: nat, n: nat, scaled: nat, f: nat, delta: nat, one: nat)
    requires Fraction(digits, p2, n, scaled, f, delta, one)
    ensures AreDigits(digits) && digits != [] && digits[0] > 48
    ensures Left(Number(digits), one, p2) == f * Pow10(n) && scaled == delta * Pow10(n)
    ensures p2 < one && scaled <= p2
  {
    hide Pow10, Left, Number, AreDigits;
  }

  /** One more digit of the fraction, before the test. */
  lemma FractionDigit(digits: seq<byte>, p2: nat, n: nat, scaled: nat, f: nat, delta: nat, one: nat, q: nat)
    requires Fraction(digits, p2, n, scaled, f, delta, one) && one > 0 && q == p2 * 10
    ensures q / one <= 9 && q % one < one
    ensures var t := digits + [48 + q / one];
      && AreDigits(t) && t[0] > 48 && |t| == |digits| + 1 && t[|t| - 1] == 48 + q / one
      && Left(Number(t), one, q % one) == f * Pow10(n + 1) && scaled * 10 == delta * Pow10(n + 1)
      && Lowered(q % one, q / one, one) == q
  {
    hide *;
    FractionIs(digits, p2, n, scaled, f, delta, one);
    FractionStep(Number(digits), p2, one, f, n, q);
    MoreDigits(digits, 48 + q / one);
    AppendedDigits(digits, 48 + q / one);
    ScaleTen(delta, n);
  }

  lemma FractionIf(digits: seq<byte>, p2: nat, n: nat, scaled: nat, f: nat, delta: nat, one: nat)
    requires AreDigits(digits) && digits != [] && digits[0] > 48
    requires Left(Number(digits), one, p2) == f * Pow10(n) && scaled == delta * Pow10(n)
    requires p2 < one && scaled <= p2
    ensures Fraction(digits, p2, n, scaled, f, delta, one)
  {
    hide AreDigits, Number, Pow10;
  }

  /** The return from the fraction loop; bound is wp_w times the power of ten of the digits generated. */
  method RoundFraction(buffer: array<byte>, len: nat, ghost n: nat, scaled: nat, p2: nat, one: nat, bound: nat,
                       ghost f: nat, ghost delta: nat, ghost d: nat, ghost wpW: nat)
    requires 1 < len <= buffer.Length && AreDigits(buffer[..len]) && buffer[0] > 48 && buffer[len - 1] == 48 + d
    requires p2 < scaled < TWO64 && bound < TWO64 && p2 < one < TWO64 && n > 0 && bound == Bound(wpW, 0 - n)
    requires Left(Number(buffer[..len]), one, p2) == f * Pow10(n) && scaled == delta * Pow10(n)
    requires scaled <= Lowered(p2, d, one) && d <= 9
    modifies buffer
    ensures AreDigits(buffer[..len]) && buffer[0] > 48
    ensures Generated(buffer[..len], 0 - n, f, delta, one, wpW) && Scaled(delta, 0 - n) < TWO64
  {
    hide *;
    ghost var t, top := buffer[..len], f * Pow10(n);
    LeftIs(Number(t), one, p2);
    LastIs(t);
    LastNeeded(Number(t[..len - 1]), d, one, p2, top, scaled, false);
    NumberNotNegative(t);
    StopsIf(Number(t), one, p2, top, scaled, false);
    ghost var k := GrisuRound(buffer, len, scaled, p2, one, bound);
    assert buffer[..len][..len - 1] == t[..len - 1];
    LessLast(t, buffer[..len], k);
    Rounded(Number(t), k, one, p2, top, scaled, bound);
    BehindPoint(n, one, f, delta);
    GeneratedIf(buffer[..len], 0 - n, f, delta, one, wpW, one, top, scaled, bound);
    LoweredDigits(t, buffer[..len]);
  }

  lemma LeftIs(n: int, one: nat, p2: nat)
    ensures Left(n, one, p2) == n * one + p2
  {
  }

  lemma BehindPoint(n: nat, one: nat, f: nat, delta: nat)
    requires n > 0
    ensures Unit(0 - n, one) == one && Scaled(f, 0 - n) == f * Pow10(n) && Scaled(delta, 0 - n) == delta * Pow10(n)
  {
  }

  lemma BoundIs(n: nat, wpW: nat, tens: nat)
    requires n > 0 && tens == if n < 9 then Pow10(n) else 0
    ensures U64(wpW * tens) == Bound(wpW, 0 - n) < TWO64
  {
  }

  method DivMod(x: nat, one: nat) returns (d: nat, r: nat)
    requires one > 0
    ensures d == x / one && r == x % one
  {
    d, r := x / one, x % one;
  }

  /** The fraction loop of DigitGen: at most nineteen digits, and no product wraps but the closeness bound. */
  method FractionDigits(f: nat, one: nat, delta: nat, wpW: nat, buffer: array<byte>, len0: nat, p20: nat)
    returns (len: nat, kappa: int)
    requires buffer.Length >= 28 && 0 < len0 <= 9 && AreDigits(buffer[..len0]) && buffer[0] > 48
    requires 0 < one <= MAX_SHIFT_ONE && one <= f < TWO64 && 1 <= delta < f && p20 < one && delta < p20
    requires Left(Number(buffer[..len0]), one, p20) == f
    modifies buffer
    ensures len0 < len <= 28 && AreDigits(buffer[..len]) && buffer[0] > 48
    ensures Generated(buffer[..len], kappa, f, delta, one, wpW) && kappa < 0 && Scaled(delta, kappa) < TWO64
  {
    hide *;
    var p2, scaled := p20, delta;
    kappa, len := 0, len0;
    FractionStart(buffer[..len], p2, f, delta, one);
    while true
      invariant -19 < kappa <= 0 && len == len0 - kappa
      invariant Fraction(buffer[..len], p2, -kappa, scaled, f, delta, one)
      decreases kappa + 19
    {
      ghost var s, n := buffer[..len], -kappa;
      FractionIs(s, p2, n, scaled, f, delta, one);
      FewDigits(p2, n, scaled, delta, one);
      ghost var was := p2;
      p2 := U64(p2 * 10);
      scaled := U64(scaled * 10);
      FractionDigit(s, was, n, scaled / 10, f, delta, one, p2);
      ghost var q := p2;
      var d;
      d, p2 := DivMod(p2, one);
      if d != 0 || len != 0 {
        buffer[len] := 48 + d;
        len := len + 1;
      }
      assert buffer[..len] == s + [48 + d];
      kappa := kappa - 1;
      if p2 < scaled {
        var index := -kappa;
        var tens := if index < 9 then Pow10(index) else 0;
        BoundIs(n + 1, wpW, tens);
        RoundFraction(buffer, len, n + 1, scaled, p2, one, U64(wpW * tens), f, delta, d, wpW);
        return;
      }
      FractionIf(buffer[..len], p2, n + 1, scaled, f, delta, one);
      FewDigits(p2, n + 1, scaled, delta, one);
    }
  }

  /** DigitGen: for W the value and Mp the upper bound, both in units of 2^-shift, the digits of buffer times 10^kappa
      lie between Mp - delta and Mp; of all with that exponent they are the closest to what the code compares with, and
      none has a greater one. The first is not '0', at most 28 are written, and the exponent is raised by kappa. */
  method DigitGen(w: nat, mp: nat, shift: nat, delta: nat, buffer: array<byte>, k0: int) returns (len: nat, k: int)
    requires 32 <= shift <= 60 && Pow2(shift) <= mp < TWO64 && mp / Pow2(shift) < 1000000000
    requires 1 <= delta < mp && w < TWO64 && buffer.Length >= 28
    modifies buffer
    ensures 0 < len <= 28 && AreDigits(buffer[..len]) && buffer[0] > 48
    ensures Generated(buffer[..len], k - k0, mp, delta, Pow2(shift), U64(mp - w))
    ensures k < k0 ==> Scaled(delta, k - k0) < TWO64
  {
    hide *;
    var one := Pow2(shift);
    OneIs(shift);
    BelowBillion(mp, one);
    var wpW := U64(mp - w);
    var p2, kappa, stopped;
    len, p2, kappa, stopped := IntegralDigits(mp, one, delta, wpW, buffer);
    if stopped { return len, k0 + kappa; }
    var e;
    len, e := FractionDigits(mp, one, delta, wpW, buffer, len, p2);
    k := k0 + e;
  }

  lemma BelowBillion(f: nat, one: nat)
    requires one > 0 && f / one < 1000000000
    ensures f < 1000000000 * one
  {
    assert f == f / one * one + f % one;
    MulOrder(f / one + 1, 1000000000, one);
  }

  // ---------- no decimal with fewer digits, and none with as many that is closer ----------

  lemma LeadingDigit(s: seq<byte>)
    requires AreDigits(s) && s != [] && s[0] > 48
    ensures Number(s) >= Pow10(|s| - 1)
  {
    var first, rest := s[..1], s[1..];
    assert s == first + rest;
    NumberJoin(first, rest);
    LastIs(first);
    assert first[..0] == [] && Number([]) == 0;
    NumberBelow(rest);
    MulOrder(1, Number(first), Pow10(|rest|));
    hide Number, Pow10;
  }

  lemma ScaledOrder(x: int, y: int, c: nat)
    requires c > 0
    ensures (x <= y <==> x * c <= y * c) && (x < y <==> x * c < y * c)
  {
    MulOrder(x, y, c);
    MulOrder(y, x, c);
    MulOrder(x + 1, y, c);
    MulOrder(y + 1, x, c);
    MulOrder(x, x, c);
    MulOrder(y, y, c);
  }

  /** A number with a greater exponent is a number of ten units. */
  lemma MoreTens(m: nat, a: nat, b: nat, unit: nat)
    requires a > b
    ensures m * Pow10(a) * unit == m * Pow10(a - b - 1) * (10 * unit) * Pow10(b)
  {
    Pow10Add(a - b - 1, b + 1);
    var x, y := Pow10(a - b - 1), Pow10(b);
    assert Pow10(b + 1) == 10 * y;
    hide Pow10;
    Regroup(m, x, y, unit);
  }

  lemma Regroup(m: nat, x: nat, y: nat, unit: nat)
    ensures m * (x * (10 * y)) * unit == m * x * (10 * unit) * y
  {
    assert x * (10 * y) == 10 * (x * y);
    assert m * (10 * (x * y)) == 10 * (m * x * y);
    assert m * x * (10 * unit) == 10 * (m * x * unit);
    assert m * x * unit * y == m * x * y * unit;
  }

  /** A number with fewer digits and no greater exponent is below the power of ten the digits begin with. */
  lemma FewerBelow(m: nat, a: nat, b: nat, p: nat, unit: nat)
    requires a <= b && m < p && unit > 0
    ensures m * Pow10(a) * unit < p * unit * Pow10(b)
  {
    Pow10Grows(a, b);
    hide Pow10;
    Products(m, p, Pow10(a), Pow10(b), unit);
  }

  lemma Products(m: nat, p: nat, x: nat, y: nat, unit: nat)
    requires m < p && 0 < x <= y && unit > 0
    ensures m * x * unit < p * unit * y
  {
    Commuted(m, unit, x);
    ScaledOrder(m, p, unit);
    ScaledOrder(m * unit, p * unit, x);
    if m == 0 { PositiveProduct(p * unit, y); }
    AtMost(p * unit, x, y);
  }

  lemma Commuted(m: nat, unit: nat, x: nat)
    ensures m * x * unit == m * unit * x
  {
  }

  lemma AtMost(c: nat, x: nat, y: nat)
    requires x <= y
    ensures c * x <= c * y
  {
  }

  lemma {:induction false} FewerOutside(n: int, len: nat, unit: nat, top: nat, width: nat, lowerEnd: bool, m: nat,
      a: nat, b: nat)
    requires unit > 0 && width < top && len > 0 && Pow10(len - 1) <= n && m < Pow10(len - 1)
    requires Inside(n, unit, top, width) && NoShorter(unit, top, width, lowerEnd)
    ensures var x := m * Pow10(a) * unit;
      !((top - width) * Pow10(b) < x <= top * Pow10(b)) && (lowerEnd ==> x != (top - width) * Pow10(b))
  {
    if a > b {
      MoreTens(m, a, b, unit);
      var v := m * Pow10(a - b - 1) * (10 * unit);
      ScaledOrder(top - width, v, Pow10(b));
      ScaledOrder(v, top, Pow10(b));
      assert Inside(m * Pow10(a - b - 1), 10 * unit, top, width) <==> top - width <= v <= top;
      hide *;
    } else if len == 1 {
      PositiveProduct(top - width, Pow10(b));
      assert m == 0;
    } else {
      FewerBelow(m, a, b, Pow10(len - 1), unit);
      PowerBelow(n, len, unit, top, width, lowerEnd);
      ScaledOrder(Pow10(len - 1) * unit, top - width, Pow10(b));
      hide *;
    }
  }

  lemma PowerBelow(n: int, len: nat, unit: nat, top: nat, width: nat, lowerEnd: bool)
    requires len > 1 && Pow10(len - 1) <= n && Inside(n, unit, top, width) && NoShorter(unit, top, width, lowerEnd)
    ensures Pow10(len - 1) * unit <= top - width
  {
    var p := Pow10(len - 2);
    assert p * (10 * unit) == Pow10(len - 1) * unit by { assert p * (10 * unit) == 10 * p * unit; }
    MulOrder(Pow10(len - 1), n, unit);
    assert Inside(p, 10 * unit, top, width) <==> top - width <= p * (10 * unit) <= top;
    hide *;
  }

  /** No decimal with fewer digits, whatever its exponent, lies in the interval above its lower end, nor at the lower
      end when the digits are those of an integral number: m * 10^(a - b) is in units of the last digit generated. */
  lemma Shortest(digits: seq<byte>, kappa: int, f: nat, delta: nat, one: nat, wpW: nat, m: nat, a: nat, b: nat)
    requires Generated(digits, kappa, f, delta, one, wpW) && AreDigits(digits) && digits != [] && digits[0] > 48
    requires one > 0 && delta < f && m < Pow10(|digits| - 1)
    ensures var x, top, width := m * Pow10(a) * Unit(kappa, one), Scaled(f, kappa), Scaled(delta, kappa);
      !((top - width) * Pow10(b) < x <= top * Pow10(b)) && (kappa >= 0 ==> x != (top - width) * Pow10(b))
  {
    LeadingDigit(digits);
    UnitPositive(kappa, one, f, delta);
    hide Inside, NoShorter, Closest, Unit, Scaled, Bound, AreDigits, Number, Pow10;
    FewerOutside(Number(digits), |digits|, Unit(kappa, one), Scaled(f, kappa), Scaled(delta, kappa), kappa >= 0, m, a,
      b);
  }

  lemma UnitPositive(kappa: int, one: nat, f: nat, delta: nat)
    requires one > 0 && delta < f
    ensures Unit(kappa, one) > 0 && Scaled(delta, kappa) < Scaled(f, kappa)
  {
    if kappa >= 0 { PositiveProduct(Pow10(kappa), one); } else { ScaledOrder(delta, f, Pow10(-kappa)); }
    hide Pow10;
  }

  /** The digits are the closest to w of all with their exponent in the interval: for an integral number always, and in
      the fraction up to its eighth digit if w is in the interval. */
  lemma Nearest(digits: seq<byte>, kappa: int, f: nat, delta: nat, one: nat, w: nat, m: nat)
    requires w <= f && Generated(digits, kappa, f, delta, one, f - w)
    requires kappa < 0 ==> -9 < kappa && f - w <= delta && Scaled(delta, kappa) < TWO64
    requires Inside(m, Unit(kappa, one), Scaled(f, kappa), Scaled(delta, kappa))
    ensures var unit, v := Unit(kappa, one), Scaled(w, kappa); Dist(Number(digits) * unit, v) <= Dist(m * unit, v)
  {
    var n, unit, top := Number(digits), Unit(kappa, one), Scaled(f, kappa);
    assert Closest(n, unit, top, Scaled(delta, kappa), Bound(f - w, kappa));
    BoundTrue(kappa, f, delta, w);
    hide Unit, Scaled, Bound, Generated, Number;
    assert Dist(top - n * unit, top - Scaled(w, kappa)) == Dist(n * unit, Scaled(w, kappa));
    assert Dist(top - m * unit, top - Scaled(w, kappa)) == Dist(m * unit, Scaled(w, kappa));
  }

  /** The bound passed on does not wrap: it is the scaled distance of w from the upper end. */
  lemma BoundTrue(kappa: int, f: nat, delta: nat, w: nat)
    requires w <= f && (kappa < 0 ==> -9 < kappa && f - w <= delta && Scaled(delta, kappa) < TWO64)
    ensures Scaled(w, kappa) <= Scaled(f, kappa) && Bound(f - w, kappa) == Scaled(f, kappa) - Scaled(w, kappa)
  {
    if kappa < 0 {
      var ten := Pow10(-kappa);
      hide Pow10;
      MulOrder(f - w, delta, ten);
      MulOrder(0, f - w, ten);
      assert (f - w) * ten == f * ten - w * ten;
    }
  }

  /** From the ninth digit of the fraction on the last digit is never lowered: the number is the greatest with its
      exponent in the interval. */
  lemma NeverLowered(digits: seq<byte>, kappa: int, f: nat, delta: nat, one: nat, wpW: nat, m: nat)
    requires kappa <= -9 && Generated(digits, kappa, f, delta, one, wpW)
    requires Inside(m, Unit(kappa, one), Scaled(f, kappa), Scaled(delta, kappa))
    ensures m * Unit(kappa, one) <= Number(digits) * Unit(kappa, one)
  {
    var n, unit, top := Number(digits), Unit(kappa, one), Scaled(f, kappa);
    assert Bound(wpW, kappa) == 0;
    assert Closest(n, unit, top, Scaled(delta, kappa), 0);
    hide Unit, Scaled, Bound, Generated, Number;
  }

  // ---------- a shorter decimal that is passed over ----------

  const MP: nat := 0x1_8040_0000      // 1.5 + 2^-10
  const MP_DELTA: nat := 0x40_0000    // 2^-10
  const MP_ONE: nat := 0x1_0000_0000

  /** 1.5 is the lower end of the interval to 1.5 + 2^-10, and has two digits. The loop goes on behind them. */
  method PassedOver(w: nat) returns (len: nat, k: int)
    requires w < TWO64
    ensures k <= -2 && len >= 3 && Inside(15, MP_ONE, Scaled(MP, -1), Scaled(MP_DELTA, -1))
  {
    var buffer := new byte[28];
    Pow2Sixty();
    len, k := DigitGen(w, MP, 32, MP_DELTA, buffer, 0);
    TenthStops(k, buffer[..len], U64(MP - w));
  }

  lemma TenthStops(k: int, digits: seq<byte>, wpW: nat)
    requires Generated(digits, k, MP, MP_DELTA, MP_ONE, wpW) && AreDigits(digits)
    ensures k <= -2 && |digits| >= 3
  {
    assert Stops(Unit(k, MP_ONE), Scaled(MP, k), Scaled(MP_DELTA, k), k >= 0);
    assert Inside(Number(digits), Unit(k, MP_ONE), Scaled(MP, k), Scaled(MP_DELTA, k));
    hide *;
    NotBefore(k);
    LongEnough(k, digits);
  }

  /** The loop stops neither at the point nor behind the first digit after it. */
  lemma NotBefore(k: int)
    requires Stops(Unit(k, MP_ONE), Scaled(MP, k), Scaled(MP_DELTA, k), k >= 0)
    ensures k <= -2
  {
    TenthScaled();
    if k > 0 {
      Pow10Grows(1, k);
      MulOrder(10, Pow10(k), MP_ONE);
      Remainder(0, Unit(k, MP_ONE), MP, MP);
    }
  }

  lemma TenthScaled()
    ensures Scaled(MP, -1) == 10 * MP && Scaled(MP_DELTA, -1) == 10 * MP_DELTA
  {
  }

  lemma LongEnough(k: int, digits: seq<byte>)
    requires k <= -2 && AreDigits(digits) && Inside(Number(digits), Unit(k, MP_ONE), Scaled(MP, k), Scaled(MP_DELTA, k))
    ensures |digits| >= 3
  {
    Pow10Grows(2, -k);
    Tens();
    NumberBelow(digits);
    if |digits| <= 2 { Pow10Grows(|digits|, 2); }
    hide Number, AreDigits, Pow10;
  }
}
