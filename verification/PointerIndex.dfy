/** The array index of a name, section 4 of RFC 6901: which number Parse gives it. */
module PointerIndex {
  import opened Bytes
  import opened Decimals
  import opened PointerText

  const SIZE: nat := 0x1_0000_0000 // SizeType is 32 bits wide

  /** 0, or digits that do not begin with 0. */
  predicate IsIndexText(name: seq<byte>) {
    && name != [] && (|name| > 1 ==> name[0] != 0x30)
    && forall i :: 0 <= i < |name| ==> 0x30 <= name[i] <= 0x39
  }

  /** With the digit at k the number, cut to 32 bits, becomes smaller. */
  predicate FallsAt(name: seq<byte>, k: nat) {
    k < |name| && AreDigits(name) && Number(name[..k + 1]) % SIZE < Number(name[..k]) % SIZE
  }

  ghost predicate Falls(name: seq<byte>) {
    exists k :: FallsAt(name, k)
  }

  lemma TextIs(name: seq<byte>)
    ensures IsIndexText(name) ==> AreDigits(name)
    ensures IndexOf(name) == if IsIndexText(name) then Fold(name, 0, 0) else 0xFFFF_FFFF
  {
    hide Fold;
  }

  lemma PrefixNumber(name: seq<byte>, j: nat)
    requires AreDigits(name) && j < |name|
    ensures Number(name[..j + 1]) == 10 * Number(name[..j]) + (name[j] - 48) && Number(name[..j]) >= 0
  {
    assert name[..j + 1] == name[..j] + [name[j]];
    MoreDigits(name[..j], name[j]);
    NumberNotNegative(name[..j]);
    hide Number;
  }

  lemma Cut(n: nat, d: nat)
    ensures (10 * (n % SIZE) + d) % SIZE == (10 * n + d) % SIZE
  {
    var q, r := n / SIZE, n % SIZE;
    assert 10 * n + d == 10 * q * SIZE + (10 * r + d);
    Multiple(10 * q, 10 * r + d);
  }

  lemma Multiple(q: nat, x: nat)
    ensures (q * SIZE + x) % SIZE == x % SIZE
  {
  }

  lemma FoldStep(name: seq<byte>, j: nat)
    requires AreDigits(name) && j < |name|
    ensures Number(name[..j]) >= 0
    ensures Fold(name, j, Number(name[..j]) % SIZE) ==
      if FallsAt(name, j) then 0xFFFF_FFFF else Fold(name, j + 1, Number(name[..j + 1]) % SIZE)
  {
    PrefixNumber(name, j);
    Cut(Number(name[..j]), name[j] - 48);
    hide Number;
  }

  lemma {:induction false} FoldIs(name: seq<byte>, j: nat)
    requires AreDigits(name) && j <= |name| && forall k :: 0 <= k < j ==> !FallsAt(name, k)
    ensures Number(name[..j]) >= 0
    ensures Fold(name, j, Number(name[..j]) % SIZE) == if Falls(name) then 0xFFFF_FFFF else Number(name) % SIZE
    decreases |name| - j
  {
    NumberNotNegative(name[..j]);
    if j == |name| {
      assert name[..j] == name;
      assert forall k: nat :: FallsAt(name, k) ==> k < |name|;
    } else {
      FoldStep(name, j);
      hide FallsAt, Fold, Number;
      if !FallsAt(name, j) { FoldIs(name, j + 1); }
    }
  }

  /** A name that is no number has no index, nor has one at which the cut number becomes smaller at some digit; any
      other has its number, cut to 32 bits. */
  lemma IndexIs(name: seq<byte>)
    ensures IndexOf(name) == if !IsIndexText(name) || Falls(name) then 0xFFFF_FFFF else Number(name) % SIZE
  {
    TextIs(name);
    assert name[..0] == [];
    assert Number([]) == 0;
    hide Fold, Number, FallsAt, IndexOf;
    if IsIndexText(name) { FoldIs(name, 0); }
  }

  lemma {:induction false} PrefixSmaller(name: seq<byte>, j: nat)
    requires AreDigits(name) && j <= |name|
    ensures 0 <= Number(name[..j]) <= Number(name)
    decreases |name| - j
  {
    NumberNotNegative(name[..j]);
    if j == |name| {
      assert name[..j] == name;
    } else {
      PrefixNumber(name, j);
      PrefixSmaller(name, j + 1);
    }
    hide Number;
  }

  /** A number that fits is its name's index. */
  lemma SmallIndex(name: seq<byte>)
    requires IsIndexText(name) && Number(name) < SIZE
    ensures IndexOf(name) == Number(name)
  {
    IndexIs(name);
    TextIs(name);
    NumberNotNegative(name);
    hide Number, IndexOf, FallsAt, IsIndexText;
    forall k: nat ensures !FallsAt(name, k) { SmallRises(name, k); }
  }

  lemma SmallRises(name: seq<byte>, k: nat)
    requires AreDigits(name) && Number(name) < SIZE
    ensures !FallsAt(name, k)
  {
    hide Number;
    if k < |name| {
      PrefixSmaller(name, k);
      PrefixSmaller(name, k + 1);
      PrefixNumber(name, k);
    }
  }

  /** One that does not fit is told from an index exactly when the test sees it, or what is left of it happens to be the
      mark for no index. */
  lemma LargeIndex(name: seq<byte>)
    requires IsIndexText(name) && Number(name) >= SIZE
    ensures IndexOf(name) == INVALID_INDEX <==> Falls(name) || Number(name) % SIZE == 0xFFFF_FFFF
  {
    IndexIs(name);
    hide Number, IndexOf, Falls;
  }

  /** The name 10000000000 passes as the index 1410065408. */
  lemma MissedWrap()
    ensures var name := [0x31] + seq(10, _ => 0x30);
      IsIndexText(name) && Number(name) == 10_000_000_000 && IndexOf(name) == 1_410_065_408
  {
    var name: seq<byte> := [0x31] + seq(10, _ => 0x30);
    Zeros(name, 10);
    assert name[..11] == name;
    IndexIs(name);
    hide *;
    forall k: nat ensures !FallsAt(name, k) { ZerosRise(name, k); }
    NotFalls(name);
  }

  lemma NotFalls(name: seq<byte>)
    requires forall k: nat :: !FallsAt(name, k)
    ensures !Falls(name)
  {
    hide FallsAt;
  }

  lemma ZerosRise(name: seq<byte>, k: nat)
    requires |name| == 11 && name[0] == 0x31 && forall i :: 1 <= i <= 10 ==> name[i] == 0x30
    ensures !FallsAt(name, k)
  {
    Tens();
    if 0 < k < 11 {
      Zeros(name, k - 1);
      Zeros(name, k);
      if k < 10 { Pow10Grows(k, 9); }
      Pow10Grows(k - 1, k);
    }
    hide Number, Pow10;
    if k == 0 { assert name[..0] == []; NumberOfNone(); NumberNotNegative(name[..1]); }
  }

  lemma {:induction false} Zeros(name: seq<byte>, n: nat)
    requires |name| == 11 && n <= 10 && name[0] == 0x31 && forall i :: 1 <= i <= 10 ==> name[i] == 0x30
    ensures Number(name[..n + 1]) == Pow10(n) && Pow10(10) == 10_000_000_000
  {
    Tens();
    if n == 0 {
      assert name[..1] == [0x31] && Number([]) == 0;
    } else {
      Zeros(name, n - 1);
      PrefixNumber(name, n);
    }
  }
}
