/** A bounded queue in a circular array, with bulk push and pop. */
module ArrayLists {
  import opened Rings

  /** What push_all comes to: how many elements are left over, or a memcpy of a negative size, which has no defined
      effect. */
  datatype Pushed = Left(n: int) | NegativeCopy

  class ArrayList<T(0)> {
    const data: array<T>  // m_DataArray; its length is m_ArraySize
    var beginIndex: int
    var endIndex: int

    /** beginIndex as a place of the ring: the bulk pop may leave -1. */
    ghost function Begin(): int
      reads this
    {
      if beginIndex == -1 then data.Length - 1 else beginIndex
    }

    ghost function Count(): int
      reads this
    {
      if endIndex > Begin() then endIndex - Begin() - 1 else endIndex - Begin() - 1 + data.Length
    }

    /** The elements lie between Begin() and endIndex, at most data.Length - 2 of them. */
    ghost predicate Laid()
      reads this
    {
      && 2 <= data.Length && 0 <= endIndex < data.Length && -1 <= beginIndex < data.Length
      && Begin() != endIndex
    }

    ghost predicate Valid()
      reads this
    {
      Laid() && beginIndex >= 0
    }

    ghost function Contents(): (c: seq<T>)
      reads this, data
    {
      if Laid() then Ring(data[..], Ahead(data.Length, Begin(), 1), Count()) else []
    }

    ghost function Capacity(): int {
      data.Length - 2
    }

    constructor (arraySize: nat)
      ensures Valid() && Contents() == [] && Capacity() == arraySize && fresh(data) && beginIndex == 0 && endIndex == 1
    {
      data := new T[arraySize + 2];
      beginIndex, endIndex := 0, 1;
    }

    lemma LaidIs()
      requires Laid()
      ensures 2 <= data.Length && 0 <= Begin() < data.Length && 0 <= endIndex < data.Length
        && 0 <= Count() <= Capacity()
      ensures Contents() == Ring(data[..], Ahead(data.Length, Begin(), 1), Count()) && |Contents()| == Count()
      ensures endIndex == Ahead(data.Length, Ahead(data.Length, Begin(), 1), Count())
      ensures Capacity() == data.Length - 2
    {
    }

    /** full: exact unless beginIndex is -1, when it never says so. */
    method Full() returns (full: bool)
      requires Laid()
      ensures beginIndex >= 0 ==> (full <==> |Contents()| == Capacity())
      ensures beginIndex == -1 ==> !full
    {
      LaidIs();
      AheadIsMod(data.Length, endIndex, 1);
      full := (endIndex + 1) % data.Length == beginIndex;
      hide Ring;
    }

    method Empty() returns (empty: bool)
      requires Laid()
      ensures empty <==> Contents() == []
    {
      LaidIs();
      AheadIsMod(data.Length, Begin(), 1);
      if beginIndex == -1 { SmallMod(0, data.Length); }
      empty := (beginIndex + 1) % data.Length == endIndex;
      hide Ring;
    }

    method Size() returns (n: int)
      requires Laid()
      ensures n == |Contents()|
    {
      LaidIs();
      n := endIndex - beginIndex - 1;
      if n < 0 { n := n + data.Length; }
      hide Ring;
    }

    /** push_back. With beginIndex at -1 a full queue is not seen to be full, and the element overruns it. */
    method PushBack(x: T) returns (ok: bool)
      requires Laid()
      modifies this`endIndex, data
      ensures Laid() <==> !(beginIndex == -1 && |old(Contents())| == Capacity())
      ensures Laid() && |old(Contents())| < Capacity() ==> ok && Contents() == old(Contents()) + [x]
      ensures Laid() && |old(Contents())| == Capacity() ==> !ok && Contents() == old(Contents())
      ensures ok ==> endIndex == (if old(endIndex) + 1 < data.Length then old(endIndex) + 1 else 0)
    {
      LaidIs();
      AheadIsMod(data.Length, endIndex, 1);
      ghost var s, b, k := data[..], Ahead(data.Length, Begin(), 1), Count();
      hide Ring;
      var next := (endIndex + 1) % data.Length;
      ok := next != beginIndex;
      if ok {
        data[endIndex] := x;
        if k < Capacity() { WrittenRing(s, b, k, [x], data[..]); }
        endIndex := next;
      }
    }

    /** pop_front. It also brings a beginIndex of -1 back into the ring. */
    method PopFront() returns (ok: bool, x: T)
      requires Laid()
      modifies this`beginIndex
      ensures old(Contents()) == [] ==> !ok && Laid() && Contents() == [] && beginIndex == old(beginIndex)
      ensures old(Contents()) != [] ==> ok && Valid() && x == old(Contents())[0] && Contents() == old(Contents())[1..]
      ensures ok ==> beginIndex == (if old(beginIndex) + 1 < data.Length then old(beginIndex) + 1 else 0)
    {
      LaidIs();
      AheadIsMod(data.Length, Begin(), 1);
      if beginIndex == -1 { SmallMod(0, data.Length); }
      ghost var c, b, k := Contents(), Ahead(data.Length, Begin(), 1), Count();
      var next := (beginIndex + 1) % data.Length;
      x := data[next];
      ok := next != endIndex;
      if ok {
        RingJoin(data[..], b, 1, k - 1);
        assert c[0] == x;
        beginIndex := next;
        assert Contents() == c[1..];
      }
    }

    /** memcpy of d to pos on. */
    method CopyIn(pos: nat, d: seq<T>)
      requires pos < data.Length && pos + |d| <= data.Length
      modifies data
      ensures Written(old(data[..]), pos, d, data[..])
    {
      var i := 0;
      while i < |d|
        invariant i <= |d|
        invariant forall x :: 0 <= x < data.Length ==>
          data[x] == if pos <= x < pos + i then d[x - pos] else old(data[x])
      {
        data[pos + i] := d[i];
        i := i + 1;
      }
      WrittenFlat(old(data[..]), pos, d, data[..]);
    }

    /** How many of n elements push_all takes. */
    ghost function Taken(n: nat): (m: nat)
      reads this
      ensures m <= n
    {
      var room := Capacity() - Count();
      if 0 <= room < n then room else n
    }

    lemma TakenIs(n: nat)
      requires Laid()
      ensures Taken(n) == if n <= Capacity() - Count() then n else Capacity() - Count()
    {
      LaidIs();
      hide Ring;
    }

    /** push_all has the effect of push_back on each element in turn until the list is full, and returns how many are
        left. With beginIndex at -1 it does so if and only if there is room for all of d; one element more overruns the
        list, and with more than that it copies a negative number of bytes. */
    method PushAll(d: seq<T>) returns (r: Pushed)
      requires Laid()
      modifies this`endIndex, data
      ensures beginIndex >= 0 ==>
        var m := old(Taken(|d|));
        Valid() && Contents() == old(Contents()) + d[..m] && r == Left(|d| - m)
      ensures beginIndex == -1 ==>
        (Laid() && r == Left(0) && Contents() == old(Contents()) + d <==> |d| <= Capacity() - |old(Contents())|)
      ensures beginIndex == -1 && |d| == Capacity() - |old(Contents())| + 1 ==> r == Left(0) && !Laid()
      ensures beginIndex == -1 ==> (r == NegativeCopy <==> |d| > Capacity() - |old(Contents())| + 1)
    {
      LaidIs();
      TakenIs(|d|);
      ghost var s, b, k, m := data[..], Ahead(data.Length, Begin(), 1), Count(), Taken(|d|);
      hide Ring;
      r := PutAll(d, m);
      if beginIndex >= 0 || |d| <= Capacity() - k {
        assert d[..m] == d || beginIndex >= 0;
        WrittenRing(s, b, k, d[..m], data[..]);
      }
    }

    /** The cases of push_all: the taken part is written from endIndex on, over the end of the array if need be. */
    method PutAll(d: seq<T>, ghost m: nat) returns (r: Pushed)
      requires Laid() && m == Taken(|d|)
      modifies this`endIndex, data
      ensures beginIndex >= 0 || |d| <= Capacity() - old(Count()) ==>
        && Written(old(data[..]), old(endIndex), d[..m], data[..]) && r == Left(|d| - m)
        && endIndex == Ahead(data.Length, old(endIndex), m)
      ensures beginIndex == -1 && |d| == Capacity() - old(Count()) + 1 ==> r == Left(0) && endIndex == Begin()
      ensures beginIndex == -1 && |d| > Capacity() - old(Count()) + 1 ==> r == NegativeCopy
    {
      LaidIs();
      TakenIs(|d|);
      hide Ring, Taken;
      var num;
      if endIndex < beginIndex {
        num := beginIndex - endIndex - 1;
        if num >= |d| {
          CopyIn(endIndex, d);
          assert d[..m] == d;
          endIndex := endIndex + |d|;
          return Left(0);
        } else {
          CopyIn(endIndex, d[..num]);
          endIndex := beginIndex - 1;
          return Left(|d| - num);
        }
      }
      num := data.Length - endIndex - 1;
      if num >= |d| {
        CopyIn(endIndex, d);
        assert m == |d| ==> d[..m] == d;
        endIndex := endIndex + |d|;
        return Left(0);
      }
      if beginIndex == 0 {
        CopyIn(endIndex, d[..num]);
        endIndex := data.Length - 1;
        return Left(|d| - num);
      }
      r := PutAround(d, num + 1, m);
    }

    /** Up to the last place of the array, then on from the first; how much on, beginIndex says, and it may be -1. */
    method PutAround(d: seq<T>, num: nat, ghost m: nat) returns (r: Pushed)
      requires -1 <= beginIndex < endIndex < data.Length && beginIndex != 0 && 0 <= endIndex
      requires num == data.Length - endIndex <= |d|
      requires beginIndex > 0 ==> m == (if |d| <= num + beginIndex - 1 then |d| else num + beginIndex - 1)
      modifies this`endIndex, data
      ensures beginIndex > 0 ==>
        && Written(old(data[..]), old(endIndex), d[..m], data[..]) && r == Left(|d| - m)
        && endIndex == Ahead(data.Length, old(endIndex), m)
      ensures beginIndex == -1 ==> r == NegativeCopy
    {
      hide *;
      ghost var s := data[..];
      CopyIn(endIndex, d[..num]);
      ghost var t := data[..];
      if beginIndex > 0 {
        EndOfRing(data.Length, endIndex, num, m);
        assert d[..m] == d[..num] + d[num..m];
      }
      if beginIndex - 1 >= |d| - num {
        assert d[num..] == d[num..m];
        CopyIn(0, d[num..]);
        endIndex := |d| - num;
        r := Left(0);
      } else if beginIndex - 1 >= 0 {
        CopyIn(0, d[num..num + (beginIndex - 1)]);
        endIndex := beginIndex - 1;
        r := Left(|d| - num - (beginIndex - 1));
      } else {
        return NegativeCopy;
      }
      WrittenTwice(s, old(endIndex), d[..num], t, d[num..m], data[..]);
    }

    static lemma EndOfRing(n: nat, start: nat, num: nat, m: nat)
      requires start < n && num == n - start && num <= m <= n
      ensures Ahead(n, start, num) == 0 && Ahead(n, start, m) == m - num
    {
    }

    /** pop_all has the effect of pop_front until the list is empty. Where endIndex is 0 it leaves beginIndex at -1. */
    method PopAll() returns (d: seq<T>)
      requires Laid()
      modifies this`beginIndex
      ensures Laid() && d == old(Contents()) && Contents() == []
      ensures beginIndex == endIndex - 1 && (Valid() <==> endIndex != 0)
    {
      LaidIs();
      AheadIsMod(data.Length, Begin(), 1);
      ghost var b, k := Ahead(data.Length, Begin(), 1), Count();
      if endIndex > beginIndex {
        var num := endIndex - beginIndex - 1;
        d := data[beginIndex + 1..beginIndex + 1 + num];
        if num > 0 { RingFlat(data[..], b, num); }
        beginIndex := endIndex - 1;
      } else {
        var num := data.Length - beginIndex - 1;
        d := data[beginIndex + 1..] + data[..endIndex];
        if num > 0 { RingWraps(data[..], b, k); } else { RingFlat(data[..], 0, k); }
        beginIndex := endIndex - 1;
      }
    }
  }

  /** What the -1 costs, on a list for one element: after push_back, pop_front, push_back and pop_all it takes two. */
  method Overrun() returns (list: ArrayList<int>)
    ensures fresh(list) && list.Capacity() == 1 && !list.Laid()
  {
    list := Emptied();
    var ok := list.PushBack(3);
    var full := list.Full();
    assert !full && |list.Contents()| == 1;
    ok := list.PushBack(4);
  }

  /** A list for one element in the state that pop_all leaves when endIndex is 0. */
  method Emptied() returns (list: ArrayList<int>)
    ensures fresh(list) && fresh(list.data) && list.Capacity() == 1 && list.Laid() && list.Contents() == []
    ensures list.beginIndex == -1
  {
    list := new ArrayList<int>(1);
    var ok := list.PushBack(1);
    var x;
    ok, x := list.PopFront();
    ok := list.PushBack(2);
    assert list.endIndex == 0;
    var all := list.PopAll();
  }

  /** In that state push_all of one element works, of two overruns the list, and of three copies a negative size. */
  method OverrunAll() returns (one: ArrayList<int>, two: ArrayList<int>, three: Pushed)
    ensures fresh(one) && one.Laid() && one.Contents() == [1] && one.Capacity() == 1
    ensures fresh(two) && !two.Laid() && two.Capacity() == 1
    ensures three == NegativeCopy
  {
    one := Emptied();
    var r := one.PushAll([1]);
    two := Emptied();
    r := two.PushAll([1, 2]);
    var list := Emptied();
    three := list.PushAll([1, 2, 3]);
  }
}
