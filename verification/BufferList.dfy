/** A circular byte buffer of length-prefixed records. */
module BufferLists {
  import opened Bytes
  import opened Rings
  import opened Words

  const LEN_SIZE: nat := 4 // m_lenSize

  /** The records as they lie in the buffer: each behind its length. */
  function Encoded(queue: seq<seq<byte>>): seq<byte>
    decreases |queue|
  {
    if queue == [] then [] else LE(LEN_SIZE, |queue[0]|) + queue[0] + Encoded(queue[1..])
  }

  lemma {:induction false} EncodedJoin(q: seq<seq<byte>>, r: seq<byte>)
    ensures Encoded(q + [r]) == Encoded(q) + (LE(LEN_SIZE, |r|) + r)
    decreases |q|
  {
    hide LE;
    if q == [] {
      assert q + [r] == [r] && [r][1..] == [];
      assert Encoded([r]) == LE(LEN_SIZE, |r|) + r + [];
    } else {
      assert (q + [r])[0] == q[0] && (q + [r])[1..] == q[1..] + [r];
      EncodedJoin(q[1..], r);
      hide Encoded;
      Regrouped(LE(LEN_SIZE, |q[0]|) + q[0], Encoded(q[1..]), LE(LEN_SIZE, |r|) + r);
    }
  }

  lemma Regrouped(a: seq<byte>, b: seq<byte>, c: seq<byte>)
    ensures a + (b + c) == a + b + c
  {
  }

  lemma {:induction false} EncodedLength(q: seq<seq<byte>>)
    requires forall i :: 0 <= i < |q| ==> q[i] != []
    ensures |Encoded(q)| >= 5 * |q|
    ensures q != [] ==> |Encoded(q)| >= LEN_SIZE + |q[0]|
    decreases |q|
  {
    if q != [] { EncodedLength(q[1..]); }
  }

  /** The front record, in the bytes of all. */
  lemma EncodedFront(q: seq<seq<byte>>)
    requires q != [] && |q[0]| < WORD
    ensures var e, len := Encoded(q), |q[0]|;
      && |e| == LEN_SIZE + len + |Encoded(q[1..])|
      && FromLE(e[..LEN_SIZE]) == len && e[LEN_SIZE..LEN_SIZE + len] == q[0] && e[LEN_SIZE + len..] == Encoded(q[1..])
  {
    WordSizes();
    LERoundTrip(LEN_SIZE, |q[0]|);
    var l := LE(LEN_SIZE, |q[0]|);
    assert Encoded(q) == l + q[0] + Encoded(q[1..]);
    hide LE;
    assert Encoded(q)[..LEN_SIZE] == l;
  }

  /** The end of the ring's used stretch. */
  lemma AheadTwice(n: nat, start: nat, i: nat, j: nat)
    requires start < n && i + j <= n
    ensures Ahead(n, start, i) < n && Ahead(n, Ahead(n, start, i), j) == Ahead(n, start, i + j)
  {
  }

  /** Whether a record is taken: it is not empty, and it leaves at least one byte of room. */
  predicate Fits(queue: seq<seq<byte>>, capacity: nat, data: seq<byte>) {
    data != [] && |Encoded(queue)| + LEN_SIZE + |data| < capacity
  }

  /** Where the records lie and how much room they leave. The room is at least one byte: a record that would fill the
      buffer is refused. */
  ghost predicate LaidOut(buffer: seq<byte>, bufferSize: nat, beginIndex: nat, endIndex: nat, size: nat,
      queue: seq<seq<byte>>) {
    var e := Encoded(queue);
    && bufferSize == |buffer| && 2 < bufferSize && 2 * bufferSize < WORD
    && (forall i :: 0 <= i < |queue| ==> queue[i] != [])
    && |e| < bufferSize - 2
    && beginIndex < bufferSize && size == |queue|
    && endIndex == Ahead(bufferSize, Ahead(bufferSize, beginIndex, 1), |e|)
    && Ring(buffer, Ahead(bufferSize, beginIndex, 1), |e|) == e
  }

  class BufferList {
    var buffer: array<byte>
    var bufferSize: nat
    var beginIndex: nat
    var endIndex: nat
    var size: nat
    var leftSpace: nat
    ghost var queue: seq<seq<byte>> // the records, oldest first

    ghost predicate Laid()
      reads this, buffer
    {
      LaidOut(buffer[..], bufferSize, beginIndex, endIndex, size, queue)
    }

    ghost predicate Valid()
      reads this, buffer
    {
      Laid() && leftSpace == bufferSize - 2 - |Encoded(queue)|
    }

    /** Init of a fresh list. */
    constructor (bufSize: nat)
      requires 0 < bufSize && 2 * (bufSize + 2) < WORD
      ensures Valid() && queue == [] && bufferSize == bufSize + 2 && fresh(buffer)
    {
      leftSpace := bufSize;
      bufferSize := bufSize + 2;
      buffer := new byte[bufSize + 2];
      beginIndex, endIndex, size, queue := 0, 1, 0, [];
    }

    /** memcpy of d to pos on. */
    method CopyIn(pos: nat, d: seq<byte>)
      requires pos < buffer.Length && pos + |d| <= buffer.Length
      modifies buffer
      ensures Written(old(buffer[..]), pos, d, buffer[..])
    {
      var i := 0;
      while i < |d|
        invariant i <= |d|
        invariant forall x :: 0 <= x < buffer.Length ==>
          buffer[x] == if pos <= x < pos + i then d[x - pos] else old(buffer[x])
      {
        buffer[pos + i] := d[i];
        i := i + 1;
      }
      WrittenFlat(old(buffer[..]), pos, d, buffer[..]);
    }

    /** d written from start on, in one piece or, over the end, in two. */
    method PutWrapped(start: nat, d: seq<byte>)
      requires bufferSize == buffer.Length && start < bufferSize && |d| <= bufferSize
      modifies buffer
      ensures Written(old(buffer[..]), start, d, buffer[..])
    {
      var leftLen := bufferSize - start;
      if leftLen >= |d| {
        CopyIn(start, d);
      } else {
        CopyIn(start, d[..leftLen]);
        CopyIn(0, d[leftLen..]);
      }
    }

    /** n bytes read from start on. */
    method GetWrapped(start: nat, n: nat) returns (d: seq<byte>)
      requires bufferSize == buffer.Length && start < bufferSize && n <= bufferSize
      ensures d == Ring(buffer[..], start, n)
    {
      var leftLen := bufferSize - start;
      if leftLen >= n {
        d := buffer[start..start + n];
        RingFlat(buffer[..], start, n);
      } else {
        d := buffer[start..] + buffer[..n - leftLen];
        RingWraps(buffer[..], start, n);
      }
    }

    lemma LaidParts()
      requires Laid()
      ensures bufferSize == buffer.Length && 2 < bufferSize && 2 * bufferSize < WORD
      ensures forall i :: 0 <= i < |queue| ==> queue[i] != []
      ensures |Encoded(queue)| < bufferSize - 2 && beginIndex < bufferSize && size == |queue|
      ensures endIndex == Ahead(bufferSize, beginIndex, 1 + |Encoded(queue)|) < bufferSize
      ensures Ring(buffer[..], Ahead(bufferSize, beginIndex, 1), |Encoded(queue)|) == Encoded(queue)
    {
      hide Encoded, Ring;
      AheadTwice(bufferSize, beginIndex, 1, |Encoded(queue)|);
    }

    lemma LaidIf()
      requires bufferSize == buffer.Length && 2 < bufferSize && 2 * bufferSize < WORD
      requires forall i :: 0 <= i < |queue| ==> queue[i] != []
      requires |Encoded(queue)| < bufferSize - 2 && beginIndex < bufferSize && size == |queue|
      requires endIndex == Ahead(bufferSize, beginIndex, 1 + |Encoded(queue)|)
      requires Ring(buffer[..], Ahead(bufferSize, beginIndex, 1), |Encoded(queue)|) == Encoded(queue)
      ensures Laid()
    {
      hide Encoded, Ring;
      AheadTwice(bufferSize, beginIndex, 1, |Encoded(queue)|);
    }

    lemma SpaceIs()
      ensures Valid() <==> Laid() && leftSpace == bufferSize - 2 - |Encoded(queue)|
    {
      hide Laid, Encoded;
    }

    /** push_back: the record's length and bytes behind the others, each over the end of the buffer if need be. The
        limit the length is held against is an unsigned difference, and so is the sum held against the room: overrun
        says that both wrap, and a record of almost 2^32 bytes is copied into a buffer of less than four. */
    method PushBack(data: seq<byte>) returns (n: nat, overrun: bool)
      requires Valid() && |data| < WORD
      modifies this, buffer
      ensures bufferSize == old(bufferSize) && buffer == old(buffer)
      ensures overrun <==> WORD - LEN_SIZE <= |data| < WORD - LEN_SIZE + (bufferSize - 2) && bufferSize - 2 < LEN_SIZE
      ensures !overrun ==>
        && Valid()
        && queue == old(queue) + (if Fits(old(queue), bufferSize - 2, data) then [data] else [])
        && n == if Fits(old(queue), bufferSize - 2, data) then |data| else 0
    {
      hide *;
      Sizes();
      SpaceIs();
      LaidParts();
      FitsIs(queue, bufferSize - 2, data);
      NarrowEmpty();
      LimitWraps(bufferSize - 2 - LEN_SIZE);
      LimitWraps(|data| + LEN_SIZE);
      assert queue + [] == queue;
      overrun := false;
      if |data| == 0 || |data| > U32(bufferSize - 2 - LEN_SIZE) {
        return 0, false;
      }
      if leftSpace <= U32(|data| + LEN_SIZE) {
        return 0, false;
      }
      if |data| + LEN_SIZE >= WORD {
        return |data|, true;
      }
      leftSpace := leftSpace - |data| - LEN_SIZE;
      ghost var k := |Encoded(queue)|;
      ghost var b := Ahead(bufferSize, beginIndex, 1);
      var lenBytes := LE(LEN_SIZE, |data|);
      AheadIsMod(bufferSize, endIndex, |data| + LEN_SIZE);
      var end := U32(U32(endIndex + |data|) + LEN_SIZE) % bufferSize;
      ghost var s := buffer[..];
      PutWrapped(endIndex, lenBytes);
      ghost var t := buffer[..];
      AheadIsMod(bufferSize, endIndex, LEN_SIZE);
      var next := U32(endIndex + LEN_SIZE) % bufferSize;
      PutWrapped(next, data);
      AheadTwice(bufferSize, beginIndex, 1, k);
      AheadTwice(bufferSize, beginIndex, 1 + k, |data| + LEN_SIZE);
      WrittenTwice(s, endIndex, lenBytes, t, data, buffer[..]);
      WrittenRing(s, b, k, lenBytes + data, buffer[..]);
      EncodedJoin(queue, data);
      endIndex := end;
      size := size + 1;
      queue := queue + [data];
      LaidIf();
      SpaceIs();
      n := |data|;
    }

    static lemma LimitWraps(x: int)
      requires -4 <= x < 2 * WORD
      ensures U32(x) == if x < 0 then x + WORD else if x < WORD then x else x - WORD
    {
    }

    /** A buffer of less than four bytes holds no record. */
    lemma NarrowEmpty()
      requires Laid()
      ensures bufferSize - 2 < LEN_SIZE ==> |Encoded(queue)| == 0
    {
      EncodedLength(queue);
      hide Encoded, Ring;
    }

    static lemma Sizes()
      ensures LEN_SIZE == 4 && WORD == 0x1_0000_0000
    {
    }

    static lemma FitsIs(q: seq<seq<byte>>, capacity: nat, data: seq<byte>)
      ensures Fits(q, capacity, data) <==> data != [] && |Encoded(q)| + LEN_SIZE + |data| < capacity
    {
      hide Encoded;
    }

    /** The length that precedes the front record. */
    method ReadLen(next: nat) returns (len: nat)
      requires Laid() && queue != [] && next == Ahead(bufferSize, beginIndex, 1)
      ensures len == |queue[0]| && LEN_SIZE + len <= |Encoded(queue)|
    {
      hide *;
      Sizes();
      LaidParts();
      EncodedLength(queue);
      FrontFits();
      EncodedFront(queue);
      AheadTwice(bufferSize, beginIndex, 1, 0);
      RingJoin(buffer[..], next, LEN_SIZE, |Encoded(queue)| - LEN_SIZE);
      var raw := GetWrapped(next, LEN_SIZE);
      assert raw == Encoded(queue)[..LEN_SIZE];
      len := FromLE(raw);
    }

    lemma FrontFits()
      requires Laid() && queue != []
      ensures |queue[0]| < WORD
    {
      EncodedLength(queue);
      hide Encoded, Ring;
    }

    /** pop_front. The front record comes out whole, unless the caller's buffer is too small for it: then the prefix has
        already been given back, and that, and nothing else, is wrong with the list from there on. */
    method PopFront(sizeOfData: nat) returns (n: int, outData: seq<byte>)
      requires Valid()
      modifies this
      ensures bufferSize == old(bufferSize) && buffer == old(buffer) && buffer[..] == old(buffer[..])
      ensures Laid()
      ensures
        var tooSmall := old(queue) != [] && 0 < sizeOfData < |old(queue)[0]|;
        && (Valid() <==> !tooSmall)
        && (tooSmall ==> n == -1 && queue == old(queue) && leftSpace == old(leftSpace) + LEN_SIZE)
        && (!tooSmall && old(queue) != [] ==> outData == old(queue)[0] && n == |outData| && queue == old(queue)[1..])
        && (old(queue) == [] ==> n == 0 && outData == [] && queue == [])
    {
      hide *;
      outData := [];
      Sizes();
      SpaceIs();
      LaidParts();
      if size == 0 { return 0, []; }
      EncodedLength(queue);
      AheadIsMod(bufferSize, beginIndex, 1);
      var next := U32(beginIndex + 1) % bufferSize;
      Apart(bufferSize, beginIndex, 1, 1 + |Encoded(queue)|);
      if next == endIndex {
        assert false;
      }
      if bufferSize - 2 - leftSpace < LEN_SIZE {
        assert false;
      } else {
        LaidIs();
        leftSpace := leftSpace + LEN_SIZE;
      }
      LaidIs();
      var len := ReadLen(next);
      AheadTwice(bufferSize, beginIndex, 1, LEN_SIZE);
      AheadIsMod(bufferSize, next, LEN_SIZE);
      next := U32(next + LEN_SIZE) % bufferSize;
      SpaceIs();
      if sizeOfData != 0 && sizeOfData < len {
        return -1, [];
      }
      if len == 0 {
        assert false;
      }
      outData := TakeFront(next, len);
      SpaceIs();
      n := len;
    }

    /** The front record leaves: its bytes, and the indexes. Its prefix has been given back already. */
    method TakeFront(next: nat, len: nat) returns (outData: seq<byte>)
      requires Laid() && queue != [] && len == |queue[0]| && next == Ahead(bufferSize, beginIndex, 1 + LEN_SIZE)
      requires leftSpace == bufferSize - 2 - |Encoded(queue)| + LEN_SIZE
      modifies this`leftSpace, this`size, this`beginIndex, this`queue
      ensures Valid() && outData == old(queue)[0] && queue == old(queue)[1..]
    {
      hide *;
      Sizes();
      LaidParts();
      EncodedLength(queue);
      FrontFits();
      EncodedFront(queue);
      if bufferSize - 2 - leftSpace < len {
        assert false;
      } else {
        leftSpace := leftSpace + len;
      }
      ghost var e, b := Encoded(queue), Ahead(bufferSize, beginIndex, 1);
      AheadTwice(bufferSize, beginIndex, 1, LEN_SIZE);
      RingJoin(buffer[..], b, LEN_SIZE, |e| - LEN_SIZE);
      RingJoin(buffer[..], next, len, |e| - LEN_SIZE - len);
      outData := GetWrapped(next, len);
      TakenApart(e, LEN_SIZE, len, Ring(buffer[..], b, LEN_SIZE), outData,
        Ring(buffer[..], Ahead(bufferSize, next, len), |e| - LEN_SIZE - len));
      size := size - 1;
      AheadIsMod(bufferSize, beginIndex, LEN_SIZE + len);
      AheadTwice(bufferSize, beginIndex, 1 + LEN_SIZE, len);
      AheadTwice(bufferSize, beginIndex, LEN_SIZE + len, 1);
      AheadTwice(bufferSize, beginIndex, LEN_SIZE + len, 1 + (|e| - LEN_SIZE - len));
      beginIndex := U32(U32(beginIndex + LEN_SIZE) + len) % bufferSize;
      queue := queue[1..];
      LaidIf();
      SpaceIs();
    }

    /** Two places of the ring. */
    static lemma Apart(n: nat, start: nat, i: nat, j: nat)
      requires start < n && i < j < n
      ensures Ahead(n, start, i) != Ahead(n, start, j)
    {
    }

    lemma LaidIs()
      ensures Laid() <==> LaidOut(buffer[..], bufferSize, beginIndex, endIndex, size, queue)
    {
    }

    /** A sequence cut in three. */
    static lemma TakenApart(e: seq<byte>, i: nat, j: nat, a: seq<byte>, b: seq<byte>, c: seq<byte>)
      requires e == a + (b + c) && |a| == i && |b| == j
      ensures b == e[i..i + j] && c == e[i + j..]
    {
    }
  }

  /** A record of two bytes taken out into a buffer of one: the record stays, but the list counts its prefix as free
      room. */
  method TooSmall() returns (list: BufferList, n: int)
    ensures fresh(list) && list.bufferSize == 22 && list.queue == [[1, 2]] && n == -1
    ensures list.Laid() && !list.Valid() && list.leftSpace == 18
  {
    hide *;
    BufferList.Sizes();
    list := new BufferList(20);
    list.SpaceIs();
    list.FitsIs([], 20, [1, 2]);
    assert [] + [[1, 2]] == [[1, 2]];
    OneRecord([1, 2]);
    var taken, overrun := list.PushBack([1, 2]);
    list.SpaceIs();
    var d;
    n, d := list.PopFront(1);
  }

  lemma OneRecord(r: seq<byte>)
    ensures |Encoded([])| == 0 && |Encoded([r])| == LEN_SIZE + |r|
  {
    assert [r][1..] == [];
  }
}
