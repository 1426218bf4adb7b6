/** Whole runs of a storage: what a read through a live handle returns, whatever has come between it and the write. */
module StorageRuns {
  import opened Bytes
  import opened Words
  import opened Storage
  import opened BlockIndex
  import opened Disk

  type Position = p: nat | p < WORD

  datatype Call =
    | Allocate(size: nat)
    | Free(h: nat)
    | Write(h: nat, pos: Position, d: seq<byte>)
    | Read(h: nat, pos: Position, len: nat)
    | Reopen

  /** A call that has returned. A read or a write behind the end of its block is no call a user may make: passed
      over. */
  datatype Event =
    | Allocated(h: nat, size: nat)
    | Freed(h: nat)
    | Wrote(h: nat, pos: Position, d: seq<byte>, ret: int)
    | Got(h: nat, pos: Position, len: nat, ret: int, d: seq<byte>)
    | Reopened
    | PassedOver(h: nat, pos: Position)

  /** The live blocks, and how many bytes of each, from the first on, have reached the file. */
  datatype Heap = Heap(blocks: map<nat, seq<byte>>, reach: map<nat, nat>)

  /** The blocks other than h are as they were, and no less of them is in the file. */
  ghost predicate Others(a: Heap, b: Heap, h: nat) {
    forall k :: k in a.blocks && k != h ==>
      k in b.blocks && b.blocks[k] == a.blocks[k] && k in a.reach && k in b.reach && a.reach[k] <= b.reach[k]
  }

  /** What a call makes of the heap, and what it returns. */
  ghost predicate Follows(a: Heap, e: Event, b: Heap) {
    match e
    case Allocated(h, size) =>
      h !in a.blocks && Others(a, b, h) && b.blocks.Keys == a.blocks.Keys + {h} && |b.blocks[h]| == size
    case Freed(h) => Others(a, b, h) && b.blocks.Keys == a.blocks.Keys - {h}
    case Wrote(h, pos, d, ret) =>
      && ret == (if d == [] then -3 else if h !in a.blocks then -2 else if pos + |d| > |a.blocks[h]| then -4 else |d|)
      && (ret < 0 ==> b == a)
      && (ret >= 0 ==>
            && Others(a, b, h) && b.blocks == a.blocks[h := Patch(a.blocks[h], pos, d)]
            && h in a.reach && h in b.reach && a.reach[h] <= b.reach[h] && pos + |d| <= b.reach[h])
    case Got(h, pos, len, ret, d) =>
      && b == a
      && (len == 0 ==> ret == -3 && d == []) && (len > 0 && h !in a.blocks ==> ret == -2 && d == [])
      && (len > 0 && h in a.blocks ==>
            && h in a.reach && ret == |d| == Portion(a.reach[h], pos, len)
            && pos + |d| <= |a.blocks[h]| && d == a.blocks[h][pos..pos + |d|])
    case Reopened => b == a
    case PassedOver(h, pos) => b == a && h in a.blocks && pos > |a.blocks[h]|
  }

  /** es is a run, and hs are the heaps before, between and behind its events. */
  ghost predicate IsRun(hs: seq<Heap>, es: seq<Event>) {
    |hs| == |es| + 1 && forall k :: 0 <= k < |es| ==> Follows(hs[k], es[k], hs[k + 1])
  }

  // ---------- the last write is what a read returns ----------

  /** The event frees block h, or writes over some of its n bytes from pos on. */
  predicate Touches(e: Event, h: nat, pos: nat, n: nat) {
    (e.Freed? && e.h == h) || (e.Wrote? && e.h == h && e.ret >= 0 && e.pos < pos + n && pos < e.pos + |e.d|)
  }

  /** The bytes d stand in block h at pos, and have reached the file. */
  ghost predicate Carries(a: Heap, h: nat, pos: nat, d: seq<byte>) {
    && h in a.blocks && pos + |d| <= |a.blocks[h]| && a.blocks[h][pos..pos + |d|] == d
    && h in a.reach && pos + |d| <= a.reach[h]
  }

  lemma WriteCarries(a: Heap, e: Event, b: Heap)
    requires Follows(a, e, b) && e.Wrote? && e.ret >= 0
    ensures Carries(b, e.h, e.pos, e.d)
  {
    assert Patch(a.blocks[e.h], e.pos, e.d)[e.pos..e.pos + |e.d|] == e.d;
  }

  lemma PatchElsewhere(s: seq<byte>, at: nat, e: seq<byte>, pos: nat, d: seq<byte>)
    requires at + |e| <= |s| && pos + |d| <= |s| && s[pos..pos + |d|] == d && (at + |e| <= pos || pos + |d| <= at)
    ensures Patch(s, at, e)[pos..pos + |d|] == d
  {
    forall k | 0 <= k < |d| ensures Patch(s, at, e)[pos + k] == d[k] { assert s[pos..pos + |d|][k] == s[pos + k]; }
  }

  lemma StepCarries(a: Heap, e: Event, b: Heap, h: nat, pos: nat, d: seq<byte>)
    requires Follows(a, e, b) && Carries(a, h, pos, d) && d != [] && !Touches(e, h, pos, |d|)
    ensures Carries(b, h, pos, d)
  {
    if e.Wrote? && e.ret >= 0 && e.h == h { PatchElsewhere(a.blocks[h], e.pos, e.d, pos, d); }
    hide Patch;
  }

  lemma {:induction false} StaysCarried(hs: seq<Heap>, es: seq<Event>, i: nat, j: nat, h: nat, pos: nat, d: seq<byte>)
    requires IsRun(hs, es) && i <= j <= |es| && d != [] && Carries(hs[i], h, pos, d)
    requires forall k :: i <= k < j ==> !Touches(es[k], h, pos, |d|)
    ensures Carries(hs[j], h, pos, d)
    decreases j - i
  {
    if i < j {
      assert Follows(hs[i], es[i], hs[i + 1]) && !Touches(es[i], h, pos, |d|);
      hide *;
      StepCarries(hs[i], es[i], hs[i + 1], h, pos, d);
      StaysCarried(hs, es, i + 1, j, h, pos, d);
    }
  }

  lemma ByteCarried(a: Heap, h: nat, pos: nat, d: seq<byte>, x: nat)
    requires Carries(a, h, pos, d) && pos <= x < pos + |d|
    ensures Carries(a, h, x, [d[x - pos]])
  {
    assert a.blocks[h][pos..pos + |d|][x - pos] == a.blocks[h][x];
  }

  lemma ReadCarried(a: Heap, e: Event, b: Heap, x: nat, c: byte)
    requires Follows(a, e, b) && e.Got? && Carries(a, e.h, x, [c]) && e.pos <= x < e.pos + e.len
    ensures x - e.pos < |e.d| && e.d[x - e.pos] == c
  {
    var s := a.blocks[e.h];
    assert s[x..x + 1][0] == s[x];
  }

  /** In every run, byte by byte: what a read returns for byte x of a block is what was last written there through the
      same live handle, whatever allocations, frees, truncations, reopenings and writes elsewhere have come between. */
  lemma LastWritten(hs: seq<Heap>, es: seq<Event>, i: nat, j: nat, x: nat)
    requires IsRun(hs, es) && i < j < |es| && es[i].Wrote? && es[i].ret >= 0 && es[j].Got? && es[j].h == es[i].h
    requires es[i].pos <= x < es[i].pos + |es[i].d| && es[j].pos <= x < es[j].pos + es[j].len
    requires forall k :: i < k < j ==> !Touches(es[k], es[i].h, x, 1)
    ensures x - es[j].pos < |es[j].d| && es[j].d[x - es[j].pos] == es[i].d[x - es[i].pos]
  {
    var w, g := es[i], es[j];
    var c := w.d[x - w.pos];
    assert Follows(hs[i], w, hs[i + 1]) && Follows(hs[j], g, hs[j + 1]);
    hide Follows, IsRun, Touches, Carries;
    WriteCarries(hs[i], w, hs[i + 1]);
    ByteCarried(hs[i + 1], w.h, w.pos, w.d, x);
    StaysCarried(hs, es, i + 1, j, w.h, x, [c]);
    ReadCarried(hs[j], g, hs[j + 1], x, c);
  }

  /** So a read inside the place of an earlier write returns all of what was written there, if nothing has touched what
      is read. */
  lemma WrittenReads(hs: seq<Heap>, es: seq<Event>, i: nat, j: nat)
    requires IsRun(hs, es) && i < j < |es| && es[i].Wrote? && es[i].ret >= 0 && es[j].Got? && es[j].h == es[i].h
    requires es[j].len > 0 && es[i].pos <= es[j].pos && es[j].pos + es[j].len <= es[i].pos + |es[i].d|
    requires forall k :: i < k < j ==> !Touches(es[k], es[i].h, es[j].pos, es[j].len)
    ensures var at := es[j].pos - es[i].pos;
      es[j].ret == es[j].len && es[j].d == es[i].d[at..at + es[j].len]
  {
    var w, g := es[i], es[j];
    assert Follows(hs[j], g, hs[j + 1]);
    GotLength(hs[j], g, hs[j + 1]);
    hide Follows, IsRun;
    forall m | 0 <= m < g.len ensures ByteRead(g, m, w) {
      forall k | i < k < j ensures !Touches(es[k], w.h, g.pos + m, 1) { assert !Touches(es[k], w.h, g.pos, g.len); }
      LastWritten(hs, es, i, j, g.pos + m);
    }
    hide Touches;
    assert ByteRead(g, g.len - 1, w);
    var all := w.d[g.pos - w.pos..g.pos - w.pos + g.len];
    forall m | 0 <= m < |g.d| ensures g.d[m] == all[m] { assert ByteRead(g, m, w); }
  }

  ghost predicate ByteRead(g: Event, m: nat, w: Event)
    requires g.Got? && w.Wrote? && w.pos <= g.pos
  {
    var x := g.pos - w.pos + m;
    m < |g.d| && x < |w.d| && g.d[m] == w.d[x]
  }

  lemma GotLength(a: Heap, e: Event, b: Heap)
    requires Follows(a, e, b) && e.Got? && e.len > 0
    ensures |e.d| > 0 ==> e.ret == |e.d| <= e.len
  {
  }

  // ---------- every run of the storage is such a run ----------

  ghost function HeapOf(s: FileStorage): Heap
    reads s
    requires s.Valid()
  {
    Heap(s.Blocks(), s.Present())
  }

  /** The room the allocations may need. */
  function RoomFor(calls: seq<Call>): nat
    decreases |calls|
  {
    if calls == [] then 0 else (if calls[0].Allocate? then HEADER + calls[0].size else 0) + RoomFor(calls[1..])
  }

  lemma NextRoom(calls: seq<Call>, i: nat)
    requires i < |calls|
    ensures RoomFor(calls[i..]) == (if calls[i].Allocate? then HEADER + calls[i].size else 0) + RoomFor(calls[i + 1..])
  {
    assert calls[i..][1..] == calls[i + 1..];
  }

  /** e is a return of the call. */
  predicate Answers(call: Call, e: Event) {
    match call
    case Allocate(size) => e.Allocated? && e.size == size
    case Free(h) => e == Freed(h)
    case Write(h, pos, d) => (e.Wrote? && e.h == h && e.pos == pos && e.d == d) || e == PassedOver(h, pos)
    case Read(h, pos, len) => (e.Got? && e.h == h && e.pos == pos && e.len == len) || e == PassedOver(h, pos)
    case Reopen => e == Reopened
  }

  lemma HeapIs(s: FileStorage)
    requires s.Valid()
    ensures HeapOf(s) == Heap(s.Blocks(), s.Present())
    ensures s.Blocks().Keys == s.usedBlock.Keys == s.Present().Keys
    ensures forall h :: h in s.usedBlock ==> |s.Blocks()[h]| == s.usedBlock[h].len
  {
    hide WellFormed, OnDisk, Data;
  }

  lemma AllocateFollows(a: Heap, b: Heap, h: nat, d: seq<byte>)
    requires a.blocks.Keys == a.reach.Keys && b.blocks.Keys == b.reach.Keys
    requires h !in a.blocks && b.blocks == a.blocks[h := d] && NoLess(a.reach, b.reach)
    ensures Follows(a, Allocated(h, |d|), b) && Answers(Allocate(|d|), Allocated(h, |d|))
  {
  }

  lemma FreeFollows(a: Heap, b: Heap, h: nat)
    requires a.blocks.Keys == a.reach.Keys && b.blocks.Keys == b.reach.Keys
    requires b.blocks == a.blocks - {h} && NoLess(a.reach, b.reach)
    ensures Follows(a, Freed(h), b) && Answers(Free(h), Freed(h))
  {
  }

  lemma WriteFollows(a: Heap, b: Heap, h: nat, pos: Position, d: seq<byte>, ret: int)
    requires a.blocks.Keys == a.reach.Keys && b.blocks.Keys == b.reach.Keys
    requires ret == if d == [] then -3 else if h !in a.blocks then -2 else if pos + |d| > |a.blocks[h]| then -4 else |d|
    requires ret < 0 ==> b == a
    requires ret >= 0 ==>
      NoLess(a.reach, b.reach) && b.blocks == a.blocks[h := Patch(a.blocks[h], pos, d)] && pos + |d| <= b.reach[h]
    ensures Follows(a, Wrote(h, pos, d, ret), b) && Answers(Write(h, pos, d), Wrote(h, pos, d, ret))
  {
    hide Patch;
  }

  lemma ReadFollows(a: Heap, h: nat, pos: Position, len: nat, ret: int, d: seq<byte>)
    requires a.blocks.Keys == a.reach.Keys
    requires len == 0 ==> ret == -3 && d == []
    requires len > 0 && h !in a.blocks ==> ret == -2 && d == []
    requires len > 0 && h in a.blocks ==>
      && ret == |d| == Portion(a.reach[h], pos, len)
      && pos + |d| <= |a.blocks[h]| && d == a.blocks[h][pos..pos + |d|]
    ensures Follows(a, Got(h, pos, len, ret, d), a) && Answers(Read(h, pos, len), Got(h, pos, len, ret, d))
  {
    hide Portion;
  }

  lemma PassedFollows(a: Heap, h: nat, pos: Position, len: nat, d: seq<byte>)
    requires h in a.blocks && pos > |a.blocks[h]|
    ensures var e := PassedOver(h, pos);
      Follows(a, e, a) && Answers(Read(h, pos, len), e) && Answers(Write(h, pos, d), e)
  {
  }

  method StepAllocate(s: FileStorage, size: nat) returns (e: Event)
    requires s.Valid() && s.fileEndIndex + HEADER + size < WORD
    modifies s
    ensures s.Valid() && Follows(old(HeapOf(s)), e, HeapOf(s)) && Answers(Allocate(size), e)
    ensures s.fileEndIndex <= old(s.fileEndIndex) + HEADER + size
  {
    hide *;
    ghost var a := HeapOf(s);
    HeapIs(s);
    var h := s.Allocate(size);
    HeapIs(s);
    AllocateFollows(a, HeapOf(s), h, s.Blocks()[h]);
    e := Allocated(h, size);
  }

  method StepFree(s: FileStorage, h: nat) returns (e: Event)
    requires s.Valid()
    modifies s
    ensures s.Valid() && Follows(old(HeapOf(s)), e, HeapOf(s)) && Answers(Free(h), e)
    ensures s.fileEndIndex <= old(s.fileEndIndex)
  {
    hide *;
    ghost var a := HeapOf(s);
    HeapIs(s);
    var ok := s.Free(h);
    HeapIs(s);
    FreeFollows(a, HeapOf(s), h);
    e := Freed(h);
  }

  method StepWrite(s: FileStorage, h: nat, pos: Position, d: seq<byte>) returns (e: Event)
    requires s.Valid()
    modifies s
    ensures s.Valid() && Follows(old(HeapOf(s)), e, HeapOf(s)) && Answers(Write(h, pos, d), e)
    ensures s.fileEndIndex == old(s.fileEndIndex)
  {
    hide *;
    ghost var a := HeapOf(s);
    HeapIs(s);
    if h in s.usedBlock && pos > s.usedBlock[h].len {
      PassedFollows(a, h, pos, 0, d);
      return PassedOver(h, pos);
    }
    var ret := s.Write(h, pos, d);
    HeapIs(s);
    WriteFollows(a, HeapOf(s), h, pos, d, ret);
    e := Wrote(h, pos, d, ret);
  }

  method StepRead(s: FileStorage, h: nat, pos: Position, len: nat) returns (e: Event)
    requires s.Valid()
    ensures Follows(HeapOf(s), e, HeapOf(s)) && Answers(Read(h, pos, len), e)
  {
    hide *;
    HeapIs(s);
    if h in s.usedBlock && pos > s.usedBlock[h].len {
      PassedFollows(HeapOf(s), h, pos, len, []);
      return PassedOver(h, pos);
    }
    var ret, d := s.Read(h, pos, len);
    ReadFollows(HeapOf(s), h, pos, len, ret, d);
    e := Got(h, pos, len, ret, d);
  }

  method StepReopen(s: FileStorage) returns (e: Event)
    requires s.Valid()
    modifies s
    ensures s.Valid() && Follows(old(HeapOf(s)), e, HeapOf(s)) && Answers(Reopen, e)
    ensures s.fileEndIndex == old(s.fileEndIndex)
  {
    ghost var a := HeapOf(s);
    s.Reopen();
    e := Reopened;
    assert s.Idx().used == old(s.Idx().used);
    hide WellFormed, OnDisk, Data;
  }

  method Step(s: FileStorage, call: Call) returns (e: Event)
    requires s.Valid() && (call.Allocate? ==> s.fileEndIndex + HEADER + call.size < WORD)
    modifies s
    ensures s.Valid() && Follows(old(HeapOf(s)), e, HeapOf(s)) && Answers(call, e)
    ensures s.fileEndIndex <= old(s.fileEndIndex) + if call.Allocate? then HEADER + call.size else 0
  {
    hide *;
    match call {
      case Allocate(size) => e := StepAllocate(s, size);
      case Free(h) => e := StepFree(s, h);
      case Write(h, pos, d) => e := StepWrite(s, h, pos, d);
      case Read(h, pos, len) => e := StepRead(s, h, pos, len);
      case Reopen => e := StepReopen(s);
    }
  }

  /** es are returns of the first |es| calls, hs the heaps between them. */
  ghost predicate Returned(calls: seq<Call>, hs: seq<Heap>, es: seq<Event>) {
    IsRun(hs, es) && |es| <= |calls| && forall k :: 0 <= k < |es| ==> Answers(calls[k], es[k])
  }

  lemma RunGrows(calls: seq<Call>, hs: seq<Heap>, es: seq<Event>, e: Event, b: Heap)
    requires Returned(calls, hs, es) && |es| < |calls| && Follows(hs[|es|], e, b) && Answers(calls[|es|], e)
    ensures Returned(calls, hs + [b], es + [e])
    ensures (hs + [b])[0] == hs[0] && (hs + [b])[|es| + 1] == b
  {
    hide Follows, Answers;
  }

  /** Any calls one after the other, with the heaps between them. */
  method Perform(s: FileStorage, calls: seq<Call>) returns (es: seq<Event>, ghost hs: seq<Heap>)
    requires s.Valid() && s.fileEndIndex + RoomFor(calls) < WORD
    modifies s
    ensures s.Valid() && Returned(calls, hs, es) && |es| == |calls|
    ensures hs[0] == old(HeapOf(s)) && hs[|es|] == HeapOf(s)
  {
    es, hs := [], [HeapOf(s)];
    assert calls[0..] == calls;
    hide Follows, Answers, RoomFor, HeapOf, FileStorage.Valid;
    var i := 0;
    while i < |calls|
      invariant i <= |calls| && |es| == i && |hs| == i + 1 && s.Valid() && Returned(calls, hs, es)
      invariant hs[0] == old(HeapOf(s)) && hs[i] == HeapOf(s)
      invariant s.fileEndIndex + RoomFor(calls[i..]) < WORD
    {
      hide *;
      NextRoom(calls, i);
      var e := Step(s, calls[i]);
      RunGrows(calls, hs, es, e, HeapOf(s));
      es, hs := es + [e], hs + [HeapOf(s)];
      i := i + 1;
    }
  }
}
