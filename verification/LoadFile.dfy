/** Reading a storage file back: the walk over its headers, with the frees it performs on the way. */
module LoadFile {
  import opened Bytes
  import opened BlockIndex
  import opened BlockRuns
  import opened Reload
  import opened Disk
  import opened DiskSteps
  import opened Words

  // ---------- loading, as values ----------

  function LoadedFile(f: seq<byte>, s: Index, bs: seq<StorageBlock>): seq<byte>
    decreases |bs|
  {
    if bs == [] then f else
    var b := bs[0];
    LoadedFile(if b.state.WaitMergerBlock? then ReleasedFile(f, Entered(s, b), b.begin) else f, LoadStep(s, b), bs[1..])
  }

  /** A load has read the headers before lim, and bs are the ones still to come. */
  ghost predicate Loading(f: seq<byte>, s: Index, bs: seq<StorageBlock>, lim: nat) {
    if bs == [] then WellFormed(s) && OnDisk(f, s, s.fileEnd)
    else OnDisk(f, s, lim) && Chain(bs, lim, s.fileEnd) && forall i :: 0 <= i < |bs| ==> HeaderAt(f, bs[i])
  }

  /** Free looks at a block's place, not at whether it is marked used. */
  lemma PlaceOnly(s: Index, b: StorageBlock)
    ensures var t, u := Entered(s, b), Entered(s, b.(state := UsedBlock));
      && MergedBegin(t, b.begin) == MergedBegin(u, b.begin) && MergedEnd(t, b.begin) == MergedEnd(u, b.begin)
      && MergedLen(t, b.begin) == MergedLen(u, b.begin)
      && t.used - {b.begin} == u.used - {b.begin}
  {
  }

  lemma StateIrrelevant(f: seq<byte>, s: Index, b: StorageBlock)
    ensures var t, u := Entered(s, b), Entered(s, b.(state := UsedBlock));
      && Released(t, b.begin) == Released(u, b.begin)
      && ReleasedFile(f, t, b.begin) == ReleasedFile(f, u, b.begin)
      && MergedEnd(t, b.begin) == MergedEnd(u, b.begin)
  {
    PlaceOnly(s, b);
    hide MergedBegin, MergedEnd, MergedLen, EncodeBlock, LE, PWrite, Truncate, Region;
  }

  lemma EnteredShape(s: Index, b: StorageBlock)
    ensures var u := b.(state := UsedBlock);
      && u.begin == b.begin && u.End() == b.End()
      && Entered(s, u) == Index(s.used[b.begin := u], s.freeBegin, s.freeEnd, s.fileEnd)
  {
  }

  lemma HeaderInside(f: seq<byte>, b: StorageBlock)
    requires HeaderAt(f, b)
    ensures b.begin + HEADER <= |f|
  {
    hide EncodeBlock, Region;
  }

  lemma EnteredOnDisk(f: seq<byte>, s: Index, b: StorageBlock)
    requires OnDisk(f, s, b.begin) && HeaderAt(f, b) && b.End() <= s.fileEnd
    ensures OnDiskBut(f, Entered(s, b.(state := UsedBlock)), b.begin, b.End())
    ensures b.state.UsedBlock? ==> OnDisk(f, Entered(s, b), b.End())
  {
    hide *;
    HeaderInside(f, b);
    var u := b.(state := UsedBlock);
    EnteredShape(s, b);
    OnDiskParts(f, s, b.begin);
    EnteredWellFormedTo(s, u);
    EnteredTiles(s, u);
    NotThere(s.used, b.begin);
    assert s.used[b.begin := u] - {b.begin} == s.used - {b.begin};
    OnDiskButIf(f, Entered(s, u), b.begin, b.End());
    if b.state.UsedBlock? {
      assert u == b;
      HeadersAdd(f, s.used, b);
      OnDiskIf(f, Entered(s, b), b.End());
    }
  }

  lemma OnDiskButIf(f: seq<byte>, s: Index, h: nat, lim: nat)
    requires WellFormedTo(s, lim) && lim <= s.fileEnd < WORD
    requires HeadOk(f, s.fileEnd) && AllHeaders(f, s.used - {h}) && AllHeaders(f, s.freeBegin)
    requires h in s.used && h + HEADER <= |f|
    ensures OnDiskBut(f, s, h, lim)
  {
    hide WellFormedTo, HeadOk, AllHeaders;
  }

  lemma {:induction false} ChainBegins(bs: seq<StorageBlock>, lo: nat, hi: nat)
    requires Chain(bs, lo, hi)
    ensures forall i :: 0 <= i < |bs| ==> lo <= bs[i].begin && bs[i].End() <= hi
    decreases |bs|
  {
    if bs != [] {
      ChainGrows(bs[1..], bs[0].End(), hi);
      ChainBegins(bs[1..], bs[0].End(), hi);
      assert forall i :: 0 < i < |bs| ==> bs[i] == bs[1..][i - 1];
    }
  }

  lemma HeadersKept(f: seq<byte>, f': seq<byte>, bs: seq<StorageBlock>, lim: nat)
    requires SameFrom(f, f', lim)
    requires forall i :: 0 <= i < |bs| ==> HeaderAt(f, bs[i]) && lim <= bs[i].begin
    ensures forall i :: 0 <= i < |bs| ==> HeaderAt(f', bs[i])
  {
    forall i | 0 <= i < |bs| ensures HeaderAt(f', bs[i]) {
      assert Region(f', bs[i].begin, HEADER) == Region(f, bs[i].begin, HEADER);
    }
  }

  lemma LoadingTail(f: seq<byte>, s: Index, bs: seq<StorageBlock>, lim: nat)
    requires Loading(f, s, bs, lim) && bs != []
    ensures OnDisk(f, s, lim) && HeaderAt(f, bs[0]) && bs[0].begin == lim && lim < bs[0].End() <= s.fileEnd
    ensures Chain(bs[1..], bs[0].End(), s.fileEnd)
    ensures bs[1..] == [] <==> bs[0].End() == s.fileEnd
    ensures forall i :: 0 <= i < |bs[1..]| ==> HeaderAt(f, bs[1..][i]) && bs[0].End() <= bs[1..][i].begin
  {
    hide HeaderAt, OnDisk;
    ChainGrows(bs[1..], bs[0].End(), s.fileEnd);
    ChainBegins(bs[1..], bs[0].End(), s.fileEnd);
  }

  lemma LoadingStep(f: seq<byte>, s: Index, bs: seq<StorageBlock>, lim: nat)
    requires Loading(f, s, bs, lim) && bs != []
    ensures var b := bs[0];
      var f', t := if b.state.WaitMergerBlock? then ReleasedFile(f, Entered(s, b), lim) else f, LoadStep(s, b);
      && Loading(f', t, bs[1..], b.End())
      && (bs[1..] == [] ==> t.fileEnd <= b.End())
      && (bs[1..] != [] ==> b.End() < t.fileEnd)
  {
    hide *;
    var b := bs[0];
    LoadingTail(f, s, bs, lim);
    EnteredOnDisk(f, s, b);
    LoadStepKind(s, b);
    if b.state.UsedBlock? {
      UsedStep(f, s, b);
      LoadingIf(f, Entered(s, b), bs[1..], b.End());
    } else {
      FreeStep(f, s, b);
      StateIrrelevant(f, s, b);
      var f', t := ReleasedFile(f, Entered(s, b), lim), Released(Entered(s, b), lim);
      if b.End() != s.fileEnd { HeadersKept(f, f', bs[1..], b.End()); }
      LoadingIf(f', t, bs[1..], b.End());
    }
  }

  lemma LoadStepKind(s: Index, b: StorageBlock)
    ensures LoadStep(s, b) == if b.state.WaitMergerBlock? then Released(Entered(s, b), b.begin) else Entered(s, b)
    ensures b.state == UsedBlock || b.state == WaitMergerBlock
    ensures Entered(s, b).fileEnd == s.fileEnd
  {
    hide Released;
  }

  lemma UsedStep(f: seq<byte>, s: Index, b: StorageBlock)
    requires OnDisk(f, s, b.begin) && OnDisk(f, Entered(s, b), b.End()) && b.state.UsedBlock?
    ensures b.End() == s.fileEnd ==> WellFormed(Entered(s, b))
    ensures b.begin < b.End()
  {
    OnDiskParts(f, s, b.begin);
    OnDiskParts(f, Entered(s, b), b.End());
    EnteredWellFormedTo(s, b);
    assert Entered(s, b).freeEnd == s.freeEnd && Entered(s, b).fileEnd == s.fileEnd;
    assert b.begin < b.End();
    hide *;
    if b.End() == s.fileEnd { WellFormedIf(Entered(s, b)); }
  }

  lemma FreeStep(f: seq<byte>, s: Index, b: StorageBlock)
    requires OnDiskBut(f, Entered(s, b.(state := UsedBlock)), b.begin, b.End()) && b.End() <= s.fileEnd
    ensures var u := Entered(s, b.(state := UsedBlock));
      var f', t := ReleasedFile(f, u, b.begin), Released(u, b.begin);
      && ReleaseSeen(f, u, f', t, b.begin)
      && if b.End() == s.fileEnd then WellFormed(t) && OnDisk(f', t, t.fileEnd) && t.fileEnd <= b.End()
         else OnDisk(f', t, b.End()) && SameFrom(f, f', b.End()) && t.fileEnd == s.fileEnd
  {
    var u := Entered(s, b.(state := UsedBlock));
    assert u.fileEnd == s.fileEnd && u.used[b.begin].End() == b.End();
    hide *;
    OnDiskButParts(f, u, b.begin, b.End());
    MergedRegion(u, b.begin, b.End());
    ReleasedTo(u, b.begin, b.End());
    if b.End() == s.fileEnd { TailSeen(f, u, b.begin, b.End()); } else { MergedSeen(f, u, b.begin, b.End()); }
  }

  lemma LoadingIf(f: seq<byte>, s: Index, bs: seq<StorageBlock>, lim: nat)
    requires bs == [] ==> WellFormed(s) && OnDisk(f, s, s.fileEnd)
    requires bs != [] ==> OnDisk(f, s, lim) && Chain(bs, lim, s.fileEnd) && forall i :: 0 <= i < |bs| ==>
      HeaderAt(f, bs[i])
    ensures Loading(f, s, bs, lim)
  {
    hide WellFormed, OnDisk, Chain, HeaderAt;
  }

  // ---------- loading what the allocator left changes nothing ----------

  lemma PutInPlace(f: seq<byte>, b: StorageBlock)
    requires HeaderAt(f, b)
    ensures PWrite(f, b.begin, EncodeBlock(b)) == f
  {
    var r := PWrite(f, b.begin, EncodeBlock(b));
    forall i | 0 <= i < |f| ensures r[i] == f[i] {
      assert r[i] == ByteAt(r, i) && f[i] == ByteAt(f, i);
      if b.begin <= i < b.begin + HEADER { assert Region(f, b.begin, HEADER)[i - b.begin] == f[i]; }
    }
  }

  lemma LoneMerge(p: Index, b: StorageBlock)
    requires b.begin !in p.freeEnd && b.End() !in p.freeBegin
    ensures var t := Entered(p, b);
      MergedBegin(t, b.begin) == b.begin && MergedEnd(t, b.begin) == b.End() && MergedLen(t, b.begin) == b.len
  {
  }

  lemma ReleaseInPlace(f: seq<byte>, s: Index, b: StorageBlock)
    requires WellFormed(s) && BlockOf(s, b) && b.state.WaitMergerBlock? && HeaderAt(f, b)
    ensures ReleasedFile(f, Entered(Before(s, b.begin), b), b.begin) == f
  {
    hide *;
    var t := Entered(Before(s, b.begin), b);
    BlockStates(s, b);
    BeforeLacks(s, b);
    LoneMerge(Before(s, b.begin), b);
    EnteredHas(Before(s, b.begin), b);
    MergedFile(f, t, b.begin);
    PutInPlace(f, b);
    assert b == StorageBlock(b.begin, b.len, WaitMergerBlock);
  }

  lemma EnteredHas(s: Index, b: StorageBlock)
    ensures b.begin in Entered(s, b).used && Entered(s, b).fileEnd == s.fileEnd
  {
  }

  lemma {:induction false} LoadedFileSame(f: seq<byte>, s: Index, bs: seq<StorageBlock>, lo: nat)
    requires WellFormed(s) && Lists(bs, s, lo) && forall i :: 0 <= i < |bs| ==> HeaderAt(f, bs[i])
    ensures LoadedFile(f, Before(s, lo), bs) == f
    decreases |bs|
  {
    hide WellFormed, Before, BlockOf, Lists, LoadStep, ReleasedFile, HeaderAt, Entered;
    if bs != [] {
      ListsTail(bs, s, lo);
      if bs[0].state.UsedBlock? { UsedStepRestores(s, bs[0]); } else {
        FreeStepRestores(s, bs[0]);
        ReleaseInPlace(f, s, bs[0]);
      }
      LoadedFileSame(f, s, bs[1..], bs[0].End());
    }
  }

  /** Reopening a file the allocator left: not a byte of it changes. */
  lemma ReloadKeepsFile(f: seq<byte>, s: Index, bs: seq<StorageBlock>)
    requires WellFormed(s) && Lists(bs, s, FIRST_BLOCK) && forall i :: 0 <= i < |bs| ==> HeaderAt(f, bs[i])
    ensures LoadedFile(f, EMPTY.(fileEnd := s.fileEnd), bs) == f
  {
    hide *;
    LoadedFileSame(f, s, bs, FIRST_BLOCK);
    BeforeFirst(s);
  }

  /** The list of all blocks in address order, which a walk from the first one produces. */
  lemma {:induction false} BlockList(s: Index, lo: nat) returns (bs: seq<StorageBlock>)
    requires WellFormed(s) && (lo == s.fileEnd || lo in Ends(s))
    ensures Lists(bs, s, lo)
    decreases s.fileEnd - lo
  {
    hide *;
    if lo == s.fileEnd {
      bs := [];
      ListsNil(s);
    } else {
      var b := BlockHere(s, lo);
      var rest := BlockList(s, b.End());
      bs := [b] + rest;
      assert bs[1..] == rest;
      ListsCons(s, bs);
    }
  }

  lemma ListsNil(s: Index)
    ensures Lists([], s, s.fileEnd)
  {
  }

  lemma BlockHere(s: Index, lo: nat) returns (b: StorageBlock)
    requires WellFormed(s) && lo in Ends(s)
    ensures BlockOf(s, b) && b.begin == lo < b.End() <= s.fileEnd && (b.End() == s.fileEnd || b.End() in Ends(s))
  {
    Layout(s, s.fileEnd);
    TilesNext(Ends(s), s.fileEnd);
    EndsKeys(s);
    hide Tiles, Ends, SameFree, Coalesced;
    b := if lo in s.used then s.used[lo] else s.freeBegin[lo];
  }

  lemma ListsCons(s: Index, bs: seq<StorageBlock>)
    requires bs != [] && BlockOf(s, bs[0]) && Lists(bs[1..], s, bs[0].End())
    ensures Lists(bs, s, bs[0].begin)
  {
    hide BlockOf;
    assert forall i :: 0 < i < |bs| ==> bs[i] == bs[1..][i - 1];
  }
}
