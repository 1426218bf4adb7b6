/** The first-fit allocator over a byte file: a heap of byte strings, one for each live handle. */
module Storage {
  import opened Bytes
  import opened BlockIndex
  import opened BlockRuns
  import opened Reload
  import opened Disk
  import opened DiskSteps
  import opened LoadFile
  import opened LoadKeeps
  import opened Words

  /** How many data bytes of each block are inside the file. */
  function Reaches(f: seq<byte>, m: BlockMap): map<nat, nat> {
    map h | h in m :: Reach(f, m[h])
  }

  /** What has stayed of the blocks has stayed in the file. */
  ghost predicate NoLess(a: map<nat, nat>, b: map<nat, nat>) {
    forall h :: h in a && h in b ==> a[h] <= b[h]
  }

  /** How many of len bytes from pos on there are before the end. */
  function Portion(end: nat, pos: nat, len: nat): (n: nat)
    ensures pos + len <= end ==> n == len
    ensures pos <= end <= pos + len ==> pos + n == end
    ensures end < pos ==> n == 0
  {
    if end <= pos then 0 else if len < end - pos then len else end - pos
  }

  /** The unsigned difference that is taken for the room behind pos. */
  function Room(len: nat, pos: nat): (r: int)
    ensures pos <= len ==> r == len - pos
  {
    (if pos <= len then 0 else WORD) + len - pos
  }

  lemma RoomWraps(len: nat, pos: nat)
    requires len < WORD && pos < WORD
    ensures U32(len - pos) == Room(len, pos)
  {
  }

  lemma ReadInside(f: seq<byte>, b: StorageBlock, pos: nat, len: nat)
    requires pos <= b.len
    ensures var n := Portion(|f|, b.begin + HEADER + pos, if len < b.len - pos then len else b.len - pos);
      n == Portion(Reach(f, b), pos, len) && pos + n <= b.len
        && Region(f, b.begin + HEADER + pos, n) == Data(f, b)[pos..pos + n]
  {
  }

  /** s with the bytes from pos on replaced by d. */
  function Patch(s: seq<byte>, pos: nat, d: seq<byte>): (r: seq<byte>)
    requires pos + |d| <= |s|
    ensures |r| == |s|
  {
    s[..pos] + d + s[pos + |d|..]
  }

  lemma DataPatched(f: seq<byte>, b: StorageBlock, pos: nat, d: seq<byte>)
    requires d != [] && pos + |d| <= b.len
    ensures Data(PWrite(f, b.begin + HEADER + pos, d), b) == Patch(Data(f, b), pos, d)
    ensures HeaderAt(f, b) ==> HeaderAt(PWrite(f, b.begin + HEADER + pos, d), b)
  {
    RegionElsewhere(f, b.begin + HEADER + pos, d, b.begin, HEADER);
    hide EncodeBlock;
  }

  lemma DataWritten(f: seq<byte>, s: Index, h: nat, pos: nat, d: seq<byte>)
    requires WellFormed(s) && OnDisk(f, s, s.fileEnd) && h in s.used && d != [] && pos + |d| <= s.used[h].len
    ensures var f' := PWrite(f, h + HEADER + pos, d);
      && OnDisk(f', s, s.fileEnd)
      && Contents(f', s.used) == Contents(f, s.used)[h := Patch(Data(f, s.used[h]), pos, d)]
  {
    hide *;
    var b, off, end := s.used[h], h + HEADER + pos, h + HEADER + pos + |d|;
    UsedPlace(s, h);
    OnDiskParts(f, s, s.fileEnd);
    OthersMiss(s, s.fileEnd, h, b);
    NotThere(s.freeBegin, h);
    MissWithin(s.used - {h}, h, b.End(), off, end);
    MissWithin(s.freeBegin, h, b.End(), off, end);
    SubHeaders(f, s.used, {h});
    WriteMisses(f, off, d, s.used - {h});
    WriteMisses(f, off, d, s.freeBegin);
    HeadMissed(f, off, d, s.fileEnd);
    HeadersAt(f, s.used, h);
    DataPatched(f, b, pos, d);
    var f' := PWrite(f, off, d);
    HeadersAdd(f', s.used - {h}, b);
    ContentsAdd(f', s.used - {h}, b);
    assert (s.used - {h})[h := b] == s.used;
    OnDiskIf(f', s, s.fileEnd);
    ContentsLess(f, s.used, h);
    assert Contents(f, s.used)[h := Data(f', b)] == (Contents(f, s.used) - {h})[h := Data(f', b)];
  }

  /** A write takes nothing away, and what it wrote is in the file. */
  lemma WriteReaches(f: seq<byte>, m: BlockMap, h: nat, pos: nat, d: seq<byte>)
    requires d != [] && h in m && m[h].begin == h && pos + |d| <= m[h].len
    ensures var f' := PWrite(f, h + HEADER + pos, d);
      && NoLess(Reaches(f, m), Reaches(f', m)) && h in Reaches(f', m) && pos + |d| <= Reaches(f', m)[h]
      && (pos + |d| == m[h].len ==> Full(f', m[h]))
      && forall b :: b in m && Full(f, m[b]) ==> Full(f', m[b])
  {
    assert |f| <= |PWrite(f, h + HEADER + pos, d)| && h + HEADER + pos + |d| <= |PWrite(f, h + HEADER + pos, d)|;
    hide PWrite;
  }

  lemma UsedPlace(s: Index, h: nat)
    requires WellFormed(s) && h in s.used
    ensures s.used[h].begin == h && h !in s.freeBegin && FIRST_BLOCK <= h
    ensures s.used[h].End() == h + HEADER + s.used[h].len <= s.fileEnd
    ensures HEADER == 16 && FIRST_BLOCK == 24
  {
    Layout(s, s.fileEnd);
    hide Tiles, Ends, SameFree, Coalesced;
  }

  lemma HeadersAt(f: seq<byte>, m: BlockMap, h: nat)
    requires AllHeaders(f, m) && h in m
    ensures HeaderAt(f, m[h])
  {
    hide HeaderAt;
  }

  // ---------- opening a file ----------

  ghost predicate Checked(f: seq<byte>) {
    Region(f, 0, |CHECK_INFO|) == CHECK_INFO
  }

  function MarkedEnd(f: seq<byte>): nat {
    FromLE(Region(f, END_MARK, 8))
  }

  /** A file carrying the check info also carries a head and a chain of headers; any other file may hold anything. */
  ghost predicate Loadable(f: seq<byte>, bs: seq<StorageBlock>) {
    Checked(f) ==>
      && FIRST_BLOCK <= |f|
      && MarkedEnd(f) < WORD
      && Chain(bs, FIRST_BLOCK, MarkedEnd(f))
      && forall i :: 0 <= i < |bs| ==> HeaderAt(f, bs[i])
  }

  lemma LoadBegins(f: seq<byte>, bs: seq<StorageBlock>)
    requires Checked(f) && Loadable(f, bs)
    ensures Loading(f, EMPTY.(fileEnd := MarkedEnd(f)), bs, FIRST_BLOCK)
  {
    var s := EMPTY.(fileEnd := MarkedEnd(f));
    assert WellFormedTo(s, FIRST_BLOCK);
    ChainGrows(bs, FIRST_BLOCK, MarkedEnd(f));
    MarkRoundTrip(f);
    hide HeaderAt, Region, WellFormedTo;
    assert HeadOk(f, s.fileEnd);
    if bs == [] { assert s.fileEnd == FIRST_BLOCK && WellFormed(s); }
  }

  /** Of the blocks in the file, those marked used are there after the load, and no other, each with its bytes. */
  lemma LoadedUsed(f: seq<byte>, bs: seq<StorageBlock>)
    requires Checked(f) && Loadable(f, bs)
    ensures var s := EMPTY.(fileEnd := MarkedEnd(f));
      LoadAll(s, bs).used == UsedIn(bs) && Contents(LoadedFile(f, s, bs), UsedIn(bs)) == Contents(f, UsedIn(bs))
  {
    var s := EMPTY.(fileEnd := MarkedEnd(f));
    LoadBegins(f, bs);
    assert s.used + UsedIn(bs) == UsedIn(bs);
    hide *;
    LoadKeepsUsed(f, s, bs, FIRST_BLOCK);
    KeptContents(f, LoadedFile(f, s, bs), UsedIn(bs));
  }

  lemma {:induction false} FromLEInverse(s: seq<byte>)
    ensures LE(|s|, FromLE(s)) == s
  {
    if s != [] {
      FromLEInverse(s[1..]);
      LowByte(s[0], FromLE(s[1..]));
      assert s == [s[0]] + s[1..];
    }
  }

  lemma LowByte(b: byte, rest: nat)
    ensures (b + 256 * rest) % 256 == b && (b + 256 * rest) / 256 == rest
  {
  }

  lemma MarkRoundTrip(f: seq<byte>)
    ensures Region(f, END_MARK, 8) == LE(8, MarkedEnd(f))
  {
    FromLEInverse(Region(f, END_MARK, 8));
  }

  /** The file LoadStorageFile writes over one it does not recognise. */
  function Rebuilt(f: seq<byte>): seq<byte> {
    PWrite(PWrite(f, 0, CHECK_INFO + Region(f, |CHECK_INFO|, END_MARK - |CHECK_INFO|)), END_MARK, LE(8, FIRST_BLOCK))
  }

  lemma RebuiltOnDisk(f: seq<byte>)
    ensures WellFormed(EMPTY) && OnDisk(Rebuilt(f), EMPTY, FIRST_BLOCK)
  {
    var d := CHECK_INFO + Region(f, |CHECK_INFO|, END_MARK - |CHECK_INFO|);
    var g := PWrite(f, 0, d);
    RegionElsewhere(g, END_MARK, LE(8, FIRST_BLOCK), 0, |CHECK_INFO|);
    RegionHere(g, END_MARK, LE(8, FIRST_BLOCK));
    RegionHere(f, 0, d);
    assert Region(g, 0, |CHECK_INFO|) == Region(g, 0, |d|)[..|CHECK_INFO|];
  }

  lemma InfoRead(f: seq<byte>)
    ensures Region(f, 0, END_MARK)[..|CHECK_INFO|] == Region(f, 0, |CHECK_INFO|)
    ensures Region(f, 0, END_MARK)[|CHECK_INFO|..] == Region(f, |CHECK_INFO|, END_MARK - |CHECK_INFO|)
  {
  }

  lemma LoadingOrder(f: seq<byte>, s: Index, bs: seq<StorageBlock>, lim: nat)
    requires Loading(f, s, bs, lim) && (bs == [] ==> s.fileEnd == lim)
    ensures bs == [] <==> s.fileEnd <= lim
  {
    hide OnDisk, HeaderAt;
    if bs != [] { ChainGrows(bs, lim, s.fileEnd); }
  }

  lemma HeaderRead(f: seq<byte>, s: Index, bs: seq<StorageBlock>, lim: nat)
    requires Loading(f, s, bs, lim) && bs != []
    ensures bs[0].begin == lim && DecodeBlock(Region(f, lim, HEADER)) == bs[0]
  {
    LoadingTail(f, s, bs, lim);
    assert s.fileEnd < WORD;
    hide EncodeBlock, DecodeBlock, Loading, OnDisk, Region, Chain;
    BlockRoundTrip(bs[0]);
  }

  lemma LoadingDone(f: seq<byte>, s: Index, lim: nat)
    requires Loading(f, s, [], lim)
    ensures WellFormed(s) && OnDisk(f, s, s.fileEnd)
  {
  }

  /** The merge that Free works out in 32-bit locals is the intended one. */
  ghost predicate Narrows(s: Index, h: nat) {
    && h in s.used && s.used[h].begin == h
    && s.used[h].End() <= MergedEnd(s, h) < WORD
    && MergedBegin(s, h) < MergedEnd(s, h) == MergedBegin(s, h) + HEADER + MergedLen(s, h)
    && MergeCode(s, h, s.used[h].End())
       == Merge(MergedBegin(s, h), MergedEnd(s, h),
                s.freeBegin - {MergedBegin(s, h), s.used[h].End()}, s.freeEnd - {h, MergedEnd(s, h)})
  }

  lemma NarrowEnds(s: Index, h: nat)
    requires Narrows(s, h)
    ensures s.used[h].begin == h < s.used[h].End() < WORD
  {
  }

  lemma MergeCodeMaps(s: Index, t: Index, begin0: nat, end0: nat)
    requires s.freeBegin == t.freeBegin && s.freeEnd == t.freeEnd && end0 < WORD
    ensures MergeCode(s, begin0, end0) == MergeCode(t, begin0, end0)
  {
  }

  lemma NarrowMerged(s: Index, h: nat, m: Merge)
    requires Narrows(s, h) && m == MergeCode(s, h, s.used[h].End())
    ensures s.used[h].begin == h
    ensures m.begin == MergedBegin(s, h) < m.end == MergedEnd(s, h) < WORD
    ensures m.end == m.begin + HEADER + MergedLen(s, h)
    ensures m.freeBegin == s.freeBegin - {m.begin, s.used[h].End()} && m.freeEnd == s.freeEnd - {h, m.end}
  {
    hide MergeCode, MergedBegin, MergedEnd, MergedLen;
  }

  /** What the end of Free does to the file, the free indexes and the file end, for the merged region m. */
  ghost predicate TakenBack(m: Merge, f: seq<byte>, fileEnd: nat, f': seq<byte>, fb: BlockMap, fe: BlockMap,
      fileEnd': nat)
    requires m.begin + HEADER <= m.end
  {
    var merged := StorageBlock(m.begin, m.end - m.begin - HEADER, WaitMergerBlock);
    if m.end == fileEnd then
      && fileEnd' == m.begin && f' == Truncate(PWrite(f, END_MARK, LE(8, m.begin)), m.begin)
      && fb == m.freeBegin && fe == m.freeEnd
    else
      && fileEnd' == fileEnd && f' == PWrite(f, m.begin, EncodeBlock(merged))
      && fb == m.freeBegin[m.begin := merged] && fe == m.freeEnd[m.end := merged]
  }

  lemma TakenBackIs(f: seq<byte>, s: Index, h: nat, m: Merge, f': seq<byte>, t: Index)
    requires h in s.used && s.used[h].begin == h && t.used == s.used - {h}
    requires m.begin == MergedBegin(s, h) && m.end == MergedEnd(s, h) && m.end == m.begin + HEADER + MergedLen(s, h)
    requires m.freeBegin == s.freeBegin - {m.begin, s.used[h].End()} && m.freeEnd == s.freeEnd - {h, m.end}
    requires TakenBack(m, f, s.fileEnd, f', t.freeBegin, t.freeEnd, t.fileEnd)
    ensures t == Released(s, h) && f' == ReleasedFile(f, s, h)
  {
    hide MergedBegin, MergedEnd, MergedLen, LE, PWrite, Truncate, EncodeBlock;
  }

  lemma OnDiskNarrows(s: Index, h: nat, lim: nat)
    requires WellFormedTo(s, lim) && h in s.used && lim < WORD
    ensures Narrows(s, h)
  {
    assert s.used[h].begin == h;
    hide *;
    MergedRegion(s, h, lim);
    Neighbours(s, h, lim);
    NarrowMerge(s, h, lim);
    NarrowsIf(s, h);
  }

  lemma NarrowsIf(s: Index, h: nat)
    requires h in s.used && s.used[h].begin == h
    requires s.used[h].End() <= MergedEnd(s, h) < WORD
    requires MergedBegin(s, h) < MergedEnd(s, h) == MergedBegin(s, h) + HEADER + MergedLen(s, h)
    requires var lo, hi, e := MergedBegin(s, h), MergedEnd(s, h), s.used[h].End();
      MergeCode(s, h, e) == Merge(lo, hi, s.freeBegin - {lo, e}, s.freeEnd - {h, hi})
    ensures Narrows(s, h)
  {
    hide MergeCode, MergedBegin, MergedEnd, MergedLen;
  }

  lemma LoadingNarrows(f: seq<byte>, s: Index, bs: seq<StorageBlock>)
    requires bs != [] && Loading(f, s, bs, bs[0].begin)
    ensures Narrows(Entered(s, bs[0]), bs[0].begin)
  {
    hide *;
    var b := bs[0];
    var t, u := Entered(s, b), Entered(s, b.(state := UsedBlock));
    LoadingTail(f, s, bs, b.begin);
    EnteredOnDisk(f, s, b);
    OnDiskButParts(f, u, b.begin, b.End());
    OnDiskParts(f, s, b.begin);
    OnDiskNarrows(u, b.begin, b.End());
    NarrowsPlace(s, b);
  }

  lemma NarrowsPlace(s: Index, b: StorageBlock)
    requires Narrows(Entered(s, b.(state := UsedBlock)), b.begin)
    ensures Narrows(Entered(s, b), b.begin)
  {
    PlaceOnly(s, b);
    hide MergedBegin, MergedEnd, MergedLen, U32;
  }

  lemma ReopenBegins(f: seq<byte>, s: Index) returns (bs: seq<StorageBlock>)
    requires WellFormed(s) && OnDisk(f, s, s.fileEnd)
    ensures Checked(f) && Loadable(f, bs) && MarkedEnd(f) == s.fileEnd
    ensures LoadAll(EMPTY.(fileEnd := s.fileEnd), bs) == s
    ensures LoadedFile(f, EMPTY.(fileEnd := s.fileEnd), bs) == f
  {
    hide *;
    OnDiskParts(f, s, s.fileEnd);
    HeadRead(f, s.fileEnd);
    FirstBlock(s);
    bs := BlockList(s, FIRST_BLOCK);
    ListedHeaders(f, s, bs);
    ReloadIsIdentity(s, bs);
    ReloadKeepsFile(f, s, bs);
    LoadableIf(f, s, bs);
  }

  lemma HeadRead(f: seq<byte>, e: nat)
    requires HeadOk(f, e) && e < WORD
    ensures Checked(f) && MarkedEnd(f) == e && FIRST_BLOCK <= |f|
  {
    WordSizes();
    LERoundTrip(8, e);
  }

  lemma FirstBlock(s: Index)
    requires WellFormed(s)
    ensures FIRST_BLOCK == s.fileEnd || FIRST_BLOCK in Ends(s)
  {
    hide Ends, SameFree, Coalesced, Keyed;
  }

  lemma ListedHeaders(f: seq<byte>, s: Index, bs: seq<StorageBlock>)
    requires AllHeaders(f, s.used) && AllHeaders(f, s.freeBegin) && Lists(bs, s, FIRST_BLOCK)
    ensures Chain(bs, FIRST_BLOCK, s.fileEnd) && forall i :: 0 <= i < |bs| ==> HeaderAt(f, bs[i])
  {
    hide HeaderAt, Chain;
  }

  lemma LoadableIf(f: seq<byte>, s: Index, bs: seq<StorageBlock>)
    requires FIRST_BLOCK <= |f| && MarkedEnd(f) == s.fileEnd < WORD
    requires Chain(bs, FIRST_BLOCK, s.fileEnd) && forall i :: 0 <= i < |bs| ==> HeaderAt(f, bs[i])
    ensures Loadable(f, bs)
  {
    hide HeaderAt, Chain, MarkedEnd;
  }

  lemma FreeSeen(f: seq<byte>, s: Index, h: nat)
    requires WellFormed(s) && OnDisk(f, s, s.fileEnd)
    ensures var f', t := ReleasedFile(f, s, h), Released(s, h);
      && WellFormed(t) && OnDisk(f', t, t.fileEnd)
      && t.used == s.used - {h} && Contents(f', t.used) == Contents(f, s.used) - {h}
      && t.fileEnd <= s.fileEnd
      && forall b :: b in t.used ==> Reach(f, s.used[b]) <= Reach(f', t.used[b])
    ensures if h in s.used then Narrows(s, h) else Released(s, h) == s && ReleasedFile(f, s, h) == f
  {
    hide *;
    OnDiskParts(f, s, s.fileEnd);
    ReleasedKeepsWellFormed(s, h);
    if h in s.used {
      OnDiskNarrows(s, h, s.fileEnd);
      HeadersAt(f, s.used, h);
      HeaderInside(f, s.used[h]);
      UsedPlace(s, h);
      SubHeaders(f, s.used, {h});
      OnDiskButIf(f, s, h, s.fileEnd);
      ReleasedTo(s, h, s.fileEnd);
      if MergedEnd(s, h) == s.fileEnd { TailSeen(f, s, h, s.fileEnd); } else { MergedSeen(f, s, h, s.fileEnd); }
      SeenParts(f, s, ReleasedFile(f, s, h), Released(s, h), h);
    } else {
      NotFreed(f, s, h);
    }
  }

  lemma SeenParts(f: seq<byte>, s: Index, f': seq<byte>, t: Index, h: nat)
    requires ReleaseSeen(f, s, f', t, h)
    ensures t.used == s.used - {h} && Contents(f', t.used) == Contents(f, s.used) - {h}
    ensures forall b :: b in t.used ==> Reach(f, s.used[b]) <= Reach(f', t.used[b])
  {
    hide Contents;
  }

  lemma NotFreed(f: seq<byte>, s: Index, h: nat)
    requires h !in s.used
    ensures Released(s, h) == s && ReleasedFile(f, s, h) == f
    ensures s.used - {h} == s.used && Contents(f, s.used) - {h} == Contents(f, s.used)
  {
    hide Data;
  }

  lemma AllocateEffect(f: seq<byte>, s: Index, size: nat, c: Choice)
    requires WellFormed(s) && OnDisk(f, s, s.fileEnd) && IsChoice(s, size, c) && s.fileEnd + HEADER + size < WORD
    ensures c == Pick(s, size) && (c.Take? ==> s.freeBegin[c.key].begin == c.key)
    ensures Granted(s, size, c) == StorageBlock(Granted(s, size, c).begin, size, UsedBlock)
    ensures Allocated(s, size, c).fileEnd <= s.fileEnd + HEADER + size
    ensures AllocateSeen(f, s, AllocatedFile(f, s, size, c), Allocated(s, size, c), Granted(s, size, c))
  {
    ChoiceUnique(s, size, c, Pick(s, size));
    if c.Take? { FreePlace(s, c.key); }
    hide WellFormed, OnDisk, AllocateSeen, Granted, Allocated, AllocatedFile;
    AllocatedSeen(f, s, size, c);
    GrantedShape(s, size, c);
  }

  lemma SeenReach(f: seq<byte>, s: Index, f': seq<byte>, t: Index, g: StorageBlock)
    requires g.begin !in s.used && t.used == s.used[g.begin := g] && |f| <= |f'|
    ensures forall b :: b in s.used ==>
      b in t.used && t.used[b] == s.used[b] && Reach(f, s.used[b]) <= Reach(f', t.used[b])
  {
  }

  lemma SeenFacts(f: seq<byte>, s: Index, f': seq<byte>, t: Index, g: StorageBlock)
    requires AllocateSeen(f, s, f', t, g)
    ensures WellFormed(t) && OnDisk(f', t, t.fileEnd)
    ensures g.begin !in s.used && g.begin >= FIRST_BLOCK
    ensures t.used == s.used[g.begin := g]
    ensures g.begin in Contents(f', t.used)
    ensures Contents(f', t.used) == Contents(f, s.used)[g.begin := Contents(f', t.used)[g.begin]]
    ensures forall b :: b in s.used ==>
      b in t.used && t.used[b] == s.used[b] && Reach(f, s.used[b]) <= Reach(f', t.used[b])
  {
    UsedPlace(t, g.begin);
    hide WellFormed, OnDisk, Data;
    SeenReach(f, s, f', t, g);
    hide Reach;
  }

  lemma GrantedShape(s: Index, size: nat, c: Choice)
    requires c.Take? ==> c.key in s.freeBegin && Fits(s.freeBegin[c.key], size)
    ensures Granted(s, size, c) == StorageBlock(Granted(s, size, c).begin, size, UsedBlock)
    ensures Allocated(s, size, c).fileEnd <= s.fileEnd + HEADER + size
    ensures Allocated(s, size, c).used == s.used[Granted(s, size, c).begin := Granted(s, size, c)]
  {
  }

  lemma PatchAll(s: seq<byte>, d: seq<byte>)
    requires |d| == |s|
    ensures Patch(s, 0, d) == d
  {
  }

  /** With no free block to try, allocate extends the file. */
  lemma FreshAllocate(s: Index, size: nat)
    requires s.freeBegin == map[]
    ensures Allocated(s, size, Pick(s, size)) ==
      Index(s.used[s.fileEnd := StorageBlock(s.fileEnd, size, UsedBlock)], map[], s.freeEnd, s.fileEnd + HEADER + size)
  {
  }

  lemma PatchOne(d0: seq<byte>, n: nat, ch: byte, len: nat)
    requires |d0| == len && n < len
    ensures Patch(seq<byte>(n, _ => ch) + d0[n..], n, [ch]) == seq<byte>(n + 1, _ => ch) + d0[n + 1..]
  {
  }

  lemma FullNone(f: seq<byte>, b: StorageBlock)
    ensures b.len == 0 ==> Full(f, b)
  {
  }

  /** The next key of a std::map iteration. */
  method Least(keys: set<nat>) returns (k: nat)
    requires keys != {}
    ensures k in keys && forall j :: j in keys ==> k <= j
  {
    k :| k in keys;
    var rest := keys - {k};
    while rest != {}
      invariant k in keys && rest <= keys
      invariant forall j :: j in keys && j !in rest ==> k <= j
    {
      var j :| j in rest;
      if j < k { k := j; }
      rest := rest - {j};
    }
  }

  class FileStorage {
    var file: seq<byte>
    var fileEndIndex: nat
    var usedBlock: BlockMap
    var freeBlockBeginIndex: BlockMap
    var freeBlockEndIndex: BlockMap

    ghost function Idx(): Index
      reads this
    {
      Index(usedBlock, freeBlockBeginIndex, freeBlockEndIndex, fileEndIndex)
    }

    ghost predicate Valid()
      reads this
    {
      WellFormed(Idx()) && OnDisk(file, Idx(), fileEndIndex)
    }

    /** The heap the storage stands for: the data bytes of each live block. */
    ghost function Blocks(): map<nat, seq<byte>>
      reads this
    {
      Contents(file, usedBlock)
    }

    /** What a user may rely on for a live handle. */
    lemma LiveBlock(h: nat)
      requires Valid() && h in usedBlock
      ensures FIRST_BLOCK <= h && h + HEADER + usedBlock[h].len <= fileEndIndex < WORD
      ensures h in Blocks() && |Blocks()[h]| == usedBlock[h].len
      ensures Blocks().Keys == usedBlock.Keys
    {
      UsedPlace(Idx(), h);
      hide WellFormed, Data;
    }

    /** Every data byte of the live block h is physically in the file. */
    ghost predicate Whole(h: nat)
      reads this
    {
      h in usedBlock && Full(file, usedBlock[h])
    }

    /** How many data bytes of each live block, from the first on, are physically in the file. */
    ghost function Present(): (m: map<nat, nat>)
      reads this
      ensures m.Keys == usedBlock.Keys
      ensures forall h :: h in m ==> m[h] <= usedBlock[h].len && (Whole(h) <==> m[h] == usedBlock[h].len)
    {
      Reaches(file, usedBlock)
    }

    /** Opening a file: an unknown format is replaced by an empty storage, a known one is walked. */
    constructor (disk: seq<byte>, ghost bs: seq<StorageBlock>)
      requires Loadable(disk, bs)
      ensures Valid()
      ensures !Checked(disk) ==> Idx() == EMPTY && file == Rebuilt(disk)
      ensures Checked(disk) ==>
        var s := EMPTY.(fileEnd := MarkedEnd(disk));
        Idx() == LoadAll(s, bs) && file == LoadedFile(disk, s, bs)
      ensures Checked(disk) ==> usedBlock == UsedIn(bs) && Blocks() == Contents(disk, UsedIn(bs))
    {
      file := disk;
      fileEndIndex, usedBlock, freeBlockBeginIndex, freeBlockEndIndex := 0, map[], map[], map[];
      new;
      LoadStorageFile(bs);
    }

    /** Closing the file and opening it again, as the next call after close() does. */
    method Reopen()
      requires Valid()
      modifies this
      ensures Valid()
      ensures Idx() == old(Idx()) && file == old(file)
      ensures Blocks() == old(Blocks()) && Present() == old(Present()) && forall b :: old(Whole(b)) ==> Whole(b)
    {
      ghost var s := Idx();
      hide WellFormed, OnDisk;
      ghost var bs := ReopenBegins(file, s);
      usedBlock, freeBlockBeginIndex, freeBlockEndIndex := map[], map[], map[];
      LoadStorageFile(bs);
    }

    method LoadStorageFile(ghost bs: seq<StorageBlock>)
      requires Loadable(file, bs)
      requires usedBlock == map[] && freeBlockBeginIndex == map[] && freeBlockEndIndex == map[]
      modifies this
      ensures Valid()
      ensures !Checked(old(file)) ==> Idx() == EMPTY && file == Rebuilt(old(file))
      ensures Checked(old(file)) ==>
        var s := EMPTY.(fileEnd := MarkedEnd(old(file)));
        Idx() == LoadAll(s, bs) && file == LoadedFile(old(file), s, bs)
      ensures Checked(old(file)) ==> usedBlock == UsedIn(bs) && Blocks() == Contents(old(file), UsedIn(bs))
    {
      var verifyInfo := Region(file, 0, END_MARK);
      InfoRead(file);
      if verifyInfo[..|CHECK_INFO|] == CHECK_INFO {
        fileEndIndex := FromLE(Region(file, END_MARK, 8));
        LoadBegins(file, bs);
        LoadedUsed(file, bs);
        hide Contents, LoadedFile, LoadAll, UsedIn, WellFormed, OnDisk, Loading;
        LoadBlocks(bs);
      } else {
        fileEndIndex := FIRST_BLOCK;
        verifyInfo := CHECK_INFO + verifyInfo[|CHECK_INFO|..];
        RebuiltOnDisk(file);
        hide OnDisk, WellFormed;
        file := PWrite(file, 0, verifyInfo);
        file := PWrite(file, END_MARK, LE(8, fileEndIndex));
      }
    }

    /** The loop of LoadStorageFile. */
    method LoadBlocks(ghost bs: seq<StorageBlock>)
      requires Loading(file, Idx(), bs, FIRST_BLOCK) && (bs == [] ==> fileEndIndex == FIRST_BLOCK)
      modifies this
      ensures Valid()
      ensures Idx() == LoadAll(old(Idx()), bs) && file == LoadedFile(old(file), old(Idx()), bs)
    {
      hide Loading, WellFormed, OnDisk, LoadStep, ReleasedFile, Region, HeaderAt, Chain, DecodeBlock;
      var index: nat := FIRST_BLOCK;
      ghost var rest := bs;
      LoadingOrder(file, Idx(), bs, FIRST_BLOCK);
      while index < fileEndIndex
        invariant Loading(file, Idx(), rest, index)
        invariant rest == [] <==> fileEndIndex <= index
        invariant LoadAll(Idx(), rest) == LoadAll(old(Idx()), bs)
        invariant LoadedFile(file, Idx(), rest) == LoadedFile(old(file), old(Idx()), bs)
        decreases |rest|
      {
        var storageBlock := DecodeBlock(Region(file, index, HEADER));
        HeaderRead(file, Idx(), rest, index);
        LoadingStep(file, Idx(), rest, index);
        index := storageBlock.begin + HEADER + storageBlock.len;
        LoadOne(storageBlock, rest);
        rest := rest[1..];
      }
      LoadingDone(file, Idx(), index);
    }

    /** One turn of the loop in LoadStorageFile: enter the block, free it if it is marked free. */
    method LoadOne(storageBlock: StorageBlock, ghost bs: seq<StorageBlock>)
      requires bs != [] && bs[0] == storageBlock && Loading(file, Idx(), bs, storageBlock.begin)
      modifies this
      ensures Idx() == LoadStep(old(Idx()), storageBlock)
      ensures file == if storageBlock.state.WaitMergerBlock?
                      then ReleasedFile(old(file), Entered(old(Idx()), storageBlock), storageBlock.begin) else old(file)
    {
      hide Loading, Released, ReleasedFile, Narrows;
      LoadingNarrows(file, Idx(), bs);
      LoadStepKind(Idx(), storageBlock);
      usedBlock := usedBlock[storageBlock.begin := storageBlock];
      assert Idx() == Entered(old(Idx()), storageBlock);
      if storageBlock.state == WaitMergerBlock {
        Release(storageBlock.begin);
      }
    }

    /** Free from its look-up on, with its 32-bit locals. */
    method Release(handle: nat)
      requires Narrows(Idx(), handle)
      modifies this
      ensures Idx() == Released(old(Idx()), handle)
      ensures file == ReleasedFile(old(file), old(Idx()), handle)
    {
      ghost var f, s := file, Idx();
      NarrowEnds(s, handle);
      hide *;
      IdxParts();
      var beginIndex := U32(usedBlock[handle].begin);
      var endIndex := U32(usedBlock[handle].End());
      usedBlock := usedBlock - {beginIndex};
      IdxParts();
      MergeCodeMaps(s, Idx(), beginIndex, endIndex);
      beginIndex, endIndex := MergeNeighbours(beginIndex, endIndex);
      NarrowMerged(s, handle, Merge(beginIndex, endIndex, freeBlockBeginIndex, freeBlockEndIndex));
      ghost var m := Merge(beginIndex, endIndex, freeBlockBeginIndex, freeBlockEndIndex);
      TakeBack(beginIndex, endIndex);
      ghost var t := Index(usedBlock, freeBlockBeginIndex, freeBlockEndIndex, fileEndIndex);
      TakenBackIs(f, s, handle, m, file, t);
      IdxParts();
    }

    lemma IdxParts()
      ensures Idx() == Index(usedBlock, freeBlockBeginIndex, freeBlockEndIndex, fileEndIndex)
    {
    }

    /** The end of Free: a region at the tail is cut off, another becomes a free block. */
    method TakeBack(beginIndex: nat, endIndex: nat)
      requires beginIndex + HEADER <= endIndex < WORD
      modifies this`file, this`fileEndIndex, this`freeBlockBeginIndex, this`freeBlockEndIndex
      ensures TakenBack(Merge(beginIndex, endIndex, old(freeBlockBeginIndex), old(freeBlockEndIndex)), old(file),
        old(fileEndIndex),
                        file, freeBlockBeginIndex, freeBlockEndIndex, fileEndIndex)
    {
      hide EncodeBlock, LE, PWrite, Truncate;
      if endIndex == fileEndIndex {
        fileEndIndex := U64(fileEndIndex - U32(endIndex - beginIndex));
        file := PWrite(file, END_MARK, LE(8, fileEndIndex));
        file := Truncate(file, fileEndIndex);
        return;
      }
      var storageBlock := StorageBlock(beginIndex, U32(endIndex - beginIndex - HEADER), WaitMergerBlock);
      file := PWrite(file, storageBlock.begin, EncodeBlock(storageBlock));
      freeBlockEndIndex := freeBlockEndIndex[endIndex := storageBlock];
      freeBlockBeginIndex := freeBlockBeginIndex[beginIndex := storageBlock];
    }

    /** The forward and the backward merge of Free: the free neighbours leave the two indexes. */
    method MergeNeighbours(begin0: nat, end0: nat) returns (beginIndex: nat, endIndex: nat)
      requires end0 < WORD
      modifies this`freeBlockBeginIndex, this`freeBlockEndIndex
      ensures Merge(beginIndex, endIndex, freeBlockBeginIndex, freeBlockEndIndex) == MergeCode(old(Idx()), begin0, end0)
    {
      hide U32;
      beginIndex, endIndex := begin0, end0;
      var tmpIndex;
      if beginIndex in freeBlockEndIndex {
        tmpIndex := beginIndex;
        beginIndex := U32(freeBlockEndIndex[tmpIndex].begin);
        freeBlockEndIndex := freeBlockEndIndex - {tmpIndex};
        freeBlockBeginIndex := freeBlockBeginIndex - {beginIndex};
      }
      if endIndex in freeBlockBeginIndex {
        tmpIndex := endIndex;
        endIndex := U32(freeBlockBeginIndex[tmpIndex].End());
        freeBlockBeginIndex := freeBlockBeginIndex - {tmpIndex};
        freeBlockEndIndex := freeBlockEndIndex - {endIndex};
      }
    }

    /** Free: an unknown handle is left alone. */
    method Free(handle: nat) returns (ok: bool)
      requires Valid()
      modifies this
      ensures Valid() && ok
      ensures Idx() == Released(old(Idx()), handle)
      ensures usedBlock == old(usedBlock) - {handle}
      ensures Blocks() == old(Blocks()) - {handle}
      ensures forall b :: b != handle && old(Whole(b)) ==> Whole(b)
      ensures NoLess(old(Present()), Present())
      ensures fileEndIndex <= old(fileEndIndex)
    {
      ghost var f, s := file, Idx();
      hide OnDisk, Released, ReleasedFile, Narrows, Contents, Reach, WellFormed;
      FreeSeen(f, s, handle);
      if handle !in usedBlock {
        return true;
      }
      Release(handle);
      return true;
    }

    /** allocate: the free blocks are tried in address order, then the file grows. */
    method Allocate(size: nat) returns (handle: nat)
      requires Valid() && fileEndIndex + HEADER + size < WORD
      modifies this
      ensures Valid()
      ensures Idx() == Allocated(old(Idx()), size, Pick(old(Idx()), size))
      ensures handle !in old(usedBlock) && handle >= FIRST_BLOCK
      ensures usedBlock == old(usedBlock)[handle := StorageBlock(handle, size, UsedBlock)]
      ensures Blocks() == old(Blocks())[handle := Blocks()[handle]]
      ensures forall b :: old(Whole(b)) ==> Whole(b)
      ensures NoLess(old(Present()), Present())
      ensures fileEndIndex <= old(fileEndIndex) + HEADER + size
    {
      ghost var f, s := file, Idx();
      hide WellFormed, OnDisk, Granted, Allocated, AllocatedFile, AllocateSeen, Contents, Reach, EncodeBlock, LE,
        PWrite;
      var blocks := freeBlockBeginIndex.Keys;
      while blocks != {}
        invariant Idx() == s && file == f && blocks <= freeBlockBeginIndex.Keys
        invariant forall j, k :: j in freeBlockBeginIndex && j !in blocks && k in blocks ==> j < k
        invariant forall j :: j in freeBlockBeginIndex && j !in blocks ==> !Fits(freeBlockBeginIndex[j], size)
      {
        var it := Least(blocks);
        if Fits(freeBlockBeginIndex[it], size) {
          AllocateEffect(f, s, size, Take(it));
          handle := TakeFree(it, size);
          SeenFacts(f, s, file, Idx(), Granted(s, size, Take(it)));
          return;
        }
        blocks := blocks - {it};
      }
      AllocateEffect(f, s, size, Append);
      handle := Extend(size);
      SeenFacts(f, s, file, Idx(), Granted(s, size, Append));
    }

    /** allocate at the end of the file. */
    method Extend(size: nat) returns (handle: nat)
      modifies this
      ensures Idx() == Allocated(old(Idx()), size, Append)
      ensures file == AllocatedFile(old(file), old(Idx()), size, Append)
      ensures handle == Granted(old(Idx()), size, Append).begin
    {
      hide EncodeBlock, LE, PWrite;
      var storageBlock := StorageBlock(fileEndIndex, size, UsedBlock);
      file := PWrite(file, storageBlock.begin, EncodeBlock(storageBlock));
      usedBlock := usedBlock[storageBlock.begin := storageBlock];
      fileEndIndex := fileEndIndex + size + HEADER;
      file := PWrite(file, END_MARK, LE(8, fileEndIndex));
      handle := storageBlock.begin;
    }

    /** allocate from the free block at it: its upper end when there is room for a header, else all of it. */
    method TakeFree(it: nat, size: nat) returns (handle: nat)
      requires it in freeBlockBeginIndex && freeBlockBeginIndex[it].begin == it && Fits(freeBlockBeginIndex[it], size)
      modifies this
      ensures Idx() == Allocated(old(Idx()), size, Take(it))
      ensures file == AllocatedFile(old(file), old(Idx()), size, Take(it))
      ensures handle == Granted(old(Idx()), size, Take(it)).begin
    {
      hide EncodeBlock, LE, PWrite;
      var free := freeBlockBeginIndex[it];
      if free.len > size + HEADER {
        var tmpBlock := free.(len := free.len - size - HEADER);
        var storageBlock := StorageBlock(free.begin + HEADER + free.len - size - HEADER, size, UsedBlock);
        file := PWrite(file, tmpBlock.begin, EncodeBlock(tmpBlock));
        freeBlockEndIndex := (freeBlockEndIndex - {free.End()})[storageBlock.begin := tmpBlock];
        freeBlockBeginIndex := freeBlockBeginIndex[it := tmpBlock];
        file := PWrite(file, storageBlock.begin, EncodeBlock(storageBlock));
        usedBlock := usedBlock[storageBlock.begin := storageBlock];
        handle := storageBlock.begin;
      } else {
        var storageBlock := free.(state := UsedBlock);
        file := PWrite(file, storageBlock.begin, EncodeBlock(storageBlock));
        usedBlock := usedBlock[storageBlock.begin := storageBlock];
        freeBlockBeginIndex := freeBlockBeginIndex - {storageBlock.begin};
        freeBlockEndIndex := freeBlockEndIndex - {storageBlock.End()};
        handle := storageBlock.begin;
      }
    }

    /** read: at most len bytes of the block from pos on, cut at the end of the block and of the file. The room behind
        pos is an unsigned difference: behind the end of the block it is the bytes of other blocks that are read. */
    method Read(handle: nat, pos: nat, len: nat) returns (ret: int, buf: seq<byte>)
      requires Valid() && pos < WORD
      ensures len == 0 ==> ret == -3 && buf == []
      ensures len > 0 && handle !in usedBlock ==> ret == -2 && buf == []
      ensures len > 0 && handle in usedBlock ==>
        && ret == |buf| <= len && buf == Region(file, handle + HEADER + pos, |buf|)
        && (pos <= usedBlock[handle].len ==>
              && pos + |buf| <= usedBlock[handle].len && buf == Blocks()[handle][pos..pos + |buf|]
              && |buf| == Portion(Present()[handle], pos, len))
        && (pos > usedBlock[handle].len ==>
              |buf| == Portion(|file|, handle + HEADER + pos, Portion(WORD + usedBlock[handle].len, pos, len)))
    {
      hide WellFormed, OnDisk, Data, Region, Reach, U32;
      if len == 0 { return -3, []; }
      if handle !in usedBlock { return -2, []; }
      UsedPlace(Idx(), handle);
      LiveBlock(handle);
      RoomWraps(usedBlock[handle].len, pos);
      if pos <= usedBlock[handle].len { ReadInside(file, usedBlock[handle], pos, len); }
      var room := U32(usedBlock[handle].len - pos);
      var off := handle + HEADER + pos;
      buf := Region(file, off, Portion(|file|, off, if len < room then len else room));
      ret := |buf|;
    }

    /** write: all of buf from pos on, or nothing when it would leave the block. Behind the end of the block the
        unsigned difference is no bound, and the bytes go where other blocks are. */
    method Write(handle: nat, pos: nat, buf: seq<byte>) returns (ret: int)
      requires Valid() && pos < WORD
      modifies this`file
      ensures ret == if buf == [] then -3 else if handle !in usedBlock then -2
                     else if |buf| > Room(usedBlock[handle].len, pos) then -4 else |buf|
      ensures file == if ret < 0 then old(file) else PWrite(old(file), handle + HEADER + pos, buf)
      ensures ret < 0 ==> Valid() && Blocks() == old(Blocks()) && Present() == old(Present())
      ensures handle in usedBlock && pos <= usedBlock[handle].len ==>
        && Valid() && NoLess(old(Present()), Present()) && (forall b :: old(Whole(b)) ==> Whole(b))
        && (ret >= 0 ==>
              && pos + |buf| <= |old(Blocks())[handle]| && handle in Present() && pos + |buf| <= Present()[handle]
              && Blocks() == old(Blocks())[handle := Patch(old(Blocks())[handle], pos, buf)]
              && (pos + |buf| == usedBlock[handle].len ==> Whole(handle)))
    {
      hide WellFormed, OnDisk, Data, U32;
      if buf == [] { return -3; }
      if handle !in usedBlock { return -2; }
      LiveBlock(handle);
      RoomWraps(usedBlock[handle].len, pos);
      if |buf| > U32(usedBlock[handle].len - pos) { return -4; }
      UsedPlace(Idx(), handle);
      if pos <= usedBlock[handle].len {
        DataWritten(file, Idx(), handle, pos, buf);
        WriteReaches(file, usedBlock, handle, pos, buf);
        assert Blocks()[handle] == Data(file, usedBlock[handle]);
      }
      hide Reaches, NoLess, Full, PWrite, Contents, Patch, Room;
      file := PWrite(file, handle + HEADER + pos, buf);
      ret := |buf|;
    }

    method Size(handle: nat) returns (len: nat)
      requires Valid()
      ensures len == if handle in usedBlock then |Blocks()[handle]| else 0
    {
      len := if handle in usedBlock then usedBlock[handle].len else 0;
    }

    /** fset: the block filled with one byte, written one byte at a time; an unknown handle is left alone. */
    method Fset(handle: nat, ch: byte)
      requires Valid()
      modifies this`file
      ensures Valid()
      ensures handle !in usedBlock ==> file == old(file)
      ensures handle in usedBlock ==>
        && Blocks() == old(Blocks())[handle := seq<byte>(usedBlock[handle].len, _ => ch)]
        && Whole(handle)
      ensures forall b :: old(Whole(b)) ==> Whole(b)
    {
      if handle !in usedBlock { return; }
      FullNone(file, usedBlock[handle]);
      LiveBlock(handle);
      NonePut(Blocks(), handle, usedBlock[handle].len, ch);
      hide WellFormed, OnDisk, Contents, Full;
      if usedBlock[handle].len > 0 { Fill(handle, ch); }
    }

    /** The loop of fset. */
    method Fill(handle: nat, ch: byte)
      requires Valid() && handle in usedBlock && usedBlock[handle].len > 0
      modifies this`file
      ensures Valid()
      ensures Blocks() == old(Blocks())[handle := seq<byte>(usedBlock[handle].len, _ => ch)]
      ensures Whole(handle)
      ensures forall b :: old(Whole(b)) ==> Whole(b)
    {
      hide *;
      LiveBlock(handle);
      var len := usedBlock[handle].len;
      var n := 0;
      ghost var d := Blocks()[handle];
      ghost var d0 := d;
      assert d == seq<byte>(0, _ => ch) + d0[0..];
      while n < len
        invariant n <= len && Valid()
        invariant Blocks() == old(Blocks())[handle := d]
        invariant |d| == len && d == seq<byte>(n, _ => ch) + d0[n..]
        invariant n == len > 0 ==> Whole(handle)
        invariant forall b :: old(Whole(b)) ==> Whole(b)
      {
        var ret := Write(handle, n, [ch]);
        d := Patch(d, n, [ch]);
        PatchOne(d0, n, ch, len);
        n := n + 1;
      }
      assert d == seq<byte>(len, _ => ch);
    }

    static lemma NonePut(blocks: map<nat, seq<byte>>, h: nat, n: nat, ch: byte)
      requires h in blocks && |blocks[h]| == n
      ensures n == 0 ==> blocks[h := seq<byte>(n, _ => ch)] == blocks
    {
      if n == 0 { assert blocks[h] == seq<byte>(n, _ => ch); }
    }

    /** clearFile, and the rebuilding of the empty file at the next use. */
    method ClearFile()
      modifies this
      ensures Valid() && Idx() == EMPTY
    {
      file := [];
      usedBlock, freeBlockBeginIndex, freeBlockEndIndex := map[], map[], map[];
      assert Region(file, 0, |CHECK_INFO|)[0] == 0;
      LoadStorageFile([]);
    }
  }

  // ---------- a write behind the end of its block ----------

  /** The bytes of a write that fall on the n bytes from lo on are those that stand there already. */
  ghost predicate WritesAlike(f: seq<byte>, off: nat, d: seq<byte>, lo: nat, n: nat) {
    forall i :: 0 <= i < |d| && lo <= off + i < lo + n ==> d[i] == ByteAt(f, off + i)
  }

  lemma RegionLeft(f: seq<byte>, off: nat, d: seq<byte>, lo: nat, n: nat)
    requires d != []
    ensures Region(PWrite(f, off, d), lo, n) == Region(f, lo, n) <==> WritesAlike(f, off, d, lo, n)
  {
    var r, r' := Region(f, lo, n), Region(PWrite(f, off, d), lo, n);
    if r' == r {
      forall i | 0 <= i < |d| && lo <= off + i < lo + n ensures d[i] == ByteAt(f, off + i) {
        assert r'[off + i - lo] == r[off + i - lo];
      }
    }
    if WritesAlike(f, off, d, lo, n) {
      forall x | 0 <= x < n ensures r'[x] == r[x] {
        if off <= lo + x < off + |d| { assert d[lo + x - off] == ByteAt(f, off + (lo + x - off)); }
      }
    }
  }

  lemma AlikeParts(f: seq<byte>, off: nat, d: seq<byte>, b: StorageBlock)
    ensures WritesAlike(f, off, d, b.begin, HEADER + b.len) <==>
      WritesAlike(f, off, d, b.begin, HEADER) && WritesAlike(f, off, d, b.begin + HEADER, b.len)
  {
    hide ByteAt;
  }

  /** A write behind the end of its block leaves another block as it was, its header and its data, if and only if it
      writes there what stands there. */
  lemma AstrayLeaves(f: seq<byte>, off: nat, d: seq<byte>, b: StorageBlock)
    requires d != [] && HeaderAt(f, b)
    ensures var f' := PWrite(f, off, d);
      HeaderAt(f', b) && Data(f', b) == Data(f, b) <==> WritesAlike(f, off, d, b.begin, HEADER + b.len)
  {
    RegionLeft(f, off, d, b.begin, HEADER);
    RegionLeft(f, off, d, b.begin + HEADER, b.len);
    AlikeParts(f, off, d, b);
    assert |f| <= |PWrite(f, off, d)|;
    HeaderIs(f, b);
    HeaderIs(PWrite(f, off, d), b);
    hide *;
  }

  lemma HeaderIs(f: seq<byte>, b: StorageBlock)
    ensures HeaderAt(f, b) <==> b.begin + HEADER <= |f| && Region(f, b.begin, HEADER) == EncodeBlock(b)
    ensures Data(f, b) == Region(f, b.begin + HEADER, b.len)
  {
    hide EncodeBlock, Region;
  }

  lemma TwoFit()
    ensures var s := Allocated(EMPTY, 4, Pick(EMPTY, 4));
      && s == Index(map[24 := StorageBlock(24, 4, UsedBlock)], map[], map[], 44)
      && Allocated(s, 4, Pick(s, 4)).used == s.used[44 := StorageBlock(44, 4, UsedBlock)]
  {
    FreshAllocate(EMPTY, 4);
    FreshAllocate(Index(map[24 := StorageBlock(24, 4, UsedBlock)], map[], map[], 44), 4);
  }

  /** A storage on an empty file. */
  method EmptyStorage() returns (s: FileStorage)
    ensures fresh(s) && s.Valid() && s.Idx() == EMPTY && s.Blocks() == map[]
  {
    assert Region([], 0, |CHECK_INFO|)[0] == 0;
    s := new FileStorage([], []);
    hide WellFormed, OnDisk;
  }

  method TwoBlocks() returns (s: FileStorage)
    ensures fresh(s) && s.Valid()
    ensures s.usedBlock == map[24 := StorageBlock(24, 4, UsedBlock), 44 := StorageBlock(44, 4, UsedBlock)]
  {
    TwoFit();
    s := EmptyStorage();
    hide Allocated, Pick, FileStorage.Valid, FileStorage.Blocks, FileStorage.Whole;
    var a := s.Allocate(4);
    var b := s.Allocate(4);
  }

  lemma ByteReplaced(f: seq<byte>, b: StorageBlock, x: byte)
    requires b.len == 4
    ensures Data(PWrite(f, b.begin + HEADER, [x]), b) == [x] + Data(f, b)[1..]
  {
    DataPatched(f, b, 0, [x]);
  }

  /** Two blocks of four bytes: a write to the first at position 20 is taken, and changes the second. */
  method WriteAstray() returns (s: FileStorage, ret: int)
    ensures fresh(s) && 24 in s.usedBlock && 44 in s.usedBlock && ret == 1
    ensures s.Blocks()[44] == [7, 1, 1, 1]
  {
    hide *;
    s := TwoBlocks();
    AstraySizes();
    var d := [1, 1, 1, 1];
    s.LiveBlock(44);
    PatchAll(s.Blocks()[44], d);
    ret := s.Write(44, 0, d);
    BlockIs(s, 44);
    ByteReplaced(s.file, s.usedBlock[44], 7);
    ret := s.Write(24, 20, [7]);
    BlockIs(s, 44);
  }

  lemma AstraySizes()
    ensures HEADER == 16 && WORD > 20 && Room(4, 20) >= 1
  {
  }

  lemma BlockIs(s: FileStorage, h: nat)
    requires h in s.usedBlock
    ensures h in s.Blocks() && s.Blocks()[h] == Data(s.file, s.usedBlock[h])
  {
    hide Data;
  }
}
