/** What allocate and Free do to the file, in step with what they do to the maps. */
module DiskSteps {
  import opened Bytes
  import opened BlockIndex
  import opened BlockRuns
  import opened Disk
  import opened Words

  // ---------- where the other blocks are ----------

  lemma BeyondHead(s: Index, lim: nat)
    requires WellFormedTo(s, lim)
    ensures Misses(s.used, 0, FIRST_BLOCK) && Misses(s.freeBegin, 0, FIRST_BLOCK)
    ensures Misses(s.used, lim, lim + HEADER) && Misses(s.freeBegin, lim, lim + HEADER)
  {
    Layout(s, lim);
    hide WellFormedTo, Ends;
  }

  lemma OthersMiss(s: Index, lim: nat, k: nat, b: StorageBlock)
    requires WellFormedTo(s, lim)
    requires (k in s.used && s.used[k] == b) || (k in s.freeBegin && s.freeBegin[k] == b)
    ensures Misses(s.used - {k}, k, b.End()) && Misses(s.freeBegin - {k}, k, b.End())
  {
    hide *;
    Layout(s, lim);
    ExtentsMiss(s.used - {k}, Ends(s), {k}, k, b.End());
    ExtentsMiss(s.freeBegin - {k}, Ends(s), {k}, k, b.End());
  }

  lemma UntouchedMiss(s: Index, h: nat, lim: nat)
    requires WellFormedTo(s, lim) && h in s.used
    ensures var u, lo, hi := Untouched(s, h), MergedBegin(s, h), MergedEnd(s, h);
      Misses(u.used, lo, hi) && Misses(u.freeBegin, lo, hi)
  {
    hide *;
    var u, lo, hi := Untouched(s, h), MergedBegin(s, h), MergedEnd(s, h);
    GoneRegion(s, h, lim);
    Layout(s, lim);
    UntouchedIsOld(s, h, lim);
    ExtentsMiss(u.used, Ends(s), Gone(s, h), lo, hi);
    ExtentsMiss(u.freeBegin, Ends(s), Gone(s, h), lo, hi);
  }

  lemma ExtentsMiss(m: BlockMap, ends: map<nat, nat>, gone: set<nat>, lo: nat, hi: nat)
    requires forall b :: b in m ==> m[b].begin == b && b in ends && ends[b] == m[b].End() && b !in gone
    requires lo in ends && lo in gone
    requires forall b :: b in ends && lo < b < hi ==> b in gone
    requires forall b :: b in ends && b < lo ==> ends[b] <= lo
    ensures Misses(m, lo, hi)
  {
  }

  lemma UntouchedIsOld(s: Index, h: nat, lim: nat)
    requires WellFormedTo(s, lim) && h in s.used
    ensures var u := Untouched(s, h);
      && (forall b :: b in u.used ==> b in s.used && u.used[b] == s.used[b] && b !in Gone(s, h))
      && (forall b :: b in u.freeBegin ==> b in s.freeBegin && u.freeBegin[b] == s.freeBegin[b] && b !in Gone(s, h))
  {
    Neighbours(s, h, lim);
    hide Tiles, Ends, SameFree, Coalesced, MergedEnd;
  }

  // ---------- allocate ----------

  /** The file after allocate has written its headers. */
  function AllocatedFile(f: seq<byte>, s: Index, size: nat, c: Choice): seq<byte>
    requires c.Take? ==> c.key in s.freeBegin && Fits(s.freeBegin[c.key], size)
  {
    var g, t := Granted(s, size, c), Allocated(s, size, c);
    match c
    case Append => PWrite(PWrite(f, g.begin, EncodeBlock(g)), END_MARK, LE(8, t.fileEnd))
    case Take(k) =>
      if s.freeBegin[k].len > size + HEADER then
        PWrite(PWrite(f, k, EncodeBlock(t.freeBegin[k])), g.begin, EncodeBlock(g))
      else PWrite(f, k, EncodeBlock(g))
  }

  /** What the users of the storage see of allocate: one more block, and no data byte of another changed. */
  ghost predicate AllocateSeen(f: seq<byte>, s: Index, f': seq<byte>, t: Index, g: StorageBlock) {
    && WellFormed(t) && OnDisk(f', t, t.fileEnd)
    && g.begin !in s.used
    && t.used == s.used[g.begin := g]
    && Contents(f', t.used) == Contents(f, s.used)[g.begin := Data(f', g)]
    && |f| <= |f'|
  }

  lemma SeenFromParts(f: seq<byte>, s: Index, f': seq<byte>, t: Index, g: StorageBlock)
    requires WellFormed(t) && t.fileEnd < WORD && t.used == s.used[g.begin := g] && g.begin !in s.used
    requires AllHeaders(f', s.used) && HeaderAt(f', g) && AllHeaders(f', t.freeBegin) && HeadOk(f', t.fileEnd)
    requires Contents(f', s.used) == Contents(f, s.used) && |f| <= |f'|
    ensures AllocateSeen(f, s, f', t, g)
  {
    assert WellFormedTo(t, t.fileEnd);
    hide WellFormed, WellFormedTo, HeadOk, HeaderAt, AllHeaders, Contents;
    HeadersAdd(f', s.used, g);
    ContentsAdd(f', s.used, g);
  }

  lemma OnDiskParts(f: seq<byte>, s: Index, lim: nat)
    requires OnDisk(f, s, lim)
    ensures WellFormedTo(s, lim) && FIRST_BLOCK <= lim <= s.fileEnd < WORD
    ensures HeadOk(f, s.fileEnd) && AllHeaders(f, s.used) && AllHeaders(f, s.freeBegin)
  {
    hide AllHeaders, HeadOk, Ends, SameFree, Coalesced, Keyed;
  }

  lemma AppendShape(f: seq<byte>, s: Index, size: nat)
    ensures var g, t := Granted(s, size, Append), Allocated(s, size, Append);
      && g == StorageBlock(s.fileEnd, size, UsedBlock) && g.begin == s.fileEnd && g.End() == s.fileEnd + HEADER + size
      && t == Index(s.used[g.begin := g], s.freeBegin, s.freeEnd, g.End())
      && AllocatedFile(f, s, size, Append) == PWrite(PWrite(f, g.begin, EncodeBlock(g)), END_MARK, LE(8, t.fileEnd))
  {
    hide EncodeBlock, LE, PWrite;
  }

  lemma AppendSeen(f: seq<byte>, s: Index, size: nat)
    requires WellFormed(s) && OnDisk(f, s, s.fileEnd) && s.fileEnd + HEADER + size < WORD
    ensures AllocateSeen(f, s, AllocatedFile(f, s, size, Append), Allocated(s, size, Append), Granted(s, size, Append))
  {
    hide *;
    var g, t := Granted(s, size, Append), Allocated(s, size, Append);
    AppendShape(f, s, size);
    OnDiskParts(f, s, s.fileEnd);
    AppendWellFormed(s, size);
    EnteredTiles(s, g);
    BeyondHead(s, s.fileEnd);
    PutHeader(f, s.used, s.freeBegin, s.fileEnd, g);
    var f1 := PWrite(f, g.begin, EncodeBlock(g));
    PutMark(f1, s.used, s.freeBegin, s.fileEnd, t.fileEnd);
    HeaderKept(f1, t.fileEnd, g);
    SeenFromParts(f, s, AllocatedFile(f, s, size, Append), t, g);
  }

  lemma ExactShape(f: seq<byte>, s: Index, size: nat, k: nat)
    requires k in s.freeBegin && s.freeBegin[k].len == size && s.freeBegin[k].begin == k
    ensures var c := Take(k); var g, t := Granted(s, size, c), Allocated(s, size, c);
      && g.begin == k && g.End() == s.freeBegin[k].End()
      && t == Index(s.used[k := g], s.freeBegin - {k}, s.freeEnd - {s.freeBegin[k].End()}, s.fileEnd)
      && AllocatedFile(f, s, size, c) == PWrite(f, k, EncodeBlock(g))
  {
    hide EncodeBlock, LE, PWrite;
  }

  lemma HeadersLess(f: seq<byte>, m: BlockMap, k: nat)
    requires AllHeaders(f, m)
    ensures AllHeaders(f, m - {k})
  {
    hide HeaderAt;
  }

  lemma NotThere(m: BlockMap, k: nat)
    requires k !in m
    ensures m - {k} == m
  {
  }

  lemma ExactSeen(f: seq<byte>, s: Index, size: nat, k: nat)
    requires WellFormed(s) && OnDisk(f, s, s.fileEnd) && k in s.freeBegin && s.freeBegin[k].len == size
    ensures var c := Take(k);
      AllocateSeen(f, s, AllocatedFile(f, s, size, c), Allocated(s, size, c), Granted(s, size, c))
  {
    assert Fits(s.freeBegin[k], size);
    hide *;
    var g, t := Granted(s, size, Take(k)), Allocated(s, size, Take(k));
    FreePlace(s, k);
    ExactShape(f, s, size, k);
    OnDiskParts(f, s, s.fileEnd);
    ExactWellFormed(s, size, k);
    OthersMiss(s, s.fileEnd, k, s.freeBegin[k]);
    NotThere(s.used, k);
    HeadersLess(f, s.freeBegin, k);
    MissWithin(s.used, k, g.End(), k, k + HEADER);
    MissWithin(t.freeBegin, k, g.End(), k, k + HEADER);
    PutHeader(f, s.used, t.freeBegin, s.fileEnd, g);
    SeenFromParts(f, s, AllocatedFile(f, s, size, Take(k)), t, g);
  }

  lemma FreePlace(s: Index, k: nat)
    requires WellFormed(s) && k in s.freeBegin
    ensures s.freeBegin[k].begin == k && k !in s.used && FIRST_BLOCK <= k < k + HEADER <= s.freeBegin[k].End()
  {
    Layout(s, s.fileEnd);
    hide Tiles, Ends, SameFree, Coalesced;
  }

  lemma SplitShape(f: seq<byte>, s: Index, size: nat, k: nat)
    requires k in s.freeBegin && s.freeBegin[k].len > size + HEADER && s.freeBegin[k].begin == k
    ensures var c := Take(k); var g, t := Granted(s, size, c), Allocated(s, size, c);
      var rest := t.freeBegin[k];
      && k in t.freeBegin && rest.begin == k && rest.End() == g.begin
      && g.End() == s.freeBegin[k].End() && g.begin + HEADER <= g.End() && k + HEADER < g.begin
      && t.used == s.used[g.begin := g] && t.fileEnd == s.fileEnd
      && t.freeBegin == (s.freeBegin - {k})[k := rest]
      && AllocatedFile(f, s, size, c) == PWrite(PWrite(f, k, EncodeBlock(rest)), g.begin, EncodeBlock(g))
  {
    hide EncodeBlock, LE, PWrite;
  }

  lemma SplitSeen(f: seq<byte>, s: Index, size: nat, k: nat)
    requires WellFormed(s) && OnDisk(f, s, s.fileEnd) && k in s.freeBegin && s.freeBegin[k].len > size + HEADER
    ensures var c := Take(k);
      AllocateSeen(f, s, AllocatedFile(f, s, size, c), Allocated(s, size, c), Granted(s, size, c))
  {
    assert Fits(s.freeBegin[k], size);
    hide *;
    var g, t := Granted(s, size, Take(k)), Allocated(s, size, Take(k));
    FreePlace(s, k);
    SplitShape(f, s, size, k);
    OnDiskParts(f, s, s.fileEnd);
    SplitWellFormed(s, size, k);
    var rest, others := t.freeBegin[k], s.freeBegin - {k};
    var f1 := PWrite(f, k, EncodeBlock(rest));
    OthersMiss(s, s.fileEnd, k, s.freeBegin[k]);
    NotThere(s.used, k);
    HeadersLess(f, s.freeBegin, k);
    MissWithin(s.used, k, g.End(), k, k + HEADER);
    MissWithin(others, k, g.End(), k, k + HEADER);
    PutHeader(f, s.used, others, s.fileEnd, rest);
    HeadersAdd(f1, others, rest);
    MissWithin(s.used, k, g.End(), g.begin, g.begin + HEADER);
    MissWithin(others, k, g.End(), g.begin, g.begin + HEADER);
    MissAdd(others, rest, g.begin, g.begin + HEADER);
    PutHeader(f1, s.used, t.freeBegin, s.fileEnd, g);
    SplitNew(s, size, k);
    SeenFromParts(f, s, AllocatedFile(f, s, size, Take(k)), t, g);
  }

  lemma MissAdd(m: BlockMap, b: StorageBlock, lo: nat, hi: nat)
    requires Misses(m, lo, hi) && b.End() <= lo
    ensures Misses(m[b.begin := b], lo, hi)
  {
  }

  lemma SplitNew(s: Index, size: nat, k: nat)
    requires WellFormed(s) && k in s.freeBegin && s.freeBegin[k].len > size + HEADER
    ensures Granted(s, size, Take(k)).begin !in s.used
  {
    Layout(s, s.fileEnd);
    hide Tiles, Ends, SameFree, Coalesced;
  }

  /** allocate, whichever way it finds room. */
  lemma AllocatedSeen(f: seq<byte>, s: Index, size: nat, c: Choice)
    requires WellFormed(s) && OnDisk(f, s, s.fileEnd) && IsChoice(s, size, c) && s.fileEnd + HEADER + size < WORD
    ensures AllocateSeen(f, s, AllocatedFile(f, s, size, c), Allocated(s, size, c), Granted(s, size, c))
  {
    hide WellFormed, OnDisk, AllocateSeen, AllocatedFile, Allocated, Granted;
    match c {
      case Append => AppendSeen(f, s, size);
      case Take(k) =>
        if s.freeBegin[k].len > size + HEADER { SplitSeen(f, s, size, k); } else { ExactSeen(f, s, size, k); }
    }
  }

  lemma HeaderKept(f: seq<byte>, e: nat, b: StorageBlock)
    requires HeaderAt(f, b) && b.begin >= FIRST_BLOCK
    ensures HeaderAt(PWrite(f, END_MARK, LE(8, e)), b)
  {
    RegionElsewhere(f, END_MARK, LE(8, e), b.begin, HEADER);
  }

  // ---------- Free ----------

  /** The file after Free(h) has written its header, or cut off the tail. */
  function ReleasedFile(f: seq<byte>, s: Index, h: nat): seq<byte> {
    if h !in s.used then f else
    var lo := MergedBegin(s, h);
    if MergedEnd(s, h) == s.fileEnd then Truncate(PWrite(f, END_MARK, LE(8, lo)), lo)
    else PWrite(f, lo, EncodeBlock(StorageBlock(lo, MergedLen(s, h), WaitMergerBlock)))
  }

  /** Bytes of f from lim on are those of f'. */
  ghost predicate SameFrom(f: seq<byte>, f': seq<byte>, lim: nat) {
    |f'| == |f| && forall i: nat :: i >= lim ==> ByteAt(f', i) == ByteAt(f, i)
  }

  /** What the users of the storage see of Free: the block goes, and no data byte of another changes. */
  ghost predicate ReleaseSeen(f: seq<byte>, s: Index, f': seq<byte>, t: Index, h: nat) {
    && t.used == s.used - {h}
    && Contents(f', t.used) == Contents(f, s.used) - {h}
    && forall b :: b in t.used ==> Reach(f, t.used[b]) <= Reach(f', t.used[b])
  }

  /** Everything but the header of h, which may still be marked free while a file is being loaded. */
  ghost predicate OnDiskBut(f: seq<byte>, s: Index, h: nat, lim: nat) {
    && WellFormedTo(s, lim)
    && lim <= s.fileEnd < WORD
    && HeadOk(f, s.fileEnd)
    && AllHeaders(f, s.used - {h})
    && AllHeaders(f, s.freeBegin)
    && h in s.used && h + HEADER <= |f|
  }

  lemma ContentsLess(f: seq<byte>, m: BlockMap, h: nat)
    ensures Contents(f, m - {h}) == Contents(f, m) - {h}
  {
    hide Data;
  }

  lemma SubHeaders(f: seq<byte>, m: BlockMap, gone: set<nat>)
    requires AllHeaders(f, m)
    ensures AllHeaders(f, m - gone)
  {
    hide HeaderAt;
  }

  lemma UntouchedShape(s: Index, h: nat)
    requires h in s.used
    ensures Untouched(s, h).used == s.used - {h}
    ensures Untouched(s, h).freeBegin == s.freeBegin - {MergedBegin(s, h), s.used[h].End()}
  {
    hide MergedBegin;
  }

  lemma OnDiskButParts(f: seq<byte>, s: Index, h: nat, lim: nat)
    requires OnDiskBut(f, s, h, lim)
    ensures WellFormedTo(s, lim) && HeadOk(f, s.fileEnd) && AllHeaders(f, s.used - {h}) && AllHeaders(f, s.freeBegin)
    ensures h in s.used && lim <= s.fileEnd < WORD && h + HEADER <= |f|
  {
    hide WellFormedTo, HeadOk, AllHeaders;
  }

  lemma MergedFile(f: seq<byte>, s: Index, h: nat)
    requires h in s.used && MergedEnd(s, h) != s.fileEnd
    ensures var b := StorageBlock(MergedBegin(s, h), MergedLen(s, h), WaitMergerBlock);
      ReleasedFile(f, s, h) == PWrite(f, b.begin, EncodeBlock(b))
  {
    hide MergedBegin, MergedEnd, MergedLen, EncodeBlock, PWrite;
  }

  lemma MergedSeen(f: seq<byte>, s: Index, h: nat, lim: nat)
    requires OnDiskBut(f, s, h, lim) && MergedEnd(s, h) != s.fileEnd
    ensures var f', t := ReleasedFile(f, s, h), Released(s, h);
      && OnDisk(f', t, lim) && ReleaseSeen(f, s, f', t, h)
      && SameFrom(f, f', lim)
  {
    hide *;
    OnDiskButParts(f, s, h, lim);
    MergedFile(f, s, h);
    var u, lo, hi := Untouched(s, h), MergedBegin(s, h), MergedEnd(s, h);
    var merged := StorageBlock(lo, MergedLen(s, h), WaitMergerBlock);
    var f', t := ReleasedFile(f, s, h), Released(s, h);
    ReleasedTo(s, h, lim);
    ReleasedKeys(s, h, lim);
    ReleasedShape(s, h);
    UntouchedShape(s, h);
    UntouchedMiss(s, h, lim);
    GoneInside(s, h, lim);
    SubHeaders(f, s.freeBegin, {lo, s.used[h].End()});
    MissWithin(u.used, lo, hi, lo, lo + HEADER);
    MissWithin(u.freeBegin, lo, hi, lo, lo + HEADER);
    PutHeader(f, u.used, u.freeBegin, s.fileEnd, merged);
    HeadersAdd(f', u.freeBegin, merged);
    ContentsLess(f, s.used, h);
    OnDiskIf(f', t, lim);
    PutSameFrom(f, lo, merged, lim);
    SeenIf(f, s, f', t, h);
  }

  lemma SeenIf(f: seq<byte>, s: Index, f': seq<byte>, t: Index, h: nat)
    requires t.used == s.used - {h} && Contents(f', t.used) == Contents(f, s.used) - {h} && |f| <= |f'|
    ensures ReleaseSeen(f, s, f', t, h)
  {
    hide Contents;
  }

  lemma OnDiskIf(f: seq<byte>, s: Index, lim: nat)
    requires WellFormedTo(s, lim) && lim <= s.fileEnd < WORD
    requires HeadOk(f, s.fileEnd) && AllHeaders(f, s.used) && AllHeaders(f, s.freeBegin)
    ensures OnDisk(f, s, lim)
  {
    hide WellFormedTo, HeadOk, AllHeaders;
  }

  lemma PutSameFrom(f: seq<byte>, lo: nat, b: StorageBlock, lim: nat)
    requires lo + HEADER <= lim && lo + HEADER <= |f|
    ensures SameFrom(f, PWrite(f, lo, EncodeBlock(b)), lim)
  {
    hide EncodeBlock, Region;
  }

  lemma GoneInside(s: Index, h: nat, lim: nat)
    requires WellFormedTo(s, lim) && h in s.used
    ensures FIRST_BLOCK <= MergedBegin(s, h) <= h
    ensures MergedBegin(s, h) + HEADER <= MergedEnd(s, h) <= lim
  {
    hide *;
    MergedRegion(s, h, lim);
    Layout(s, lim);
  }

  lemma TailSeen(f: seq<byte>, s: Index, h: nat, lim: nat)
    requires OnDiskBut(f, s, h, lim) && MergedEnd(s, h) == s.fileEnd
    ensures var f', t := ReleasedFile(f, s, h), Released(s, h);
      WellFormed(t) && OnDisk(f', t, t.fileEnd) && ReleaseSeen(f, s, f', t, h)
  {
    assert WellFormedTo(s, lim) && HeadOk(f, s.fileEnd) && AllHeaders(f, s.used - {h}) && AllHeaders(f, s.freeBegin);
    assert h in s.used && lim <= s.fileEnd < WORD;
    var u, lo := Untouched(s, h), MergedBegin(s, h);
    var f', t := ReleasedFile(f, s, h), Released(s, h);
    var f1 := PWrite(f, END_MARK, LE(8, lo));
    assert f' == Truncate(f1, lo);
    hide *;
    ReleasedTo(s, h, lim);
    ReleasedShape(s, h);
    ReleasedKeys(s, h, lim);
    UntouchedShape(s, h);
    GoneInside(s, h, lim);
    SubHeaders(f, s.freeBegin, {lo, s.used[h].End()});
    WellFormedToIf(t);
    BeyondHead(t, lo);
    PutMark(f, u.used, u.freeBegin, s.fileEnd, lo);
    EndsBefore(t, lo);
    TruncateMisses(f1, lo, u.used);
    TruncateMisses(f1, lo, u.freeBegin);
    HeadTruncated(f1, lo);
    ContentsLess(f, s.used, h);
    OnDiskIf(f', t, lo);
    TailSeenIf(f, s, f', t, h);
  }

  lemma WellFormedToIf(s: Index)
    requires WellFormed(s)
    ensures WellFormedTo(s, s.fileEnd)
  {
    hide WellFormedTo;
  }

  lemma EndsBefore(s: Index, lim: nat)
    requires WellFormedTo(s, lim)
    ensures forall b :: b in s.used ==> s.used[b].End() <= lim
    ensures forall b :: b in s.freeBegin ==> s.freeBegin[b].End() <= lim
  {
    Layout(s, lim);
    hide WellFormedTo, Ends;
  }

  lemma HeadTruncated(f: seq<byte>, n: nat)
    requires HeadOk(f, n) && n >= FIRST_BLOCK
    ensures HeadOk(Truncate(f, n), n)
  {
    assert Region(Truncate(f, n), 0, |CHECK_INFO|) == Region(f, 0, |CHECK_INFO|);
    assert Region(Truncate(f, n), END_MARK, 8) == Region(f, END_MARK, 8);
  }

  lemma TailSeenIf(f: seq<byte>, s: Index, f': seq<byte>, t: Index, h: nat)
    requires t.used == s.used - {h} && Contents(f', t.used) == Contents(f, s.used) - {h}
    requires forall b :: b in t.used ==> t.used[b].End() <= |f'|
    ensures ReleaseSeen(f, s, f', t, h)
  {
    hide Contents;
  }
}
