/** How the bookkeeping lies in the file: block headers, the file head, and the bytes between them. */
module Disk {
  import opened Bytes
  import opened BlockIndex
  import opened BlockRuns
  import opened Words

  /** "**LYW_CODE**" */
  const CHECK_INFO: seq<byte> := [42, 42, 76, 89, 87, 95, 67, 79, 68, 69, 42, 42]
  const END_MARK: nat := 16 // sizeof(VerifyInfo_t): where FixedHead_t is kept

  /** StorageBlock_t: an 8-byte offset, a 4-byte length, a 4-byte enumerator. */
  function EncodeBlock(b: StorageBlock): (e: seq<byte>)
    ensures |e| == HEADER && e != []
  {
    LE(8, b.begin) + LE(4, b.len) + LE(4, if b.state.WaitMergerBlock? then 1 else 0)
  }

  function DecodeBlock(e: seq<byte>): StorageBlock
    requires |e| == HEADER
  {
    StorageBlock(FromLE(e[..8]), FromLE(e[8..12]), if FromLE(e[12..]) == 1 then WaitMergerBlock else UsedBlock)
  }

  lemma BlockRoundTrip(b: StorageBlock)
    requires b.End() < WORD
    ensures DecodeBlock(EncodeBlock(b)) == b
  {
    var e := EncodeBlock(b);
    assert e[..8] == LE(8, b.begin) && e[8..12] == LE(4, b.len);
    assert e[12..] == LE(4, if b.state.WaitMergerBlock? then 1 else 0);
    WordSizes();
    LERoundTrip(8, b.begin);
    LERoundTrip(4, b.len);
    LERoundTrip(4, if b.state.WaitMergerBlock? then 1 else 0);
  }

  ghost predicate HeaderAt(f: seq<byte>, b: StorageBlock) {
    b.begin + HEADER <= |f| && Region(f, b.begin, HEADER) == EncodeBlock(b)
  }

  ghost predicate AllHeaders(f: seq<byte>, m: BlockMap) {
    forall b :: b in m ==> HeaderAt(f, m[b])
  }

  ghost predicate HeadOk(f: seq<byte>, fileEnd: nat) {
    && FIRST_BLOCK <= |f|
    && Region(f, 0, |CHECK_INFO|) == CHECK_INFO
    && Region(f, END_MARK, 8) == LE(8, fileEnd)
  }

  /** The data bytes of a block. */
  ghost function Data(f: seq<byte>, b: StorageBlock): (d: seq<byte>)
    ensures |d| == b.len
  {
    Region(f, b.begin + HEADER, b.len)
  }

  ghost function Contents(f: seq<byte>, m: BlockMap): map<nat, seq<byte>> {
    map h | h in m :: Data(f, m[h])
  }

  /** How many of the block's data bytes, from the first on, are inside the file. A read stops there. */
  function Reach(f: seq<byte>, b: StorageBlock): (n: nat)
    ensures n <= b.len
  {
    var off := b.begin + HEADER;
    if |f| <= off then 0 else if |f| - off < b.len then |f| - off else b.len
  }

  /** All data bytes of the block are inside the file, so none of a read is cut short. */
  ghost predicate Full(f: seq<byte>, b: StorageBlock) {
    Reach(f, b) == b.len
  }

  ghost predicate OnDisk(f: seq<byte>, s: Index, lim: nat) {
    && WellFormedTo(s, lim)
    && lim <= s.fileEnd < WORD
    && HeadOk(f, s.fileEnd)
    && AllHeaders(f, s.used)
    && AllHeaders(f, s.freeBegin)
  }

  // ---------- writes that miss a set of blocks ----------

  ghost predicate Misses(m: BlockMap, lo: nat, hi: nat) {
    forall b :: b in m ==> m[b].End() <= lo || hi <= m[b].begin
  }

  lemma WriteMisses(f: seq<byte>, off: nat, d: seq<byte>, m: BlockMap)
    requires d != [] && Misses(m, off, off + |d|)
    ensures AllHeaders(f, m) ==> AllHeaders(PWrite(f, off, d), m)
    ensures Contents(PWrite(f, off, d), m) == Contents(f, m)
  {
    forall b | b in m
      ensures HeaderAt(f, m[b]) ==> HeaderAt(PWrite(f, off, d), m[b])
      ensures Data(PWrite(f, off, d), m[b]) == Data(f, m[b])
    {
      RegionElsewhere(f, off, d, m[b].begin, HEADER);
      RegionElsewhere(f, off, d, m[b].begin + HEADER, m[b].len);
    }
  }

  lemma HeadMissed(f: seq<byte>, off: nat, d: seq<byte>, e: nat)
    requires d != [] && off >= FIRST_BLOCK && HeadOk(f, e)
    ensures HeadOk(PWrite(f, off, d), e)
  {
    RegionElsewhere(f, off, d, 0, |CHECK_INFO|);
    RegionElsewhere(f, off, d, END_MARK, 8);
  }

  lemma HeadWritten(f: seq<byte>, e: nat, e': nat)
    requires HeadOk(f, e)
    ensures HeadOk(PWrite(f, END_MARK, LE(8, e')), e')
  {
    RegionElsewhere(f, END_MARK, LE(8, e'), 0, |CHECK_INFO|);
    RegionHere(f, END_MARK, LE(8, e'));
  }

  lemma HeaderWritten(f: seq<byte>, b: StorageBlock)
    ensures HeaderAt(PWrite(f, b.begin, EncodeBlock(b)), b)
  {
    RegionHere(f, b.begin, EncodeBlock(b));
  }

  lemma TruncateMisses(f: seq<byte>, n: nat, m: BlockMap)
    requires forall b :: b in m ==> m[b].End() <= n
    ensures AllHeaders(f, m) ==> AllHeaders(Truncate(f, n), m)
    ensures Contents(Truncate(f, n), m) == Contents(f, m)
  {
    forall b | b in m
      ensures HeaderAt(f, m[b]) ==> HeaderAt(Truncate(f, n), m[b])
      ensures Data(Truncate(f, n), m[b]) == Data(f, m[b])
    {
      assert Region(Truncate(f, n), m[b].begin, HEADER) == Region(f, m[b].begin, HEADER);
      assert Region(Truncate(f, n), m[b].begin + HEADER, m[b].len) == Region(f, m[b].begin + HEADER, m[b].len);
    }
  }

  lemma HeadersAdd(f: seq<byte>, m: BlockMap, b: StorageBlock)
    requires AllHeaders(f, m) && HeaderAt(f, b)
    ensures AllHeaders(f, m[b.begin := b])
  {
    hide HeaderAt;
  }

  lemma ContentsAdd(f: seq<byte>, m: BlockMap, b: StorageBlock)
    ensures Contents(f, m[b.begin := b]) == Contents(f, m)[b.begin := Data(f, b)]
  {
    hide Data;
  }

  /** Writing the header of b where no listed block lies. */
  lemma PutHeader(f: seq<byte>, used: BlockMap, free: BlockMap, e: nat, b: StorageBlock)
    requires AllHeaders(f, used) && AllHeaders(f, free) && HeadOk(f, e) && b.begin >= FIRST_BLOCK
    requires Misses(used, b.begin, b.begin + HEADER) && Misses(free, b.begin, b.begin + HEADER)
    ensures var f1 := PWrite(f, b.begin, EncodeBlock(b));
      && AllHeaders(f1, used) && AllHeaders(f1, free) && HeadOk(f1, e) && HeaderAt(f1, b)
      && Contents(f1, used) == Contents(f, used) && |f| <= |f1|
  {
    hide AllHeaders, HeadOk, Misses, Contents, HeaderAt;
    WriteMisses(f, b.begin, EncodeBlock(b), used);
    WriteMisses(f, b.begin, EncodeBlock(b), free);
    HeadMissed(f, b.begin, EncodeBlock(b), e);
    HeaderWritten(f, b);
  }

  /** Writing the end mark. */
  lemma PutMark(f: seq<byte>, used: BlockMap, free: BlockMap, e: nat, e': nat)
    requires AllHeaders(f, used) && AllHeaders(f, free) && HeadOk(f, e)
    requires Misses(used, 0, FIRST_BLOCK) && Misses(free, 0, FIRST_BLOCK)
    ensures var f1 := PWrite(f, END_MARK, LE(8, e'));
      && AllHeaders(f1, used) && AllHeaders(f1, free) && HeadOk(f1, e')
      && Contents(f1, used) == Contents(f, used) && |f1| == |f|
  {
    assert |f| >= FIRST_BLOCK;
    MissWithin(used, 0, FIRST_BLOCK, END_MARK, FIRST_BLOCK);
    MissWithin(free, 0, FIRST_BLOCK, END_MARK, FIRST_BLOCK);
    hide AllHeaders, HeadOk, Misses, Contents;
    WriteMisses(f, END_MARK, LE(8, e'), used);
    WriteMisses(f, END_MARK, LE(8, e'), free);
    HeadWritten(f, e, e');
  }

  lemma MissWithin(m: BlockMap, lo: nat, hi: nat, off: nat, end: nat)
    requires Misses(m, lo, hi) && lo <= off <= end <= hi
    ensures Misses(m, off, end)
  {
  }
}
