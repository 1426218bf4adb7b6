/**
 The allocator's bookkeeping, as values: the three maps and the end-of-file mark of FileStorage,
 what one allocate and one Free do to them, and the invariant every run keeps.
 */
module BlockIndex {

  const HEADER: nat := 16     // sizeof(StorageBlock_t)
  const FIRST_BLOCK: nat := 24 // sizeof(VerifyInfo_t) + sizeof(FixedHead_t)

  datatype BlockState = UsedBlock | WaitMergerBlock

  datatype StorageBlock = StorageBlock(begin: nat, len: nat, state: BlockState) {
    function End(): nat { begin + HEADER + len }
  }

  type BlockMap = map<nat, StorageBlock>

  datatype Index = Index(used: BlockMap, freeBegin: BlockMap, freeEnd: BlockMap, fileEnd: nat)

  const EMPTY := Index(map[], map[], map[], FIRST_BLOCK)

  // ---------- tilings ----------

  /**
   m gives, for each block, where it ends. The blocks tile [FIRST_BLOCK, lim): each ends where another
   begins, and none overlap.
   */
  ghost predicate Tiles(m: map<nat, nat>, lim: nat) {
    && FIRST_BLOCK <= lim
    && (lim == FIRST_BLOCK || FIRST_BLOCK in m)
    && (forall b {:trigger m[b]} :: b in m ==> FIRST_BLOCK <= b && b + HEADER <= m[b] <= lim)
    && (forall b {:trigger m[b]} :: b in m ==> m[b] == lim || m[b] in m)
    && (forall b, c {:trigger m[b], m[c]} :: b in m && c in m && b < c ==> m[b] <= c)
  }

  /** No block begins strictly inside another. */
  lemma TilesApart(m: map<nat, nat>, lim: nat)
    requires Tiles(m, lim)
    ensures forall b, c :: b in m && c in m && b < c ==> m[b] <= c
  {
    forall b, c | b in m && c in m && b < c ensures m[b] <= c { assert m[c] > c; }
  }

  lemma TilesBounds(m: map<nat, nat>, lim: nat)
    requires Tiles(m, lim)
    ensures forall b :: b in m ==> FIRST_BLOCK <= b && b + HEADER <= m[b] <= lim
  {
  }

  lemma TilesNext(m: map<nat, nat>, lim: nat)
    requires Tiles(m, lim)
    ensures forall b {:trigger m[b]} :: b in m ==> m[b] == lim || m[b] in m
  {
  }

  lemma TilesAppend(m: map<nat, nat>, lim: nat, end: nat)
    requires Tiles(m, lim) && lim + HEADER <= end
    ensures Tiles(m[lim := end], end)
  {
  }

  lemma TilesIf(m: map<nat, nat>, lim: nat)
    requires FIRST_BLOCK <= lim && (lim == FIRST_BLOCK || FIRST_BLOCK in m)
    requires forall b {:trigger m[b]} :: b in m ==> FIRST_BLOCK <= b && b + HEADER <= m[b] <= lim
    requires forall b {:trigger m[b]} :: b in m ==> m[b] == lim || m[b] in m
    requires forall b, c {:trigger m[b], m[c]} :: b in m && c in m && b < c ==> m[b] <= c
    ensures Tiles(m, lim)
  {
  }

  lemma TilesSplit(m: map<nat, nat>, lim: nat, b: nat, mid: nat)
    requires Tiles(m, lim) && b in m && b + HEADER <= mid && mid + HEADER <= m[b]
    ensures mid !in m
    ensures Tiles(m[b := mid][mid := m[b]], lim)
  {
    SplitMid(m, lim, b, mid);
    assert b != mid;
    hide *;
    var n := SplitInTwo(m, b, mid);
    SplitIs(m, b, mid);
    forall c, d | c in n && d in n && c < d
      ensures n[c] <= d
    {
      SplitAt(m, b, mid, c);
      SplitAt(m, b, mid, d);
      TilesSplitApart(m, lim, b, mid, c, d);
    }
    forall c | c in n
      ensures FIRST_BLOCK <= c && c + HEADER <= n[c] <= lim
      ensures n[c] == lim || n[c] in n
    {
      SplitAt(m, b, mid, c);
      TilesSplitBounds(m, lim, b, mid, c);
      SplitAt(m, b, mid, n[c]);
    }
    SplitAt(m, b, mid, FIRST_BLOCK);
    TilesIf(n, lim);
  }

  /** Block b split at mid. */
  function SplitInTwo(m: map<nat, nat>, b: nat, mid: nat): map<nat, nat>
    requires b in m
  {
    m[b := mid][mid := m[b]]
  }

  lemma SplitIs(m: map<nat, nat>, b: nat, mid: nat)
    requires b in m
    ensures SplitInTwo(m, b, mid) == m[b := mid][mid := m[b]]
  {
  }

  lemma SplitAt(m: map<nat, nat>, b: nat, mid: nat, c: nat)
    requires b in m && b != mid
    ensures c in SplitInTwo(m, b, mid) <==> c in m || c == mid
    ensures c in SplitInTwo(m, b, mid) ==>
      SplitInTwo(m, b, mid)[c] == if c == mid then m[b] else if c == b then mid else m[c]
  {
  }

  lemma SplitMid(m: map<nat, nat>, lim: nat, b: nat, mid: nat)
    requires Tiles(m, lim) && b in m && b < mid < m[b]
    ensures mid !in m && FIRST_BLOCK <= lim && (lim == FIRST_BLOCK || FIRST_BLOCK in m)
  {
    TilesApart(m, lim);
  }

  lemma TilesSplitBounds(m: map<nat, nat>, lim: nat, b: nat, mid: nat, c: nat)
    requires Tiles(m, lim) && b in m && b + HEADER <= mid && mid + HEADER <= m[b] && mid !in m && (c in m || c == mid)
    ensures var e := if c == mid then m[b] else if c == b then mid else m[c];
      FIRST_BLOCK <= c && c + HEADER <= e <= lim && (e == lim || e in m || e == mid)
  {
    assert m[b] <= lim;
    if c != mid { assert m[c] <= lim; }
  }

  lemma TilesSplitApart(m: map<nat, nat>, lim: nat, b: nat, mid: nat, c: nat, d: nat)
    requires Tiles(m, lim) && b in m && b + HEADER <= mid && mid + HEADER <= m[b]
    requires c < d && (c in m || c == mid) && (d in m || d == mid) && mid !in m
    ensures (if c == mid then m[b] else if c == b then mid else m[c]) <= d
  {
    if d != mid { assert m[d] > d; }
  }

  /** n is m with the blocks from lo up to hi taken as one. */
  ghost predicate Joins(m: map<nat, nat>, lo: nat, hi: nat, n: map<nat, nat>) {
    && lo in m && lo in n && n[lo] == hi
    && (forall b :: b in n ==> b in m && !(lo < b < hi))
    && (forall b :: b in m && !(lo < b < hi) ==> b in n)
    && (forall b :: b in n && b != lo ==> n[b] == m[b])
  }

  lemma TilesJoin(m: map<nat, nat>, lim: nat, lo: nat, hi: nat, n: map<nat, nat>)
    requires Tiles(m, lim) && Joins(m, lo, hi, n) && m[lo] <= hi && (hi == lim || hi in m)
    ensures Tiles(n, lim)
  {
    TilesBounds(m, lim);
    TilesApart(m, lim);
    TilesNext(m, lim);
    assert FIRST_BLOCK in n;
    forall b | b in n ensures n[b] == lim || n[b] in n {
      if b != lo { assert b < lo ==> m[b] <= lo; assert b > lo ==> m[lo] <= b; }
    }
    TilesJoinApart(m, lim, lo, hi, n);
  }

  lemma TilesJoinApart(m: map<nat, nat>, lim: nat, lo: nat, hi: nat, n: map<nat, nat>)
    requires Tiles(m, lim) && Joins(m, lo, hi, n) && m[lo] <= hi
    ensures forall b, c :: b in n && c in n && b < c ==> n[b] <= c
  {
    TilesApart(m, lim);
    hide Tiles;
  }

  lemma BeforeLast(m: map<nat, nat>, lim: nat, b: nat, c: nat)
    requires Tiles(m, lim) && b in m && m[b] == lim && c in m && c != b
    ensures c + HEADER <= m[c] <= b && (m[c] == b || m[c] in m)
  {
    TilesApart(m, lim);
    TilesBounds(m, lim);
    TilesNext(m, lim);
    hide Tiles;
  }

  lemma TilesDropLast(m: map<nat, nat>, lim: nat, b: nat)
    requires Tiles(m, lim) && b in m && m[b] == lim
    ensures Tiles(m - {b}, b)
  {
    var n := m - {b};
    assert FIRST_BLOCK <= b && FIRST_BLOCK in m;
    TilesApart(m, lim);
    TilesBounds(m, lim);
    hide Tiles;
    forall c | c in n
      ensures FIRST_BLOCK <= c && c + HEADER <= n[c] <= b && (n[c] == b || n[c] in n)
    {
      BeforeLast(m, lim, b, c);
    }
    TilesIf(n, b);
  }

  // ---------- the invariant ----------

  ghost predicate Keyed(m: BlockMap, state: BlockState) {
    forall b :: b in m ==> m[b].begin == b && m[b].state == state
  }

  ghost function AllEnds(used: BlockMap, free: BlockMap): map<nat, nat> {
    map b | b in used.Keys + free.Keys :: if b in used then used[b].End() else free[b].End()
  }

  lemma KeyedAdd(m: BlockMap, b: StorageBlock)
    requires Keyed(m, b.state)
    ensures Keyed(m[b.begin := b], b.state)
  {
  }

  lemma CoalescedAdd(freeBegin: BlockMap, b: StorageBlock)
    requires Coalesced(freeBegin) && b.begin !in freeBegin && b.End() !in freeBegin
    requires forall x :: x in freeBegin ==> freeBegin[x].End() != b.begin
    ensures Coalesced(freeBegin[b.begin := b])
  {
  }

  /** Every block, used or free, with its end. */
  ghost function Ends(s: Index): map<nat, nat> {
    AllEnds(s.used, s.freeBegin)
  }

  /** The begin index and the end index describe the same free blocks. */
  ghost predicate SameFree(freeBegin: BlockMap, freeEnd: BlockMap) {
    && (forall b :: b in freeBegin ==> freeBegin[b].End() in freeEnd && freeEnd[freeBegin[b].End()] == freeBegin[b])
    && (forall e :: e in freeEnd ==>
          && freeEnd[e].End() == e
          && freeEnd[e].begin in freeBegin
          && freeBegin[freeEnd[e].begin] == freeEnd[e])
  }

  lemma SameFreeRemove(freeBegin: BlockMap, freeEnd: BlockMap, k: nat)
    requires Keyed(freeBegin, WaitMergerBlock) && SameFree(freeBegin, freeEnd) && k in freeBegin
    ensures SameFree(freeBegin - {k}, freeEnd - {freeBegin[k].End()})
  {
  }

  lemma SameFreeAdd(freeBegin: BlockMap, freeEnd: BlockMap, b: StorageBlock)
    requires SameFree(freeBegin, freeEnd) && b.begin !in freeBegin && b.End() !in freeEnd
    ensures SameFree(freeBegin[b.begin := b], freeEnd[b.End() := b])
  {
  }

  /** No two free blocks touch. */
  ghost predicate Coalesced(freeBegin: BlockMap) {
    forall b :: b in freeBegin ==> freeBegin[b].End() !in freeBegin
  }

  /** The invariant for the part of the file before lim. */
  ghost predicate WellFormedTo(s: Index, lim: nat) {
    && Keyed(s.used, UsedBlock)
    && Keyed(s.freeBegin, WaitMergerBlock)
    && s.used.Keys !! s.freeBegin.Keys
    && Tiles(Ends(s), lim)
    && SameFree(s.freeBegin, s.freeEnd)
    && Coalesced(s.freeBegin)
  }

  lemma FromParts(s: Index, lim: nat)
    requires Keyed(s.used, UsedBlock) && Keyed(s.freeBegin, WaitMergerBlock)
    requires s.used.Keys !! s.freeBegin.Keys
    requires Tiles(Ends(s), lim)
    requires SameFree(s.freeBegin, s.freeEnd) && Coalesced(s.freeBegin)
    ensures WellFormedTo(s, lim)
  {
    hide Tiles, Ends, SameFree, Coalesced, Keyed;
  }

  ghost predicate WellFormed(s: Index) {
    && WellFormedTo(s, s.fileEnd)
    && s.fileEnd !in s.freeEnd // the last block is never free
  }

  lemma EndsOf(s: Index)
    requires s.used.Keys !! s.freeBegin.Keys
    ensures forall b :: b in s.used ==> b in Ends(s) && Ends(s)[b] == s.used[b].End()
    ensures forall b :: b in s.freeBegin ==> b in Ends(s) && Ends(s)[b] == s.freeBegin[b].End()
  {
  }

  lemma EndsKeys(s: Index)
    ensures Ends(s).Keys == s.used.Keys + s.freeBegin.Keys
  {
  }

  /** The layout in one place: every block's extent, and that no block begins inside another. */
  lemma Layout(s: Index, lim: nat)
    requires WellFormedTo(s, lim)
    ensures forall b :: b in s.used ==> s.used[b].begin == b && b in Ends(s) && Ends(s)[b] == s.used[b].End()
    ensures forall b :: b in s.freeBegin ==>
      s.freeBegin[b].begin == b && b in Ends(s) && Ends(s)[b] == s.freeBegin[b].End()
    ensures forall b :: b in Ends(s) ==> FIRST_BLOCK <= b && b + HEADER <= Ends(s)[b] <= lim
    ensures forall b, c :: b in Ends(s) && c in Ends(s) && b < c ==> Ends(s)[b] <= c
  {
    TilesApart(Ends(s), lim);
    TilesBounds(Ends(s), lim);
    EndsOf(s);
    hide Tiles, Ends, SameFree, Coalesced;
  }

  lemma FreeEndsInside(s: Index, lim: nat)
    requires WellFormedTo(s, lim)
    ensures forall e :: e in s.freeEnd ==> e <= lim && s.freeEnd[e].begin in Ends(s) && Ends(s)[s.freeEnd[e].begin] == e
  {
    forall e | e in s.freeEnd ensures s.freeEnd[e].begin in Ends(s) && Ends(s)[s.freeEnd[e].begin] == e {}
    TilesBounds(Ends(s), lim);
  }

  // ---------- allocate ----------

  /** The two ways a free block can serve a request: strictly larger than header and data, or exact. */
  predicate Fits(b: StorageBlock, size: nat) {
    b.len > size + HEADER || b.len == size
  }

  ghost predicate IsFirstFit(free: BlockMap, size: nat, k: nat) {
    && k in free
    && Fits(free[k], size)
    && forall j :: j in free && j < k ==> !Fits(free[j], size)
  }

  datatype Choice = Append | Take(key: nat)

  ghost predicate IsChoice(s: Index, size: nat, c: Choice) {
    match c
    case Take(k) => IsFirstFit(s.freeBegin, size, k)
    case Append => forall j :: j in s.freeBegin ==> !Fits(s.freeBegin[j], size)
  }

  /** The block handed out. */
  function Granted(s: Index, size: nat, c: Choice): StorageBlock
    requires c.Take? ==> c.key in s.freeBegin && Fits(s.freeBegin[c.key], size)
  {
    match c
    case Append => StorageBlock(s.fileEnd, size, UsedBlock)
    case Take(k) =>
      var f := s.freeBegin[k];
      if f.len > size + HEADER then StorageBlock(f.End() - size - HEADER, size, UsedBlock)
      else f.(state := UsedBlock)
  }

  function Allocated(s: Index, size: nat, c: Choice): Index
    requires c.Take? ==> c.key in s.freeBegin && Fits(s.freeBegin[c.key], size)
  {
    var g := Granted(s, size, c);
    match c
    case Append => s.(used := s.used[g.begin := g], fileEnd := g.End())
    case Take(k) =>
      var f := s.freeBegin[k];
      if f.len > size + HEADER then
        var rest := f.(len := f.len - size - HEADER);
        Index(s.used[g.begin := g], s.freeBegin[k := rest], (s.freeEnd - {f.End()})[g.begin := rest], s.fileEnd)
      else
        Index(s.used[g.begin := g], s.freeBegin - {k}, s.freeEnd - {f.End()}, s.fileEnd)
  }

  /** s with one more used block. */
  function Entered(s: Index, b: StorageBlock): Index {
    s.(used := s.used[b.begin := b])
  }

  lemma EnteredEnds(s: Index, b: StorageBlock)
    requires s.used.Keys !! s.freeBegin.Keys && b.begin !in s.freeBegin
    ensures Ends(Entered(s, b)) == Ends(s)[b.begin := b.End()]
  {
  }

  lemma EnteredTiles(s: Index, b: StorageBlock)
    requires WellFormedTo(s, b.begin)
    ensures b.begin !in s.used && b.begin !in s.freeBegin
    ensures Tiles(Ends(Entered(s, b)), b.End())
  {
    var m := Ends(s);
    TilesBounds(m, b.begin);
    EndsKeys(s);
    assert b.begin !in m;
    TilesAppend(m, b.begin, b.End());
    hide *;
    EnteredEnds(s, b);
  }

  lemma EnteredWellFormedTo(s: Index, b: StorageBlock)
    requires WellFormedTo(s, b.begin) && b.state.UsedBlock?
    ensures WellFormedTo(Entered(s, b), b.End())
    ensures b.End() !in s.freeEnd
  {
    EnteredTiles(s, b);
    FreeEndsInside(s, b.begin);
    KeyedAdd(s.used, b);
    hide Tiles, SameFree, Ends, Coalesced, Keyed;
  }

  lemma AppendWellFormed(s: Index, size: nat)
    requires WellFormed(s)
    ensures WellFormed(Allocated(s, size, Append))
  {
    var g := Granted(s, size, Append);
    EnteredWellFormedTo(s, g);
    assert Allocated(s, size, Append) == Entered(s, g).(fileEnd := g.End());
    hide Tiles, SameFree, Coalesced, Keyed;
  }

  lemma ExactEnds(s: Index, size: nat, k: nat)
    requires s.used.Keys !! s.freeBegin.Keys && Keyed(s.freeBegin, WaitMergerBlock)
    requires k in s.freeBegin && s.freeBegin[k].len == size
    ensures Ends(Allocated(s, size, Take(k))) == Ends(s)
  {
  }

  lemma ExactWellFormed(s: Index, size: nat, k: nat)
    requires WellFormed(s) && k in s.freeBegin && s.freeBegin[k].len == size
    ensures WellFormed(Allocated(s, size, Take(k)))
  {
    hide Tiles, SameFree, Ends;
    ExactEnds(s, size, k);
    SameFreeRemove(s.freeBegin, s.freeEnd, k);
  }

  lemma SplitEnds(s: Index, size: nat, k: nat)
    requires s.used.Keys !! s.freeBegin.Keys && k in s.freeBegin && s.freeBegin[k].len > size + HEADER
    requires Keyed(s.freeBegin, WaitMergerBlock)
    requires s.freeBegin[k].End() - HEADER - size !in s.freeBegin
    ensures var mid := s.freeBegin[k].End() - HEADER - size;
      Ends(Allocated(s, size, Take(k))) == Ends(s)[k := mid][mid := s.freeBegin[k].End()]
  {
  }

  lemma SplitFreeMaps(s: Index, size: nat, k: nat)
    requires WellFormed(s) && k in s.freeBegin && s.freeBegin[k].len > size + HEADER
    requires s.freeBegin[k].End() - HEADER - size !in s.freeBegin
    requires s.freeBegin[k].End() - HEADER - size !in s.freeEnd
    ensures var t := Allocated(s, size, Take(k));
      && SameFree(t.freeBegin, t.freeEnd) && Coalesced(t.freeBegin)
      && Keyed(t.freeBegin, WaitMergerBlock) && Keyed(t.used, UsedBlock) && t.used.Keys !! t.freeBegin.Keys
  {
    SplitKeyed(s, size, k);
    SplitSame(s, size, k);
    hide *;
  }

  /** What is left of free block k when its upper end, size bytes behind a header, is handed out. */
  function Rest(s: Index, size: nat, k: nat): StorageBlock
    requires k in s.freeBegin && s.freeBegin[k].len > size + HEADER
  {
    s.freeBegin[k].(len := s.freeBegin[k].len - size - HEADER)
  }

  lemma SplitIsAllocated(s: Index, size: nat, k: nat)
    requires k in s.freeBegin && s.freeBegin[k].len > size + HEADER
    requires s.freeBegin[k].begin == k && s.freeBegin[k].state == WaitMergerBlock
    ensures Fits(s.freeBegin[k], size)
    ensures var t, rest, g := Allocated(s, size, Take(k)), Rest(s, size, k), Granted(s, size, Take(k));
      && rest.begin == k && rest.state == WaitMergerBlock && g.state == UsedBlock
      && rest.End() == g.begin == s.freeBegin[k].End() - HEADER - size
      && t.freeBegin == s.freeBegin[rest.begin := rest] && t.used == s.used[g.begin := g]
      && t.freeEnd == (s.freeEnd - {s.freeBegin[k].End()})[rest.End() := rest]
  {
  }

  lemma FreeKept(s: Index, k: nat)
    requires WellFormed(s) && k in s.freeBegin
    ensures s.freeBegin[k].begin == k && s.freeBegin[k].state == WaitMergerBlock
    ensures Keyed(s.used, UsedBlock) && Keyed(s.freeBegin, WaitMergerBlock) && s.used.Keys !! s.freeBegin.Keys
    ensures SameFree(s.freeBegin, s.freeEnd) && Coalesced(s.freeBegin)
  {
    hide Tiles, Ends, SameFree, Coalesced;
  }

  lemma SplitKeyed(s: Index, size: nat, k: nat)
    requires WellFormed(s) && k in s.freeBegin && s.freeBegin[k].len > size + HEADER
    requires s.freeBegin[k].End() - HEADER - size !in s.freeBegin
    ensures var t := Allocated(s, size, Take(k));
      Keyed(t.freeBegin, WaitMergerBlock) && Keyed(t.used, UsedBlock) && t.used.Keys !! t.freeBegin.Keys
  {
    hide *;
    FreeKept(s, k);
    SplitIsAllocated(s, size, k);
    KeyedAdd(s.used, Granted(s, size, Take(k)));
    KeyedAdd(s.freeBegin, Rest(s, size, k));
  }

  lemma SplitSame(s: Index, size: nat, k: nat)
    requires WellFormed(s) && k in s.freeBegin && s.freeBegin[k].len > size + HEADER
    requires s.freeBegin[k].End() - HEADER - size !in s.freeEnd && s.freeBegin[k].End() - HEADER - size !in s.freeBegin
    ensures var t := Allocated(s, size, Take(k)); SameFree(t.freeBegin, t.freeEnd) && Coalesced(t.freeBegin)
  {
    hide *;
    FreeKept(s, k);
    SplitIsAllocated(s, size, k);
    var rest := Rest(s, size, k);
    SameFreeRemove(s.freeBegin, s.freeEnd, k);
    SameFreeAdd(s.freeBegin - {k}, s.freeEnd - {s.freeBegin[k].End()}, rest);
    PutBack(s.freeBegin, k, rest);
    SplitCoalesced(s.freeBegin, k, rest);
  }

  lemma PutBack(m: BlockMap, k: nat, b: StorageBlock)
    ensures m[k := b] == (m - {k})[k := b]
  {
  }

  lemma SplitCoalesced(freeBegin: BlockMap, k: nat, rest: StorageBlock)
    requires Coalesced(freeBegin) && k in freeBegin && rest.End() !in freeBegin
    ensures Coalesced(freeBegin[k := rest])
  {
  }

  /** A place inside a block neither begins nor ends a block. */
  lemma NoEndInside(m: map<nat, nat>, lim: nat, mid: nat)
    requires Tiles(m, lim) && mid !in m && mid < lim
    ensures forall b :: b in m ==> m[b] != mid
  {
    TilesNext(m, lim);
    hide Tiles;
  }

  lemma SplitRoom(s: Index, size: nat, k: nat)
    requires WellFormed(s) && k in s.freeBegin && s.freeBegin[k].len > size + HEADER
    ensures var m, end := Ends(s), s.freeBegin[k].End();
      && Tiles(m, s.fileEnd) && k in m && m[k] == end <= s.fileEnd
      && k + HEADER <= end - HEADER - size && HEADER == 16
  {
    EndsOf(s);
    TilesBounds(Ends(s), s.fileEnd);
    hide Tiles, Ends, SameFree, Coalesced;
    assert s.freeBegin[k].begin == k;
  }

  lemma NoFreeEndInside(s: Index, mid: nat)
    requires WellFormed(s) && mid !in Ends(s) && forall b :: b in Ends(s) ==> Ends(s)[b] != mid
    ensures mid !in s.freeBegin && mid !in s.freeEnd
  {
    FreeEndsInside(s, s.fileEnd);
    EndsKeys(s);
    hide *;
  }

  lemma SplitPoint(s: Index, size: nat, k: nat)
    requires WellFormed(s) && k in s.freeBegin && s.freeBegin[k].len > size + HEADER
    ensures var mid := s.freeBegin[k].End() - HEADER - size;
      && mid !in s.freeBegin && mid !in s.freeEnd && mid + HEADER <= s.fileEnd
      && Tiles(Ends(s)[k := mid][mid := s.freeBegin[k].End()], s.fileEnd)
  {
    hide *;
    var m, mid := Ends(s), s.freeBegin[k].End() - HEADER - size;
    SplitRoom(s, size, k);
    TilesSplit(m, s.fileEnd, k, mid);
    NoEndInside(m, s.fileEnd, mid);
    NoFreeEndInside(s, mid);
  }

  lemma SplitWellFormed(s: Index, size: nat, k: nat)
    requires WellFormed(s) && k in s.freeBegin && s.freeBegin[k].len > size + HEADER
    ensures WellFormed(Allocated(s, size, Take(k)))
  {
    var t := Allocated(s, size, Take(k));
    SplitPoint(s, size, k);
    SplitFreeMaps(s, size, k);
    SplitEnds(s, size, k);
    assert t.fileEnd == s.fileEnd && t.fileEnd !in s.freeEnd;
    assert t.fileEnd !in t.freeEnd;
    hide *;
    FromParts(t, t.fileEnd);
    assert WellFormed(t);
  }

  lemma AllocatedWellFormed(s: Index, size: nat, c: Choice)
    requires WellFormed(s) && IsChoice(s, size, c)
    ensures WellFormed(Allocated(s, size, c))
  {
    match c {
      case Append => AppendWellFormed(s, size);
      case Take(k) =>
        if s.freeBegin[k].len > size + HEADER { SplitWellFormed(s, size, k); } else { ExactWellFormed(s, size, k); }
    }
  }

  // ---------- Free ----------

  /** Where the region that Free(h) gives back begins, and its data length, once merged with free neighbours. */
  function MergedBegin(s: Index, h: nat): nat
    requires h in s.used
  {
    if s.used[h].begin in s.freeEnd then s.freeEnd[s.used[h].begin].begin else s.used[h].begin
  }

  function MergedEnd(s: Index, h: nat): nat
    requires h in s.used
  {
    if s.used[h].End() in s.freeBegin then s.freeBegin[s.used[h].End()].End() else s.used[h].End()
  }

  function MergedLen(s: Index, h: nat): nat
    requires h in s.used
  {
    var b := s.used[h];
    (if b.begin in s.freeEnd then s.freeEnd[b.begin].len + HEADER else 0)
    + b.len
    + (if b.End() in s.freeBegin then HEADER + s.freeBegin[b.End()].len else 0)
  }

  /** The intended effect of Free. */
  function Released(s: Index, h: nat): Index {
    if h !in s.used then s else
    var b := s.used[h];
    var lo, hi := MergedBegin(s, h), MergedEnd(s, h);
    var fb := s.freeBegin - {lo, b.End()};
    var fe := s.freeEnd - {b.begin, hi};
    if hi == s.fileEnd then Index(s.used - {h}, fb, fe, lo)
    else
      var merged := StorageBlock(lo, MergedLen(s, h), WaitMergerBlock);
      Index(s.used - {h}, fb[lo := merged], fe[hi := merged], s.fileEnd)
  }

  /** No two blocks end at the same place. */
  lemma TilesOneEnd(m: map<nat, nat>, lim: nat)
    requires Tiles(m, lim)
    ensures forall b, c :: b in m && c in m && m[b] == m[c] ==> b == c
  {
    TilesBounds(m, lim);
    TilesApart(m, lim);
    hide Tiles;
  }

  /** Where the free neighbours of h lie. */
  lemma Neighbours(s: Index, h: nat, lim: nat)
    requires WellFormedTo(s, lim) && h in s.used
    ensures h in s.freeEnd ==> MergedBegin(s, h) in s.freeBegin && s.freeBegin[MergedBegin(s, h)].End() == h
    ensures s.used[h].End() !in s.freeBegin ==> s.used[h].End() !in s.freeEnd
    ensures MergedEnd(s, h) == MergedBegin(s, h) + HEADER + MergedLen(s, h)
    ensures MergedBegin(s, h) <= h < s.used[h].End() <= MergedEnd(s, h)
  {
    FreeEndsInside(s, lim);
    TilesOneEnd(Ends(s), lim);
    hide Tiles;
    assert Ends(s)[h] == s.used[h].End();
  }

  lemma ReleasedFree(s: Index, h: nat, lim: nat)
    requires WellFormedTo(s, lim) && h in s.used
    ensures var e, lo, hi := s.used[h].End(), MergedBegin(s, h), MergedEnd(s, h);
      var fb, fe := s.freeBegin - {lo, e}, s.freeEnd - {h, hi};
      && SameFree(fb, fe) && Coalesced(fb) && hi !in fb && lo !in fe
      && (Untouched(s, h).freeBegin == fb)
      && forall x :: x in fb ==> fb[x].End() != lo
  {
    Neighbours(s, h, lim);
    hide Tiles, Ends;
  }

  lemma UntouchedKeys(s: Index, h: nat, lim: nat)
    requires WellFormedTo(s, lim) && h in s.used
    ensures s.used[h].begin == h
    ensures var u, lo := Untouched(s, h), MergedBegin(s, h);
      && Keyed(u.freeBegin, WaitMergerBlock) && Keyed(u.used, UsedBlock) && u.used.Keys !! u.freeBegin.Keys
      && lo !in u.freeBegin && (lo == h || lo in s.freeBegin ==> lo !in u.used)
  {
    hide Tiles, Ends, SameFree, Coalesced, MergedBegin;
  }

  lemma ReleasedKeys(s: Index, h: nat, lim: nat)
    requires WellFormedTo(s, lim) && h in s.used
    ensures s.used[h].begin == h
    ensures var u, lo, hi := Untouched(s, h), MergedBegin(s, h), MergedEnd(s, h);
      && Keyed(u.freeBegin, WaitMergerBlock) && Keyed(u.used, UsedBlock) && u.used.Keys !! u.freeBegin.Keys
      && lo !in u.used && lo !in u.freeBegin && lo < hi
      && StorageBlock(lo, MergedLen(s, h), WaitMergerBlock).End() == hi
  {
    UntouchedKeys(s, h, lim);
    assert h !in s.freeEnd ==> MergedBegin(s, h) == h;
    hide WellFormedTo, Untouched, Keyed, MergedBegin, MergedEnd, MergedLen;
    Neighbours(s, h, lim);
  }

  /** The blocks Free(h) does not touch. */
  ghost function Untouched(s: Index, h: nat): Index
    requires h in s.used
  {
    s.(used := s.used - {h}, freeBegin := s.freeBegin - {MergedBegin(s, h), s.used[h].End()})
  }

  /** The blocks Free(h) takes out of the maps. */
  ghost function Gone(s: Index, h: nat): set<nat>
    requires h in s.used
  {
    (if s.used[h].End() in s.freeBegin then {h, s.used[h].End()} else {h}) + {MergedBegin(s, h)}
  }

  lemma UntouchedEnds(s: Index, h: nat)
    requires h in s.used && s.used.Keys !! s.freeBegin.Keys
    requires MergedBegin(s, h) in s.freeBegin || MergedBegin(s, h) == h
    ensures forall b :: b in Ends(Untouched(s, h)) <==> b in Ends(s) && b !in Gone(s, h)
    ensures forall b :: b in Ends(Untouched(s, h)) ==> Ends(Untouched(s, h))[b] == Ends(s)[b]
  {
  }

  /** The free neighbours as blocks, and nothing but h and a free right neighbour inside the merged region. */
  lemma MergedRegion(s: Index, h: nat, lim: nat)
    requires WellFormedTo(s, lim) && h in s.used
    ensures var m, lo, hi, e := Ends(s), MergedBegin(s, h), MergedEnd(s, h), s.used[h].End();
      && lo in m && m[lo] <= hi && (lo != h ==> lo in s.freeBegin)
      && (hi == lim || hi in m)
      && hi <= lim
      && (e in s.freeBegin <==> e < hi)
      && lo <= h < e <= hi
      && forall b :: b in m && lo < b < hi ==> b == h || (b == e && e in s.freeBegin)
  {
    var m, lo, hi, e := Ends(s), MergedBegin(s, h), MergedEnd(s, h), s.used[h].End();
    Neighbours(s, h, lim);
    TilesApart(m, lim);
    TilesNext(m, lim);
    TilesBounds(m, lim);
    EndsOf(s);
    hide Tiles, SameFree, Ends, Coalesced, MergedLen, Keyed;
    assert m[h] == e;
  }

  lemma GoneIs(s: Index, h: nat)
    requires h in s.used
    ensures var e, g := s.used[h].End(), Gone(s, h);
      && MergedBegin(s, h) in g && h in g && (e in s.freeBegin ==> e in g)
      && forall b :: b in g ==> b == h || b == MergedBegin(s, h) || (b == e && e in s.freeBegin)
  {
    hide MergedBegin;
  }

  lemma GoneRegion(s: Index, h: nat, lim: nat)
    requires WellFormedTo(s, lim) && h in s.used
    ensures var m, lo, hi := Ends(s), MergedBegin(s, h), MergedEnd(s, h);
      && lo in m && m[lo] <= hi <= lim && (hi == lim || hi in m) && (lo in s.freeBegin || lo == h)
      && lo in Gone(s, h)
      && (forall b :: b in Gone(s, h) ==> lo <= b < hi)
      && forall b :: b in m && lo < b < hi ==> b in Gone(s, h)
  {
    hide *;
    MergedRegion(s, h, lim);
    GoneIs(s, h);
  }

  lemma JoinsRest(m: map<nat, nat>, lo: nat, hi: nat, gone: set<nat>, rest: map<nat, nat>)
    requires forall b :: b in rest <==> b in m && b !in gone
    requires forall b :: b in rest ==> rest[b] == m[b]
    requires lo in m && lo in gone
    requires forall b :: b in gone ==> lo <= b < hi
    requires forall b :: b in m && lo < b < hi ==> b in gone
    ensures Joins(m, lo, hi, rest[lo := hi])
  {
  }

  lemma ReleasedEnds(s: Index, h: nat, lim: nat)
    requires WellFormedTo(s, lim) && h in s.used
    ensures var m, lo, hi := Ends(s), MergedBegin(s, h), MergedEnd(s, h);
      && lo !in Ends(Untouched(s, h)) && hi <= lim
      && Tiles(Ends(Untouched(s, h))[lo := hi], lim)
  {
    hide Tiles, SameFree, Ends, Coalesced, MergedBegin, MergedEnd, Keyed, Untouched, Gone, Joins;
    var m, lo, hi := Ends(s), MergedBegin(s, h), MergedEnd(s, h);
    GoneRegion(s, h, lim);
    UntouchedEnds(s, h);
    JoinsRest(m, lo, hi, Gone(s, h), Ends(Untouched(s, h)));
    TilesJoin(m, lim, lo, hi, Ends(Untouched(s, h))[lo := hi]);
  }

  /** Released, by the blocks it leaves alone. */
  lemma ReleasedShape(s: Index, h: nat)
    requires h in s.used && s.used[h].begin == h
    ensures var u, lo, hi := Untouched(s, h), MergedBegin(s, h), MergedEnd(s, h);
      var merged, fe := StorageBlock(lo, MergedLen(s, h), WaitMergerBlock), s.freeEnd - {h, hi};
      Released(s, h) == if hi == s.fileEnd then Index(u.used, u.freeBegin, fe, lo)
                        else Index(u.used, u.freeBegin[lo := merged], fe[hi := merged], s.fileEnd)
  {
    hide MergedBegin, MergedEnd, MergedLen;
  }

  lemma ReleasedTail(s: Index, h: nat, lim: nat)
    requires WellFormedTo(s, lim) && lim <= s.fileEnd && h in s.used && MergedEnd(s, h) == s.fileEnd
    ensures WellFormed(Released(s, h))
  {
    hide *;
    ReleasedFree(s, h, lim);
    ReleasedKeys(s, h, lim);
    ReleasedEnds(s, h, lim);
    var u, lo := Untouched(s, h), MergedBegin(s, h);
    ReleasedShape(s, h);
    TilesDropLast(Ends(u)[lo := lim], lim, lo);
    assert Ends(u)[lo := lim] - {lo} == Ends(u);
    EndsOnlyBlocks(u, Released(s, h));
    FromParts(Released(s, h), lo);
    WellFormedIf(Released(s, h));
  }

  lemma EndsOnlyBlocks(s: Index, t: Index)
    requires s.used == t.used && s.freeBegin == t.freeBegin
    ensures Ends(s) == Ends(t)
  {
    hide AllEnds;
  }

  lemma WellFormedIf(s: Index)
    requires WellFormedTo(s, s.fileEnd) && s.fileEnd !in s.freeEnd
    ensures WellFormed(s)
  {
    hide WellFormedTo;
  }

  lemma ReleasedMerged(s: Index, h: nat, lim: nat)
    requires WellFormedTo(s, lim) && h in s.used && MergedEnd(s, h) != s.fileEnd
    ensures WellFormedTo(Released(s, h), lim)
  {
    hide *;
    ReleasedFree(s, h, lim);
    ReleasedKeys(s, h, lim);
    ReleasedEnds(s, h, lim);
    var u, lo, hi := Untouched(s, h), MergedBegin(s, h), MergedEnd(s, h);
    var merged, fe := StorageBlock(lo, MergedLen(s, h), WaitMergerBlock), s.freeEnd - {h, hi};
    ReleasedShape(s, h);
    SameFreeAdd(u.freeBegin, fe, merged);
    CoalescedAdd(u.freeBegin, merged);
    KeyedAdd(u.freeBegin, merged);
    FreeAddedEnds(u, merged);
    EndsOnlyBlocks(u.(freeBegin := u.freeBegin[lo := merged]), Released(s, h));
    assert u.used.Keys !! u.freeBegin[lo := merged].Keys;
    FromParts(Released(s, h), lim);
  }

  lemma FreeAddedEnds(s: Index, b: StorageBlock)
    requires b.begin !in s.used
    ensures Ends(s.(freeBegin := s.freeBegin[b.begin := b])) == Ends(s)[b.begin := b.End()]
  {
  }

  /** Free on a state whose known blocks end at lim: the tail goes, or the invariant stays. */
  lemma ReleasedTo(s: Index, h: nat, lim: nat)
    requires WellFormedTo(s, lim) && lim <= s.fileEnd && h in s.used
    ensures var t := Released(s, h);
      if MergedEnd(s, h) == s.fileEnd then WellFormed(t) && t.fileEnd == MergedBegin(s, h) < lim == s.fileEnd
      else WellFormedTo(t, lim) && t.fileEnd == s.fileEnd && (lim == s.fileEnd && lim !in s.freeEnd ==> WellFormed(t))
  {
    hide *;
    RegionFits(s, h, lim);
    ReleasedKeys(s, h, lim);
    ReleasedShape(s, h);
    if MergedEnd(s, h) == s.fileEnd {
      ReleasedTail(s, h, lim);
    } else {
      ReleasedMerged(s, h, lim);
      if lim == s.fileEnd && lim !in s.freeEnd { WellFormedIf(Released(s, h)); }
    }
  }

  lemma RegionFits(s: Index, h: nat, lim: nat)
    requires WellFormedTo(s, lim) && h in s.used
    ensures MergedBegin(s, h) < MergedEnd(s, h) <= lim
  {
    hide *;
    MergedRegion(s, h, lim);
  }

  lemma ReleasedKeepsWellFormed(s: Index, h: nat)
    requires WellFormed(s)
    ensures WellFormed(Released(s, h))
  {
    if h in s.used {
      ReleasedTo(s, h, s.fileEnd);
      hide WellFormedTo, MergedLen, MergedBegin, Released;
    }
  }
}
