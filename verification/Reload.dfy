/** Reopening a storage file: walking the block headers rebuilds the three maps. */
module Reload {
  import opened BlockIndex
  import opened BlockRuns

  /** The blocks met by a walk from offset lo that stops at offset hi. */
  ghost predicate Chain(bs: seq<StorageBlock>, lo: nat, hi: nat)
    decreases |bs|
  {
    if bs == [] then lo == hi else bs[0].begin == lo && Chain(bs[1..], bs[0].End(), hi)
  }

  lemma {:induction false} ChainGrows(bs: seq<StorageBlock>, lo: nat, hi: nat)
    requires Chain(bs, lo, hi)
    ensures lo <= hi && (bs != [] ==> lo + HEADER <= hi)
    decreases |bs|
  {
    if bs != [] { ChainGrows(bs[1..], bs[0].End(), hi); }
  }

  /** One header read: every block is first entered as used, and a free one is then freed. */
  function LoadStep(s: Index, b: StorageBlock): Index {
    var t := s.(used := s.used[b.begin := b]);
    if b.state.WaitMergerBlock? then Released(t, b.begin) else t
  }

  function LoadAll(s: Index, bs: seq<StorageBlock>): Index
    decreases |bs|
  {
    if bs == [] then s else LoadAll(LoadStep(s, bs[0]), bs[1..])
  }

  // ---------- any well-formed chain of headers loads into a well-formed state ----------

  lemma LoadStepEnters(s: Index, b: StorageBlock)
    ensures var t := Entered(s, b.(state := UsedBlock));
      LoadStep(s, b) == if b.state.UsedBlock? then t else Released(t, b.begin)
  {
    var u := b.(state := UsedBlock);
    assert s.used[b.begin := b] - {b.begin} == s.used[b.begin := u] - {b.begin};
  }

  lemma LoadStepWellFormed(s: Index, b: StorageBlock)
    requires WellFormedTo(s, b.begin) && b.End() <= s.fileEnd
    ensures var t := LoadStep(s, b);
      if t.fileEnd < s.fileEnd then b.End() == s.fileEnd && WellFormed(t)
      else t.fileEnd == s.fileEnd && WellFormedTo(t, b.End()) && (b.End() == s.fileEnd ==> WellFormed(t))
  {
    var u := b.(state := UsedBlock);
    var t := Entered(s, u);
    assert b.begin in t.used && t.fileEnd == s.fileEnd && t.freeEnd == s.freeEnd && u.End() == b.End()
      && u.begin == b.begin;
    hide *;
    EnteredWellFormedTo(s, u);
    LoadStepEnters(s, b);
    if b.state.WaitMergerBlock? { ReleasedTo(t, b.begin, b.End()); }
    if t.fileEnd == b.End() { WellFormedIf(t); }
  }

  /** Whatever chain of headers the file holds, adjacent or trailing free blocks included, it loads well-formed. */
  lemma {:induction false} LoadAllWellFormed(s: Index, bs: seq<StorageBlock>, lo: nat)
    requires WellFormedTo(s, lo) && Chain(bs, lo, s.fileEnd) && (bs == [] ==> WellFormed(s))
    ensures WellFormed(LoadAll(s, bs))
    decreases |bs|
  {
    hide WellFormedTo, WellFormed, LoadStep;
    if bs != [] {
      ChainGrows(bs[1..], bs[0].End(), s.fileEnd);
      LoadStepWellFormed(s, bs[0]);
      var t := LoadStep(s, bs[0]);
      if bs[1..] == [] {
        assert LoadAll(t, bs[1..]) == t;
      } else {
        ChainGrows(bs[1..], bs[0].End(), s.fileEnd);
        LoadAllWellFormed(t, bs[1..], bs[0].End());
      }
    }
  }

  // ---------- on a state the allocator left, loading is the identity ----------

  /** bs lists the blocks of s in address order. */
  ghost predicate Lists(bs: seq<StorageBlock>, s: Index, lo: nat) {
    && Chain(bs, lo, s.fileEnd)
    && forall i :: 0 <= i < |bs| ==> BlockOf(s, bs[i])
  }

  ghost function Cut(m: BlockMap, lo: nat): BlockMap {
    map b | b in m && b < lo :: m[b]
  }

  lemma CutSame(m: BlockMap, lo: nat, hi: nat)
    requires lo <= hi && forall b :: b in m && b >= lo ==> b >= hi
    ensures Cut(m, hi) == Cut(m, lo)
  {
  }

  lemma CutAdds(m: BlockMap, lo: nat, hi: nat, k: nat)
    requires lo <= k < hi && k in m && forall b :: b in m && b >= lo && b != k ==> b >= hi
    ensures Cut(m, hi) == Cut(m, lo)[k := m[k]]
  {
  }

  lemma CutAll(m: BlockMap, lim: nat)
    requires forall b :: b in m ==> b < lim
    ensures Cut(m, lim) == m
  {
  }

  lemma CutNone(m: BlockMap, lim: nat)
    requires forall b :: b in m ==> b >= lim
    ensures Cut(m, lim) == map[]
  {
  }

  /** The part of s before offset lo. */
  ghost function Before(s: Index, lo: nat): Index {
    Index(Cut(s.used, lo), Cut(s.freeBegin, lo), Cut(s.freeEnd, lo + 1), s.fileEnd)
  }

  ghost predicate BlockOf(s: Index, b: StorageBlock) {
    if b.state.UsedBlock? then b.begin in s.used && s.used[b.begin] == b
    else b.begin in s.freeBegin && s.freeBegin[b.begin] == b
  }

  /** No other block of s begins, and no free block ends, inside b. */
  lemma NothingInside(s: Index, b: StorageBlock)
    requires WellFormed(s) && BlockOf(s, b)
    ensures forall c :: c in s.used && c >= b.begin && c != b.begin ==> c >= b.End()
    ensures forall c :: c in s.freeBegin && c >= b.begin && c != b.begin ==> c >= b.End()
    ensures forall e :: e in s.freeEnd && e >= b.begin + 1 && e != b.End() ==> e >= b.End() + 1
  {
    var m := Ends(s);
    TilesApart(m, s.fileEnd);
    FreeEndsInside(s, s.fileEnd);
    EndsOf(s);
    EndsKeys(s);
    assert b.begin in m && m[b.begin] == b.End();
    TilesBounds(m, s.fileEnd);
    hide *;
  }

  lemma UsedStepRestores(s: Index, b: StorageBlock)
    requires WellFormed(s) && BlockOf(s, b) && b.state.UsedBlock?
    ensures LoadStep(Before(s, b.begin), b) == Before(s, b.End())
  {
    NothingInside(s, b);
    BlockStates(s, b);
    hide WellFormed, Cut;
    CutAdds(s.used, b.begin, b.End(), b.begin);
    CutSame(s.freeBegin, b.begin, b.End());
    CutSame(s.freeEnd, b.begin + 1, b.End() + 1);
  }

  lemma BlockStates(s: Index, b: StorageBlock)
    requires WellFormed(s) && BlockOf(s, b)
    ensures b.state.UsedBlock? ==> b.begin !in s.freeBegin && b.End() !in s.freeEnd
    ensures b.begin < b.End()
    ensures b.state.WaitMergerBlock? ==> b.begin in s.freeBegin && s.freeBegin[b.begin] == b
    ensures b.state.WaitMergerBlock? ==> b.begin !in s.used && b.End() in s.freeEnd && s.freeEnd[b.End()] == b
    ensures b.state.WaitMergerBlock? ==> b.begin !in s.freeEnd && b.End() != s.fileEnd
  {
    TilesOneEnd(Ends(s), s.fileEnd);
    FreeEndsInside(s, s.fileEnd);
    EndsOf(s);
    hide Tiles, Ends;
  }

  lemma FreeStepRestores(s: Index, b: StorageBlock)
    requires WellFormed(s) && BlockOf(s, b) && b.state.WaitMergerBlock?
    ensures LoadStep(Before(s, b.begin), b) == Before(s, b.End())
  {
    hide *;
    NothingInside(s, b);
    BlockStates(s, b);
    BeforeLacks(s, b);
    LoneRelease(Before(s, b.begin), b);
    CutSame(s.used, b.begin, b.End());
    CutAdds(s.freeBegin, b.begin, b.End(), b.begin);
    CutAdds(s.freeEnd, b.begin + 1, b.End() + 1, b.End());
    BeforeIs(s, b.begin);
    BeforeIs(s, b.End());
  }

  lemma BeforeIs(s: Index, lo: nat)
    ensures Before(s, lo) == Index(Cut(s.used, lo), Cut(s.freeBegin, lo), Cut(s.freeEnd, lo + 1), s.fileEnd)
  {
  }

  lemma BeforeLacks(s: Index, b: StorageBlock)
    requires b.begin !in s.freeEnd
    ensures var p := Before(s, b.begin);
      && b.begin !in p.used && b.begin !in p.freeBegin && b.begin !in p.freeEnd
      && b.End() !in p.freeBegin && b.End() !in p.freeEnd && p.fileEnd == s.fileEnd
  {
  }

  /** Loading a free block that touches no other free block only enters it in the two indexes. */
  lemma LoneRelease(p: Index, b: StorageBlock)
    requires b.state.WaitMergerBlock? && b.begin !in p.used && b.begin !in p.freeBegin && b.begin !in p.freeEnd
    requires b.End() !in p.freeBegin && b.End() !in p.freeEnd && b.End() != p.fileEnd
    ensures LoadStep(p, b) == Index(p.used, p.freeBegin[b.begin := b], p.freeEnd[b.End() := b], p.fileEnd)
  {
    var t := p.(used := p.used[b.begin := b]);
    assert t.used - {b.begin} == p.used;
    assert p.freeBegin - {b.begin, b.End()} == p.freeBegin;
    assert p.freeEnd - {b.begin, b.End()} == p.freeEnd;
  }

  lemma ListsTail(bs: seq<StorageBlock>, s: Index, lo: nat)
    requires Lists(bs, s, lo) && bs != []
    ensures bs[0].begin == lo && BlockOf(s, bs[0]) && Lists(bs[1..], s, bs[0].End())
  {
    hide BlockOf;
    assert forall i :: 0 <= i < |bs[1..]| ==> bs[1..][i] == bs[i + 1];
  }

  lemma {:induction false} LoadRestores(s: Index, bs: seq<StorageBlock>, lo: nat)
    requires WellFormed(s) && Lists(bs, s, lo)
    ensures LoadAll(Before(s, lo), bs) == Before(s, s.fileEnd)
    decreases |bs|
  {
    hide WellFormed, Before, LoadStep, BlockOf, Cut;
    if bs != [] {
      ListsTail(bs, s, lo);
      if bs[0].state.UsedBlock? { UsedStepRestores(s, bs[0]); } else { FreeStepRestores(s, bs[0]); }
      LoadRestores(s, bs[1..], bs[0].End());
    }
  }

  /** Closing and reopening is the identity on the bookkeeping. */
  lemma ReloadIsIdentity(s: Index, bs: seq<StorageBlock>)
    requires WellFormed(s) && Lists(bs, s, FIRST_BLOCK)
    ensures LoadAll(EMPTY.(fileEnd := s.fileEnd), bs) == s
  {
    LoadRestores(s, bs, FIRST_BLOCK);
    Spread(s);
    hide WellFormed, Cut, LoadAll;
    CutAll(s.used, s.fileEnd);
    CutAll(s.freeBegin, s.fileEnd);
    CutAll(s.freeEnd, s.fileEnd + 1);
    BeforeFirst(s);
  }

  lemma BeforeFirst(s: Index)
    requires WellFormed(s)
    ensures Before(s, FIRST_BLOCK) == EMPTY.(fileEnd := s.fileEnd)
  {
    Spread(s);
    hide WellFormed, Cut;
    CutNone(s.used, FIRST_BLOCK);
    CutNone(s.freeBegin, FIRST_BLOCK);
    CutNone(s.freeEnd, FIRST_BLOCK + 1);
  }

  lemma Spread(s: Index)
    requires WellFormed(s)
    ensures forall b :: b in s.used ==> FIRST_BLOCK <= b < s.fileEnd
    ensures forall b :: b in s.freeBegin ==> FIRST_BLOCK <= b < s.fileEnd
    ensures forall e :: e in s.freeEnd ==> FIRST_BLOCK < e <= s.fileEnd
  {
    TilesBounds(Ends(s), s.fileEnd);
    FreeEndsInside(s, s.fileEnd);
    EndsOf(s);
    hide Tiles, Ends, SameFree, Coalesced, Keyed;
  }
}
