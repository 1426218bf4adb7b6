/** Whole runs of allocate and Free, and what the 32-bit locals of Free cost. */
module BlockRuns {
  import opened BlockIndex
  import opened Words

  // ---------- the first fit ----------

  lemma {:induction false} FirstFitExists(free: BlockMap, size: nat, j: nat)
    requires j in free && Fits(free[j], size)
    ensures exists k :: IsFirstFit(free, size, k)
    decreases j
  {
    if i :| i in free && i < j && Fits(free[i], size) {
      FirstFitExists(free, size, i);
    } else {
      assert IsFirstFit(free, size, j);
    }
  }

  /** The block that the scan of the free blocks in address order settles on. */
  ghost function Pick(s: Index, size: nat): (c: Choice)
    ensures IsChoice(s, size, c)
  {
    if exists k :: IsFirstFit(s.freeBegin, size, k) then
      var k :| IsFirstFit(s.freeBegin, size, k);
      Take(k)
    else
      assert forall j :: j in s.freeBegin && Fits(s.freeBegin[j], size) ==> false by {
        forall j | j in s.freeBegin && Fits(s.freeBegin[j], size)
          ensures false { FirstFitExists(s.freeBegin, size, j); }
      }
      Append
  }

  /** A free block that serves: just as long as asked for, or longer than that and a header of 16 bytes. */
  predicate Serves(b: StorageBlock, size: nat) {
    b.len == size || b.len > size + 16
  }

  ghost predicate IsLowest(free: BlockMap, size: nat, k: nat) {
    k in free && Serves(free[k], size) && forall j :: j in free && j < k ==> !Serves(free[j], size)
  }

  /** Which block is handed out: the end of the lowest free block that serves, or all of it where it is just as long as
      asked for; and one at the end of the file exactly when no free block serves. */
  lemma GrantedWhere(s: Index, size: nat, k: nat)
    requires WellFormed(s)
    ensures Granted(s, size, Pick(s, size)).len == size
    ensures (forall j :: j in s.freeBegin ==> !Serves(s.freeBegin[j], size)) ==>
      Granted(s, size, Pick(s, size)).begin == s.fileEnd
    ensures IsLowest(s.freeBegin, size, k) ==>
      Granted(s, size, Pick(s, size)).begin
        == if s.freeBegin[k].len == size then k else k + s.freeBegin[k].len - size
  {
    var c := Pick(s, size);
    FitsIs(s, size);
    assert c.Take? ==> s.freeBegin[c.key].begin == c.key;
    hide WellFormed, Pick, Fits, Serves;
  }

  lemma FitsIs(s: Index, size: nat)
    ensures forall j :: j in s.freeBegin ==> Fits(s.freeBegin[j], size) == Serves(s.freeBegin[j], size)
  {
  }

  lemma ChoiceUnique(s: Index, size: nat, c: Choice, d: Choice)
    requires IsChoice(s, size, c) && IsChoice(s, size, d)
    ensures c == d
  {
  }

  // ---------- runs ----------

  datatype Request = Allocate(size: nat) | Free(handle: nat)

  ghost function Served(s: Index, r: Request): Index {
    match r
    case Allocate(size) => Allocated(s, size, Pick(s, size))
    case Free(h) => Released(s, h)
  }

  ghost function Run(s: Index, rs: seq<Request>): Index
    decreases |rs|
  {
    if rs == [] then s else Run(Served(s, rs[0]), rs[1..])
  }

  lemma {:induction false} RunWellFormed(s: Index, rs: seq<Request>)
    requires WellFormed(s)
    ensures WellFormed(Run(s, rs))
    decreases |rs|
  {
    hide WellFormed;
    if rs != [] {
      match rs[0] {
        case Allocate(size) => AllocatedWellFormed(s, size, Pick(s, size));
        case Free(h) => ReleasedKeepsWellFormed(s, h);
      }
      RunWellFormed(Served(s, rs[0]), rs[1..]);
    }
  }

  /** The file starts empty, so every run that starts there keeps the invariant. */
  lemma EveryRunWellFormed(rs: seq<Request>)
    ensures WellFormed(Run(EMPTY, rs))
  {
    assert WellFormed(EMPTY);
    RunWellFormed(EMPTY, rs);
  }

  // ---------- what the invariant means ----------

  ghost predicate Covers(s: Index, b: nat, x: nat) {
    b in Ends(s) && b <= x < Ends(s)[b]
  }

  /** From FIRST_BLOCK on, each offset of the file belongs to one block and to no other. */
  lemma EveryOffsetInOneBlock(s: Index, x: nat)
    requires WellFormed(s) && FIRST_BLOCK <= x < s.fileEnd
    ensures exists b :: Covers(s, b, x) && forall c :: Covers(s, c, x) ==> c == b
  {
    var m := Ends(s);
    assert FIRST_BLOCK in m by { hide Ends; }
    var b := CoverFrom(m, s.fileEnd, FIRST_BLOCK, x);
    assert Covers(s, b, x);
    TilesApart(m, s.fileEnd);
    hide Tiles, Ends, SameFree, Coalesced;
  }

  lemma {:induction false} CoverFrom(m: map<nat, nat>, lim: nat, b: nat, x: nat) returns (c: nat)
    requires Tiles(m, lim) && b in m && b <= x < lim
    ensures c in m && c <= x < m[c]
    decreases x - b
  {
    TilesBounds(m, lim);
    TilesNext(m, lim);
    hide Tiles;
    if x < m[b] { c := b; } else { c := CoverFrom(m, lim, m[b], x); }
  }

  /** Every free block is followed by a used one, so free blocks never outnumber used ones. */
  lemma FreeFewerThanUsed(s: Index)
    requires WellFormed(s)
    ensures |s.freeBegin| <= |s.used|
  {
    FreeThenUsed(s);
    hide WellFormed;
    Injection(s.freeBegin.Keys, s.used.Keys, s.freeBegin);
  }

  lemma FreeThenUsed(s: Index)
    requires WellFormed(s)
    ensures forall b :: b in s.freeBegin ==> s.freeBegin[b].End() in s.used
    ensures forall b, c :: b in s.freeBegin && c in s.freeBegin && s.freeBegin[b].End() == s.freeBegin[c].End() ==>
      b == c
  {
    TilesNext(Ends(s), s.fileEnd);
    EndsOf(s);
    EndsKeys(s);
    hide Tiles, Ends;
  }

  /** When the only used blocks are the two at the front, nothing else is left in the file. */
  lemma OnlyFront(s: Index, second: nat)
    requires WellFormed(s) && s.used.Keys == {FIRST_BLOCK, second} && s.used[FIRST_BLOCK].End() == second
    ensures s.freeBegin == map[] && s.fileEnd == s.used[second].End()
  {
    FreeThenUsed(s);
    hide WellFormed;
    forall k | k in s.freeBegin ensures s.freeBegin[k].End() !in s.used { NotBeforeFront(s, second, k); }
    LastEnds(s, second);
  }

  lemma NotBeforeFront(s: Index, second: nat, k: nat)
    requires WellFormed(s) && FIRST_BLOCK in s.used && s.used[FIRST_BLOCK].End() == second
    requires k in s.freeBegin
    ensures s.freeBegin[k].End() != FIRST_BLOCK && s.freeBegin[k].End() != second
  {
    Layout(s, s.fileEnd);
    hide WellFormed, Ends;
  }

  lemma LastEnds(s: Index, second: nat)
    requires WellFormed(s) && s.used.Keys == {FIRST_BLOCK, second} && s.freeBegin == map[]
    requires s.used[FIRST_BLOCK].End() == second
    ensures s.fileEnd == s.used[second].End()
  {
    Layout(s, s.fileEnd);
    EndsKeys(s);
    TilesNext(Ends(s), s.fileEnd);
    hide WellFormed, Ends, Tiles;
    assert second in Ends(s);
  }

  lemma {:induction false} Injection(from: set<nat>, to: set<nat>, f: BlockMap)
    requires from <= f.Keys
    requires forall b :: b in from ==> f[b].End() in to
    requires forall b, c :: b in from && c in from && f[b].End() == f[c].End() ==> b == c
    ensures |from| <= |to|
  {
    if b :| b in from {
      Injection(from - {b}, to - {f[b].End()}, f);
    }
  }

  // ---------- the 32-bit locals of Free ----------

  datatype Merge = Merge(begin: nat, end: nat, freeBegin: BlockMap, freeEnd: BlockMap)

  /** Free up to its tail test, as written: beginIndex, endIndex and tmpIndex are unsigned int. */
  function MergeCode(s: Index, begin0: nat, end0: nat): (m: Merge)
    requires end0 < WORD
    ensures m.end < WORD
  {
    var left := begin0 in s.freeEnd;
    var begin := if left then U32(s.freeEnd[begin0].begin) else begin0;
    var fe := if left then s.freeEnd - {begin0} else s.freeEnd;
    var fb := if left then s.freeBegin - {begin} else s.freeBegin;
    if end0 in fb then
      var end := U32(fb[end0].End());
      Merge(begin, end, fb - {end0}, fe - {end})
    else Merge(begin, end0, fb, fe)
  }

  function FinishCode(used: BlockMap, m: Merge, fileEnd: nat): Index {
    if m.end == fileEnd then
      Index(used, m.freeBegin, m.freeEnd, U64(fileEnd - U32(m.end - m.begin)))
    else
      var merged := StorageBlock(m.begin, U32(m.end - m.begin - HEADER), WaitMergerBlock);
      Index(used, m.freeBegin[m.begin := merged], m.freeEnd[m.end := merged], fileEnd)
  }

  function ReleasedCode(s: Index, h: nat): Index {
    if h !in s.used then s else
    var begin0, end0 := U32(s.used[h].begin), U32(s.used[h].End());
    FinishCode(s.used - {begin0}, MergeCode(s, begin0, end0), s.fileEnd)
  }

  lemma MinusTwo(m: BlockMap, a: nat, b: nat)
    ensures m - {a} - {b} == m - {a, b}
    ensures a !in m ==> m - {b} == m - {a, b}
    ensures b !in m ==> m - {a} == m - {a, b}
    ensures a !in m && b !in m ==> m == m - {a, b}
  {
  }

  lemma MergeCodeCases(s: Index, h: nat, e: nat, lo: nat, hi: nat)
    requires e < WORD && e != lo
    requires if h in s.freeEnd then s.freeEnd[h].begin == lo < WORD else lo == h && h !in s.freeBegin
    requires if e in s.freeBegin then s.freeBegin[e].End() == hi < WORD else hi == e && e !in s.freeEnd
    ensures MergeCode(s, h, e) == Merge(lo, hi, s.freeBegin - {lo, e}, s.freeEnd - {h, hi})
  {
    var m := MergeCode(s, h, e);
    MinusTwo(s.freeBegin, lo, e);
    MinusTwo(s.freeEnd, h, hi);
    assert e in s.freeBegin - {lo} <==> e in s.freeBegin;
    hide U32;
  }

  lemma MergedFacts(s: Index, h: nat, lim: nat)
    requires WellFormedTo(s, lim) && h in s.used
    ensures h !in s.freeBegin && s.used[h].begin == h
    ensures if h in s.freeEnd then s.freeEnd[h].begin == MergedBegin(s, h) else MergedBegin(s, h) == h
    ensures var e := s.used[h].End();
      if e in s.freeBegin then s.freeBegin[e].End() == MergedEnd(s, h) else MergedEnd(s, h) == e
  {
    hide Tiles, Ends, SameFree, Coalesced;
  }

  lemma NarrowMerge(s: Index, h: nat, lim: nat)
    requires WellFormedTo(s, lim) && h in s.used && MergedEnd(s, h) < WORD
    ensures var lo, hi, e := MergedBegin(s, h), MergedEnd(s, h), s.used[h].End();
      MergeCode(s, h, e) == Merge(lo, hi, s.freeBegin - {lo, e}, s.freeEnd - {h, hi})
  {
    hide *;
    Neighbours(s, h, lim);
    MergedFacts(s, h, lim);
    MergeCodeCases(s, h, s.used[h].End(), MergedBegin(s, h), MergedEnd(s, h));
  }

  lemma NarrowFinish(s: Index, h: nat, m: Merge)
    requires h in s.used && MergedEnd(s, h) < WORD
    requires m.end == MergedEnd(s, h) == MergedBegin(s, h) + HEADER + MergedLen(s, h) && m.begin == MergedBegin(s, h)
    requires s.used[h].begin == h
    requires m.freeBegin == s.freeBegin - {m.begin, s.used[h].End()} && m.freeEnd == s.freeEnd - {h, m.end}
    ensures FinishCode(s.used - {h}, m, s.fileEnd) == Released(s, h)
  {
    hide MergedLen, MergedBegin, MergedEnd, U32, U64;
  }

  lemma NarrowFreeIsFree(s: Index, h: nat, lim: nat)
    requires WellFormedTo(s, lim) && h in s.used && MergedEnd(s, h) < WORD
    ensures ReleasedCode(s, h) == Released(s, h)
  {
    var e := s.used[h].End();
    assert s.used[h].begin == h;
    Neighbours(s, h, lim);
    NarrowMerge(s, h, lim);
    assert ReleasedCode(s, h) == FinishCode(s.used - {h}, MergeCode(s, h, e), s.fileEnd);
    hide *;
    NarrowFinish(s, h, MergeCode(s, h, e));
  }

  lemma WideMerge(s: Index, h: nat)
    requires WellFormed(s) && h in s.used
    ensures MergedBegin(s, h) < MergedEnd(s, h)
    ensures MergedEnd(s, h) in s.freeEnd ==> s.freeEnd[MergedEnd(s, h)].begin != MergedBegin(s, h)
  {
    Neighbours(s, h, s.fileEnd);
    hide Tiles, Ends, MergedLen, MergedEnd;
  }

  lemma MergeCodeOnlyErases(s: Index, begin0: nat, end0: nat, e: nat)
    requires end0 < WORD && e in MergeCode(s, begin0, end0).freeEnd
    ensures e in s.freeEnd && MergeCode(s, begin0, end0).freeEnd[e] == s.freeEnd[e]
  {
  }

  lemma WideFinish(s: Index, h: nat, used: BlockMap, m: Merge)
    requires h in s.used && m.end < WORD <= MergedEnd(s, h) <= s.fileEnd && MergedBegin(s, h) < MergedEnd(s, h)
    requires MergedEnd(s, h) in m.freeEnd ==> m.freeEnd[MergedEnd(s, h)].begin != MergedBegin(s, h)
    ensures FinishCode(used, m, s.fileEnd) != Released(s, h)
  {
    hide MergedLen, MergedBegin, MergedEnd, U32, U64;
    var lo, hi, t := MergedBegin(s, h), MergedEnd(s, h), FinishCode(used, m, s.fileEnd);
    if hi == s.fileEnd {
      assert t.fileEnd != Released(s, h).fileEnd;
    } else {
      assert hi in t.freeEnd ==> t.freeEnd[hi] == m.freeEnd[hi];
      assert Released(s, h).freeEnd[hi].begin == lo;
    }
  }

  lemma WideFreeIsNot(s: Index, h: nat)
    requires WellFormed(s) && h in s.used && MergedEnd(s, h) >= WORD
    ensures ReleasedCode(s, h) != Released(s, h)
  {
    WideMerge(s, h);
    MergedRegion(s, h, s.fileEnd);
    var begin0, end0, hi := U32(s.used[h].begin), U32(s.used[h].End()), MergedEnd(s, h);
    var m := MergeCode(s, begin0, end0);
    assert ReleasedCode(s, h) == FinishCode(s.used - {begin0}, m, s.fileEnd);
    hide *;
    if hi in m.freeEnd { MergeCodeOnlyErases(s, begin0, end0, hi); }
    WideFinish(s, h, s.used - {begin0}, m);
  }

  /** Free does what it is meant to exactly when the region it gives back ends below 4 GiB. */
  lemma FreeWidth(s: Index, h: nat)
    requires WellFormed(s) && h in s.used
    ensures ReleasedCode(s, h) == Released(s, h) <==> MergedEnd(s, h) < WORD
  {
    if MergedEnd(s, h) < WORD { NarrowFreeIsFree(s, h, s.fileEnd); } else { WideFreeIsNot(s, h); }
  }

  /** One block of the greatest length, allocated in an empty file and freed: the file is not cut back. */
  lemma WideFree()
    ensures var s := Allocated(EMPTY, WORD - 1, Append);
      && WellFormed(s) && s.used.Keys == {24} && Released(s, 24) == EMPTY
      && ReleasedCode(s, 24).fileEnd == s.fileEnd && ReleasedCode(s, 24) != Released(s, 24)
  {
    var s := Allocated(EMPTY, WORD - 1, Append);
    assert s.used == map[24 := StorageBlock(24, WORD - 1, UsedBlock)] && s.fileEnd == WORD + 39;
    assert WellFormed(EMPTY);
    AllocatedWellFormed(EMPTY, WORD - 1, Append);
    hide WellFormed;
    assert MergedBegin(s, 24) == 24 && MergedEnd(s, 24) == s.fileEnd;
  }
}
