/** What a load keeps: exactly the blocks whose headers are marked used, each with its bytes, whatever it coalesces. */
module LoadKeeps {
  import opened Bytes
  import opened BlockIndex
  import opened BlockRuns
  import opened Reload
  import opened Disk
  import opened DiskSteps
  import opened LoadFile

  /** The blocks of a chain that are marked used. */
  function UsedIn(bs: seq<StorageBlock>): BlockMap
    decreases |bs|
  {
    if bs == [] then map[]
    else (if bs[0].state.UsedBlock? then map[bs[0].begin := bs[0]] else map[]) + UsedIn(bs[1..])
  }

  lemma {:induction false} UsedInChain(bs: seq<StorageBlock>, lo: nat, hi: nat, h: nat)
    requires Chain(bs, lo, hi) && h in UsedIn(bs)
    ensures lo <= h == UsedIn(bs)[h].begin
    decreases |bs|
  {
    ChainGrows(bs[1..], bs[0].End(), hi);
    if h in UsedIn(bs[1..]) { UsedInChain(bs[1..], bs[0].End(), hi, h); }
  }

  /** The blocks of m have the same bytes in both files, and the same of them are there. */
  ghost predicate Kept(f: seq<byte>, f': seq<byte>, m: BlockMap) {
    forall h :: h in m ==> BlockKept(f, f', m[h])
  }

  ghost predicate BlockKept(f: seq<byte>, f': seq<byte>, b: StorageBlock) {
    Data(f', b) == Data(f, b) && Reach(f, b) <= Reach(f', b)
  }

  lemma KeptAll(f: seq<byte>, m: BlockMap)
    ensures Kept(f, f, m)
  {
  }

  lemma KeptTrans(f: seq<byte>, g: seq<byte>, r: seq<byte>, m: BlockMap, n: BlockMap)
    requires Kept(f, g, m) && Kept(f, g, n) && Kept(g, r, m + n)
    ensures Kept(f, r, m + n)
  {
    forall h | h in m + n ensures BlockKept(f, r, (m + n)[h]) { assert BlockKept(g, r, (m + n)[h]); }
    hide Data, Reach;
  }

  lemma KeptContents(f: seq<byte>, f': seq<byte>, m: BlockMap)
    requires Kept(f, f', m)
    ensures Contents(f', m) == Contents(f, m)
  {
    assert forall h :: h in m ==> BlockKept(f, f', m[h]);
    hide Data, Reach;
  }

  lemma BehindKept(f: seq<byte>, f': seq<byte>, bs: seq<StorageBlock>, lo: nat, hi: nat)
    requires SameFrom(f, f', lo) && Chain(bs, lo, hi)
    ensures Kept(f, f', UsedIn(bs))
  {
    forall h | h in UsedIn(bs) ensures BlockKept(f, f', UsedIn(bs)[h]) {
      UsedInChain(bs, lo, hi, h);
      SameData(f, f', UsedIn(bs)[h], lo);
    }
    hide UsedIn;
  }

  lemma SameData(f: seq<byte>, f': seq<byte>, b: StorageBlock, lo: nat)
    requires SameFrom(f, f', lo) && lo <= b.begin
    ensures BlockKept(f, f', b)
  {
    assert Region(f', b.begin + HEADER, b.len) == Region(f, b.begin + HEADER, b.len);
  }

  /** Freeing a block that has just been entered leaves the others. */
  lemma SeenKept(f: seq<byte>, s: Index, f': seq<byte>, t: Index, b: StorageBlock)
    requires ReleaseSeen(f, Entered(s, b), f', t, b.begin) && b.begin !in s.used
    ensures t.used == s.used && Kept(f, f', s.used)
  {
    var u := Entered(s, b);
    assert u.used - {b.begin} == s.used;
    forall h | h in s.used ensures BlockKept(f, f', s.used[h]) {
      assert Contents(f', t.used)[h] == (Contents(f, u.used) - {b.begin})[h];
    }
    hide Data, Reach;
  }

  lemma NotYetThere(f: seq<byte>, s: Index, lim: nat)
    requires OnDisk(f, s, lim)
    ensures lim !in s.used
  {
    Layout(s, lim);
    hide Tiles, Ends, SameFree, Coalesced, AllHeaders, HeadOk;
  }

  /** One header read: the used blocks so far keep their bytes, and so does what is still to come. */
  lemma StepKeeps(f: seq<byte>, s: Index, bs: seq<StorageBlock>, lim: nat)
    requires Loading(f, s, bs, lim) && bs != []
    ensures var b := bs[0];
      var f', t := if b.state.WaitMergerBlock? then ReleasedFile(f, Entered(s, b), lim) else f, LoadStep(s, b);
      && t.used == s.used + (if b.state.UsedBlock? then map[b.begin := b] else map[])
      && Kept(f, f', t.used) && Kept(f, f', UsedIn(bs[1..]))
  {
    hide *;
    var b := bs[0];
    LoadingTail(f, s, bs, lim);
    NotYetThere(f, s, lim);
    EnteredOnDisk(f, s, b);
    LoadStepKind(s, b);
    EnteredUsed(s, b);
    if b.state.UsedBlock? {
      KeptAll(f, Entered(s, b).used);
      KeptAll(f, UsedIn(bs[1..]));
    } else {
      var u := b.(state := UsedBlock);
      var f', t := ReleasedFile(f, Entered(s, b), lim), Released(Entered(s, b), lim);
      FreeStep(f, s, b);
      StateIrrelevant(f, s, b);
      SeenKept(f, s, f', t, u);
      if b.End() == s.fileEnd { NoneUsed(f, f', bs[1..]); } else { BehindKept(f, f', bs[1..], b.End(), s.fileEnd); }
    }
  }

  lemma EnteredUsed(s: Index, b: StorageBlock)
    ensures Entered(s, b).used == s.used + map[b.begin := b]
  {
  }

  lemma NoneUsed(f: seq<byte>, f': seq<byte>, bs: seq<StorageBlock>)
    requires bs == []
    ensures Kept(f, f', UsedIn(bs))
  {
  }

  lemma LoadNone(f: seq<byte>, s: Index, bs: seq<StorageBlock>)
    requires bs == []
    ensures LoadedFile(f, s, bs) == f && LoadAll(s, bs) == s && s.used + UsedIn(bs) == s.used
  {
  }

  lemma LoadMore(f: seq<byte>, s: Index, bs: seq<StorageBlock>)
    requires bs != []
    ensures var b := bs[0];
      var g, t := if b.state.WaitMergerBlock? then ReleasedFile(f, Entered(s, b), b.begin) else f, LoadStep(s, b);
      LoadedFile(f, s, bs) == LoadedFile(g, t, bs[1..]) && LoadAll(s, bs) == LoadAll(t, bs[1..])
  {
    hide ReleasedFile, Entered, LoadStep;
  }

  lemma UsedMore(m: BlockMap, bs: seq<StorageBlock>)
    requires bs != []
    ensures m + UsedIn(bs) == (m + if bs[0].state.UsedBlock? then map[bs[0].begin := bs[0]] else map[])
      + UsedIn(bs[1..])
  {
  }

  /** A load keeps exactly the blocks marked used, with their bytes. */
  lemma {:induction false} LoadKeepsUsed(f: seq<byte>, s: Index, bs: seq<StorageBlock>, lim: nat)
    requires Loading(f, s, bs, lim)
    ensures var f', t := LoadedFile(f, s, bs), LoadAll(s, bs);
      t.used == s.used + UsedIn(bs) && Kept(f, f', t.used)
    decreases |bs|
  {
    hide *;
    if bs == [] {
      LoadNone(f, s, bs);
      KeptAll(f, s.used);
    } else {
      var b := bs[0];
      var g, t := if b.state.WaitMergerBlock? then ReleasedFile(f, Entered(s, b), b.begin) else f, LoadStep(s, b);
      LoadMore(f, s, bs);
      UsedMore(s.used, bs);
      LoadingTail(f, s, bs, lim);
      LoadingStep(f, s, bs, lim);
      StepKeeps(f, s, bs, lim);
      LoadKeepsUsed(g, t, bs[1..], b.End());
      KeptTrans(f, g, LoadedFile(g, t, bs[1..]), t.used, UsedIn(bs[1..]));
    }
  }
}
