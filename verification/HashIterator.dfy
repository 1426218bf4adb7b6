/** Walking the persistent hash map: begin, readBlock and ++, in bucket order and then chain order. */
module HashIterator {
  import opened Bytes
  import opened Options
  import opened Storage
  import opened HashIndex
  import opened HashMap
  import HashSteps
  import HashOk
  import opened Words

  /** The keys in the order of the walk. */
  function Flatten(cs: seq<seq<Key>>): seq<Key>
    decreases |cs|
  {
    if cs == [] then [] else cs[0] + Flatten(cs[1..])
  }

  /** Where chain i starts in that order. */
  function Start(cs: seq<seq<Key>>, i: nat): nat
    requires i <= |cs|
    decreases |cs|
  {
    if i == 0 then 0 else |cs[0]| + Start(cs[1..], i - 1)
  }

  lemma {:induction false} FlattenAt(cs: seq<seq<Key>>, i: nat, j: nat)
    requires i < |cs| && j < |cs[i]|
    ensures Start(cs, i) + j < |Flatten(cs)| && Flatten(cs)[Start(cs, i) + j] == cs[i][j]
    decreases |cs|
  {
    if i > 0 { FlattenAt(cs[1..], i - 1, j); }
  }

  lemma {:induction false} StartNext(cs: seq<seq<Key>>, i: nat)
    requires i < |cs|
    ensures Start(cs, i + 1) == Start(cs, i) + |cs[i]|
    decreases |cs|
  {
    if i > 0 { StartNext(cs[1..], i - 1); }
  }

  lemma {:induction false} StartEnd(cs: seq<seq<Key>>)
    ensures Start(cs, |cs|) == |Flatten(cs)|
    decreases |cs|
  {
    if cs != [] { StartEnd(cs[1..]); }
  }

  /** Every position of the walk lies in one chain. */
  lemma {:induction false} Locate(cs: seq<seq<Key>>, p: nat) returns (i: nat, j: nat)
    requires p < |Flatten(cs)|
    ensures i < |cs| && j < |cs[i]| && p == Start(cs, i) + j && Flatten(cs)[p] == cs[i][j]
    decreases |cs|
  {
    if p < |cs[0]| {
      i, j := 0, p;
    } else {
      i, j := Locate(cs[1..], p - |cs[0]|);
      i := i + 1;
    }
  }

  lemma {:induction false} StartGrows(cs: seq<seq<Key>>, i: nat, l: nat)
    requires i < l <= |cs|
    ensures Start(cs, i) + |cs[i]| <= Start(cs, l)
    decreases l - i
  {
    StartNext(cs, i);
    if i + 1 < l { StartGrows(cs, i + 1, l); }
  }

  lemma StartZero(cs: seq<seq<Key>>)
    ensures Start(cs, 0) == 0
  {
  }

  lemma {:induction false} AsMany(o: seq<Key>, ks: set<Key>)
    requires forall p, q :: 0 <= p < q < |o| ==> o[p] != o[q]
    requires forall k :: k in ks <==> k in o
    ensures |ks| == |o|
    decreases |o|
  {
    if o != [] {
      var k := o[|o| - 1];
      forall x | x in ks - {k} ensures x in o[..|o| - 1] {
        var p :| 0 <= p < |o| && o[p] == x;
        assert o[..|o| - 1][p] == x;
      }
      AsMany(o[..|o| - 1], ks - {k});
    } else {
      assert ks == {};
    }
  }

  /** FileHashMap::iterator, with m_NextBlock and the buffers it owns; None is a null pointer. */
  class MapIterator {
    const owner: FileHashMap
    const emptyIsNull: bool // whether malloc(0) gives a null pointer
    var key: Option<seq<byte>>
    var value: Option<seq<byte>>
    var nextBlock: nat

    /** The keys as the walk meets them. */
    ghost function Order(): seq<Key>
      reads owner
    {
      Flatten(owner.chains)
    }

    /** The node of the p-th key; 0 past the end. */
    ghost function NodeAt(p: nat): nat
      reads owner
    {
      if p < |Order()| && Order()[p] in owner.entries then owner.entries[Order()[p]].node else 0
    }

    /** What malloc and a copy of d leave in a buffer. */
    function Buffer(d: seq<byte>): Option<seq<byte>> {
      if d == [] && emptyIsNull then None else Some(d)
    }

    static function Content(b: Option<seq<byte>>): seq<byte> {
      if b.Some? then b.value else []
    }

    lemma Buffered(d: seq<byte>)
      ensures Content(Buffer(d)) == d
    {
    }

    constructor (m: FileHashMap, nullForEmpty: bool)
      ensures owner == m && emptyIsNull == nullForEmpty && key == None && value == None && nextBlock == 0
    {
      owner, emptyIsNull, key, value, nextBlock := m, nullForEmpty, None, None, 0;
    }

    lemma OrderIs()
      ensures Order() == Flatten(owner.chains)
    {
      hide Flatten;
    }

    lemma NodeIs(p: nat)
      ensures p < |Order()| && Order()[p] in owner.entries ==> NodeAt(p) == owner.entries[Order()[p]].node
      ensures p >= |Order()| ==> NodeAt(p) == 0
    {
      hide Flatten;
    }

    lemma Counts()
      requires owner.Valid()
      ensures |owner.chains| == owner.bucket.Length == BUCKETS == owner.info.bucketSize == 1024
    {
      hide *;
      owner.ValidParts();
      HandlesBelow(owner);
      MetaReadable(owner.storage.Blocks(), owner.entries, owner.chains, owner.owners, owner.bucket[..], owner.info);
      owner.OwnBlocks();
      WordIs();
    }

    static lemma HandlesBelow(m: FileHashMap)
      requires m.Valid()
      ensures forall h :: h in m.storage.Blocks() ==> h < WORD
    {
      hide *;
      m.ValidParts();
      FileHashMap.HandlesBelow(m.storage);
    }

    lemma Place(i: nat, j: nat)
      requires owner.Valid() && |owner.chains| == BUCKETS && i < BUCKETS && j < |owner.chains[i]|
      ensures var p := Start(owner.chains, i) + j;
        && p < |Order()| && Order()[p] == owner.chains[i][j] && Order()[p] in owner.entries && BucketOf(Order()[p]) == i
        && NodeAt(p) == owner.Handle(i, j) != 0
    {
      hide *;
      Counts();
      FlattenAt(owner.chains, i, j);
      OrderIs();
      NodeIs(Start(owner.chains, i) + j);
      owner.ValidParts();
      EntryAt(owner.storage.Blocks(), owner.entries, owner.chains, owner.owners, owner.bucket[..], owner.info, i, j);
      HandleIs(owner, i, j);
    }

    static lemma HandleIs(m: FileHashMap, i: nat, j: nat)
      requires i < |m.chains| && j < |m.chains[i]| && m.chains[i][j] in m.entries
      ensures m.Handle(i, j) == m.entries[m.chains[i][j]].node
    {
    }

    /** A bucket heads its chain, or is 0. */
    lemma Bucket(i: nat)
      requires owner.Valid() && |owner.chains| == owner.bucket.Length == BUCKETS && i < BUCKETS
      ensures owner.chains[i] == [] ==> owner.bucket[i] == 0
      ensures owner.chains[i] != [] ==> owner.bucket[i] == NodeAt(Start(owner.chains, i)) != 0
    {
      hide *;
      owner.ValidParts();
      ChainStart(owner.storage.Blocks(), owner.entries, owner.chains, owner.owners, owner.bucket[..], owner.info, i);
      assert owner.bucket[..][i] == owner.bucket[i];
      FirstHandle(owner.entries, owner.chains[i]);
      if owner.chains[i] != [] {
        Place(i, 0);
        HandleIs(owner, i, 0);
      }
    }

    static lemma FirstHandle(es: Entries, chain: seq<Key>)
      requires chain != [] ==> chain[0] in es
      ensures HandleAt(es, chain, 0) == if chain == [] then 0 else es[chain[0]].node
    {
    }

    /** The first bucket from lo on that is not 0 heads the next key of the walk. */
    method NextBucket(lo: nat) returns (handle: nat)
      requires owner.Valid() && |owner.chains| == BUCKETS && lo <= BUCKETS
      ensures handle == NodeAt(Start(owner.chains, lo))
    {
      hide *;
      Counts();
      OrderIs();
      var iLoop := lo;
      while iLoop < owner.info.bucketSize
        invariant lo <= iLoop <= BUCKETS && Start(owner.chains, iLoop) == Start(owner.chains, lo)
      {
        Bucket(iLoop);
        StartNext(owner.chains, iLoop);
        if owner.bucket[iLoop] != 0 {
          return owner.bucket[iLoop];
        }
        iLoop := iLoop + 1;
      }
      StartEnd(owner.chains);
      NodeIs(Start(owner.chains, lo));
      handle := 0;
    }

    /** What the walk shows at position p. */
    ghost predicate Shows(p: nat)
      reads this`key, this`value, owner
    {
      if p < |Order()| && Order()[p] in owner.entries then
        key == Buffer(Order()[p]) && value == Buffer(owner.entries[Order()[p]].value)
      else key == None && value == None
    }

    lemma ShowsIs(p: nat)
      ensures p < |Order()| && Order()[p] in owner.entries ==>
        (Shows(p) <==> key == Buffer(Order()[p]) && value == Buffer(owner.entries[Order()[p]].value))
      ensures p >= |Order()| ==> (Shows(p) <==> key == None && value == None)
    {
      hide Flatten;
    }

    /** The key at position p, where it lies, and the link its node holds. */
    lemma At(p: nat) returns (i: nat, j: nat)
      requires owner.Valid() && p < |Order()|
      ensures |owner.chains| == BUCKETS && i < BUCKETS && j < |owner.chains[i]| && p == Start(owner.chains, i) + j
      ensures var k := Order()[p];
        && k == owner.chains[i][j] && k in owner.entries && BucketOf(k) == i
        && owner.entries[k].node == NodeAt(p) != 0 && owner.entries[k].next == owner.Handle(i, j + 1) < WORD
    {
      hide *;
      Counts();
      OrderIs();
      i, j := Locate(owner.chains, p);
      Place(i, j);
      NodeIs(p);
      owner.WalkStep(i, j);
    }

    /** What follows position p: the next key of the same chain, or the start of the next one. */
    lemma After(p: nat, i: nat, j: nat)
      requires owner.Valid() && |owner.chains| == BUCKETS && i < BUCKETS && j < |owner.chains[i]|
        && p == Start(owner.chains, i) + j
      ensures owner.Handle(i, j + 1) != 0 ==> owner.Handle(i, j + 1) == NodeAt(p + 1)
      ensures owner.Handle(i, j + 1) == 0 ==> p + 1 == Start(owner.chains, i + 1)
    {
      hide *;
      StartNext(owner.chains, i);
      if j + 1 < |owner.chains[i]| {
        Place(i, j + 1);
      } else {
        PastEnd(owner, i, j + 1);
      }
    }

    static lemma PastEnd(m: FileHashMap, i: nat, j: nat)
      requires i < |m.chains| && j >= |m.chains[i]|
      ensures m.Handle(i, j) == 0
    {
    }

    /** Reading a block of storage mode LV into a new buffer. */
    method ReadLV(handle: nat, ghost d: seq<byte>) returns (buf: Option<seq<byte>>)
      requires owner.storage.Valid() && |d| < WORD
      requires handle in owner.storage.usedBlock && owner.storage.usedBlock[handle].len == LEN_SIZE + |d|
        && owner.storage.Whole(handle)
      requires handle in owner.storage.Blocks() && owner.storage.Blocks()[handle] == LV(d)
      ensures buf == Buffer(d)
    {
      hide *;
      LVParts(d);
      FileHashMap.MapSizes();
      var ret, lenData := owner.storage.Read(handle, 0, LEN_SIZE);
      assert lenData == LV(d)[..LEN_SIZE];
      var data;
      ret, data := owner.storage.Read(handle, LEN_SIZE, FromLE(lenData));
      assert d[..|d|] == d;
      assert LV(d)[LEN_SIZE..LEN_SIZE + |d|] == d[..|d|];
      buf := Buffer(data);
    }

    /** readBlock: the entry at a node goes into the buffers, and the handle of the next node is returned. */
    method ReadBlock(dataNodeHandle: nat, ghost p: nat) returns (next: nat)
      requires owner.Valid() && p <= |Order()| && dataNodeHandle == NodeAt(p)
      modifies this`key, this`value
      ensures Shows(p) && next == NodeAt(p + 1)
    {
      hide *;
      key, value := None, None;
      if dataNodeHandle == 0 {
        if p < |Order()| { var i, j := At(p); }
        ShowsIs(p);
        NodeIs(p + 1);
        return 0;
      }
      NodeIs(p);
      ghost var i, j := At(p);
      ghost var k := Order()[p];
      owner.EntryLive(k);
      NodeFields(owner.entries[k]);
      var dataNode := owner.ReadNode(dataNodeHandle, k);
      key := ReadLV(dataNode.key, k);
      value := ReadLV(dataNode.value, owner.entries[k].value);
      ShowsIs(p);
      After(p, i, j);
      if dataNode.nextBlock == 0 {
        Buffered(k);
        var index := owner.ApHash(Content(key));
        next := NextBucket(index + 1);
        return;
      }
      return dataNode.nextBlock;
    }

    /** begin: the walk stands at its first key. */
    method Begin()
      requires owner.Valid()
      modifies this
      ensures Shows(0) && nextBlock == NodeAt(1)
    {
      hide *;
      key, value := None, None;
      owner.OwnBlocks();
      Counts();
      if owner.info.size == 0 {
        OrderKeys();
        owner.MapSize();
        ShowsIs(0);
        NodeIs(1);
        nextBlock := 0;
        return;
      }
      StartZero(owner.chains);
      OrderKeys();
      owner.MapSize();
      ghost var i, j := At(0);
      var first := NextBucket(0);
      if first != 0 {
        nextBlock := ReadBlock(first, 0);
      }
    }

    /** ++: on to the next key. */
    method Next(ghost p: nat)
      requires owner.Valid() && p < |Order()| && nextBlock == NodeAt(p + 1)
      modifies this
      ensures Shows(p + 1) && nextBlock == NodeAt(p + 2)
    {
      hide *;
      nextBlock := ReadBlock(nextBlock, p + 1);
    }

    /** The walk meets every key once, in the order of the buckets. */
    lemma OrderKeys()
      requires owner.Valid()
      ensures forall k :: k in owner.Map() <==> k in Order()
      ensures forall p, q :: 0 <= p < q < |Order()| ==>
        Order()[p] != Order()[q] && BucketOf(Order()[p]) <= BucketOf(Order()[q])
      ensures |Order()| == |owner.Map()|
    {
      hide *;
      owner.MapDomain();
      forall k | k in owner.Map() ensures k in Order() { KeyMet(k); }
      forall k | k in Order() ensures k in owner.Map() {
        var p :| 0 <= p < |Order()| && Order()[p] == k;
        var i, j := At(p);
      }
      forall p, q | 0 <= p < q < |Order()| ensures Order()[p] != Order()[q]
        && BucketOf(Order()[p]) <= BucketOf(Order()[q]) {
        MetApart(p, q);
      }
      assert forall k :: k in owner.Map().Keys <==> k in Order();
      AsMany(Order(), owner.Map().Keys);
    }

    lemma KeyMet(k: Key)
      requires owner.Valid() && k in owner.entries
      ensures k in Order()
    {
      hide *;
      owner.WalkStart(k);
      owner.BucketCount();
      var i := BucketOf(k);
      var j :| 0 <= j < |owner.chains[i]| && owner.chains[i][j] == k;
      Place(i, j);
      assert Order()[Start(owner.chains, i) + j] == k;
    }

    lemma MetApart(p: nat, q: nat)
      requires owner.Valid() && p < q < |Order()|
      ensures Order()[p] != Order()[q] && BucketOf(Order()[p]) <= BucketOf(Order()[q])
    {
      hide *;
      Counts();
      var i, j := At(p);
      var l, m := At(q);
      if l < i { StartGrows(owner.chains, l, i); }
      else if l == i { InChain(i, j, m); }
    }

    lemma InChain(i: nat, j: nat, m: nat)
      requires owner.Valid() && i < BUCKETS == |owner.chains| && j < m < |owner.chains[i]|
      ensures owner.chains[i][j] != owner.chains[i][m]
    {
      hide *;
      owner.ValidParts();
      Counts();
      ChainOf(owner.storage.Blocks(), owner.entries, owner.chains, owner.owners, owner.bucket[..], owner.info, i);
      HashSteps.ChainDistinct(owner.entries, owner.chains[i], owner.bucket[..][i], i, j, m);
    }

    static lemma ChainOf(b: Heap, es: Entries, cs: seq<seq<Key>>, o: Owners, bs: seq<nat>, m: MapInfo, i: nat)
      requires MapOk(b, es, cs, o, bs, m) && i < BUCKETS == |bs| == |cs|
      ensures IsChain(es, cs[i], bs[i], i)
    {
      HashOk.Parts(b, es, cs, o, bs, m);
      hide MapOk, IsChain;
    }

    /** An entry whose buffers are both null pointers looks like the end of the walk. */
    ghost predicate Blank(k: Key, v: seq<byte>) {
      emptyIsNull && k == [] && v == []
    }

    lemma BlankIs(k: Key, v: seq<byte>)
      ensures Blank(k, v) <==> Buffer(k) == None && Buffer(v) == None
      ensures Blank(k, v) <==> emptyIsNull && k == [] && v == []
    {
    }

    /** met is what a walk has shown so far. */
    ghost predicate Met(met: seq<(Key, seq<byte>)>)
      reads owner
    {
      && |met| <= |Order()|
      && forall p :: 0 <= p < |met| ==>
        && met[p].0 == Order()[p] && met[p].0 in owner.Map()
        && met[p].1 == owner.Map()[met[p].0] && !Blank(met[p].0, met[p].1)
    }

    lemma MetStep(met: seq<(Key, seq<byte>)>, k: Key, v: seq<byte>)
      requires Met(met) && |met| < |Order()| && k == Order()[|met|]
      requires k in owner.Map() && owner.Map()[k] == v && !Blank(k, v)
      ensures Met(met + [(k, v)])
    {
      hide Order, Blank;
    }

    lemma MetStart()
      ensures Met([])
    {
    }

    lemma MetEnd(met: seq<(Key, seq<byte>)>)
      requires owner.Valid() && Met(met)
      requires |met| < |Order()| ==>
        var k := Order()[|met|]; k in owner.Map() && Blank(k, owner.Map()[k])
      ensures forall p :: 0 <= p < |met| ==> p < |Order()| && met[p].0 == Order()[p]
      ensures forall p :: 0 <= p < |met| ==> met[p].0 in owner.Map() && met[p].1 == owner.Map()[met[p].0]
      ensures forall p, q :: 0 <= p < q < |met| ==> met[p].0 != met[q].0 && BucketOf(met[p].0) <= BucketOf(met[q].0)
      ensures |met| <= |owner.Map()|
      ensures |met| == |owner.Map()| <==> !([] in owner.Map() && Blank([], owner.Map()[[]]))
    {
      assert |met| <= |Order()| && forall p :: 0 <= p < |met| ==>
        met[p].0 == Order()[p] && met[p].0 in owner.Map() && met[p].1 == owner.Map()[met[p].0]
          && !Blank(met[p].0, met[p].1) by {
        hide Order, Blank;
      }
      hide *;
      OrderKeys();
      if |met| < |Order()| {
        BlankIs(Order()[|met|], owner.Map()[Order()[|met|]]);
      } else if [] in owner.Map() {
        var p :| 0 <= p < |Order()| && Order()[p] == [];
        assert met[p].0 == [];
      }
    }

    /** A walk from begin() to end(), as a caller writes it. It meets every entry once, in bucket order and then chain
        order, unless the empty key has an empty value and malloc(0) gives a null pointer. */
    method Walk() returns (met: seq<(Key, seq<byte>)>)
      requires owner.Valid()
      modifies this
      ensures forall p :: 0 <= p < |met| ==> p < |Order()| && met[p].0 == Order()[p]
      ensures forall p :: 0 <= p < |met| ==> met[p].0 in owner.Map() && met[p].1 == owner.Map()[met[p].0]
      ensures forall p, q :: 0 <= p < q < |met| ==> met[p].0 != met[q].0 && BucketOf(met[p].0) <= BucketOf(met[q].0)
      ensures |met| <= |owner.Map()|
      ensures |met| == |owner.Map()| <==> !([] in owner.Map() && Blank([], owner.Map()[[]]))
    {
      hide *;
      owner.MapDomain();
      MetStart();
      Begin();
      met := [];
      while key != None || value != None
        invariant Met(met) && |met| <= |Order()| && Shows(|met|) && nextBlock == NodeAt(|met| + 1)
        decreases |Order()| - |met|
      {
        ghost var p := |met|;
        ShowsIs(p);
        ghost var i, j := At(p);
        Buffered(Order()[p]);
        Buffered(owner.entries[Order()[p]].value);
        BlankIs(Order()[p], owner.entries[Order()[p]].value);
        MetStep(met, Order()[p], owner.entries[Order()[p]].value);
        met := met + [(Content(key), Content(value))];
        Next(p);
      }
      ShowsIs(|met|);
      if |met| < |Order()| {
        ghost var i, j := At(|met|);
        BlankIs(Order()[|met|], owner.entries[Order()[|met|]].value);
      }
      MetEnd(met);
    }
  }

  lemma NoMap(s: FileStorage, es: Entries, cs: seq<seq<Key>>, os: Owners, bs: seq<nat>, m: MapInfo)
    requires s.Blocks() == map[]
    ensures FileHashMap.Openable(s, es, cs, os, bs, m) && !FileHashMap.IsMapFile(s)
  {
    hide FileStorage.Blocks;
  }

  method OneEntry() returns (m: FileHashMap)
    ensures fresh(m) && m.Valid() && m.Map() == map[[] := []]
  {
    hide *;
    FileHashMap.MapSizes();
    FileHashMap.AddRoomIs([], []);
    var s := EmptyStorage();
    ghost var info := MapInfo([], 0, 0, [], 0);
    NoMap(s, map[], [], map[], [], info);
    m := new FileHashMap(s, map[], [], map[], [], info);
    var ok := m.Add([], []);
  }

  /** A map whose one entry is the empty key with an empty value, walked where malloc(0) gives a null pointer: the walk
      ends before it. */
  method MissedEntry() returns (m: FileHashMap, met: seq<(Key, seq<byte>)>)
    ensures fresh(m) && m.Valid() && m.Map() == map[[] := []] && met == []
  {
    hide *;
    m := OneEntry();
    var it := new MapIterator(m, true);
    it.BlankIs([], []);
    met := it.Walk();
    assert |m.Map()| == 1;
  }
}
