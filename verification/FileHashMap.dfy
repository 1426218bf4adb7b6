/** The persistent hash map: bucket chains of node, key and value blocks in a FileStorage. */
module HashMap {
  import opened Bytes
  import BlockIndex
  import BlockRuns
  import opened Storage
  import opened HashIndex
  import opened HashSteps
  import opened HashOk
  import opened Words

  /** Where the file ends just after CreateMap: the file head and the map's own two blocks. */
  const EMPTY_MAP_END: nat := 8288

  /** Every live block of the storage is whole. */
  ghost predicate AllWhole(s: FileStorage)
    reads s
  {
    forall h :: h in s.usedBlock ==> s.Whole(h)
  }

  // ---------- what a walk along a chain meets ----------

  lemma EntryAt(b: Heap, es: Entries, chains: seq<seq<Key>>, o: Owners, bucket: seq<nat>, info: MapInfo, i: nat, j: nat)
    requires MapOk(b, es, chains, o, bucket, info) && i < BUCKETS && |chains| == |bucket| == BUCKETS && j < |chains[i]|
    ensures chains[i][j] in es && BucketOf(chains[i][j]) == i
    ensures StoredAt(b, chains[i][j], es[chains[i][j]])
    ensures j + 1 < |chains[i]| ==> chains[i][j + 1] in es
    ensures es[chains[i][j]].next == HandleAt(es, chains[i], j + 1)
    ensures es[chains[i][j]].node in b && es[chains[i][j]].node != 0
  {
    Parts(b, es, chains, o, bucket, info);
    assert IsChain(es, chains[i], bucket[i], i);
    assert chains[i][j] in es;
    assert Owns(o, chains[i][j], es[chains[i][j]]);
    hide StoredAt, BucketOf;
  }

  lemma ChainStart(b: Heap, es: Entries, chains: seq<seq<Key>>, o: Owners, bucket: seq<nat>, info: MapInfo, i: nat)
    requires MapOk(b, es, chains, o, bucket, info) && i < BUCKETS
    ensures |chains| == |bucket| == BUCKETS
    ensures chains[i] != [] ==> chains[i][0] in es
    ensures bucket[i] == HandleAt(es, chains[i], 0)
    ensures forall k :: k in es && BucketOf(k) == i ==> k in chains[i]
  {
    Parts(b, es, chains, o, bucket, info);
    assert IsChain(es, chains[i], bucket[i], i);
    hide BucketOf;
  }

  lemma EntryIn(b: Heap, o: Owners, es: Entries, k: Key)
    requires Owned(o, es) && Stored(b, es) && k in es
    ensures StoredAt(b, k, es[k]) && es[k].node != 0
  {
    assert Owns(o, k, es[k]);
    hide StoredAt;
  }

  lemma NodeDecodes(e: Entry)
    requires e.keyBlock < WORD && e.valueBlock < WORD && e.next < WORD
    ensures DecodeNode(EncodeNode(e.Node())) == e.Node() && e.Node() == DataNode(e.keyBlock, e.valueBlock, e.next)
  {
    WordSizes();
    NodeRoundTrip(e.Node());
    hide *;
  }

  lemma KeyCompared(k: Key, key: Key)
    requires |k| < WORD
    ensures |LV(k)| >= LEN_SIZE
    ensures k == key <==> FromLE(LV(k)[..LEN_SIZE]) == |key| && LV(k)[LEN_SIZE..] == key
  {
    WordSizes();
    LVRead(k);
    hide *;
  }

  lemma NodeFields(e: Entry)
    ensures e.Node().key == e.keyBlock && e.Node().value == e.valueBlock && e.Node().nextBlock == e.next
  {
  }

  lemma LVParts(v: seq<byte>)
    requires |v| < WORD
    ensures |LV(v)| == LEN_SIZE + |v| && FromLE(LV(v)[..LEN_SIZE]) == |v|
    ensures forall n :: 0 <= n <= |v| ==> LV(v)[LEN_SIZE..LEN_SIZE + n] == v[..n]
  {
    WordSizes();
    LVRead(v);
    hide *;
    forall n | 0 <= n <= |v| ensures LV(v)[LEN_SIZE..LEN_SIZE + n] == v[..n] {
      assert LV(v)[LEN_SIZE..LEN_SIZE + n] == LV(v)[LEN_SIZE..][..n];
    }
  }

  // ---------- opening ----------

  lemma {:induction false} FewBelow(s: set<nat>, n: nat)
    requires forall x :: x in s ==> x < n
    ensures |s| <= n
  {
    if n > 0 { FewBelow(s - {n - 1}, n - 1); }
    else if x :| x in s { assert false; }
  }

  /** There are no more entries than handles. */
  lemma FewEntries(o: Owners, es: Entries)
    requires Owned(o, es) && forall h :: h in o ==> h < WORD
    ensures |es| <= WORD
  {
    var nodes := set k | k in es :: es[k].node;
    forall k | k in es ensures es[k].node in o && o[es[k].node] == NodeOf(k) { assert Owns(o, k, es[k]); }
    hide Owned;
    FewBelow(nodes, WORD);
    SameSize(es, es.Keys, nodes);
  }

  lemma {:induction false} SameSize(es: Entries, ks: set<Key>, nodes: set<nat>)
    requires ks <= es.Keys && nodes == set k | k in ks :: es[k].node
    requires forall k, l :: k in ks && l in ks && es[k].node == es[l].node ==> k == l
    ensures |nodes| == |ks|
  {
    if k :| k in ks {
      var rest := set l | l in ks - {k} :: es[l].node;
      assert nodes == rest + {es[k].node};
      SameSize(es, ks - {k}, rest);
    }
  }

  lemma BucketsBelow(b: Heap, es: Entries, chains: seq<seq<Key>>, o: Owners, bucket: seq<nat>, info: MapInfo)
    requires MapOk(b, es, chains, o, bucket, info) && forall h :: h in b ==> h < WORD
    ensures |bucket| == BUCKETS && forall i :: 0 <= i < |bucket| ==> bucket[i] < WORD
  {
    hide *;
    Parts(b, es, chains, o, bucket, info);
    forall i | 0 <= i < |bucket| ensures bucket[i] < WORD {
      ChainStart(b, es, chains, o, bucket, info, i);
      HeadBelow(b, o, es, chains[i]);
    }
  }

  lemma HeadBelow(b: Heap, o: Owners, es: Entries, chain: seq<Key>)
    requires Owned(o, es) && b.Keys == o.Keys && (chain != [] ==> chain[0] in es) && forall h :: h in b ==> h < WORD
    ensures HandleAt(es, chain, 0) < WORD
  {
    if chain != [] { EntryBlocks(o, es, chain[0]); }
    hide Owned;
  }

  /** The map info and the bucket block read back as what the map keeps in memory. */
  lemma MetaReadable(b: Heap, es: Entries, chains: seq<seq<Key>>, o: Owners, bucket: seq<nat>, info: MapInfo)
    requires MapOk(b, es, chains, o, bucket, info) && forall h :: h in b ==> h < WORD
    ensures INFO_HANDLE in b && b[INFO_HANDLE] == EncodeInfo(info)
    ensures |EncodeInfo(info)| == INFO_SIZE && DecodeInfo(EncodeInfo(info)) == info
    ensures info.bucket == BUCKET_HANDLE && info.bucketSize == BUCKETS
    ensures BUCKET_HANDLE in b && b[BUCKET_HANDLE] == EncodeBuckets(bucket)
    ensures |bucket| == BUCKETS && |EncodeBuckets(bucket)| == 8 * BUCKETS
      && DecodeBuckets(EncodeBuckets(bucket)) == bucket
  {
    hide *;
    Parts(b, es, chains, o, bucket, info);
    BucketsBelow(b, es, chains, o, bucket, info);
    FewEntries(o, es);
    WordSizes();
    WordIs();
    MetaIs(b, info, bucket, |es|);
    InfoRoundTrip(info);
    BucketsRoundTrip(bucket);
  }

  lemma WordIs()
    ensures WORD == 0x1_0000_0000 && BUCKETS == 1024
  {
  }

  lemma MetaIs(b: Heap, info: MapInfo, bucket: seq<nat>, n: nat)
    requires Meta(b, info, bucket, n)
    ensures |info.verifyInfo| == 16 && |info.padding| == 4
    ensures info.bucket == BUCKET_HANDLE && info.bucketSize == BUCKETS && info.size == n && BUCKET_HANDLE == 80
    ensures INFO_HANDLE in b && b[INFO_HANDLE] == EncodeInfo(info)
    ensures BUCKET_HANDLE in b && b[BUCKET_HANDLE] == EncodeBuckets(bucket)
  {
    hide EncodeInfo, EncodeBuckets;
  }

  /** A call of add or of del, or closing and opening again, and what it makes of a finite map. */
  datatype Op = Put(key: Key, value: seq<byte>) | Remove(key: Key) | Reopen {
    function Applied(m: map<Key, seq<byte>>): map<Key, seq<byte>> {
      match this
      case Put(k, v) => m[k := v]
      case Remove(k) => m - {k}
      case Reopen => m
    }
  }

  /** What a run of them makes of a finite map. */
  function Performed(m: map<Key, seq<byte>>, ops: seq<Op>): map<Key, seq<byte>>
    decreases |ops|
  {
    if ops == [] then m
    else Performed(ops[0].Applied(m), ops[1..])
  }

  /** The room its additions may need. */
  function RoomFor(ops: seq<Op>): nat
    decreases |ops|
  {
    if ops == [] then 0
    else Needed(ops[0]) + RoomFor(ops[1..])
  }

  function Needed(op: Op): nat {
    if op.Put? then FileHashMap.AddRoom(op.key, op.value) else 0
  }

  lemma OpIs(op: Op, m: map<Key, seq<byte>>)
    ensures op.Put? ==> op.Applied(m) == m[op.key := op.value] && Needed(op) == FileHashMap.AddRoom(op.key, op.value)
    ensures op.Remove? ==> op.Applied(m) == m - {op.key} && Needed(op) == 0
    ensures op.Reopen? ==> op.Applied(m) == m && Needed(op) == 0
  {
  }

  class FileHashMap {
    const storage: FileStorage
    var bucket: array<nat>
    var info: MapInfo
    ghost var entries: Entries
    ghost var chains: seq<seq<Key>>
    ghost var owners: Owners

    ghost predicate Valid()
      reads this, storage, bucket
    {
      && storage.Valid()
      && AllWhole(storage)
      && MapOk(storage.Blocks(), entries, chains, owners, bucket[..], info)
    }

    /** The finite map from byte strings to byte strings that the file holds. */
    ghost function Map(): map<Key, seq<byte>>
      reads this
    {
      Model(entries)
    }

    /** The three blocks of an entry, as the storage holds them. */
    lemma EntryLive(k: Key)
      requires Valid() && k in entries
      ensures storage.Valid()
      ensures var e, used, b := entries[k], storage.usedBlock, storage.Blocks();
        && e.node in used && used[e.node].len == NODE_SIZE && storage.Whole(e.node)
        && e.keyBlock in used && used[e.keyBlock].len == LEN_SIZE + |k| && storage.Whole(e.keyBlock)
        && e.valueBlock in used && used[e.valueBlock].len == LEN_SIZE + |e.value| && storage.Whole(e.valueBlock)
        && e.node in b && b[e.node] == EncodeNode(e.Node())
        && e.keyBlock in b && b[e.keyBlock] == LV(k)
        && e.valueBlock in b && b[e.valueBlock] == LV(e.value)
        && e.node != 0 && e.keyBlock < WORD && e.valueBlock < WORD && |k| < WORD && |e.value| < WORD
    {
      Parts(storage.Blocks(), entries, chains, owners, bucket[..], info);
      EntryIn(storage.Blocks(), owners, entries, k);
      hide MapOk, LV, EncodeNode;
      storage.LiveBlock(entries[k].node);
      storage.LiveBlock(entries[k].keyBlock);
      storage.LiveBlock(entries[k].valueBlock);
    }

    /** Reading one node of a chain. */
    method ReadNode(handle: nat, ghost k: Key) returns (n: DataNode)
      requires Valid() && k in entries && entries[k].node == handle && entries[k].next < WORD
      ensures n == entries[k].Node()
    {
      hide *;
      EntryLive(k);
      var ret, buf := storage.Read(handle, 0, NODE_SIZE);
      NodeDecodes(entries[k]);
      assert buf == EncodeNode(entries[k].Node());
      n := DecodeNode(buf);
    }

    /** Comparing a key of the chain with the one looked for; keyDataSize is the size of the buffer grown so far. */
    method MatchKey(n: DataNode, keyDataSize: nat, key: Key, ghost k: Key) returns (same: bool, size: nat)
      requires Valid() && k in entries && entries[k].keyBlock == n.key
      ensures same == (k == key)
    {
      hide *;
      EntryLive(k);
      size := keyDataSize;
      var tmpLen := storage.Size(n.key);
      if tmpLen > size { size := tmpLen; }
      var ret, keyData := storage.Read(n.key, 0, size);
      assert keyData == LV(k);
      KeyCompared(k, key);
      same := FromLE(keyData[..LEN_SIZE]) == |key| && keyData[LEN_SIZE..] == key;
    }

    /** The file of s already holds a map: the map info is there and carries the check info. */
    static ghost predicate IsMapFile(s: FileStorage)
      reads s
    {
      INFO_HANDLE in s.Blocks() && |s.Blocks()[INFO_HANDLE]| >= |MAP_CHECK|
        && s.Blocks()[INFO_HANDLE][..|MAP_CHECK|] == MAP_CHECK
    }

    static ghost predicate Openable(s: FileStorage, es: Entries, cs: seq<seq<Key>>, os: Owners, bs: seq<nat>,
        m: MapInfo)
      reads s
    {
      IsMapFile(s) ==> AllWhole(s) && MapOk(s.Blocks(), es, cs, os, bs, m)
    }

    /** Opening: LoadMap on a file that holds a map (whose ghost state is given), else CreateMap. */
    constructor (s: FileStorage, ghost es: Entries, ghost cs: seq<seq<Key>>, ghost os: Owners, ghost bs: seq<nat>,
        ghost m: MapInfo)
      requires s.Valid() && Openable(s, es, cs, os, bs, m)
      modifies s
      ensures Valid() && storage == s && fresh(bucket)
      ensures old(IsMapFile(s)) ==>
        Map() == Model(es) && info == m && bucket[..] == bs && s.file == old(s.file) && s.Idx() == old(s.Idx())
      ensures !old(IsMapFile(s)) ==> Map() == map[] && s.fileEndIndex == EMPTY_MAP_END
    {
      storage := s;
      bucket := new nat[0];
      info := MapInfo([], 0, 0, [], 0);
      new;
      hide *;
      var loaded := LoadMap(es, cs, os, bs, m);
      if !loaded { CreateMap(); }
    }

    /** The handle a walk along chain i stands at after j steps; 0 past the end. */
    ghost function Handle(i: nat, j: nat): nat
      reads this
    {
      if i < |chains| && j < |chains[i]| && chains[i][j] in entries then entries[chains[i][j]].node else 0
    }

    lemma WalkStart(key: Key)
      requires Valid()
      ensures |chains| == bucket.Length == BUCKETS
      ensures bucket[BucketOf(key)] == Handle(BucketOf(key), 0)
      ensures key in entries ==> key in chains[BucketOf(key)]
    {
      hide *;
      ValidParts();
      BucketCount();
      ChainStart(storage.Blocks(), entries, chains, owners, bucket[..], info, BucketOf(key));
      HandleIs(BucketOf(key), 0);
    }

    lemma BucketCount()
      ensures forall key :: BucketOf(key) < BUCKETS
    {
      hide BucketOf;
    }

    lemma HandleIs(i: nat, j: nat)
      requires i < |chains| && j <= |chains[i]| && (j < |chains[i]| ==> chains[i][j] in entries)
      ensures Handle(i, j) == HandleAt(entries, chains[i], j)
    {
    }

    lemma WalkStep(i: nat, j: nat)
      requires Valid() && |chains| == BUCKETS && i < BUCKETS && Handle(i, j) != 0
      ensures j < |chains[i]|
      ensures var k := chains[i][j];
        && k in entries && BucketOf(k) == i && entries[k].node == Handle(i, j)
        && entries[k].next == Handle(i, j + 1) < WORD
    {
      ChainStart(storage.Blocks(), entries, chains, owners, bucket[..], info, i);
      EntryAt(storage.Blocks(), entries, chains, owners, bucket[..], info, i, j);
      hide MapOk, AllWhole, BucketOf, StoredAt;
      if j + 1 < |chains[i]| { EntryLive(chains[i][j + 1]); }
      NodeBound(i, j + 1);
    }

    lemma NodeBound(i: nat, j: nat)
      requires Valid()
      ensures Handle(i, j) < WORD
    {
      hide MapOk, AllWhole;
      if i < |chains| && j < |chains[i]| && chains[i][j] in entries {
        EntryLive(chains[i][j]);
        storage.LiveBlock(entries[chains[i][j]].node);
      }
    }

    lemma WalkEnd(i: nat, j: nat)
      requires Valid() && |chains| == BUCKETS && i < BUCKETS && j <= |chains[i]| && Handle(i, j) == 0
      ensures j == |chains[i]|
    {
      if j < |chains[i]| {
        ChainStart(storage.Blocks(), entries, chains, owners, bucket[..], info, i);
        EntryAt(storage.Blocks(), entries, chains, owners, bucket[..], info, i, j);
      }
      hide MapOk, AllWhole, BucketOf, StoredAt;
    }

    /** APHash: the hash of the key, reduced to a bucket index. */
    method ApHash(key: Key) returns (index: nat)
      ensures index == BucketOf(key)
    {
      var hash: bv32 := 0;
      var i := 0;
      while i < |key|
        invariant i <= |key| && hash == HashOf(key[..i])
      {
        assert key[..i + 1][..i] == key[..i];
        hash := HashStep(hash, i, key[i]);
        i := i + 1;
      }
      assert key[..i] == key;
      index := hash as nat % BUCKETS;
    }

    /** find: the first sizeOfValue bytes of the value last added for key, or nothing. */
    method Find(key: Key, sizeOfValue: nat) returns (n: nat, value: seq<byte>)
      requires Valid()
      ensures n == |value|
      ensures key !in Map() ==> value == []
      ensures key in Map() ==>
        var v := Map()[key];
        value == v[..if |v| < sizeOfValue then |v| else sizeOfValue]
    {
      hide *;
      var index := ApHash(key);
      WalkStart(key);
      MapDomain();
      var nodeHandle := bucket[index];
      var keyDataSize := 0;
      ghost var j := 0;
      while nodeHandle != 0
        invariant |chains| == BUCKETS && index == BucketOf(key) && j <= |chains[index]|
        invariant nodeHandle == Handle(index, j)
        invariant key !in chains[index][..j]
        decreases |chains[index]| - j
      {
        WalkStep(index, j);
        ghost var k := chains[index][j];
        var dataNode := ReadNode(nodeHandle, k);
        NodeFields(entries[k]);
        var same;
        same, keyDataSize := MatchKey(dataNode, keyDataSize, key, k);
        if same {
          n, value := ReadValue(dataNode, sizeOfValue, k);
          return;
        }
        nodeHandle := dataNode.nextBlock;
        j := j + 1;
      }
      WalkEnd(index, j);
      assert chains[index][..j] == chains[index];
      n, value := 0, [];
    }

    lemma MapDomain()
      ensures forall k :: k in Map() <==> k in entries
      ensures forall k :: k in entries ==> Map()[k] == entries[k].value
    {
    }

    method ReadValue(n: DataNode, sizeOfValue: nat, ghost k: Key) returns (len: nat, value: seq<byte>)
      requires Valid() && k in entries && entries[k].valueBlock == n.value
      ensures len == |value|
      ensures var v := entries[k].value; value == v[..if |v| < sizeOfValue then |v| else sizeOfValue]
    {
      hide *;
      EntryLive(k);
      LVParts(entries[k].value);
      MapSizes();
      var ret, lenData := storage.Read(n.value, 0, LEN_SIZE);
      assert lenData == LV(entries[k].value)[..LEN_SIZE];
      len := FromLE(lenData);
      len := if len < sizeOfValue then len else sizeOfValue;
      ret, value := storage.Read(n.value, LEN_SIZE, len);
    }

    method LoadMap(ghost es: Entries, ghost cs: seq<seq<Key>>, ghost os: Owners, ghost bs: seq<nat>, ghost m: MapInfo)
      returns (loaded: bool)
      requires storage.Valid() && Openable(storage, es, cs, os, bs, m)
      modifies this
      ensures loaded == IsMapFile(storage)
      ensures loaded ==> Valid() && fresh(bucket) && Map() == Model(es) && info == m && bucket[..] == bs
      ensures !loaded ==> |info.verifyInfo| == 16 && |info.padding| == 4
    {
      hide *;
      InfoInside(storage);
      SameKeys(storage);
      MapSizes();
      var raw := Zeros(INFO_SIZE);
      var ret, buf := storage.Read(INFO_HANDLE, 0, INFO_SIZE);
      InfoLoaded(storage, es, cs, os, bs, m);
      if ret > 0 { raw := buf + raw[|buf|..]; }
      CheckRead(storage, ret, buf, raw);
      DecodedParts(raw);
      info := DecodeInfo(raw);
      loaded := ret > 0 && info.verifyInfo[..|MAP_CHECK|] == MAP_CHECK;
      if loaded {
        assert buf + Zeros(INFO_SIZE)[|buf|..] == buf;
        assert raw == EncodeInfo(m);
        ret, buf := storage.Read(info.bucket, 0, 8 * info.bucketSize);
        assert buf == EncodeBuckets(bs);
        var handles := DecodeBuckets(buf);
        bucket := new nat[BUCKETS](i requires 0 <= i < |handles| => handles[i]);
        entries, chains, owners := es, cs, os;
        assert bucket[..] == bs;
        ValidIf();
        MapIs();
      }
    }

    static lemma InfoInside(s: FileStorage)
      requires s.Valid()
      ensures INFO_HANDLE in s.usedBlock ==>
        s.usedBlock[INFO_HANDLE].len == |s.Blocks()[INFO_HANDLE]| && INFO_HANDLE in s.Blocks()
      ensures IsMapFile(s) ==> INFO_HANDLE in s.usedBlock
    {
      if INFO_HANDLE in s.usedBlock { s.LiveBlock(INFO_HANDLE); }
    }

    /** What LoadMap reads is what the map keeps in memory. */
    static lemma InfoLoaded(s: FileStorage, es: Entries, cs: seq<seq<Key>>, os: Owners, bs: seq<nat>, m: MapInfo)
      requires s.Valid() && Openable(s, es, cs, os, bs, m)
      ensures IsMapFile(s) ==>
        && AllWhole(s) && MapOk(s.Blocks(), es, cs, os, bs, m)
        && INFO_HANDLE in s.usedBlock && s.usedBlock[INFO_HANDLE].len == INFO_SIZE && s.Whole(INFO_HANDLE)
        && INFO_HANDLE in s.Blocks() && s.Blocks()[INFO_HANDLE] == EncodeInfo(m)
        && |EncodeInfo(m)| == INFO_SIZE && DecodeInfo(EncodeInfo(m)) == m
        && m.bucket == BUCKET_HANDLE && m.bucketSize == BUCKETS
        && BUCKET_HANDLE in s.usedBlock && s.usedBlock[BUCKET_HANDLE].len == 8 * BUCKETS && s.Whole(BUCKET_HANDLE)
        && BUCKET_HANDLE in s.Blocks() && s.Blocks()[BUCKET_HANDLE] == EncodeBuckets(bs)
        && |EncodeBuckets(bs)| == 8 * BUCKETS && DecodeBuckets(EncodeBuckets(bs)) == bs && |bs| == BUCKETS
    {
      if IsMapFile(s) {
        hide MapOk, AllWhole, EncodeInfo, EncodeBuckets, DecodeInfo, DecodeBuckets;
        HandlesBelow(s);
        MetaReadable(s.Blocks(), es, cs, os, bs, m);
        s.LiveBlock(INFO_HANDLE);
        s.LiveBlock(BUCKET_HANDLE);
        WholeOf(s, INFO_HANDLE);
        WholeOf(s, BUCKET_HANDLE);
      }
    }

    static lemma HandlesBelow(s: FileStorage)
      requires s.Valid()
      ensures s.Blocks().Keys == s.usedBlock.Keys
      ensures forall h :: h in s.Blocks() ==> h < WORD
    {
      hide *;
      SameKeys(s);
      WordIs();
      forall h | h in s.Blocks() ensures h < WORD { s.LiveBlock(h); MapSizes(); }
    }

    static lemma SameKeys(s: FileStorage)
      ensures s.Blocks().Keys == s.usedBlock.Keys
    {
    }

    static lemma WholeOf(s: FileStorage, h: nat)
      requires AllWhole(s) && h in s.usedBlock
      ensures s.Whole(h)
    {
    }

    /** The check info contains no zero byte, so a short read cannot look like it. */
    static lemma CheckRead(s: FileStorage, ret: int, buf: seq<byte>, raw: seq<byte>)
      requires INFO_HANDLE !in s.Blocks() ==> ret < 0
      requires INFO_HANDLE in s.Blocks() ==>
        ret == |buf| <= INFO_SIZE && |buf| <= |s.Blocks()[INFO_HANDLE]| && buf == s.Blocks()[INFO_HANDLE][0..|buf|]
      requires IsMapFile(s) ==> |buf| == INFO_SIZE
      requires ret > 0 ==> raw == buf + Zeros(INFO_SIZE)[|buf|..]
      ensures ret > 0 && |raw| == INFO_SIZE && raw[..|MAP_CHECK|] == MAP_CHECK <==> IsMapFile(s)
    {
      if ret > 0 && |buf| < |MAP_CHECK| {
        assert raw[..|MAP_CHECK|][|MAP_CHECK| - 1] == 0;
      }
      if ret > 0 && |buf| >= |MAP_CHECK| {
        assert raw[..|MAP_CHECK|] == buf[..|MAP_CHECK|] == s.Blocks()[INFO_HANDLE][..|MAP_CHECK|];
      }
      hide Zeros;
    }

    static lemma DecodedParts(raw: seq<byte>)
      requires |raw| == INFO_SIZE
      ensures |DecodeInfo(raw).verifyInfo| == 16 && |DecodeInfo(raw).padding| == 4
        && DecodeInfo(raw).verifyInfo == raw[..16]
      ensures |MAP_CHECK| <= 16 && DecodeInfo(raw).verifyInfo[..|MAP_CHECK|] == raw[..|MAP_CHECK|]
    {
    }

    lemma ValidIf()
      requires storage.Valid() && AllWhole(storage)
      requires MapOk(storage.Blocks(), entries, chains, owners, bucket[..], info)
      ensures Valid()
    {
      hide AllWhole, MapOk;
    }

    lemma MapIs()
      ensures Map() == Model(entries)
    {
      hide Model;
    }

    method CreateMap()
      requires storage.Valid() && |info.verifyInfo| == 16 && |info.padding| == 4
      modifies this, storage
      ensures Valid() && Map() == map[] && storage.fileEndIndex == EMPTY_MAP_END && fresh(bucket)
    {
      hide *;
      MapSizes();
      AllocateMeta();
      info := MapInfo(MAP_CHECK + info.verifyInfo[|MAP_CHECK|..], BUCKET_HANDLE, BUCKETS, info.padding, 0);
      storage.Fset(info.bucket, 0);
      storage.LiveBlock(INFO_HANDLE);
      PutBlock(INFO_HANDLE, EncodeInfo(info));
      bucket := new nat[BUCKETS](_ => 0);
      assert bucket[..] == seq<nat>(BUCKETS, _ => 0);
      entries, chains, owners := map[], seq<seq<Key>>(BUCKETS, _ => []),
        map[INFO_HANDLE := InfoBlock, BUCKET_HANDLE := BucketBlock];
      BothWhole(storage);
      ZerosAre(8 * BUCKETS);
      EmptyMapOk(storage.Blocks(), info);
      ValidIf();
      MapIs();
      EmptyModel();
    }

    /** The map's own two blocks, allocated in an empty file: they get the first two handles. */
    method AllocateMeta()
      requires storage.Valid()
      modifies storage
      ensures storage.Valid() && storage.fileEndIndex == EMPTY_MAP_END
      ensures storage.usedBlock.Keys == storage.Blocks().Keys == {INFO_HANDLE, BUCKET_HANDLE}
      ensures storage.usedBlock[INFO_HANDLE].len == INFO_SIZE && storage.usedBlock[BUCKET_HANDLE].len == 8 * BUCKETS
    {
      hide *;
      MapSizes();
      storage.ClearFile();
      AfterClear(storage);
      FreshAllocate(BlockIndex.EMPTY, INFO_SIZE);
      var h := storage.Allocate(INFO_SIZE);
      IdxParts(storage);
      assert h == INFO_HANDLE by { assert h in storage.usedBlock; }
      FreshAllocate(storage.Idx(), 8 * BUCKETS);
      ghost var used := storage.usedBlock;
      var g := storage.Allocate(8 * BUCKETS);
      IdxParts(storage);
      assert g == BUCKET_HANDLE by { assert g in storage.usedBlock && g !in used; }
      SameKeys(storage);
    }

    static lemma BothWhole(s: FileStorage)
      requires s.usedBlock.Keys == {INFO_HANDLE, BUCKET_HANDLE} && s.Whole(INFO_HANDLE) && s.Whole(BUCKET_HANDLE)
      ensures AllWhole(s)
    {
    }

    static lemma ZerosAre(n: nat)
      ensures Zeros(n) == seq<byte>(n, _ => 0)
    {
    }

    static lemma EmptyModel()
      ensures Model(map[]) == map[]
    {
    }

    static lemma AfterClear(s: FileStorage)
      requires s.Idx() == BlockIndex.EMPTY
      ensures s.fileEndIndex == BlockIndex.FIRST_BLOCK && s.usedBlock == map[] && s.freeBlockBeginIndex == map[]
      ensures BlockIndex.EMPTY == BlockIndex.Index(map[], map[], map[], BlockIndex.FIRST_BLOCK)
    {
    }

    static lemma IdxParts(s: FileStorage)
      ensures s.Idx() == BlockIndex.Index(s.usedBlock, s.freeBlockBeginIndex, s.freeBlockEndIndex, s.fileEndIndex)
    {
    }

    static lemma MapSizes()
      ensures INFO_SIZE == 40 && BUCKETS == 1024 && INFO_HANDLE == 24 && BUCKET_HANDLE == 80 && NODE_SIZE == 24
        && LEN_SIZE == 4
      ensures BlockIndex.HEADER == 16 && BlockIndex.FIRST_BLOCK == 24 && WORD == 0x1_0000_0000
      ensures |MAP_CHECK| == 11 && EMPTY_MAP_END == 8288
    {
    }

    // ---------- add ----------

    /** Allocating a block of storage mode LV and writing its two parts. */
    method StoreLV(data: seq<byte>) returns (h: nat)
      requires storage.Valid() && storage.fileEndIndex + BlockIndex.HEADER + LEN_SIZE + |data| < WORD
      modifies storage
      ensures storage.Valid() && h !in old(storage.Blocks()) && h != 0
      ensures storage.Blocks() == old(storage.Blocks())[h := LV(data)]
      ensures storage.Whole(h)
      ensures forall b :: old(storage.Whole(b)) ==> storage.Whole(b)
      ensures storage.fileEndIndex <= old(storage.fileEndIndex) + BlockIndex.HEADER + LEN_SIZE + |data|
    {
      hide *;
      MapSizes();
      SameKeys(storage);
      h := storage.Allocate(LEN_SIZE + |data|);
      ghost var d := storage.Blocks()[h];
      storage.LiveBlock(h);
      LVPatched(d, data);
      PutAt(h, 0, LE(LEN_SIZE, |data|));
      PutAt(h, LEN_SIZE, data);
    }

    /** Writing inside a block. */
    method PutAt(h: nat, pos: nat, d: seq<byte>)
      requires storage.Valid() && h in storage.Blocks() && pos + |d| <= |storage.Blocks()[h]|
      modifies storage`file
      ensures storage.Valid()
      ensures d == [] ==> storage.Blocks() == old(storage.Blocks())
      ensures d != [] ==> storage.Blocks() == old(storage.Blocks())[h := Patch(old(storage.Blocks())[h], pos, d)]
      ensures d != [] && pos + |d| == |old(storage.Blocks())[h]| ==> storage.Whole(h)
      ensures forall b :: old(storage.Whole(b)) ==> storage.Whole(b)
    {
      hide *;
      SameKeys(storage);
      storage.LiveBlock(h);
      var ret := storage.Write(h, pos, d);
    }

    static lemma LVPatched(d: seq<byte>, data: seq<byte>)
      requires |d| == LEN_SIZE + |data|
      ensures LE(LEN_SIZE, |data|) != []
      ensures LEN_SIZE + |data| <= |Patch(d, 0, LE(LEN_SIZE, |data|))|
      ensures data != [] ==> Patch(Patch(d, 0, LE(LEN_SIZE, |data|)), LEN_SIZE, data) == LV(data)
      ensures data == [] ==> Patch(d, 0, LE(LEN_SIZE, |data|)) == LV(data)
    {
      hide LE;
    }

    /** add on a key that is there: the value block is freed and a new one allocated, and the node points to it. */
    method Overwrite(nodeHandle: nat, n: DataNode, value: seq<byte>, ghost k: Key)
      requires Valid() && k in entries && entries[k].node == nodeHandle && entries[k].Node() == n
      requires storage.fileEndIndex + BlockIndex.HEADER + LEN_SIZE + |value| < WORD
      modifies this, storage
      ensures Valid() && bucket == old(bucket)
      ensures Map() == old(Map())[k := value]
      ensures info == old(info)
      ensures storage.fileEndIndex <= old(storage.fileEndIndex) + BlockIndex.HEADER + LEN_SIZE + |value|
    {
      hide *;
      ghost var b, e := storage.Blocks(), entries[k];
      ValidParts();
      EntryLive(k);
      NodeFields(e);
      EachWhole();
      EntryBlocks(owners, entries, k);
      var ok := storage.Free(n.value);
      var v := StoreLV(value);
      SameKeys(storage);
      storage.LiveBlock(nodeHandle);
      MapSizes();
      PutBlock(nodeHandle, EncodeNode(n.(value := v)));
      OverwriteOk(b, entries, chains, owners, bucket[..], info, k, v, value);
      OverwriteHeapIs(b, e, v, value);
      OverwriteMap(entries, k, v, value);
      MapIs();
      entries, owners := Overwritten(entries, k, v, value), OverwriteOwners(owners, e, k, v);
      MapIs();
      assert storage.Blocks() == OverwriteHeap(b, e, v, value);
      assert storage.Whole(v) && storage.Whole(nodeHandle);
      WholeIf(storage);
      ValidIf();
    }

    static lemma OverwriteHeapIs(b: Heap, e: Entry, vb: nat, value: seq<byte>)
      ensures OverwriteHeap(b, e, vb, value)
              == (b - {e.valueBlock})[vb := LV(value)][e.node := EncodeNode(DataNode(e.keyBlock, vb, e.next))]
      ensures e.Node() == DataNode(e.keyBlock, e.valueBlock, e.next)
    {
      hide LV, EncodeNode;
    }

    static lemma OverwriteMap(es: Entries, k: Key, vb: nat, value: seq<byte>)
      requires k in es
      ensures Model(Overwritten(es, k, vb, value)) == Model(es)[k := value]
    {
    }

    static lemma WholeIf(s: FileStorage)
      requires forall h :: h in s.Blocks() ==> s.Whole(h)
      ensures AllWhole(s)
    {
      SameKeys(s);
    }

    lemma EachWhole()
      requires AllWhole(storage)
      ensures forall h :: h in storage.Blocks() ==> storage.Whole(h)
    {
      SameKeys(storage);
    }

    lemma ValidParts()
      requires Valid()
      ensures storage.Valid() && AllWhole(storage)
      ensures MapOk(storage.Blocks(), entries, chains, owners, bucket[..], info)
      ensures Owned(owners, entries) && owners.Keys == storage.Blocks().Keys == storage.usedBlock.Keys
    {
      Parts(storage.Blocks(), entries, chains, owners, bucket[..], info);
      SameKeys(storage);
      hide MapOk, AllWhole;
    }

    /** The three blocks of a new entry: node, key, value, then the node is written. */
    method StoreEntry(key: Key, value: seq<byte>) returns (handle: nat, ghost e: Entry, ghost blank: seq<byte>)
      requires storage.Valid() && storage.fileEndIndex + AddRoom(key, value) < WORD
      modifies storage
      ensures storage.Valid()
      ensures FreshEntry(old(storage.Blocks()), e) && e.node == handle && e.value == value
      ensures storage.Blocks() == EntryHeap(old(storage.Blocks()), key, e, blank)
      ensures storage.Whole(e.node) && storage.Whole(e.keyBlock) && storage.Whole(e.valueBlock)
      ensures forall b :: old(storage.Whole(b)) ==> storage.Whole(b)
      ensures storage.fileEndIndex <= old(storage.fileEndIndex) + AddRoom(key, value)
    {
      hide *;
      MapSizes();
      AddRoomIs(key, value);
      ghost var b := storage.Blocks();
      SameKeys(storage);
      handle := storage.Allocate(NODE_SIZE);
      storage.LiveBlock(handle);
      blank := storage.Blocks()[handle];
      var k := StoreLV(key);
      var v := StoreLV(value);
      e := Entry(handle, k, v, 0, value);
      EntryHeapIs(b, key, e, blank);
      SameKeys(storage);
      storage.LiveBlock(handle);
      PutBlock(handle, EncodeNode(DataNode(k, v, 0)));
    }

    /** File growth that add may need. */
    static function AddRoom(key: Key, value: seq<byte>): nat {
      3 * BlockIndex.HEADER + NODE_SIZE + (LEN_SIZE + |key|) + (LEN_SIZE + |value|)
    }

    static lemma AddRoomIs(key: Key, value: seq<byte>)
      ensures AddRoom(key, value) == 3 * BlockIndex.HEADER + NODE_SIZE + (LEN_SIZE + |key|) + (LEN_SIZE + |value|)
    {
    }

    static lemma EntryHeapIs(b: Heap, k: Key, e: Entry, blank: seq<byte>)
      ensures EntryHeap(b, k, e, blank)
              == b[e.node := blank][e.keyBlock := LV(k)][e.valueBlock := LV(e.value)]
                  [e.node := EncodeNode(DataNode(e.keyBlock, e.valueBlock, e.next))]
      ensures FreshEntry(b, e) ==
        (e.next == 0 && e.node !in b && e.keyBlock !in b && e.valueBlock !in b
         && e.node != e.keyBlock && e.node != e.valueBlock && e.keyBlock != e.valueBlock
         && e.node != 0 && e.keyBlock != 0 && e.valueBlock != 0)
    {
      hide LV, EncodeNode;
    }

    static lemma EntryKeys(b: Heap, k: Key, e: Entry, blank: seq<byte>)
      ensures forall h :: h in EntryHeap(b, k, e, blank) ==>
        h in b || h == e.node || h == e.keyBlock || h == e.valueBlock
    {
      hide LV, EncodeNode;
    }

    /** Writing a whole block. */
    method PutBlock(h: nat, d: seq<byte>)
      requires storage.Valid() && h in storage.Blocks() && |d| == |storage.Blocks()[h]| > 0
      modifies storage`file
      ensures storage.Valid()
      ensures storage.Blocks() == old(storage.Blocks())[h := d]
      ensures storage.Whole(h)
      ensures forall b :: old(storage.Whole(b)) ==> storage.Whole(b)
    {
      hide *;
      PatchAll(storage.Blocks()[h], d);
      PutAt(h, 0, d);
    }

    /** The map's own blocks while an entry is added or taken out: as MapOk has them. */
    lemma OwnBlocks()
      requires Valid()
      ensures info.bucket == BUCKET_HANDLE && info.size == |entries| && bucket.Length == |chains| == BUCKETS
      ensures INFO_HANDLE in storage.Blocks() && BUCKET_HANDLE in storage.Blocks() && INFO_HANDLE != BUCKET_HANDLE
      ensures |storage.Blocks()[BUCKET_HANDLE]| == 8 * BUCKETS > 0
      ensures forall n :: |storage.Blocks()[INFO_HANDLE]| == |EncodeInfo(info.(size := n))| > 0
    {
      Parts(storage.Blocks(), entries, chains, owners, bucket[..], info);
      MetaIs(storage.Blocks(), info, bucket[..], |entries|);
      hide *;
      MapSizes();
    }

    lemma BucketEmpty(key: Key)
      requires Valid() && |chains| == BUCKETS && Handle(BucketOf(key), 0) == 0
      ensures IsEmpty(chains, key)
    {
      WalkEnd(BucketOf(key), 0);
      hide Valid, BucketOf;
    }

    static lemma HeadedIs(bs: seq<nat>, i: nat, node: nat)
      requires i < |bs|
      ensures Headed(bs, i, node) == bs[i := node]
    {
    }

    /** Rewriting one bucket, in memory and in the file. */
    method SetHead(index: nat, node: nat)
      requires storage.Valid() && index < bucket.Length && info.bucket in storage.Blocks()
      requires |storage.Blocks()[info.bucket]| == 8 * bucket.Length
      modifies storage, bucket
      ensures storage.Valid() && bucket[..] == Headed(old(bucket[..]), index, node)
      ensures storage.Blocks() == old(storage.Blocks())[info.bucket := EncodeBuckets(bucket[..])]
      ensures storage.Whole(info.bucket)
      ensures forall b :: old(storage.Whole(b)) ==> storage.Whole(b)
      ensures storage.fileEndIndex == old(storage.fileEndIndex)
    {
      hide *;
      HeadedIs(bucket[..], index, node);
      bucket[index] := node;
      assert bucket[..] == Headed(old(bucket[..]), index, node);
      PutBlock(info.bucket, EncodeBuckets(bucket[..]));
    }

    /** add on a new key whose bucket is empty: the new node heads the bucket. */
    method AddFirst(index: nat, key: Key, value: seq<byte>)
      requires Valid() && key !in entries && index == BucketOf(key) && Handle(index, 0) == 0
      requires storage.fileEndIndex + AddRoom(key, value) < WORD
      modifies this, storage, bucket
      ensures Valid() && bucket == old(bucket)
      ensures Map() == old(Map())[key := value]
      ensures storage.fileEndIndex <= old(storage.fileEndIndex) + AddRoom(key, value)
    {
      hide *;
      ghost var b, bs, m := storage.Blocks(), bucket[..], info;
      ValidParts();
      EachWhole();
      OwnBlocks();
      BucketEmpty(key);
      MapIs();
      var handle;
      ghost var e, blank;
      handle, e, blank := StoreEntry(key, value);
      EntryShape(b, owners, key, e, blank);
      SetHead(index, handle);
      info := info.(size := info.size + 1);
      PutBlock(INFO_HANDLE, EncodeInfo(info));
      InsertFirstOk(b, entries, chains, owners, bs, m, key, e, blank);
      InsertFirstShape(b, key, e, blank, bs, bucket[..], info);
      InsertMap(entries, key, e);
      entries, chains, owners := entries[key := e], Grown(chains, index, key), EntryOwners(owners, key, e);
      MapIs();
      EntryKeys(b, key, e, blank);
      WholeIf(storage);
      ValidIf();
    }

    static lemma InsertMap(es: Entries, k: Key, e: Entry)
      ensures Model(es[k := e]) == Model(es)[k := e.value]
      ensures forall l, n {:trigger Relinked(es[k := e], l, n)} ::
        Model(Relinked(es[k := e], l, n)) == Model(es)[k := e.value]
    {
    }

    /** add on a new key after the last one of its chain: the last node is rewritten to point to the new one. */
    method AddLast(nodeHandle: nat, n: DataNode, key: Key, value: seq<byte>, ghost last: Key)
      requires Valid() && key !in entries && IsLast(chains, key, last)
      requires last in entries && entries[last].node == nodeHandle && entries[last].Node() == n
      requires storage.fileEndIndex + AddRoom(key, value) < WORD
      modifies this, storage
      ensures Valid() && bucket == old(bucket)
      ensures Map() == old(Map())[key := value]
      ensures storage.fileEndIndex <= old(storage.fileEndIndex) + AddRoom(key, value)
    {
      hide *;
      ghost var b, m := storage.Blocks(), info;
      ValidParts();
      EachWhole();
      OwnBlocks();
      EntryLive(last);
      EntryBlocks(owners, entries, last);
      MapIs();
      var handle;
      ghost var e, blank;
      handle, e, blank := StoreEntry(key, value);
      EntryShape(b, owners, key, e, blank);
      LinkHeapIs(EntryHeap(b, key, e, blank), entries, last, handle);
      NodeSize(n.(nextBlock := handle));
      PutBlock(nodeHandle, EncodeNode(n.(nextBlock := handle)));
      info := info.(size := info.size + 1);
      PutBlock(INFO_HANDLE, EncodeInfo(info));
      InsertLastOk(b, entries, chains, owners, bucket[..], m, key, e, blank, last);
      InsertMap(entries, key, e);
      entries, chains, owners := Relinked(entries[key := e], last, e.node), Grown(chains, BucketOf(key), key),
        EntryOwners(owners, key, e);
      MapIs();
      EntryKeys(b, key, e, blank);
      WholeIf(storage);
      ValidIf();
    }

    static lemma NodeSize(n: DataNode)
      ensures |EncodeNode(n)| == NODE_SIZE > 0
    {
    }

    static lemma LinkHeapIs(b: Heap, es: Entries, last: Key, next: nat)
      requires last in es
      ensures LinkHeap(b, es, last, next) == b[es[last].node := EncodeNode(es[last].Node().(nextBlock := next))]
    {
      hide EncodeNode;
    }

    /** add: the value of key becomes value, whether or not the key was there. */
    method Add(key: Key, value: seq<byte>) returns (ok: bool)
      requires Valid() && storage.fileEndIndex + AddRoom(key, value) < WORD
      modifies this, storage, bucket
      ensures Valid() && ok && bucket == old(bucket)
      ensures Map() == old(Map())[key := value]
      ensures storage.fileEndIndex <= old(storage.fileEndIndex) + AddRoom(key, value)
    {
      hide *;
      AddRoomIs(key, value);
      MapSizes();
      var index := ApHash(key);
      WalkStart(key);
      var nodeHandle := bucket[index];
      var dataNode := DataNode(0, 0, 0);
      var keyDataSize := 0;
      ghost var j := 0;
      ghost var last: Key := [];
      while nodeHandle != 0
        invariant Valid() && storage.fileEndIndex == old(storage.fileEndIndex) && Map() == old(Map())
        invariant bucket == old(bucket) && bucket.Length == BUCKETS && bucket[index] == Handle(index, 0)
        invariant j > 0 ==> nodeHandle != 0
        invariant |chains| == BUCKETS && index == BucketOf(key) && j <= |chains[index]|
        invariant nodeHandle == Handle(index, j)
        invariant key !in chains[index][..j]
        decreases |chains[index]| - j
      {
        WalkStep(index, j);
        last := chains[index][j];
        dataNode := ReadNode(nodeHandle, last);
        NodeFields(entries[last]);
        var same;
        same, keyDataSize := MatchKey(dataNode, keyDataSize, key, last);
        if same {
          Overwrite(nodeHandle, dataNode, value, key);
          return true;
        }
        j := j + 1;
        if dataNode.nextBlock != 0 {
          nodeHandle := dataNode.nextBlock;
        } else {
          break;
        }
      }
      WalkEnd(index, j);
      assert chains[index][..j] == chains[index];
      WalkStart(key);
      if bucket[index] == 0 {
        AddFirst(index, key, value);
      } else {
        LastIs(chains, key, last);
        AddLast(nodeHandle, dataNode, key, value, last);
      }
      ok := true;
    }

    static lemma LastIs(cs: seq<seq<Key>>, key: Key, last: Key)
      requires |cs| == BUCKETS && cs[BucketOf(key)] != [] && cs[BucketOf(key)][|cs[BucketOf(key)]| - 1] == last
      ensures IsLast(cs, key, last)
    {
      hide BucketOf;
    }

    // ---------- del ----------

    method FreeEntry(nodeHandle: nat, n: DataNode, ghost e: Entry)
      requires storage.Valid() && e.node == nodeHandle && e.Node() == n
      modifies storage
      ensures storage.Valid()
      ensures storage.Blocks() == Freed(old(storage.Blocks()), e)
      ensures forall b :: b !in {e.node, e.keyBlock, e.valueBlock} && old(storage.Whole(b)) ==> storage.Whole(b)
      ensures storage.fileEndIndex <= old(storage.fileEndIndex)
    {
      NodeFields(e);
      assert Freed(storage.Blocks(), e) == ((storage.Blocks() - {e.keyBlock}) - {e.valueBlock}) - {e.node};
      hide *;
      var ok := storage.Free(n.key);
      ok := storage.Free(n.value);
      ok := storage.Free(nodeHandle);
    }

    /** del of the first key of a bucket. */
    method DelFirst(index: nat, nodeHandle: nat, n: DataNode, ghost key: Key)
      requires Valid() && key in entries && index == BucketOf(key) && At(chains, key, 0)
      requires entries[key].node == nodeHandle && entries[key].Node() == n
      modifies this, storage, bucket
      ensures Valid() && bucket == old(bucket)
      ensures Map() == old(Map()) - {key}
      ensures storage.fileEndIndex <= old(storage.fileEndIndex)
    {
      hide *;
      ghost var b, bs, m, e := storage.Blocks(), bucket[..], info, entries[key];
      ValidParts();
      EachWhole();
      OwnBlocks();
      NodeFields(e);
      FreedShape(b, owners, entries, key);
      SizeShrinks(entries, key);
      MapIs();
      FreeEntry(nodeHandle, n, e);
      SetHead(index, n.nextBlock);
      info := info.(size := info.size - 1);
      PutBlock(INFO_HANDLE, EncodeInfo(info));
      DeleteFirstOk(b, entries, chains, owners, bs, m, key);
      DeleteFirstShape(b, e, bucket[..], info);
      DeleteMap(entries, key);
      entries, chains, owners := entries - {key}, Shrunk(chains, index, 0), FreedOwners(owners, e);
      MapIs();
      WholeIf(storage);
      ValidIf();
    }

    /** del of a later key: the node before it takes over its link first. */
    method DelInner(preHandle: nat, pre: DataNode, nodeHandle: nat, n: DataNode, ghost key: Key, ghost prev: Key,
        ghost j: nat)
      requires Valid() && key in entries && prev in entries && prev != key
      requires j > 0 && At(chains, key, j) && At(chains, prev, j - 1) && BucketOf(prev) == BucketOf(key)
      requires entries[key].node == nodeHandle && entries[key].Node() == n
      requires entries[prev].node == preHandle && entries[prev].Node() == pre
      modifies this, storage
      ensures Valid() && bucket == old(bucket)
      ensures Map() == old(Map()) - {key}
      ensures storage.fileEndIndex <= old(storage.fileEndIndex)
    {
      hide *;
      ghost var b, m, e := storage.Blocks(), info, entries[key];
      ValidParts();
      EachWhole();
      OwnBlocks();
      NodeFields(e);
      EntryLive(prev);
      LinkHeapIs(b, entries, prev, n.nextBlock);
      NodeSize(pre.(nextBlock := n.nextBlock));
      LinkedFreed(b, owners, entries, prev, key, n.nextBlock);
      SizeShrinks(entries, key);
      MapIs();
      PutBlock(preHandle, EncodeNode(pre.(nextBlock := n.nextBlock)));
      FreeEntry(nodeHandle, n, e);
      info := info.(size := info.size - 1);
      PutBlock(INFO_HANDLE, EncodeInfo(info));
      DeleteInnerOk(b, entries, chains, owners, bucket[..], m, key, j, prev);
      DeleteMap(entries, key);
      RelinkedMap(entries, prev, n.nextBlock, key);
      entries, chains, owners := Relinked(entries, prev, n.nextBlock) - {key}, Shrunk(chains, BucketOf(key), j),
        FreedOwners(owners, e);
      MapIs();
      WholeIf(storage);
      ValidIf();
    }

    static lemma DeleteMap(es: Entries, k: Key)
      ensures Model(es - {k}) == Model(es) - {k}
    {
    }

    static lemma RelinkedMap(es: Entries, prev: Key, next: nat, k: Key)
      ensures Model(Relinked(es, prev, next) - {k}) == Model(es) - {k}
    {
    }

    /** Freeing key's blocks after prev's node was rewritten leaves the map's own blocks alone. */
    static lemma LinkedFreed(b: Heap, o: Owners, es: Entries, prev: Key, k: Key, next: nat)
      requires Owned(o, es) && prev in es && k in es && prev != k && b.Keys == o.Keys
      ensures var b1 := Freed(LinkHeap(b, es, prev, next), es[k]);
        && INFO_HANDLE in b1 && b1[INFO_HANDLE] == b[INFO_HANDLE]
        && (forall h :: h in b1 ==> h in b && h !in {es[k].node, es[k].keyBlock, es[k].valueBlock})
        && es[prev].node in b && INFO_HANDLE in b
    {
      EntryBlocks(o, es, prev);
      EntryBlocks(o, es, k);
      OwnedInfo(o, es);
      hide Owned, EncodeNode;
    }

    /** del: the key goes, if it was there. */
    method Del(key: Key) returns (ok: bool)
      requires Valid()
      modifies this, storage, bucket
      ensures Valid() && ok && bucket == old(bucket)
      ensures Map() == old(Map()) - {key}
      ensures storage.fileEndIndex <= old(storage.fileEndIndex)
    {
      hide *;
      var index := ApHash(key);
      WalkStart(key);
      var crtNodeHandle := bucket[index];
      var preNodeHandle := 0;
      var preDataNode := DataNode(0, 0, 0);
      var keyDataSize := 0;
      ghost var j := 0;
      while crtNodeHandle != 0
        invariant Valid() && storage.fileEndIndex == old(storage.fileEndIndex) && Map() == old(Map())
        invariant bucket == old(bucket) && |chains| == BUCKETS && index == BucketOf(key) && j <= |chains[index]|
        invariant crtNodeHandle == Handle(index, j)
        invariant key !in chains[index][..j]
        invariant key in entries ==> key in chains[index]
        invariant preNodeHandle == 0 <==> j == 0
        invariant j > 0 ==>
          var p := chains[index][j - 1];
          p in entries && BucketOf(p) == index && entries[p].node == preNodeHandle && entries[p].Node() == preDataNode
        decreases |chains[index]| - j
      {
        WalkStep(index, j);
        ghost var k := chains[index][j];
        var crtDataNode := ReadNode(crtNodeHandle, k);
        NodeFields(entries[k]);
        var same;
        same, keyDataSize := MatchKey(crtDataNode, keyDataSize, key, k);
        if same {
          IsAt(chains, key, j);
          if preNodeHandle != 0 {
            ghost var p := chains[index][j - 1];
            IsAt(chains, p, j - 1);
            assert p in chains[index][..j];
            DelInner(preNodeHandle, preDataNode, crtNodeHandle, crtDataNode, key, p, j);
          } else {
            DelFirst(index, crtNodeHandle, crtDataNode, key);
          }
          return true;
        }
        preDataNode := crtDataNode;
        preNodeHandle := crtNodeHandle;
        crtNodeHandle := crtDataNode.nextBlock;
        j := j + 1;
      }
      WalkEnd(index, j);
      assert chains[index][..j] == chains[index];
      MapDomain();
      assert key !in Map();
      assert Map() - {key} == Map();
      ok := true;
    }

    static lemma IsAt(cs: seq<seq<Key>>, k: Key, j: nat)
      requires BucketOf(k) < |cs| && j < |cs[BucketOf(k)]| && cs[BucketOf(k)][j] == k
      ensures At(cs, k, j)
    {
      hide BucketOf;
    }

    method Size() returns (n: nat)
      requires Valid()
      ensures n == |Map()|
    {
      hide *;
      OwnBlocks();
      MapSize();
      n := info.size;
    }

    lemma MapSize()
      ensures |Map()| == |entries|
    {
      assert Map().Keys == entries.Keys;
    }

    /** No storage leaks: once the map is empty again, the file ends where CreateMap left it. */
    lemma EmptyLeavesNothing()
      requires Valid() && Map() == map[]
      ensures storage.fileEndIndex == EMPTY_MAP_END
    {
      hide *;
      MapDomain();
      assert entries == map[];
      ValidParts();
      NoOwners(owners);
      OwnBlocks();
      MapSizes();
      MetaLens();
      storage.LiveBlock(INFO_HANDLE);
      storage.LiveBlock(BUCKET_HANDLE);
      TwoBlocks(storage);
    }

    /** What the memory holds is a reading of the file. */
    static lemma OpenableIf(s: FileStorage, es: Entries, cs: seq<seq<Key>>, os: Owners, bs: seq<nat>, m: MapInfo)
      requires AllWhole(s) && MapOk(s.Blocks(), es, cs, os, bs, m)
      ensures Openable(s, es, cs, os, bs, m) && IsMapFile(s)
    {
      Parts(s.Blocks(), es, cs, os, bs, m);
      EncodedMark(m);
      hide MapOk, AllWhole, EncodeInfo, EncodeBuckets;
    }

    static lemma EncodedMark(m: MapInfo)
      requires |m.verifyInfo| == 16 && |m.padding| == 4 && m.verifyInfo[..|MAP_CHECK|] == MAP_CHECK
      ensures |EncodeInfo(m)| >= |MAP_CHECK| && EncodeInfo(m)[..|MAP_CHECK|] == MAP_CHECK
    {
      assert EncodeInfo(m)[..16] == m.verifyInfo;
      assert EncodeInfo(m)[..|MAP_CHECK|] == m.verifyInfo[..|MAP_CHECK|];
    }

    /** Closing the file, opening it again and loading the map from it. */
    method Reload()
      requires Valid()
      modifies this, storage
      ensures Valid() && fresh(bucket) && Map() == old(Map())
      ensures storage.fileEndIndex == old(storage.fileEndIndex)
    {
      hide *;
      ValidParts();
      EachWhole();
      MapIs();
      ghost var es, cs, os, bs, m := entries, chains, owners, bucket[..], info;
      SameKeys(storage);
      IdxParts(storage);
      storage.Reopen();
      IdxParts(storage);
      WholeIf(storage);
      OpenableIf(storage, es, cs, os, bs, m);
      var loaded := LoadMap(es, cs, os, bs, m);
    }

    /** Any run of add, del and reopening: the map is the finite map that the run makes, and if that is empty no storage
        has leaked. */
    method Perform(ops: seq<Op>)
      requires Valid() && storage.fileEndIndex + RoomFor(ops) < WORD
      modifies this, storage, bucket
      ensures Valid() && (bucket == old(bucket) || fresh(bucket))
      ensures Map() == Performed(old(Map()), ops)
      ensures Map() == map[] ==> storage.fileEndIndex == EMPTY_MAP_END
    {
      hide *;
      ghost var whole := Performed(Map(), ops);
      assert ops[0..] == ops;
      var i := 0;
      while i < |ops|
        invariant i <= |ops| && Valid() && (bucket == old(bucket) || fresh(bucket))
        invariant Performed(Map(), ops[i..]) == whole
        invariant storage.fileEndIndex + RoomFor(ops[i..]) < WORD
      {
        NextOp(Map(), ops, i);
        OpIs(ops[i], Map());
        var ok;
        match ops[i] {
          case Put(key, value) => ok := Add(key, value);
          case Remove(key) => ok := Del(key);
          case Reopen => Reload();
        }
        i := i + 1;
      }
      NoOps(Map(), ops[i..]);
      if Map() == map[] { EmptyLeavesNothing(); }
    }

    static lemma NextOp(m: map<Key, seq<byte>>, ops: seq<Op>, i: nat)
      requires i < |ops|
      ensures Performed(m, ops[i..]) == Performed(ops[i].Applied(m), ops[i + 1..])
      ensures RoomFor(ops[i..]) == Needed(ops[i]) + RoomFor(ops[i + 1..])
    {
      assert ops[i..][1..] == ops[i + 1..];
      hide Needed, Op.Applied;
    }

    static lemma NoOps(m: map<Key, seq<byte>>, ops: seq<Op>)
      requires ops == []
      ensures Performed(m, ops) == m
    {
    }

    static lemma NoOwners(o: Owners)
      requires Owned(o, map[])
      ensures o.Keys == {INFO_HANDLE, BUCKET_HANDLE}
    {
      assert forall h :: h in o ==> OwnedBy(h, o[h], map[]);
    }

    lemma MetaLens()
      requires Valid()
      ensures INFO_HANDLE in storage.Blocks() && |storage.Blocks()[INFO_HANDLE]| == INFO_SIZE
      ensures BUCKET_HANDLE in storage.Blocks() && |storage.Blocks()[BUCKET_HANDLE]| == 8 * BUCKETS
    {
      Parts(storage.Blocks(), entries, chains, owners, bucket[..], info);
      MetaIs(storage.Blocks(), info, bucket[..], |entries|);
      hide *;
      MapSizes();
    }

    static lemma TwoBlocks(s: FileStorage)
      requires s.Valid() && s.usedBlock.Keys == {INFO_HANDLE, BUCKET_HANDLE}
      requires s.usedBlock[INFO_HANDLE].len == INFO_SIZE && s.usedBlock[BUCKET_HANDLE].len == 8 * BUCKETS
      ensures s.fileEndIndex == EMPTY_MAP_END
    {
      UsedPlace(s.Idx(), INFO_HANDLE);
      UsedPlace(s.Idx(), BUCKET_HANDLE);
      hide BlockIndex.WellFormed;
      BlockRuns.OnlyFront(s.Idx(), BUCKET_HANDLE);
    }
  }
}
