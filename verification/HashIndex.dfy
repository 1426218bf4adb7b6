/** The persistent hash map as values: what its blocks hold, which block belongs to what, and the bucket chains. */
module HashIndex {
  import opened Bytes

  const BUCKETS: nat := 1024
  const INFO_HANDLE: nat := 24   // FIRSTFILESTORAGEBLOCKHANDLE
  const INFO_SIZE: nat := 40     // sizeof(MapInfo_t)
  const BUCKET_HANDLE: nat := 80 // where the second block of a new file lies
  const NODE_SIZE: nat := 24     // sizeof(DataNode_t)
  const LEN_SIZE: nat := 4       // sizeof(Data_t)

  type Key = seq<byte>
  type Heap = map<nat, seq<byte>>

  // ---------- APHash ----------

  /** A char of the key as the int it is promoted to, then converted to unsigned int. */
  function Promoted(c: byte): bv32 {
    if c < 128 then c as bv32 else c as bv32 | 0xFFFF_FF00
  }

  function HashStep(hash: bv32, i: nat, c: byte): bv32 {
    if i % 2 == 0 then hash ^ ((hash << 7) ^ Promoted(c) ^ (hash >> 3))
    else hash ^ !((hash << 11) ^ Promoted(c) ^ (hash >> 5))
  }

  function HashOf(key: Key): bv32
    decreases |key|
  {
    if key == [] then 0 else HashStep(HashOf(key[..|key| - 1]), |key| - 1, key[|key| - 1])
  }

  function BucketOf(key: Key): (index: nat)
    ensures index < BUCKETS
  {
    HashOf(key) as nat % BUCKETS
  }

  // ---------- the blocks ----------

  datatype DataNode = DataNode(key: nat, value: nat, nextBlock: nat)

  function EncodeNode(n: DataNode): (s: seq<byte>)
    ensures |s| == NODE_SIZE
  {
    LE(8, n.key) + LE(8, n.value) + LE(8, n.nextBlock)
  }

  function DecodeNode(s: seq<byte>): DataNode
    requires |s| == NODE_SIZE
  {
    DataNode(FromLE(s[..8]), FromLE(s[8..16]), FromLE(s[16..]))
  }

  lemma NodeRoundTrip(n: DataNode)
    requires n.key < Pow256(8) && n.value < Pow256(8) && n.nextBlock < Pow256(8)
    ensures DecodeNode(EncodeNode(n)) == n
  {
    var s := EncodeNode(n);
    assert s[..8] == LE(8, n.key) && s[8..16] == LE(8, n.value) && s[16..] == LE(8, n.nextBlock);
    LERoundTrip(8, n.key);
    LERoundTrip(8, n.value);
    LERoundTrip(8, n.nextBlock);
  }

  /** Storage mode LV: a 4-byte length, then the bytes. */
  function LV(data: seq<byte>): (s: seq<byte>)
    ensures |s| == LEN_SIZE + |data|
  {
    LE(LEN_SIZE, |data|) + data
  }

  lemma LVRead(data: seq<byte>)
    requires |data| < Pow256(LEN_SIZE)
    ensures FromLE(LV(data)[..LEN_SIZE]) == |data| && LV(data)[LEN_SIZE..] == data
  {
    assert LV(data)[..LEN_SIZE] == LE(LEN_SIZE, |data|);
    LERoundTrip(LEN_SIZE, |data|);
  }

  function EncodeBuckets(b: seq<nat>): (s: seq<byte>)
    ensures |s| == 8 * |b|
    decreases |b|
  {
    if b == [] then [] else LE(8, b[0]) + EncodeBuckets(b[1..])
  }

  function DecodeBuckets(s: seq<byte>): seq<nat>
    decreases |s|
  {
    if |s| < 8 then [] else [FromLE(s[..8])] + DecodeBuckets(s[8..])
  }

  lemma {:induction false} BucketsRoundTrip(b: seq<nat>)
    requires forall i :: 0 <= i < |b| ==> b[i] < Pow256(8)
    ensures DecodeBuckets(EncodeBuckets(b)) == b
    decreases |b|
  {
    if b != [] {
      var s := EncodeBuckets(b);
      assert s[..8] == LE(8, b[0]) && s[8..] == EncodeBuckets(b[1..]);
      LERoundTrip(8, b[0]);
      BucketsRoundTrip(b[1..]);
    }
  }

  /** MapInfo_t: 16 bytes of check info, the bucket handle, the bucket count, 4 bytes of padding, the size. */
  datatype MapInfo = MapInfo(verifyInfo: seq<byte>, bucket: nat, bucketSize: nat, padding: seq<byte>, size: nat)

  function EncodeInfo(m: MapInfo): (s: seq<byte>)
    ensures |s| == |m.verifyInfo| + |m.padding| + 20
  {
    m.verifyInfo + LE(8, m.bucket) + LE(4, m.bucketSize) + m.padding + LE(8, m.size)
  }

  function DecodeInfo(s: seq<byte>): MapInfo
    requires |s| == INFO_SIZE
  {
    MapInfo(s[..16], FromLE(s[16..24]), FromLE(s[24..28]), s[28..32], FromLE(s[32..]))
  }

  lemma InfoRoundTrip(m: MapInfo)
    requires |m.verifyInfo| == 16 && |m.padding| == 4
    requires m.bucket < Pow256(8) && m.bucketSize < Pow256(4) && m.size < Pow256(8)
    ensures |EncodeInfo(m)| == INFO_SIZE && DecodeInfo(EncodeInfo(m)) == m
  {
    var s := EncodeInfo(m);
    assert s[..16] == m.verifyInfo && s[16..24] == LE(8, m.bucket) && s[24..28] == LE(4, m.bucketSize);
    assert s[28..32] == m.padding && s[32..] == LE(8, m.size);
    LERoundTrip(8, m.bucket);
    LERoundTrip(4, m.bucketSize);
    LERoundTrip(8, m.size);
  }

  /** "FileHashMap" */
  const MAP_CHECK: seq<byte> := [70, 105, 108, 101, 72, 97, 115, 104, 77, 97, 112]

  // ---------- entries and the blocks they own ----------

  /** One key's entry: its node, key and value blocks, its successor in the chain, and its value. */
  datatype Entry = Entry(node: nat, keyBlock: nat, valueBlock: nat, next: nat, value: seq<byte>) {
    function Node(): DataNode { DataNode(keyBlock, valueBlock, next) }
  }

  type Entries = map<Key, Entry>

  datatype Role = InfoBlock | BucketBlock | NodeOf(key: Key) | KeyOf(key: Key) | ValueOf(key: Key)

  type Owners = map<nat, Role>

  ghost predicate Owns(o: Owners, k: Key, e: Entry) {
    && e.node in o && o[e.node] == NodeOf(k)
    && e.keyBlock in o && o[e.keyBlock] == KeyOf(k)
    && e.valueBlock in o && o[e.valueBlock] == ValueOf(k)
  }

  ghost predicate OwnedBy(h: nat, r: Role, es: Entries) {
    match r
    case InfoBlock => h == INFO_HANDLE
    case BucketBlock => h == BUCKET_HANDLE
    case NodeOf(k) => k in es && es[k].node == h
    case KeyOf(k) => k in es && es[k].keyBlock == h
    case ValueOf(k) => k in es && es[k].valueBlock == h
  }

  /** Every live block has one role: map info, buckets, or one of the three blocks of one entry. */
  ghost predicate Owned(o: Owners, es: Entries) {
    && 0 !in o
    && INFO_HANDLE in o && o[INFO_HANDLE] == InfoBlock
    && BUCKET_HANDLE in o && o[BUCKET_HANDLE] == BucketBlock
    && (forall k :: k in es ==> Owns(o, k, es[k]))
    && (forall h :: h in o ==> OwnedBy(h, o[h], es))
  }

  ghost predicate StoredAt(b: Heap, k: Key, e: Entry) {
    && e.node in b && b[e.node] == EncodeNode(e.Node())
    && e.keyBlock in b && b[e.keyBlock] == LV(k)
    && e.valueBlock in b && b[e.valueBlock] == LV(e.value)
  }

  ghost predicate Stored(b: Heap, es: Entries) {
    forall k :: k in es ==> StoredAt(b, k, es[k])
  }

  // ---------- chains ----------

  ghost function HandleAt(es: Entries, chain: seq<Key>, j: nat): nat
    requires j <= |chain| && (j < |chain| ==> chain[j] in es)
  {
    if j < |chain| then es[chain[j]].node else 0
  }

  ghost predicate IsChain(es: Entries, chain: seq<Key>, head: nat, i: nat) {
    && (forall j :: 0 <= j < |chain| ==> chain[j] in es && BucketOf(chain[j]) == i)
    && (forall j, l :: 0 <= j < l < |chain| ==> chain[j] != chain[l])
    && head == HandleAt(es, chain, 0)
    && (forall j {:trigger es[chain[j]].next} :: 0 <= j < |chain| ==> es[chain[j]].next == HandleAt(es, chain, j + 1))
  }

  /** Bucket i heads the chain of exactly the keys that hash to i. */
  ghost predicate Chained(es: Entries, chains: seq<seq<Key>>, bucket: seq<nat>) {
    && |chains| == |bucket| == BUCKETS
    && (forall i :: 0 <= i < BUCKETS ==> IsChain(es, chains[i], bucket[i], i))
    && (forall k :: k in es ==> k in chains[BucketOf(k)])
  }

  ghost predicate Meta(b: Heap, info: MapInfo, bucket: seq<nat>, size: nat) {
    && |info.verifyInfo| == 16 && |info.padding| == 4 && info.verifyInfo[..|MAP_CHECK|] == MAP_CHECK
    && info.bucket == BUCKET_HANDLE && info.bucketSize == BUCKETS && info.size == size
    && INFO_HANDLE in b && b[INFO_HANDLE] == EncodeInfo(info)
    && BUCKET_HANDLE in b && b[BUCKET_HANDLE] == EncodeBuckets(bucket)
  }

  ghost predicate MapOk(b: Heap, es: Entries, chains: seq<seq<Key>>, o: Owners, bucket: seq<nat>, info: MapInfo) {
    && b.Keys == o.Keys
    && Owned(o, es)
    && Stored(b, es)
    && Chained(es, chains, bucket)
    && Meta(b, info, bucket, |es|)
  }

  /** The finite map the structure stands for. */
  ghost function Model(es: Entries): map<Key, seq<byte>> {
    map k | k in es :: es[k].value
  }

  // ---------- the empty map ----------

  lemma {:induction false} ZeroBuckets(n: nat)
    ensures EncodeBuckets(seq<nat>(n, _ => 0)) == Zeros(8 * n)
  {
    if n > 0 {
      var b := seq<nat>(n, _ => 0);
      assert b[1..] == seq<nat>(n - 1, _ => 0);
      ZeroBuckets(n - 1);
      ZeroWord(8);
    }
  }

  lemma {:induction false} ZeroWord(n: nat)
    ensures LE(n, 0) == Zeros(n)
  {
    if n > 0 { ZeroWord(n - 1); }
  }

  lemma EmptyMapOk(b: Heap, info: MapInfo)
    requires b.Keys == {INFO_HANDLE, BUCKET_HANDLE}
    requires b[INFO_HANDLE] == EncodeInfo(info) && b[BUCKET_HANDLE] == Zeros(8 * BUCKETS)
    requires |info.verifyInfo| == 16 && |info.padding| == 4 && info.verifyInfo[..|MAP_CHECK|] == MAP_CHECK
    requires info.bucket == BUCKET_HANDLE && info.bucketSize == BUCKETS && info.size == 0
    ensures MapOk(b, map[], seq<seq<Key>>(BUCKETS, _ => []),
      map[INFO_HANDLE := InfoBlock, BUCKET_HANDLE := BucketBlock],
                  seq<nat>(BUCKETS, _ => 0), info)
  {
    ZeroBuckets(BUCKETS);
    hide EncodeInfo, EncodeBuckets, BucketOf, EncodeNode, LV, Zeros;
  }
}
