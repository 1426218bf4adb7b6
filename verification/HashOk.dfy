/** Each way add and del can go, on the blocks as the code leaves them. */
module HashOk {
  import opened Bytes
  import opened HashIndex
  import opened HashSteps

  lemma Parts(b: Heap, es: Entries, chains: seq<seq<Key>>, o: Owners, bucket: seq<nat>, info: MapInfo)
    requires MapOk(b, es, chains, o, bucket, info)
    ensures b.Keys == o.Keys && Owned(o, es) && Stored(b, es) && Chained(es, chains, bucket)
    ensures Meta(b, info, bucket, |es|)
    ensures |chains| == |bucket| == BUCKETS
  {
    hide Owned, Stored, Meta, IsChain;
  }

  lemma FromParts(b: Heap, es: Entries, chains: seq<seq<Key>>, o: Owners, bucket: seq<nat>, info: MapInfo)
    requires b.Keys == o.Keys && Owned(o, es) && Stored(b, es) && Chained(es, chains, bucket)
    requires Meta(b, info, bucket, |es|)
    ensures MapOk(b, es, chains, o, bucket, info)
  {
    hide Owned, Stored, Meta, Chained;
  }

  /** The three blocks of an entry are live, distinct, and not the map's own two. */
  lemma EntryBlocks(o: Owners, es: Entries, k: Key)
    requires Owned(o, es) && k in es
    ensures var e := es[k];
      && Owns(o, k, e)
      && e.node != e.keyBlock && e.node != e.valueBlock && e.keyBlock != e.valueBlock
      && INFO_HANDLE !in {e.node, e.keyBlock, e.valueBlock} && BUCKET_HANDLE !in {e.node, e.keyBlock, e.valueBlock}
  {
    assert Owns(o, k, es[k]);
  }

  lemma MetaKept(b: Heap, b': Heap, info: MapInfo, bucket: seq<nat>, n: nat)
    requires Meta(b, info, bucket, n)
    requires INFO_HANDLE in b' && b'[INFO_HANDLE] == b[INFO_HANDLE]
    requires BUCKET_HANDLE in b' && b'[BUCKET_HANDLE] == b[BUCKET_HANDLE]
    ensures Meta(b', info, bucket, n)
  {
    hide EncodeInfo, EncodeBuckets;
  }

  lemma MetaSized(b: Heap, info: MapInfo, bucket: seq<nat>, n: nat, n': nat)
    requires Meta(b, info, bucket, n)
    ensures Meta(b[INFO_HANDLE := EncodeInfo(info.(size := n'))], info.(size := n'), bucket, n')
  {
    hide EncodeInfo, EncodeBuckets;
  }

  lemma MetaBuckets(b: Heap, info: MapInfo, bucket: seq<nat>, bucket': seq<nat>, n: nat)
    requires Meta(b, info, bucket, n)
    ensures Meta(b[BUCKET_HANDLE := EncodeBuckets(bucket')], info, bucket', n)
  {
    hide EncodeInfo, EncodeBuckets;
  }

  // ---------- add on a key already there ----------

  ghost function OverwriteHeap(b: Heap, e: Entry, vb: nat, value: seq<byte>): Heap {
    (b - {e.valueBlock})[vb := LV(value)][e.node := EncodeNode(DataNode(e.keyBlock, vb, e.next))]
  }

  ghost function OverwriteOwners(o: Owners, e: Entry, k: Key, vb: nat): Owners {
    (o - {e.valueBlock})[vb := ValueOf(k)]
  }

  lemma OverwriteOk(b: Heap, es: Entries, chains: seq<seq<Key>>, o: Owners, bucket: seq<nat>, info: MapInfo,
                    k: Key, vb: nat, value: seq<byte>)
    requires MapOk(b, es, chains, o, bucket, info) && k in es && vb !in b.Keys - {es[k].valueBlock} && vb != 0
    ensures MapOk(OverwriteHeap(b, es[k], vb, value), Overwritten(es, k, vb, value), chains,
                  OverwriteOwners(o, es[k], k, vb), bucket, info)
  {
    hide *;
    var e := es[k];
    var b', o', es' := OverwriteHeap(b, e, vb, value), OverwriteOwners(o, e, k, vb), Overwritten(es, k, vb, value);
    Parts(b, es, chains, o, bucket, info);
    OverwriteKeys(b, o, es, k, vb);
    OverwriteShape(b, o, es, k, vb, value);
    OverwriteOwned(o, es, k, vb, value);
    OverwriteStored(b, o, es, k, vb, value);
    OverwriteChained(es, chains, bucket, k, vb, value);
    MetaKept(b, b', info, bucket, |es|);
    OverwriteSize(es, k, vb, value);
    FromParts(b', es', chains, o', bucket, info);
  }

  lemma OverwriteShape(b: Heap, o: Owners, es: Entries, k: Key, vb: nat, value: seq<byte>)
    requires k in es && b.Keys == o.Keys && es[k].node in b && es[k].node != es[k].valueBlock
    ensures var e := es[k]; var e' := e.(valueBlock := vb, value := value);
      && OverwriteHeap(b, e, vb, value) == (b - {e.valueBlock})[vb := LV(value)][e.node := EncodeNode(e'.Node())]
      && OverwriteOwners(o, e, k, vb) == (o - {e.valueBlock})[vb := ValueOf(k)]
      && OverwriteHeap(b, e, vb, value).Keys == OverwriteOwners(o, e, k, vb).Keys
      && forall h :: h in b && h !in {e.node, e.valueBlock, vb} ==>
           h in OverwriteHeap(b, e, vb, value) && OverwriteHeap(b, e, vb, value)[h] == b[h]
  {
    hide LV, EncodeNode;
  }

  lemma OverwriteSize(es: Entries, k: Key, vb: nat, value: seq<byte>)
    requires k in es
    ensures |Overwritten(es, k, vb, value)| == |es|
  {
    assert Overwritten(es, k, vb, value).Keys == es.Keys;
  }

  lemma OverwriteKeys(b: Heap, o: Owners, es: Entries, k: Key, vb: nat)
    requires Owned(o, es) && k in es && b.Keys == o.Keys && vb !in b.Keys - {es[k].valueBlock}
    ensures es[k].node in b && es[k].node != es[k].valueBlock
    ensures INFO_HANDLE in b && INFO_HANDLE !in {es[k].node, es[k].valueBlock, vb}
    ensures BUCKET_HANDLE in b && BUCKET_HANDLE !in {es[k].node, es[k].valueBlock, vb}
  {
    EntryBlocks(o, es, k);
    OwnedInfo(o, es);
    hide Owned;
  }

  // ---------- add on a new key ----------

  /** The blocks after the three blocks of a new entry have been written; the node block was allocated first. */
  ghost function EntryHeap(b: Heap, k: Key, e: Entry, blank: seq<byte>): Heap {
    b[e.node := blank][e.keyBlock := LV(k)][e.valueBlock := LV(e.value)][e.node := EncodeNode(e.Node())]
  }

  ghost function EntryOwners(o: Owners, k: Key, e: Entry): Owners {
    o[e.node := NodeOf(k)][e.keyBlock := KeyOf(k)][e.valueBlock := ValueOf(k)]
  }

  ghost predicate FreshEntry(b: Heap, e: Entry) {
    && e.next == 0
    && e.node !in b && e.keyBlock !in b && e.valueBlock !in b
    && e.node != e.keyBlock && e.node != e.valueBlock && e.keyBlock != e.valueBlock
    && e.node != 0 && e.keyBlock != 0 && e.valueBlock != 0
  }

  lemma EntryShape(b: Heap, o: Owners, k: Key, e: Entry, blank: seq<byte>)
    requires FreshEntry(b, e) && b.Keys == o.Keys
    ensures var b' := EntryHeap(b, k, e, blank);
      && b'.Keys == EntryOwners(o, k, e).Keys
      && StoredAt(b', k, e)
      && forall h :: h in b ==> h in b' && b'[h] == b[h]
  {
    hide LV, EncodeNode;
  }

  lemma FreshIn(b: Heap, o: Owners, e: Entry)
    requires FreshEntry(b, e) && b.Keys == o.Keys
    ensures e.next == 0 && e.node !in o && e.keyBlock !in o && e.valueBlock !in o
    ensures e.node != e.keyBlock && e.node != e.valueBlock && e.keyBlock != e.valueBlock
    ensures e.node != 0 && e.keyBlock != 0 && e.valueBlock != 0
  {
  }

  /** The new entry's blocks are in place; no chain holds it yet. */
  lemma EntryPlaced(b: Heap, o: Owners, es: Entries, k: Key, e: Entry, blank: seq<byte>)
    requires Owned(o, es) && Stored(b, es) && b.Keys == o.Keys && k !in es && FreshEntry(b, e)
    ensures Owned(EntryOwners(o, k, e), es[k := e]) && Stored(EntryHeap(b, k, e, blank), es[k := e])
    ensures EntryHeap(b, k, e, blank).Keys == EntryOwners(o, k, e).Keys
    ensures INFO_HANDLE in b && BUCKET_HANDLE in b
  {
    assert EntryOwners(o, k, e) == o[e.node := NodeOf(k)][e.keyBlock := KeyOf(k)][e.valueBlock := ValueOf(k)];
    hide *;
    FreshIn(b, o, e);
    EntryShape(b, o, k, e, blank);
    InsertOwned(o, es, k, e);
    InsertStored(b, EntryHeap(b, k, e, blank), o, es, k, e);
    OwnedInfo(o, es);
  }

  lemma SizeGrows(es: Entries, es': Entries, k: Key)
    requires k !in es && es'.Keys == es.Keys + {k}
    ensures |es'| == |es| + 1
  {
    assert |es.Keys + {k}| == |es.Keys| + 1;
  }

  lemma InsertedDomain(es: Entries, k: Key, e: Entry)
    ensures es[k := e].Keys == es.Keys + {k}
  {
  }

  lemma RelinkedDomain(es: Entries, k: Key, next: nat)
    requires k in es
    ensures Relinked(es, k, next).Keys == es.Keys
  {
  }

  ghost predicate IsLast(chains: seq<seq<Key>>, k: Key, last: Key) {
    BucketOf(k) < |chains| && var c := chains[BucketOf(k)]; c != [] && c[|c| - 1] == last
  }

  ghost predicate IsEmpty(chains: seq<seq<Key>>, k: Key) {
    BucketOf(k) < |chains| && chains[BucketOf(k)] == []
  }

  lemma EmptyOf(chains: seq<seq<Key>>, k: Key)
    requires |chains| == BUCKETS && IsEmpty(chains, k)
    ensures chains[BucketOf(k)] == []
  {
    hide BucketOf;
  }

  ghost function InsertFirstHeap(b: Heap, k: Key, e: Entry, blank: seq<byte>, bucket: seq<nat>, info: MapInfo): Heap {
    EntryHeap(b, k, e, blank)[BUCKET_HANDLE := EncodeBuckets(bucket)][INFO_HANDLE := EncodeInfo(info)]
  }

  ghost function Headed(bucket: seq<nat>, i: nat, node: nat): seq<nat> {
    if i < |bucket| then bucket[i := node] else bucket
  }

  lemma InsertFirstOk(b: Heap, es: Entries, chains: seq<seq<Key>>, o: Owners, bucket: seq<nat>, info: MapInfo,
                      k: Key, e: Entry, blank: seq<byte>)
    requires MapOk(b, es, chains, o, bucket, info) && k !in es && FreshEntry(b, e)
    requires |chains| == BUCKETS && IsEmpty(chains, k)
    ensures var bucket', info' := Headed(bucket, BucketOf(k), e.node), info.(size := |es| + 1);
      MapOk(InsertFirstHeap(b, k, e, blank, bucket', info'), es[k := e], Grown(chains, BucketOf(k), k),
        EntryOwners(o, k, e),
            bucket', info')
  {
    hide *;
    var bucket', info' := Headed(bucket, BucketOf(k), e.node), info.(size := |es| + 1);
    var o', es', b1 := EntryOwners(o, k, e), es[k := e], EntryHeap(b, k, e, blank);
    Parts(b, es, chains, o, bucket, info);
    FreshIn(b, o, e);
    EntryPlaced(b, o, es, k, e, blank);
    EntryShape(b, o, k, e, blank);
    InsertedDomain(es, k, e);
    SizeGrows(es, es', k);
    EmptyOf(chains, k);
    InsertFirst(es, chains, bucket, k, e);
    MetaKept(b, b1, info, bucket, |es|);
    PutMeta(b1, o', es', info, bucket, bucket', |es|, |es| + 1);
    InsertFirstShape(b, k, e, blank, bucket, bucket', info');
    FromParts(InsertFirstHeap(b, k, e, blank, bucket', info'), es', Grown(chains, BucketOf(k), k), o', bucket', info');
  }

  lemma InsertFirstShape(b: Heap, k: Key, e: Entry, blank: seq<byte>, bucket: seq<nat>, bucket': seq<nat>,
      info: MapInfo)
    requires |bucket| == BUCKETS
    ensures InsertFirstHeap(b, k, e, blank, bucket', info)
            == EntryHeap(b, k, e, blank)[BUCKET_HANDLE := EncodeBuckets(bucket')][INFO_HANDLE := EncodeInfo(info)]
    ensures Headed(bucket, BucketOf(k), e.node) == bucket[BucketOf(k) := e.node]
  {
    hide EntryHeap, EncodeBuckets, EncodeInfo, BucketOf;
  }

  /** The bucket block and the map info are rewritten, in this order. */
  lemma PutMeta(b: Heap, o: Owners, es: Entries, info: MapInfo, bucket: seq<nat>, bucket': seq<nat>, n: nat, n': nat)
    requires Owned(o, es) && Stored(b, es) && b.Keys == o.Keys && Meta(b, info, bucket, n)
    ensures var b' := b[BUCKET_HANDLE := EncodeBuckets(bucket')][INFO_HANDLE := EncodeInfo(info.(size := n'))];
      b'.Keys == o.Keys && Stored(b', es) && Meta(b', info.(size := n'), bucket', n')
  {
    hide *;
    OwnedInfo(o, es);
    var b1 := b[BUCKET_HANDLE := EncodeBuckets(bucket')];
    MetaStored(b, o, es, BUCKET_HANDLE, EncodeBuckets(bucket'));
    MetaBuckets(b, info, bucket, bucket', n);
    assert b1.Keys == o.Keys;
    PutInfo(b1, o, es, info, bucket', n, n');
  }

  lemma PutInfo(b: Heap, o: Owners, es: Entries, info: MapInfo, bucket: seq<nat>, n: nat, n': nat)
    requires Owned(o, es) && Stored(b, es) && b.Keys == o.Keys && Meta(b, info, bucket, n)
    ensures var b' := b[INFO_HANDLE := EncodeInfo(info.(size := n'))];
      b'.Keys == o.Keys && Stored(b', es) && Meta(b', info.(size := n'), bucket, n')
  {
    hide *;
    OwnedInfo(o, es);
    MetaStored(b, o, es, INFO_HANDLE, EncodeInfo(info.(size := n')));
    MetaSized(b, info, bucket, n, n');
  }

  /** Rewriting the node of the entry that used to be last. */
  ghost function LinkHeap(b: Heap, es: Entries, last: Key, next: nat): Heap {
    if last in es then b[es[last].node := EncodeNode(es[last].Node().(nextBlock := next))] else b
  }

  lemma InsertLastOk(b: Heap, es: Entries, chains: seq<seq<Key>>, o: Owners, bucket: seq<nat>, info: MapInfo,
                     k: Key, e: Entry, blank: seq<byte>, last: Key)
    requires MapOk(b, es, chains, o, bucket, info) && k !in es && FreshEntry(b, e)
    requires |chains| == BUCKETS && IsLast(chains, k, last) && last in es
    ensures var info' := info.(size := |es| + 1);
      MapOk(LinkHeap(EntryHeap(b, k, e, blank), es, last, e.node)[INFO_HANDLE := EncodeInfo(info')],
            Relinked(es[k := e], last, e.node), Grown(chains, BucketOf(k), k), EntryOwners(o, k, e), bucket, info')
  {
    hide *;
    var info' := info.(size := |es| + 1);
    var o', es1, b1 := EntryOwners(o, k, e), es[k := e], EntryHeap(b, k, e, blank);
    var es', b2 := Relinked(es1, last, e.node), LinkHeap(b1, es, last, e.node);
    Parts(b, es, chains, o, bucket, info);
    FreshIn(b, o, e);
    EntryPlaced(b, o, es, k, e, blank);
    EntryShape(b, o, k, e, blank);
    RelinkedDomain(es1, last, e.node);
    SizeGrows(es, es', k);
    LastOf(chains, k, last);
    InsertLast(es, chains, bucket, k, e);
    LinkOk(b1, o', es1, last, e.node);
    LinkShape(b1, es, es1, last, e.node);
    MetaKept(b, b1, info, bucket, |es|);
    MetaKept(b1, b2, info, bucket, |es|);
    PutInfo(b2, o', es', info, bucket, |es|, |es| + 1);
    FromParts(b2[INFO_HANDLE := EncodeInfo(info')], es', Grown(chains, BucketOf(k), k), o', bucket, info');
  }

  lemma LinkShape(b: Heap, es: Entries, es1: Entries, last: Key, next: nat)
    requires last in es && last in es1 && es1[last] == es[last]
    ensures LinkHeap(b, es, last, next) == LinkHeap(b, es1, last, next)
  {
    hide EncodeNode;
  }

  lemma LinkOk(b: Heap, o: Owners, es: Entries, k: Key, next: nat)
    requires Owned(o, es) && Stored(b, es) && k in es && b.Keys == o.Keys
    ensures var b' := LinkHeap(b, es, k, next);
      && Owned(o, Relinked(es, k, next)) && Stored(b', Relinked(es, k, next)) && b'.Keys == o.Keys
      && (INFO_HANDLE in b ==> INFO_HANDLE in b' && b'[INFO_HANDLE] == b[INFO_HANDLE])
      && (BUCKET_HANDLE in b ==> BUCKET_HANDLE in b' && b'[BUCKET_HANDLE] == b[BUCKET_HANDLE])
  {
    assert LinkHeap(b, es, k, next) == b[es[k].node := EncodeNode(es[k].Node().(nextBlock := next))];
    RelinkOwned(o, es, k, next);
    RelinkStored(b, o, es, k, next);
    RelinkedKeys(b, o, es, k, EncodeNode(es[k].Node().(nextBlock := next)));
    hide *;
  }

  lemma LastOf(chains: seq<seq<Key>>, k: Key, last: Key)
    requires |chains| == BUCKETS && IsLast(chains, k, last)
    ensures chains[BucketOf(k)] != [] && last == chains[BucketOf(k)][|chains[BucketOf(k)]| - 1]
  {
    hide BucketOf;
  }

  lemma RelinkedKeys(b: Heap, o: Owners, es: Entries, k: Key, d: seq<byte>)
    requires Owned(o, es) && k in es && b.Keys == o.Keys
    ensures b[es[k].node := d].Keys == o.Keys
    ensures es[k].node != INFO_HANDLE && es[k].node != BUCKET_HANDLE && es[k].node in b
  {
    EntryBlocks(o, es, k);
    hide Owned;
  }

  // ---------- del ----------

  ghost function Freed(b: Heap, e: Entry): Heap {
    ((b - {e.keyBlock}) - {e.valueBlock}) - {e.node}
  }

  ghost function FreedOwners(o: Owners, e: Entry): Owners {
    o - {e.keyBlock, e.valueBlock, e.node}
  }

  lemma FreedShape(b: Heap, o: Owners, es: Entries, k: Key)
    requires Owned(o, es) && k in es && b.Keys == o.Keys
    ensures var e := es[k];
      && Freed(b, e) == b - {e.keyBlock, e.valueBlock, e.node}
      && Freed(b, e).Keys == FreedOwners(o, e).Keys
      && FreedOwners(o, e) == o - {e.keyBlock, e.valueBlock, e.node}
      && INFO_HANDLE in Freed(b, e) && Freed(b, e)[INFO_HANDLE] == b[INFO_HANDLE]
      && BUCKET_HANDLE in Freed(b, e) && Freed(b, e)[BUCKET_HANDLE] == b[BUCKET_HANDLE]
  {
    EntryBlocks(o, es, k);
    OwnedInfo(o, es);
    hide Owned;
  }

  lemma FreedOk(b: Heap, o: Owners, es: Entries, k: Key)
    requires Owned(o, es) && Stored(b, es) && k in es && b.Keys == o.Keys
    ensures Owned(FreedOwners(o, es[k]), es - {k}) && Stored(Freed(b, es[k]), es - {k})
    ensures Freed(b, es[k]).Keys == FreedOwners(o, es[k]).Keys
  {
    hide *;
    FreedShape(b, o, es, k);
    DeleteOwned(o, es, k);
    DeleteStored(b, o, es, k);
  }

  lemma SizeShrinks(es: Entries, k: Key)
    requires k in es
    ensures |es - {k}| == |es| - 1
  {
    assert (es - {k}).Keys == es.Keys - {k};
  }

  ghost predicate At(chains: seq<seq<Key>>, k: Key, j: nat) {
    BucketOf(k) < |chains| && j < |chains[BucketOf(k)]| && chains[BucketOf(k)][j] == k
  }

  ghost function Shrunk(chains: seq<seq<Key>>, i: nat, j: nat): seq<seq<Key>> {
    if i < |chains| && j < |chains[i]| then chains[i := Without(chains[i], j)] else chains
  }

  ghost function ChainOf(chains: seq<seq<Key>>, k: Key): seq<Key> {
    if BucketOf(k) < |chains| then chains[BucketOf(k)] else []
  }

  lemma AtDeleted(es: Entries, chains: seq<seq<Key>>, bucket: seq<nat>, k: Key, j: nat)
    requires Chained(es, chains, bucket) && At(chains, k, j)
    ensures k in es
    ensures Chained(Deleted(es, ChainOf(chains, k), j), Shrunk(chains, BucketOf(k), j),
                    Unheaded(bucket, BucketOf(k), es, ChainOf(chains, k), j))
    ensures j == 0 ==> Deleted(es, ChainOf(chains, k), j) == es - {k}
    ensures j == 0 ==>
      Unheaded(bucket, BucketOf(k), es, ChainOf(chains, k), j) == Headed(bucket, BucketOf(k), es[k].next)
    ensures j > 0 ==> Unheaded(bucket, BucketOf(k), es, ChainOf(chains, k), j) == bucket
  {
    var i := BucketOf(k);
    assert IsChain(es, chains[i], bucket[i], i);
    assert chains[i][j] in es;
    hide BucketOf, IsChain;
    DeleteChained(es, chains, bucket, i, j);
    hide Chained, Without;
  }

  ghost function DeleteFirstHeap(b: Heap, e: Entry, bucket: seq<nat>, info: MapInfo): Heap {
    Freed(b, e)[BUCKET_HANDLE := EncodeBuckets(bucket)][INFO_HANDLE := EncodeInfo(info)]
  }

  /** The first key of its bucket goes: its blocks are freed, then the bucket and the map info are rewritten. */
  lemma DeleteFirstOk(b: Heap, es: Entries, chains: seq<seq<Key>>, o: Owners, bucket: seq<nat>, info: MapInfo, k: Key)
    requires MapOk(b, es, chains, o, bucket, info) && k in es && At(chains, k, 0)
    ensures var bucket', info' := Headed(bucket, BucketOf(k), es[k].next), info.(size := |es - {k}|);
      MapOk(DeleteFirstHeap(b, es[k], bucket', info'), es - {k}, Shrunk(chains, BucketOf(k), 0), FreedOwners(o, es[k]),
            bucket', info')
  {
    hide *;
    var e := es[k];
    var bucket', info' := Headed(bucket, BucketOf(k), e.next), info.(size := |es - {k}|);
    var b1, o', es' := Freed(b, e), FreedOwners(o, e), es - {k};
    Parts(b, es, chains, o, bucket, info);
    FreedOk(b, o, es, k);
    FreedShape(b, o, es, k);
    AtDeleted(es, chains, bucket, k, 0);
    MetaKept(b, b1, info, bucket, |es|);
    PutMeta(b1, o', es', info, bucket, bucket', |es|, |es'|);
    DeleteFirstShape(b, e, bucket', info');
    FromParts(DeleteFirstHeap(b, e, bucket', info'), es', Shrunk(chains, BucketOf(k), 0), o', bucket', info');
  }

  lemma DeleteFirstShape(b: Heap, e: Entry, bucket: seq<nat>, info: MapInfo)
    ensures DeleteFirstHeap(b, e, bucket, info)
            == Freed(b, e)[BUCKET_HANDLE := EncodeBuckets(bucket)][INFO_HANDLE := EncodeInfo(info)]
  {
    hide Freed, EncodeBuckets, EncodeInfo;
  }

  /** A later key goes: the node before it is rewritten first, then its blocks are freed. */
  lemma DeleteInnerOk(b: Heap, es: Entries, chains: seq<seq<Key>>, o: Owners, bucket: seq<nat>, info: MapInfo, k: Key,
      j: nat,
                      prev: Key)
    requires MapOk(b, es, chains, o, bucket, info) && k in es && prev in es && prev != k
    requires j > 0 && At(chains, k, j) && At(chains, prev, j - 1) && BucketOf(prev) == BucketOf(k)
    ensures var info' := info.(size := |es - {k}|);
      MapOk(Freed(LinkHeap(b, es, prev, es[k].next), es[k])[INFO_HANDLE := EncodeInfo(info')],
            Relinked(es, prev, es[k].next) - {k}, Shrunk(chains, BucketOf(k), j), FreedOwners(o, es[k]), bucket, info')
  {
    hide *;
    var e := es[k];
    var info' := info.(size := |es - {k}|);
    var b1, es1 := LinkHeap(b, es, prev, e.next), Relinked(es, prev, e.next);
    var b2, o', es' := Freed(b1, e), FreedOwners(o, e), es1 - {k};
    Parts(b, es, chains, o, bucket, info);
    OwnedInfo(o, es);
    LinkOk(b, o, es, prev, e.next);
    RelinkedOther(es, prev, k, e.next);
    FreedOk(b1, o, es1, k);
    FreedShape(b1, o, es1, k);
    InnerDeleted(es, chains, k, j, prev);
    AtDeleted(es, chains, bucket, k, j);
    MetaKept(b, b1, info, bucket, |es|);
    MetaKept(b1, b2, info, bucket, |es|);
    PutInfo(b2, o', es', info, bucket, |es|, |es'|);
    FromParts(b2[INFO_HANDLE := EncodeInfo(info')], es', Shrunk(chains, BucketOf(k), j), o', bucket, info');
  }

  lemma RelinkedOther(es: Entries, prev: Key, k: Key, next: nat)
    requires k in es && prev in es && prev != k
    ensures k in Relinked(es, prev, next) && Relinked(es, prev, next)[k] == es[k]
    ensures |Relinked(es, prev, next) - {k}| == |es - {k}|
  {
    assert (Relinked(es, prev, next) - {k}).Keys == (es - {k}).Keys;
  }

  lemma InnerDeleted(es: Entries, chains: seq<seq<Key>>, k: Key, j: nat, prev: Key)
    requires j > 0 && At(chains, k, j) && At(chains, prev, j - 1) && BucketOf(prev) == BucketOf(k) && k in es
    ensures Deleted(es, ChainOf(chains, k), j) == Relinked(es, prev, es[k].next) - {k}
  {
    hide BucketOf;
  }
}
