/** What add and del do to the entries, the chains and the blocks, and that the map stays well-formed. */
module HashSteps {
  import opened Bytes
  import opened HashIndex

  // ---------- frames ----------

  /** A role that belongs to one of the keys ks, or to the map itself. */
  ghost predicate Concerns(r: Role, ks: set<Key>) {
    match r
    case InfoBlock => true
    case BucketBlock => true
    case NodeOf(k) => k in ks
    case KeyOf(k) => k in ks
    case ValueOf(k) => k in ks
  }

  ghost predicate SameOutside(es: Entries, es': Entries, ks: set<Key>) {
    && (forall k :: k in es' && k !in ks ==> k in es && es'[k] == es[k])
    && (forall k :: k in es && k !in ks ==> k in es')
  }

  lemma StoredFrame(b: Heap, b': Heap, o: Owners, es: Entries, es': Entries, ks: set<Key>)
    requires Owned(o, es) && Stored(b, es) && SameOutside(es, es', ks)
    requires forall h :: h in b && h in o && !Concerns(o[h], ks) ==> h in b' && b'[h] == b[h]
    requires forall k :: k in ks && k in es' ==> StoredAt(b', k, es'[k])
    ensures Stored(b', es')
  {
    forall k | k in es' && k !in ks ensures StoredAt(b', k, es'[k]) {
      assert StoredAt(b, k, es[k]) && Owns(o, k, es[k]);
      hide EncodeNode, LV;
    }
    hide StoredAt;
  }

  lemma OwnedFrame(o: Owners, o': Owners, es: Entries, es': Entries, ks: set<Key>)
    requires Owned(o, es) && SameOutside(es, es', ks) && 0 !in o'
    requires forall h :: h in o && !Concerns(o[h], ks) ==> h in o' && o'[h] == o[h]
    requires forall h :: h in o' && !Concerns(o'[h], ks) ==> h in o && o[h] == o'[h]
    requires forall k :: k in ks && k in es' ==> Owns(o', k, es'[k])
    requires forall h :: h in o' && Concerns(o'[h], ks) ==> OwnedBy(h, o'[h], es')
    requires INFO_HANDLE in o' && o'[INFO_HANDLE] == InfoBlock
    requires BUCKET_HANDLE in o' && o'[BUCKET_HANDLE] == BucketBlock
    ensures Owned(o', es')
  {
    forall k | k in es' ensures Owns(o', k, es'[k]) {
      if k !in ks { assert Owns(o, k, es[k]); }
    }
    forall h | h in o' ensures OwnedBy(h, o'[h], es') {
      if !Concerns(o'[h], ks) { assert OwnedBy(h, o[h], es); }
    }
    hide Owns, OwnedBy;
  }

  // ---------- overwriting a value ----------

  ghost function Overwritten(es: Entries, k: Key, vb: nat, value: seq<byte>): Entries
    requires k in es
  {
    es[k := es[k].(valueBlock := vb, value := value)]
  }

  lemma OverwriteOwned(o: Owners, es: Entries, k: Key, vb: nat, value: seq<byte>)
    requires Owned(o, es) && k in es && vb !in o - {es[k].valueBlock} && vb != 0
    ensures Owned((o - {es[k].valueBlock})[vb := ValueOf(k)], Overwritten(es, k, vb, value))
  {
    var o', es' := (o - {es[k].valueBlock})[vb := ValueOf(k)], Overwritten(es, k, vb, value);
    assert Owns(o, k, es[k]);
    forall h | h in o' && Concerns(o'[h], {k}) ensures OwnedBy(h, o'[h], es') {
      if h != vb { assert OwnedBy(h, o[h], es); }
    }
    hide Owned;
    OwnedFrame(o, o', es, es', {k});
  }

  lemma OverwriteStored(b: Heap, o: Owners, es: Entries, k: Key, vb: nat, value: seq<byte>)
    requires Owned(o, es) && Stored(b, es) && k in es && b.Keys == o.Keys && vb !in b.Keys - {es[k].valueBlock}
    ensures var e' := es[k].(valueBlock := vb, value := value);
      Stored((b - {es[k].valueBlock})[vb := LV(value)][es[k].node := EncodeNode(e'.Node())],
        Overwritten(es, k, vb, value))
  {
    var e := es[k];
    var e' := e.(valueBlock := vb, value := value);
    var b' := (b - {e.valueBlock})[vb := LV(value)][e.node := EncodeNode(e'.Node())];
    assert Owns(o, k, e) && StoredAt(b, k, e);
    hide EncodeNode, LV;
    assert StoredAt(b', k, e');
    hide Owned, Stored;
    StoredFrame(b, b', o, es, Overwritten(es, k, vb, value), {k});
  }

  lemma OverwriteChained(es: Entries, chains: seq<seq<Key>>, bucket: seq<nat>, k: Key, vb: nat, value: seq<byte>)
    requires Chained(es, chains, bucket) && k in es
    ensures Chained(Overwritten(es, k, vb, value), chains, bucket)
  {
    var es' := Overwritten(es, k, vb, value);
    forall i | 0 <= i < BUCKETS ensures IsChain(es', chains[i], bucket[i], i) {
      ChainFrame(es, es', chains[i], bucket[i], i);
    }
    hide IsChain, BucketOf;
  }

  /** A chain depends only on the nodes and links of its own keys. */
  lemma ChainFrame(es: Entries, es': Entries, chain: seq<Key>, head: nat, i: nat)
    requires IsChain(es, chain, head, i)
    requires forall k :: k in chain && k in es ==> k in es' && es'[k].node == es[k].node && es'[k].next == es[k].next
    ensures IsChain(es', chain, head, i)
  {
    hide BucketOf;
    forall j | 0 <= j < |chain| ensures chain[j] in es' && es'[chain[j]].next == HandleAt(es', chain, j + 1) {
      assert chain[j] in es;
      if j + 1 < |chain| { assert chain[j + 1] in es; }
    }
  }

  // ---------- inserting a key ----------

  ghost function Relinked(es: Entries, k: Key, next: nat): Entries {
    if k in es then es[k := es[k].(next := next)] else es
  }

  /** The chain grows by a new last key: the link of the old last one, or the bucket, changes. */
  lemma AppendChain(es: Entries, chain: seq<Key>, head: nat, i: nat, k: Key, e: Entry)
    requires IsChain(es, chain, head, i) && k !in es && BucketOf(k) == i && e.next == 0
    ensures chain == [] ==> IsChain(es[k := e], [k], e.node, i)
    ensures chain != [] ==>
      var last := chain[|chain| - 1];
      last in es && IsChain(Relinked(es[k := e], last, e.node), chain + [k], head, i)
  {
    hide BucketOf;
    if chain != [] {
      var last := chain[|chain| - 1];
      assert last in es && last != k;
      var es', chain' := Relinked(es[k := e], last, e.node), chain + [k];
      forall j | 0 <= j < |chain'| ensures chain'[j] in es' && es'[chain'[j]].next == HandleAt(es', chain', j + 1) {
        if j < |chain| { assert chain[j] in es; }
        if j + 1 < |chain| { assert chain[j + 1] in es && chain[j] != last; }
      }
      assert k !in chain;
    }
  }

  lemma InsertOwned(o: Owners, es: Entries, k: Key, e: Entry)
    requires Owned(o, es) && k !in es
    requires e.node !in o && e.keyBlock !in o && e.valueBlock !in o
    requires e.node != e.keyBlock && e.node != e.valueBlock && e.keyBlock != e.valueBlock
    requires e.node != 0 && e.keyBlock != 0 && e.valueBlock != 0
    ensures Owned(o[e.node := NodeOf(k)][e.keyBlock := KeyOf(k)][e.valueBlock := ValueOf(k)], es[k := e])
  {
    var o', es' := o[e.node := NodeOf(k)][e.keyBlock := KeyOf(k)][e.valueBlock := ValueOf(k)], es[k := e];
    forall h | h in o' && Concerns(o'[h], {k}) ensures OwnedBy(h, o'[h], es') {
      if h in o { assert OwnedBy(h, o[h], es); }
    }
    assert Owns(o', k, e);
    assert 0 !in o';
    hide Owned, Owns, OwnedBy;
    OwnedInfo(o, es);
    OwnedFrame(o, o', es, es', {k});
  }

  lemma OwnedInfo(o: Owners, es: Entries)
    requires Owned(o, es)
    ensures INFO_HANDLE in o && o[INFO_HANDLE] == InfoBlock && BUCKET_HANDLE in o && o[BUCKET_HANDLE] == BucketBlock
    ensures 0 !in o
  {
  }

  lemma InsertStored(b: Heap, b': Heap, o: Owners, es: Entries, k: Key, e: Entry)
    requires Owned(o, es) && Stored(b, es) && k !in es && b.Keys == o.Keys
    requires forall h :: h in b ==> h in b' && b'[h] == b[h]
    requires StoredAt(b', k, e)
    ensures Stored(b', es[k := e])
  {
    hide Owned, Stored, StoredAt;
    StoredFrame(b, b', o, es, es[k := e], {k});
  }

  lemma RelinkOwned(o: Owners, es: Entries, k: Key, next: nat)
    requires Owned(o, es) && k in es
    ensures Owned(o, Relinked(es, k, next))
  {
    var es' := Relinked(es, k, next);
    assert Owns(o, k, es[k]);
    forall h | h in o ensures OwnedBy(h, o[h], es') { assert OwnedBy(h, o[h], es); }
    OwnedInfo(o, es);
    hide Owned, OwnedBy;
    OwnedFrame(o, o, es, es', {k});
  }

  lemma RelinkStored(b: Heap, o: Owners, es: Entries, k: Key, next: nat)
    requires Owned(o, es) && Stored(b, es) && k in es && b.Keys == o.Keys
    ensures Stored(b[es[k].node := EncodeNode(es[k].Node().(nextBlock := next))], Relinked(es, k, next))
  {
    var b' := b[es[k].node := EncodeNode(es[k].Node().(nextBlock := next))];
    assert Owns(o, k, es[k]) && StoredAt(b, k, es[k]);
    hide EncodeNode, LV;
    assert StoredAt(b', k, es[k].(next := next));
    hide Owned, Stored, StoredAt;
    StoredFrame(b, b', o, es, Relinked(es, k, next), {k});
  }

  /** Rewriting the map info or the bucket block touches no entry. */
  lemma MetaStored(b: Heap, o: Owners, es: Entries, h: nat, d: seq<byte>)
    requires Owned(o, es) && Stored(b, es) && b.Keys == o.Keys && (h == INFO_HANDLE || h == BUCKET_HANDLE)
    ensures Stored(b[h := d], es)
  {
    OwnedInfo(o, es);
    hide Owned, Stored, StoredAt;
    StoredFrame(b, b[h := d], o, es, es, {});
  }

  ghost function Grown(chains: seq<seq<Key>>, i: nat, k: Key): seq<seq<Key>> {
    if i < |chains| then chains[i := chains[i] + [k]] else chains
  }

  lemma InsertFirst(es: Entries, chains: seq<seq<Key>>, bucket: seq<nat>, k: Key, e: Entry)
    requires Chained(es, chains, bucket) && k !in es && e.next == 0 && chains[BucketOf(k)] == []
    ensures var i := BucketOf(k); Chained(es[k := e], Grown(chains, i, k), bucket[i := e.node])
  {
    var i := BucketOf(k);
    assert IsChain(es, chains[i], bucket[i], i);
    assert chains[i] + [k] == [k];
    hide IsChain, BucketOf;
    AppendChain(es, chains[i], bucket[i], i, k, e);
    OtherChains(es, es[k := e], chains, bucket, i);
    ChainedIf(es, es[k := e], chains, Grown(chains, i, k), bucket[i := e.node], i, k);
  }

  lemma InsertLast(es: Entries, chains: seq<seq<Key>>, bucket: seq<nat>, k: Key, e: Entry)
    requires Chained(es, chains, bucket) && k !in es && e.next == 0 && chains[BucketOf(k)] != []
    ensures var i := BucketOf(k); var last := chains[i][|chains[i]| - 1];
      && last in es && BucketOf(last) == i
      && Chained(Relinked(es[k := e], last, e.node), Grown(chains, i, k), bucket)
  {
    var i := BucketOf(k);
    var last := chains[i][|chains[i]| - 1];
    assert IsChain(es, chains[i], bucket[i], i);
    assert last in es && BucketOf(last) == i;
    hide IsChain, BucketOf;
    AppendChain(es, chains[i], bucket[i], i, k, e);
    RelinkedShape(es, k, e, last, i);
    OtherChains(es, Relinked(es[k := e], last, e.node), chains, bucket, i);
    hide Relinked;
    ChainedIf(es, Relinked(es[k := e], last, e.node), chains, Grown(chains, i, k), bucket, i, k);
  }

  lemma RelinkedShape(es: Entries, k: Key, e: Entry, last: Key, i: nat)
    requires last in es && last != k && BucketOf(last) == i && BucketOf(k) == i
    ensures var es' := Relinked(es[k := e], last, e.node);
      && (forall x :: x in es' <==> x in es || x == k)
      && (forall x :: x in es && BucketOf(x) != i ==> es'[x] == es[x])
  {
    hide BucketOf;
  }

  lemma OtherChains(es: Entries, es': Entries, chains: seq<seq<Key>>, bucket: seq<nat>, i: nat)
    requires Chained(es, chains, bucket)
    requires forall k :: k in es && BucketOf(k) != i ==> k in es' && es'[k] == es[k]
    ensures forall j :: 0 <= j < BUCKETS && j != i ==> IsChain(es', chains[j], bucket[j], j)
  {
    forall j | 0 <= j < BUCKETS && j != i ensures IsChain(es', chains[j], bucket[j], j) {
      assert IsChain(es, chains[j], bucket[j], j);
      hide BucketOf;
      ChainFrame(es, es', chains[j], bucket[j], j);
    }
  }

  lemma ChainedIf(es: Entries, es': Entries, chains: seq<seq<Key>>, chains': seq<seq<Key>>, bucket: seq<nat>, i: nat,
      k: Key)
    requires i < BUCKETS && |chains| == |bucket| == BUCKETS && |chains'| == BUCKETS
      && chains' == chains[i := chains'[i]]
    requires forall x :: x in es ==> x in chains[BucketOf(x)]
    requires forall j :: 0 <= j < BUCKETS && j != i ==> IsChain(es', chains[j], bucket[j], j)
    requires IsChain(es', chains'[i], bucket[i], i)
    requires forall x :: x in es' ==> x in es || x == k
    requires forall x :: x in es' && (x in chains[i] || x == k) && BucketOf(x) == i ==> x in chains'[i]
    requires k in es' ==> BucketOf(k) == i
    ensures Chained(es', chains', bucket)
  {
    hide IsChain, BucketOf;
  }

  // ---------- deleting a key ----------

  ghost function Without(chain: seq<Key>, j: nat): seq<Key>
    requires j < |chain|
  {
    chain[..j] + chain[j + 1..]
  }

  /** The chain closes over its key at position j: the link before it, or the bucket, takes over its link. */
  lemma RemoveFromChain(es: Entries, chain: seq<Key>, head: nat, i: nat, j: nat)
    requires IsChain(es, chain, head, i) && j < |chain|
    ensures chain[j] in es
    ensures j == 0 ==> IsChain(es - {chain[j]}, Without(chain, 0), es[chain[j]].next, i)
    ensures j > 0 ==>
      && chain[j - 1] in es && chain[j - 1] != chain[j]
      && IsChain(Relinked(es, chain[j - 1], es[chain[j]].next) - {chain[j]}, Without(chain, j), head, i)
  {
    hide BucketOf;
    var k, c := chain[j], Without(chain, j);
    assert k in es;
    if j == 0 {
      forall l | 0 <= l < |c| ensures c[l] in es - {k} && (es - {k})[c[l]].next == HandleAt(es - {k}, c, l + 1) {
        assert c[l] == chain[l + 1] && chain[l + 1] in es;
        if l + 1 < |c| { assert chain[l + 2] in es; }
      }
    } else {
      RemoveInner(es, chain, head, i, j);
    }
  }

  lemma WithoutAt(chain: seq<Key>, j: nat)
    requires j < |chain|
    ensures |Without(chain, j)| == |chain| - 1
    ensures forall l :: 0 <= l < |chain| - 1 ==> Without(chain, j)[l] == chain[if l < j then l else l + 1]
  {
  }

  /** What a chain says of one position. */
  lemma ChainAt(es: Entries, chain: seq<Key>, head: nat, i: nat, m: nat)
    requires IsChain(es, chain, head, i) && m < |chain|
    ensures chain[m] in es && BucketOf(chain[m]) == i
    ensures m + 1 < |chain| ==> chain[m + 1] in es
    ensures es[chain[m]].next == HandleAt(es, chain, m + 1)
  {
    hide BucketOf;
    assert m + 1 < |chain| ==> chain[m + 1] in es;
  }

  lemma ChainDistinct(es: Entries, chain: seq<Key>, head: nat, i: nat, m: nat, n: nat)
    requires IsChain(es, chain, head, i) && m < |chain| && n < |chain|
    ensures chain[m] == chain[n] <==> m == n
  {
    hide BucketOf, HandleAt;
    Distinct(chain, m, n);
  }

  lemma RemoveInner(es: Entries, chain: seq<Key>, head: nat, i: nat, j: nat)
    requires IsChain(es, chain, head, i) && 0 < j < |chain|
    ensures chain[j] in es && chain[j - 1] in es && chain[j - 1] != chain[j]
      && IsChain(Relinked(es, chain[j - 1], es[chain[j]].next) - {chain[j]}, Without(chain, j), head, i)
  {
    hide *;
    ChainAt(es, chain, head, i, j);
    ChainAt(es, chain, head, i, j - 1);
    ChainDistinct(es, chain, head, i, j - 1, j);
    var es', c := Relinked(es, chain[j - 1], es[chain[j]].next) - {chain[j]}, Without(chain, j);
    WithoutAt(chain, j);
    forall l | 0 <= l < |c| ensures c[l] in es' && BucketOf(c[l]) == i {
      RemoveLink(es, chain, head, i, j, l);
    }
    forall l {:trigger es'[c[l]].next} | 0 <= l < |c|
      ensures (l + 1 < |c| ==> c[l + 1] in es') && es'[c[l]].next == HandleAt(es', c, l + 1)
    {
      RemoveLink(es, chain, head, i, j, l);
    }
    RemoveLink(es, chain, head, i, j, 0);
    WithoutDistinct(es, chain, head, i, j);
    ChainIf(es', c, head, i);
  }

  lemma ChainIf(es: Entries, c: seq<Key>, head: nat, i: nat)
    requires forall l :: 0 <= l < |c| ==> c[l] in es && BucketOf(c[l]) == i
    requires forall l {:trigger es[c[l]].next} :: 0 <= l < |c| ==>
      (l + 1 < |c| ==> c[l + 1] in es) && es[c[l]].next == HandleAt(es, c, l + 1)
    requires forall m, n :: 0 <= m < n < |c| ==> c[m] != c[n]
    requires c != [] && HandleAt(es, c, 0) == head
    ensures IsChain(es, c, head, i)
  {
    hide BucketOf;
  }

  lemma WithoutDistinct(es: Entries, chain: seq<Key>, head: nat, i: nat, j: nat)
    requires IsChain(es, chain, head, i) && j < |chain|
    ensures var c := Without(chain, j); forall m, n :: 0 <= m < n < |c| ==> c[m] != c[n]
  {
    hide *;
    WithoutAt(chain, j);
    var c := Without(chain, j);
    forall m, n | 0 <= m < n < |c| ensures c[m] != c[n] {
      ChainDistinct(es, chain, head, i, if m < j then m else m + 1, if n < j then n else n + 1);
    }
  }

  lemma RemoveLink(es: Entries, chain: seq<Key>, head: nat, i: nat, j: nat, l: nat)
    requires IsChain(es, chain, head, i) && 0 < j < |chain| && l < |chain| - 1
    requires chain[j] in es && chain[j - 1] in es
    ensures var c, es' := Without(chain, j), Relinked(es, chain[j - 1], es[chain[j]].next) - {chain[j]};
      && |c| == |chain| - 1 && c[l] in es' && (l + 1 < |c| ==> c[l + 1] in es') && BucketOf(c[l]) == i
      && es'[c[l]].next == HandleAt(es', c, l + 1)
      && (l == 0 ==> HandleAt(es', c, 0) == head)
  {
    hide *;
    var m, n := if l < j then l else l + 1, if l + 1 < j then l + 1 else l + 2;
    var p, next := chain[j - 1], es[chain[j]].next;
    WithoutAt(chain, j);
    ChainDistinct(es, chain, head, i, j - 1, j);
    ChainDistinct(es, chain, head, i, m, j);
    ChainDistinct(es, chain, head, i, m, j - 1);
    ChainAt(es, chain, head, i, m);
    ChainAt(es, chain, head, i, j);
    RelinkedAt(es, p, next, chain[j], chain[m]);
    if n < |chain| {
      ChainAt(es, chain, head, i, n);
      ChainDistinct(es, chain, head, i, n, j);
      RelinkedAt(es, p, next, chain[j], chain[n]);
    }
    var es' := Relinked(es, p, next) - {chain[j]};
    SameHandle(es, es', chain, Without(chain, j), n, l + 1);
    if l == 0 {
      ChainHead(es, chain, head, i);
      SameHandle(es, es', chain, Without(chain, j), 0, 0);
    }
  }

  lemma ChainHead(es: Entries, chain: seq<Key>, head: nat, i: nat)
    requires IsChain(es, chain, head, i) && chain != []
    ensures chain[0] in es && head == HandleAt(es, chain, 0)
  {
    hide BucketOf;
  }

  lemma Distinct<T>(s: seq<T>, m: nat, n: nat)
    requires m < |s| && n < |s| && forall i, j :: 0 <= i < j < |s| ==> s[i] != s[j]
    ensures s[m] == s[n] <==> m == n
  {
  }

  lemma SameHandle(es: Entries, es': Entries, chain: seq<Key>, c: seq<Key>, n: nat, l: nat)
    requires n <= |chain| && l <= |c| && (n == |chain| <==> l == |c|)
    requires n < |chain| ==> chain[n] == c[l] && c[l] in es && c[l] in es' && es'[c[l]].node == es[c[l]].node
    ensures HandleAt(es', c, l) == HandleAt(es, chain, n)
  {
  }

  lemma RelinkedAt(es: Entries, p: Key, next: nat, k: Key, x: Key)
    requires p in es && x in es && x != k && p != k
    ensures var es' := Relinked(es, p, next) - {k};
      x in es' && es'[x].node == es[x].node && es'[x].next == if x == p then next else es[x].next
  {
  }

  /** The entries after del has taken out the key at position j of its chain. */
  ghost function Deleted(es: Entries, chain: seq<Key>, j: nat): Entries {
    if j >= |chain| || chain[j] !in es then es
    else (if j == 0 then es else Relinked(es, chain[j - 1], es[chain[j]].next)) - {chain[j]}
  }

  /** The buckets after that. */
  ghost function Unheaded(bucket: seq<nat>, i: nat, es: Entries, chain: seq<Key>, j: nat): seq<nat> {
    if j == 0 && i < |bucket| && 0 < |chain| && chain[0] in es then bucket[i := es[chain[0]].next] else bucket
  }

  lemma DeletedChain(es: Entries, chain: seq<Key>, bucket: seq<nat>, i: nat, j: nat)
    requires i < |bucket| && IsChain(es, chain, bucket[i], i) && j < |chain|
    ensures IsChain(Deleted(es, chain, j), Without(chain, j), Unheaded(bucket, i, es, chain, j)[i], i)
    ensures chain[j] in es && chain[j] !in Deleted(es, chain, j) && BucketOf(chain[j]) == i
    ensures forall k :: k in es && BucketOf(k) != i ==> k in Deleted(es, chain, j) && Deleted(es, chain, j)[k] == es[k]
    ensures forall x :: x in Deleted(es, chain, j) ==> x in es
  {
    assert chain[j] in es && BucketOf(chain[j]) == i;
    assert j > 0 ==> chain[j - 1] in es && BucketOf(chain[j - 1]) == i;
    RemoveFromChain(es, chain, bucket[i], i, j);
    hide IsChain, BucketOf, Without;
  }

  lemma DeleteChained(es: Entries, chains: seq<seq<Key>>, bucket: seq<nat>, i: nat, j: nat)
    requires Chained(es, chains, bucket) && i < BUCKETS && j < |chains[i]|
    ensures Chained(Deleted(es, chains[i], j), chains[i := Without(chains[i], j)],
                    Unheaded(bucket, i, es, chains[i], j))
  {
    var c := chains[i];
    hide BucketOf, IsChain, Without, Deleted;
    assert IsChain(es, c, bucket[i], i);
    DeletedChain(es, c, bucket, i, j);
    WithoutRest(c, j);
    OtherChains(es, Deleted(es, c, j), chains, bucket, i);
    ChainedIf(es, Deleted(es, c, j), chains, chains[i := Without(c, j)], Unheaded(bucket, i, es, c, j), i, c[j]);
  }

  lemma WithoutRest(chain: seq<Key>, j: nat)
    requires j < |chain|
    ensures forall x :: x in chain && x != chain[j] ==> x in Without(chain, j)
  {
    forall x | x in chain && x != chain[j] ensures x in Without(chain, j) {
      var l :| 0 <= l < |chain| && chain[l] == x;
      assert Without(chain, j)[if l < j then l else l - 1] == x;
    }
  }

  lemma DeleteOwned(o: Owners, es: Entries, k: Key)
    requires Owned(o, es) && k in es
    ensures Owned(o - {es[k].keyBlock, es[k].valueBlock, es[k].node}, es - {k})
  {
    var o', es' := o - {es[k].keyBlock, es[k].valueBlock, es[k].node}, es - {k};
    assert Owns(o, k, es[k]);
    OwnedInfo(o, es);
    forall h | h in o' ensures h in o && !(o[h] == NodeOf(k) || o[h] == KeyOf(k) || o[h] == ValueOf(k)) {
      assert OwnedBy(h, o[h], es);
    }
    forall h | h in o' && Concerns(o'[h], {k}) ensures OwnedBy(h, o'[h], es') { assert OwnedBy(h, o[h], es); }
    hide Owned, OwnedBy;
    OwnedFrame(o, o', es, es', {k});
  }

  lemma DeleteStored(b: Heap, o: Owners, es: Entries, k: Key)
    requires Owned(o, es) && Stored(b, es) && k in es && b.Keys == o.Keys
    ensures Stored(b - {es[k].keyBlock, es[k].valueBlock, es[k].node}, es - {k})
  {
    assert Owns(o, k, es[k]);
    hide Owned, Stored, StoredAt;
    StoredFrame(b, b - {es[k].keyBlock, es[k].valueBlock, es[k].node}, o, es, es - {k}, {k});
  }
}
