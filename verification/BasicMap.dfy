/** The chained hash map of the repository's own JSON parser: an array of singly linked lists, keyed by two joined
    parts. */
module StrMaps {
  import opened Bytes
  import opened Options
  import H = HashIndex

  /** Every caller's first key part is a 32-bit id. */
  const PART: nat := 4

  /** APHash over one part, which counts its characters from 0 again. */
  function HashPart(h: bv32, part: seq<byte>): bv32
    decreases |part|
  {
    if part == [] then h else H.HashStep(HashPart(h, part[..|part| - 1]), |part| - 1, part[|part| - 1])
  }

  lemma PartStart(h: bv32, part: seq<byte>)
    ensures HashPart(h, part[..0]) == h && part[..|part|] == part
  {
  }

  lemma PartStep(h: bv32, part: seq<byte>, i: nat)
    requires i < |part|
    ensures HashPart(h, part[..i + 1]) == H.HashStep(HashPart(h, part[..i]), i, part[i])
  {
    hide H.HashStep;
    assert part[..i + 1][..i] == part[..i];
  }

  function BucketOf(key: seq<byte>, key1: seq<byte>, arraySize: nat): (b: nat)
    requires arraySize > 0
    ensures b < arraySize
  {
    Reduced(HashPart(HashPart(0, key), key1), arraySize)
  }

  function Reduced(hash: bv32, arraySize: nat): (b: nat)
    requires arraySize > 0
    ensures b < arraySize
  {
    Remainder(hash as nat, arraySize)
  }

  function Remainder(a: nat, n: nat): (r: nat)
    requires n > 0
    ensures r < n
  {
    a % n
  }

  /** The list for a joined key. */
  function Home(joined: seq<byte>, arraySize: nat): (b: nat)
    requires arraySize > 0
    ensures b < arraySize
  {
    if |joined| < PART then 0 else BucketOf(joined[..PART], joined[PART..], arraySize)
  }

  lemma HomeIs(key: seq<byte>, key1: seq<byte>, arraySize: nat)
    requires arraySize > 0 && |key| == PART
    ensures Home(key + key1, arraySize) == BucketOf(key, key1, arraySize)
  {
    assert (key + key1)[..PART] == key && (key + key1)[PART..] == key1;
    hide BucketOf;
  }

  class MapNode {
    const key: seq<byte>
    var data: nat
    var next: MapNode?
    /** Where in the map the node is. */
    ghost const bucket: nat
    ghost const place: nat

    constructor (key: seq<byte>, data: nat, ghost bucket: nat, ghost place: nat)
      ensures this.key == key && this.data == data && next == null && this.bucket == bucket && this.place == place
    {
      this.key, this.data, this.next, this.bucket, this.place := key, data, null, bucket, place;
    }
  }

  /** The last node of list b. */
  ghost predicate IsLast(chains: seq<seq<MapNode>>, b: nat, last: MapNode?) {
    b < |chains| && if chains[b] == [] then last == null else last == chains[b][|chains[b]| - 1]
  }

  /** An earlier state of a map. */
  datatype Past = Past(heads: seq<MapNode?>, chains: seq<seq<MapNode>>, node: map<seq<byte>, MapNode>,
    nodes: set<MapNode>,
                       next: map<MapNode, MapNode?>, data: map<MapNode, nat>) {
    ghost predicate Chain(b: nat) {
      b < |heads| && b < |chains| && heads[b] == (if chains[b] == [] then null else chains[b][0])
    }

    ghost predicate Linked(arraySize: nat, b: nat, i: nat) {
      && arraySize > 0 && b < |chains| && i < |chains[b]|
      && var n := chains[b][i];
         && n in nodes && n.bucket == b && n.place == i && Home(n.key, arraySize) == b && n.key in node
           && node[n.key] == n
         && n in next && next[n] == (if i + 1 < |chains[b]| then chains[b][i + 1] else null)
    }

    ghost predicate Placed(k: seq<byte>) {
      && k in node && node[k] in nodes && node[k] in data && node[k].key == k
      && node[k].bucket < |chains| && node[k].place < |chains[node[k].bucket]|
      && chains[node[k].bucket][node[k].place] == node[k]
    }

    ghost predicate Sound(arraySize: nat) {
      && arraySize > 0 && |heads| == arraySize == |chains|
      && (forall b :: 0 <= b < arraySize ==> Chain(b))
      && (forall b, i :: 0 <= b < arraySize && 0 <= i < |chains[b]| ==> Linked(arraySize, b, i))
      && (forall k :: k in node ==> Placed(k))
    }

    ghost function Table(): map<seq<byte>, nat>
      requires forall k :: k in node ==> node[k] in data
    {
      map k | k in node :: data[node[k]]
    }
  }

  class JsonStrMap {
    const arraySize: nat
    const hashArray: array<MapNode?>
    /** The list hanging at each place of the array. */
    ghost var chains: seq<seq<MapNode>>
    /** The node of each key, and all of them. */
    ghost var node: map<seq<byte>, MapNode>
    ghost var nodes: set<MapNode>

    ghost predicate Valid()
      reads this, hashArray, nodes
    {
      && arraySize > 0 && hashArray.Length == arraySize == |chains|
      && (forall b :: 0 <= b < arraySize ==> Chain(b))
      && (forall b, i :: 0 <= b < arraySize && 0 <= i < |chains[b]| ==> Linked(b, i))
      && (forall k :: k in node ==> Placed(k))
    }

    ghost predicate Chain(b: nat)
      reads this, hashArray
    {
      && b < hashArray.Length && b < |chains|
      && hashArray[b] == (if chains[b] == [] then null else chains[b][0])
    }

    /** The i-th node of list b, and its link to the next one. */
    ghost predicate Linked(b: nat, i: nat)
      reads this, nodes
    {
      && arraySize > 0 && b < |chains| && i < |chains[b]|
      && var n := chains[b][i];
         && n in nodes && n.bucket == b && n.place == i && Home(n.key, arraySize) == b && n.key in node
           && node[n.key] == n
         && n.next == (if i + 1 < |chains[b]| then chains[b][i + 1] else null)
    }

    ghost predicate Placed(k: seq<byte>)
      reads this, nodes
    {
      k in node && node[k] in nodes && node[k].key == k
      && node[k].bucket < |chains| && node[k].place < |chains[node[k].bucket]|
      && chains[node[k].bucket][node[k].place] == node[k]
    }

    /** What the map holds. */
    ghost function Contents(): map<seq<byte>, nat>
      reads this, nodes
      requires forall k :: k in node ==> node[k] in nodes
    {
      map k | k in node :: node[k].data
    }

    ghost function Table(): map<seq<byte>, nat>
      reads this, hashArray, nodes
      requires Valid()
    {
      Contents()
    }

    constructor (size: nat)
      requires size > 0
      ensures Valid() && fresh(hashArray) && nodes == {} && Table() == map[]
    {
      arraySize := size;
      hashArray := new MapNode?[size](i => null);
      chains := seq<seq<MapNode>>(size, i => []);
      node, nodes := map[], {};
    }

    /** APHash. */
    method ApHash(key: seq<byte>, key1: seq<byte>) returns (index: nat)
      requires arraySize > 0
      ensures index == BucketOf(key, key1, arraySize)
    {
      hide H.HashStep, HashPart, Reduced;
      var hash: bv32 := 0;
      PartStart(0, key);
      var i := 0;
      while i < |key|
        invariant i <= |key| && hash == HashPart(0, key[..i])
      {
        PartStep(0, key, i);
        hash := H.HashStep(hash, i, key[i]);
        i := i + 1;
      }
      PartStart(hash, key1);
      i := 0;
      while i < |key1|
        invariant i <= |key1| && hash == HashPart(HashPart(0, key), key1[..i])
      {
        PartStep(HashPart(0, key), key1, i);
        hash := H.HashStep(hash, i, key1[i]);
        i := i + 1;
      }
      index := Reduced(hash, arraySize);
    }

    lemma InItsList(k: seq<byte>, b: nat)
      requires Valid() && b < arraySize && b == Home(k, arraySize)
      ensures k in node ==> exists i :: 0 <= i < |chains[b]| && chains[b][i].key == k
    {
      if k in node {
        assert Placed(k);
        assert Linked(node[k].bucket, node[k].place);
      }
    }

    /** find. */
    method Find(key: seq<byte>, key1: seq<byte>) returns (r: Option<nat>)
      requires Valid() && |key| == PART
      ensures r == if key + key1 in Table() then Some(Table()[key + key1]) else None
    {
      hide BucketOf, Home;
      var index := ApHash(key, key1);
      HomeIs(key, key1, arraySize);
      var bucket := hashArray[index];
      var joined := key + key1;
      ghost var i := 0;
      assert Chain(index);
      while bucket != null
        invariant i <= |chains[index]| && bucket == (if i < |chains[index]| then chains[index][i] else null)
        invariant forall j :: 0 <= j < i ==> chains[index][j].key != joined
        decreases |chains[index]| - i
      {
        assert Linked(index, i);
        if |bucket.key| == |joined| && bucket.key == joined {
          return Some(bucket.data);
        }
        bucket := bucket.next;
        i := i + 1;
      }
      InItsList(joined, index);
      return None;
    }

    /** The node with the key is given new data. */
    method Overwrite(n: MapNode, data: nat)
      requires Valid() && n.key in node && node[n.key] == n
      modifies nodes
      ensures Valid() && unchanged(hashArray) && Table() == old(Table())[n.key := data]
    {
      hide Home;
      assert Placed(n.key);
      n.data := data;
      forall b | 0 <= b < arraySize ensures Chain(b) { assert old(Chain(b)); }
      forall b, i | 0 <= b < arraySize && 0 <= i < |chains[b]| ensures Linked(b, i) { assert old(Linked(b, i)); }
      forall k | k in node ensures Placed(k) { assert old(Placed(k)); }
    }

    /** The state of the map, to look back at. */
    ghost function Now(): Past
      reads this, hashArray, nodes
    {
      Past(hashArray[..], chains, node, nodes, map m: MapNode | m in nodes :: m.next,
        map m: MapNode | m in nodes :: m.data)
    }

    /** Only a new node and the link to it have been added. */
    ghost predicate Grown(p: Past, index: nat, last: MapNode?, n: MapNode, joined: seq<byte>)
      reads this, hashArray, nodes
    {
      && index < |p.chains| && chains == p.chains[index := p.chains[index] + [n]]
      && node == p.node[joined := n] && nodes == p.nodes + {n} && n !in p.nodes
      && n.key == joined && n.next == null && n.bucket == index && n.place == |p.chains[index]|
      && |p.heads| == hashArray.Length && p.next.Keys == p.data.Keys == p.nodes
      && (forall b :: 0 <= b < |p.heads| ==> hashArray[b] == if b == index && last == null then n else p.heads[b])
      && (forall m :: m in p.nodes ==> m.data == p.data[m] && m.next == if m == last then n else p.next[m])
    }

    /** The new node, and the link to it. */
    method Link(index: nat, last: MapNode?, joined: seq<byte>, data: nat) returns (n: MapNode)
      requires index < |chains| && index < hashArray.Length && (last != null ==> last in nodes)
      modifies this, hashArray, nodes
      ensures fresh(n) && n.data == data && Grown(old(Now()), index, last, n, joined)
    {
      n := new MapNode(joined, data, index, |chains[index]|);
      assert n !in nodes;
      if last == null {
        hashArray[index] := n;
      } else {
        last.next := n;
      }
      chains := chains[index := chains[index] + [n]];
      node := node[joined := n];
      nodes := nodes + {n};
      assert forall b :: 0 <= b < hashArray.Length ==>
        hashArray[b] == if b == index && last == null then n else old(hashArray[b]);
      assert forall m :: m in old(nodes) ==> m.data == old(m.data) && m.next == if m == last then n else old(m.next);
    }

    lemma NowSound()
      requires Valid()
      ensures var p := Now(); p.Sound(arraySize) && Table() == p.Table() && |p.heads| == hashArray.Length
    {
      var p := Now();
      hide Home;
      forall b | 0 <= b < arraySize ensures p.Chain(b) { assert Chain(b); }
      forall b, i | 0 <= b < arraySize && 0 <= i < |chains[b]|
        ensures p.Linked(arraySize, b, i) { assert Linked(b, i); }
      forall k | k in node ensures p.Placed(k) { assert Placed(k); }
    }

    lemma GrownChain(p: Past, index: nat, last: MapNode?, n: MapNode, joined: seq<byte>, b: nat)
      requires Grown(p, index, last, n, joined) && p.Chain(b) && IsLast(p.chains, index, last)
      ensures Chain(b)
    {
    }

    lemma GrownLinked(p: Past, index: nat, last: MapNode?, n: MapNode, joined: seq<byte>, b: nat, i: nat)
      requires Grown(p, index, last, n, joined) && p.Linked(arraySize, b, i) && joined !in p.node
        && IsLast(p.chains, index, last)
      requires last != null ==> p.Linked(arraySize, index, |p.chains[index]| - 1)
      ensures Linked(b, i)
    {
      hide Home;
    }

    lemma GrownNew(p: Past, index: nat, last: MapNode?, n: MapNode, joined: seq<byte>)
      requires Grown(p, index, last, n, joined) && arraySize > 0 && index == Home(joined, arraySize)
      ensures Linked(index, |p.chains[index]|) && Placed(joined)
    {
      hide Home;
    }

    lemma GrownPlaced(p: Past, index: nat, last: MapNode?, n: MapNode, joined: seq<byte>, k: seq<byte>)
      requires Grown(p, index, last, n, joined) && p.Placed(k) && k != joined
      ensures Placed(k) && node[k].data == p.data[p.node[k]]
    {
    }

    /** Growing keeps the map well formed and adds one entry. */
    lemma GrownValid(p: Past, index: nat, last: MapNode?, n: MapNode, joined: seq<byte>)
      requires p.Sound(arraySize) && Grown(p, index, last, n, joined) && joined !in p.node
      requires IsLast(p.chains, index, last) && index == Home(joined, arraySize)
      ensures Valid()
    {
      assert |p.chains| == arraySize == hashArray.Length && node == p.node[joined := n];
      assert forall b :: 0 <= b < arraySize ==> |chains[b]| == |p.chains[b]| + if b == index then 1 else 0;
      hide Home, Chain, Linked, Placed, Grown, Past.Chain, Past.Linked, Past.Placed;
      forall b | 0 <= b < arraySize ensures Chain(b) {
        assert p.Chain(b);
        GrownChain(p, index, last, n, joined, b);
      }
      GrownNew(p, index, last, n, joined);
      forall b, i | 0 <= b < arraySize && 0 <= i < |chains[b]| ensures Linked(b, i) {
        if i < |p.chains[b]| {
          assert p.Linked(arraySize, b, i);
          GrownLinked(p, index, last, n, joined, b, i);
        }
      }
      forall k | k in p.node ensures Placed(k) {
        assert p.Placed(k);
        GrownPlaced(p, index, last, n, joined, k);
      }
    }

    lemma GrownTable(p: Past, index: nat, last: MapNode?, n: MapNode, joined: seq<byte>)
      requires p.Sound(arraySize) && Grown(p, index, last, n, joined) && joined !in p.node && Valid()
      ensures nodes == p.nodes + {n} && Table() == p.Table()[joined := n.data]
    {
      hide Home, Chain, Linked, Past.Chain, Past.Linked;
      forall k | k in p.node ensures Placed(k) && node[k].data == p.data[p.node[k]] {
        assert p.Placed(k);
        GrownPlaced(p, index, last, n, joined, k);
      }
    }

    /** A new node for a key not in the map goes behind the last one of its list. */
    method Append(index: nat, last: MapNode?, joined: seq<byte>, data: nat)
      requires Valid() && joined !in node && index < arraySize && index == Home(joined, arraySize)
      requires IsLast(chains, index, last)
      modifies this, hashArray, nodes
      ensures Valid() && fresh(nodes - old(nodes)) && Table() == old(Table())[joined := data]
    {
      assert last != null ==> Linked(index, |chains[index]| - 1);
      assert last != null ==> last in nodes;
      assert |chains| == hashArray.Length == arraySize;
      ghost var p := Now();
      NowSound();
      NowParts();
      hide *;
      var n := Link(index, last, joined, data);
      GrownValid(p, index, last, n, joined);
      GrownTable(p, index, last, n, joined);
    }

    lemma NowParts()
      ensures var p := Now(); p.chains == chains && p.node == node && p.nodes == nodes
    {
    }

    /** add: a new key goes to the end of its list, an old one gets new data. */
    method Add(key: seq<byte>, key1: seq<byte>, data: nat)
      requires Valid() && |key| == PART
      modifies this, hashArray, nodes
      ensures Valid() && fresh(nodes - old(nodes)) && Table() == old(Table())[key + key1 := data]
    {
      hide BucketOf, Home;
      var index := ApHash(key, key1);
      HomeIs(key, key1, arraySize);
      var joined := key + key1;
      ghost var i := 0;
      assert Chain(index);
      var bucket := hashArray[index];
      if bucket == null {
        InItsList(joined, index);
        Append(index, null, joined, data);
        return;
      }
      assert Linked(index, i);
      while bucket.next != null
        invariant i < |chains[index]| && bucket == chains[index][i] && Linked(index, i)
        invariant forall j :: 0 <= j < i ==> chains[index][j].key != joined
        decreases |chains[index]| - i
      {
        if |bucket.key| == |joined| && bucket.key == joined {
          Overwrite(bucket, data);
          return;
        }
        bucket := bucket.next;
        i := i + 1;
        assert Linked(index, i);
      }
      if |bucket.key| == |joined| && bucket.key == joined {
        Overwrite(bucket, data);
        return;
      }
      InItsList(joined, index);
      Append(index, bucket, joined, data);
    }

    /** free: every list is dropped. */
    method Free()
      requires Valid()
      modifies this, hashArray
      ensures Valid() && nodes == {} && Table() == map[]
    {
      forall b | 0 <= b < hashArray.Length { hashArray[b] := null; }
      chains := seq<seq<MapNode>>(arraySize, i => []);
      node, nodes := map[], {};
      hide Home;
      forall b | 0 <= b < arraySize ensures Chain(b) {}
    }
  }
}
