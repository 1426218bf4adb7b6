/** The files byte by byte: where each field of a stored structure lies, and in which order its bytes. */
module FileFormats {
  import opened Bytes
  import opened BlockIndex
  import opened BlockRuns
  import opened Disk
  import opened HashIndex

  /** The bytes of a word, the least significant one first. */
  lemma {:induction false} LEByte(n: nat, x: nat, k: nat)
    requires k < n
    ensures Pow256(k) > 0 && LE(n, x)[k] == x / Pow256(k) % 256
    decreases k
  {
    if k > 0 {
      LEByte(n - 1, x / 256, k - 1);
      Quotients(x, Pow256(k - 1));
      LEUnfold(n, x);
      PowUnfold(k);
    }
    hide LE, Pow256;
  }

  lemma LEUnfold(n: nat, x: nat)
    requires n > 0
    ensures LE(n, x) == [x % 256] + LE(n - 1, x / 256)
  {
  }

  lemma PowUnfold(k: nat)
    requires k > 0
    ensures Pow256(k) == 256 * Pow256(k - 1)
  {
  }

  lemma Quotients(x: nat, d: nat)
    requires d > 0
    ensures x / 256 / d == x / (256 * d)
  {
    var q, r := x / 256 / d, x / 256 % d;
    var s := x % 256;
    assert x == 256 * (q * d + r) + s;
    assert 256 * r + s < 256 * d;
    assert x == 256 * d * q + (256 * r + s);
    Quotient(x, 256 * d, q, 256 * r + s);
  }

  lemma Quotient(x: nat, d: nat, q: nat, r: nat)
    requires d > 0 && r < d && x == d * q + r
    ensures x / d == q
  {
    var k := x / d - q;
    assert d * k == d * (x / d) - d * q;
    assert 0 - d < d * k < d;
    Product(d, k);
  }

  lemma Product(d: nat, k: int)
    ensures k >= 1 ==> d * k >= d
    ensures k <= -1 ==> d * k <= 0 - d
  {
  }

  lemma ByteSizes()
    ensures Pow256(0) == 1 && Pow256(1) == 0x100 && Pow256(2) == 0x1_0000 && Pow256(3) == 0x100_0000
  {
  }

  /** The four bytes of a 32-bit word. */
  lemma LE4(x: nat)
    ensures LE(4, x) == [x % 256, x / 0x100 % 256, x / 0x1_0000 % 256, x / 0x100_0000 % 256]
  {
    ByteSizes();
    LEByte(4, x, 0);
    LEByte(4, x, 1);
    LEByte(4, x, 2);
    LEByte(4, x, 3);
    hide LE, Pow256;
  }

  /** A block's header: at 0 the 8 bytes of its offset, at 8 the 4 bytes of its length, at 12 whether it is free. */
  lemma HeaderBytes(b: StorageBlock)
    ensures var e := EncodeBlock(b);
      && |e| == 16 && e[..8] == LE(8, b.begin) && e[8..12] == LE(4, b.len)
      && e[12] == (if b.state.WaitMergerBlock? then 1 else 0) && e[13..] == [0, 0, 0]
  {
    LE4(if b.state.WaitMergerBlock? then 1 else 0);
    hide LE;
    assert EncodeBlock(b)[12..] == LE(4, if b.state.WaitMergerBlock? then 1 else 0);
    assert EncodeBlock(b)[12..][1..] == EncodeBlock(b)[13..];
  }

  /** The head of a file: at 0 the mark, at 16 where the last block ends, and the first block at 24. */
  lemma HeadBytes(f: seq<byte>, fileEnd: nat)
    requires HeadOk(f, fileEnd)
    ensures |f| >= 24 && f[16..24] == LE(8, fileEnd)
    ensures f[..12] == [0x2A, 0x2A, 0x4C, 0x59, 0x57, 0x5F, 0x43, 0x4F, 0x44, 0x45, 0x2A, 0x2A] // "**LYW_CODE**"
  {
    RegionIs(f, 0, 12);
    RegionIs(f, 16, 8);
    hide Region, LE;
  }

  lemma RegionIs(f: seq<byte>, off: nat, n: nat)
    requires off + n <= |f|
    ensures Region(f, off, n) == f[off..off + n]
  {
  }

  /** A node: the handles of its key, its value and the next node, 8 bytes each. */
  lemma NodeBytes(n: DataNode)
    ensures var s := EncodeNode(n);
      |s| == 24 && s[..8] == LE(8, n.key) && s[8..16] == LE(8, n.value) && s[16..] == LE(8, n.nextBlock)
  {
    hide LE;
  }

  /** The map info: at 16 the handle of the bucket array, at 24 the number of buckets, at 32 that of the keys. */
  lemma InfoBytes(m: MapInfo)
    requires |m.verifyInfo| == 16 && |m.padding| == 4
    ensures var s := EncodeInfo(m);
      && |s| == 40 && s[..16] == m.verifyInfo && s[16..24] == LE(8, m.bucket)
      && s[24..28] == LE(4, m.bucketSize) && s[32..] == LE(8, m.size)
  {
    hide LE;
  }

  /** Bucket i of the array is 8 bytes at 8 * i. */
  lemma {:induction false} BucketBytes(b: seq<nat>, i: nat)
    requires i < |b|
    ensures 8 * i + 8 <= |EncodeBuckets(b)| && EncodeBuckets(b)[8 * i..8 * i + 8] == LE(8, b[i])
    decreases i
  {
    var s, rest := EncodeBuckets(b), EncodeBuckets(b[1..]);
    assert s == LE(8, b[0]) + rest;
    if i > 0 {
      BucketBytes(b[1..], i - 1);
      assert s[8 * i..8 * i + 8] == rest[8 * (i - 1)..8 * (i - 1) + 8];
    }
    hide LE, EncodeBuckets;
  }

  // ---------- the hash ----------

  lemma HashOfNone()
    ensures HashOf([]) == 0
  {
  }

  lemma HashOfMore(key: seq<byte>, c: byte)
    ensures HashOf(key + [c]) == HashStep(HashOf(key), |key|, c)
  {
    assert (key + [c])[..|key|] == key;
    hide HashStep;
  }

  /** The hashes of "a", "ab" and "abc", and of the byte E4 alone and behind an "a", which is negative as a char. */
  lemma HashExamples()
    ensures HashOf([0x61]) == 0x61 && HashOf([0x61, 0x62]) == 0xFFFC_F7FF
    ensures HashOf([0x61, 0x62, 0x63]) == 0x1E78_96E3
    ensures HashOf([0xE4]) == 0xFFFF_FFE4 && HashOf([0x61, 0xE4]) == 0x0003_0879
  {
    HashOfNone();
    HashOfMore([], 0x61);
    HashOfMore([0x61], 0x62);
    HashOfMore([0x61, 0x62], 0x63);
    HashOfMore([], 0xE4);
    HashOfMore([0x61], 0xE4);
    assert [] + [0x61 as byte] == [0x61] && [] + [0xE4 as byte] == [0xE4];
    assert [0x61] + [0x62 as byte] == [0x61, 0x62] && [0x61] + [0xE4 as byte] == [0x61, 0xE4];
    assert [0x61, 0x62] + [0x63 as byte] == [0x61, 0x62, 0x63];
    hide HashOf;
  }
}
