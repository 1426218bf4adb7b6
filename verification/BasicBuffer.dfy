/** The memory of the repository's own JSON parser: pieces cut off blocks from the front, a large piece getting a block
    of its own, and everything given back at once. */
module JsonBuffers {

  /** size bytes from the given offset of a block. */
  datatype Piece = Piece(block: nat, off: nat, size: nat)

  ghost predicate Apart(p: Piece, q: Piece) {
    p.size == 0 || q.size == 0 || p.block != q.block || p.off + p.size <= q.off || q.off + q.size <= p.off
  }

  class JsonBuffer {
    /** The sizes of the blocks taken from the system. */
    var buffPool: seq<nat>
    /** Where the next piece begins: a block and an offset in it. */
    var nowBlock: nat
    var nowOffset: nat
    var leftSize: nat
    const buffSize: nat
    /** Every piece handed out since the last free. */
    ghost var pieces: seq<Piece>

    ghost predicate Valid()
      reads this
    {
      && (leftSize > 0 ==> nowBlock < |buffPool| && nowOffset + leftSize == buffPool[nowBlock])
      && (forall i :: 0 <= i < |pieces| ==> Inside(pieces[i]))
      && (forall i, j :: 0 <= i < j < |pieces| ==> Apart(pieces[i], pieces[j]))
    }

    /** A piece lies in a block, and before what is still to be handed out. */
    ghost predicate Inside(p: Piece)
      reads this
    {
      p.size == 0 ||
      (&& p.block < |buffPool| && p.off + p.size <= buffPool[p.block]
       && (leftSize > 0 && p.block == nowBlock ==> p.off + p.size <= nowOffset))
    }

    constructor (size: nat)
      ensures Valid() && pieces == [] && buffPool == [] && buffSize == size
    {
      buffPool, nowBlock, nowOffset, leftSize, pieces := [], 0, 0, 0, [];
      buffSize := size;
    }

    /** malloc: a piece of its own, apart from every other; a new block only when the rest of the last one is too
        small. */
    method Malloc(size: nat) returns (res: Piece)
      requires Valid()
      modifies this
      ensures Valid() && res.size == size && pieces == old(pieces) + [res]
      ensures forall i :: 0 <= i < |old(pieces)| ==> Apart(old(pieces)[i], res)
      ensures size > 0 ==> res.block < |buffPool| && res.off + size <= buffPool[res.block]
      ensures buffPool == if old(leftSize) >= size then old(buffPool)
                          else old(buffPool) + [if size < buffSize then buffSize else size]
    {
      if leftSize >= size {
        res := Piece(nowBlock, nowOffset, size);
        nowOffset, leftSize := nowOffset + size, leftSize - size;
      } else if size < buffSize {
        res := Piece(|buffPool|, 0, size);
        buffPool := buffPool + [buffSize];
        nowBlock, nowOffset, leftSize := |buffPool| - 1, size, buffSize - size;
      } else {
        res := Piece(|buffPool|, 0, size);
        buffPool := buffPool + [size];
      }
      pieces := pieces + [res];
    }

    /** free: all blocks go back to the system. */
    method Free()
      requires Valid()
      modifies this
      ensures Valid() && pieces == [] && buffPool == []
    {
      buffPool, leftSize, pieces := [], 0, [];
    }
  }
}
