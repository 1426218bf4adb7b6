/** Unsigned machine words: arithmetic that wraps. */
module Words {
  const WORD: nat := 0x1_0000_0000                 // of unsigned int
  const TWO64: nat := 0x1_0000_0000_0000_0000      // of unsigned long and uint64_t

  function U32(x: int): (r: nat)
    ensures r < WORD
    ensures 0 <= x < WORD ==> r == x
  {
    x % WORD
  }

  function U64(x: int): (r: nat)
    ensures r < TWO64
    ensures 0 <= x < TWO64 ==> r == x
    ensures TWO64 <= x < 2 * TWO64 ==> r == x - TWO64
  {
    x % TWO64
  }
}
