/** The fixed parameters of the compressed format and the ways a call can fail. */
module Format {
  import opened Bits

  const BITS_PER_WORD: nat := 8
  const BITS_PER_INT: nat := 32
  /** 1 << BITS_PER_WORD: the number of byte values. */
  const ALPH_SIZE: nat := 256
  /** The synthetic end-of-stream symbol, one past the last byte value. */
  const PSEUDO_EOF: int := ALPH_SIZE
  /** HUFF_NUMBER and HUFF_TREE as unsigned 32-bit patterns. */
  const HUFF_NUMBER: int := 0xface8200
  /** The magic number that starts every tree-framed compressed stream:
      HUFF_NUMBER | 1, which adds 1 as the low bit of HUFF_NUMBER is clear. */
  const HUFF_TREE: int := HUFF_NUMBER + 1

  /** Why a decompression is abandoned: a HuffException, or a null child
      dereferenced when the tree's root is a single leaf. */
  datatype HuffError =
    | IllegalHeader(found: int)   // the first 32 bits are not HUFF_TREE
    | HeaderEndOfData             // a tag bit of the tree header could not be read
    | NoPseudoEof                 // the body ended before a PSEUDO_EOF leaf
    | NullChild                   // the walk stepped below a leaf root

  datatype Option<+T> = None | Some(value: T)

  datatype Result<+T> = Ok(value: T) | Fail(error: HuffError)

  /** The powers of two a byte and a header leaf value span. */
  lemma WordPowers()
    ensures Pow2(BITS_PER_WORD) == ALPH_SIZE
    ensures Pow2(BITS_PER_WORD + 1) == 512
  {
  }

  /** The power of two a 32-bit int spans. */
  lemma IntPowers()
    ensures Pow2(BITS_PER_INT) == 0x1_0000_0000
  {
    assert Pow2(8) == 256;
    Pow2Add(8, 8);
    assert Pow2(16) == 65536;
    Pow2Add(16, 16);
  }
}
