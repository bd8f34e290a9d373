/** The sizes of merkletree.h, and the range of a C int. */
module Params {
  const HASH_SIZE: nat := 256
  const PAGE_LENGTH: nat := 65536
  const INT_LIMIT: nat := 0x8000_0000

  /** The characters that fit into the memory of a leaf: 2 * PAGE_LENGTH times the size of a char *, 8,
      without the terminating NUL. */
  type LeafString = s: string | |s| < 8 * 2 * PAGE_LENGTH

  /** A C int: an expression that leaves this range is undefined behaviour. */
  type Int = n: int | -0x8000_0000 <= n < 0x8000_0000
}
