/** Sizes that all parts of the kernel share. */
module Units {
  const WORD: nat := 64                        // bits in a word
  const HALF: nat := 32                        // and in half a word
  const W32: nat := 0x1_0000_0000              // numbers of 32 bits
  const W64: nat := 0x1_0000_0000_0000_0000    // numbers of 64 bits, and addresses
  const PAGE: nat := 4096                      // of a page, and of a frame
  const PAGE_BITS: nat := 12
}
