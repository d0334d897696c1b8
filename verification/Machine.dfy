/** The sizes of the i686 machine. */
module Machine {
  const PAGE := 4096                      // bytes of a page
  const WORD_LIMIT := 0x1_0000_0000       // 32-bit words and addresses lie below
}
