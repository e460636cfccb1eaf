module Words {
  /** A 32-bit unsigned integer. */
  type Word = w: nat | w < 0x1_0000_0000
}
