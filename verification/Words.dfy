/** The 32-bit machine words of the C sources. */
module Words {
  const WORD: nat := 0x1_0000_0000

  /** The C type `unsigned`. */
  type Word = x: nat | x < 0x1_0000_0000
}
