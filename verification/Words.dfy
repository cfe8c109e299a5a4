/** Sizes of machine words. */
module Words {
  const WORD: nat := 0x1_0000_0000_0000_0000
  const HALF: nat := 0x1_0000_0000

  const SIZE_B: nat := 1
  const SIZE_F: nat := 4
  const SIZE_E: nat := 8
}
