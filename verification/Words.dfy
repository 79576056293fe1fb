/** The machine's sizes: bytes, words and pages. */
module Words {

  type Byte = b: nat | b < 256

  const U32: nat := 0x1_0000_0000
  const U64: nat := 0x1_0000_0000_0000_0000
  const PAGE_SIZE: nat := 4096
}
