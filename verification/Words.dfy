/** Machine words as bounded natural numbers, and the outcome of an operation that can fail. */
module Words {
  type u8 = x: nat | x < 0x100
  type u16 = x: nat | x < 0x1_0000
  type u32 = x: nat | x < 0x1_0000_0000
  type u64 = x: nat | x < 0x1_0000_0000_0000_0000
  type u128 = x: nat | x < 0x1_0000_0000_0000_0000_0000_0000_0000_0000

  const MAX64: nat := 0x1_0000_0000_0000_0000

  /** Failures of the readers and writers; `Overflow` stands for an arithmetic panic. */
  datatype IoError = UnexpectedEof | TooManyBits | NonMinimalVarInt | Overflow

  datatype Result<+T, +E> = Ok(value: T) | Err(error: E)

  datatype Option<+T> = None | Some(value: T)
}
