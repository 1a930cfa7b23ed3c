// Types and constants shared by all modules.
module Basics {
  type Byte = n: nat | n < 256

  datatype Option<+T> = None | Some(value: T)

  const TWO_TO_THE_16: nat := 0x1_0000
  const TWO_TO_THE_32: nat := 0x1_0000_0000
  const TWO_TO_THE_64: nat := 0x1_0000_0000_0000_0000
}
