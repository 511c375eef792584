// The C integer types used below, as ranges of numbers, and optional values.
module Types {
  type u8 = x: nat | x < 0x100
  type u16 = x: nat | x < 0x1_0000
  type u32 = x: nat | x < 0x1_0000_0000
  type u64 = x: nat | x < 0x1_0000_0000_0000_0000

  type Byte = u8

  datatype Option<T> = None | Some(value: T)
}
