// Small helper datatypes shared by the engine model.
module Wrappers {
  /** A value that may be absent; stands for a C pointer that may be null. */
  datatype Option<T> = None | Some(value: T)

  /** The 32-bit maximum that the engine uses as INVALID_ID. */
  const INVALID_ID: nat := 0xFFFF_FFFF

  const U32_LIMIT: nat := 0x1_0000_0000
  const U64_LIMIT: nat := 0x1_0000_0000_0000_0000

  predicate IsU32(x: int) { 0 <= x < U32_LIMIT }
  predicate IsU64(x: int) { 0 <= x < U64_LIMIT }
}
