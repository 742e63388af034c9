/** Vocabulary shared by every component model. */
module Prelude {
  datatype Option<+T> = None | Some(value: T)

  type Byte = n: nat | n < 256
  type Bytes = seq<Byte>

  const U32_MAX: nat := 0xFFFF_FFFF
  const U64_MAX: nat := 0xFFFF_FFFF_FFFF_FFFF

  function Min(a: int, b: int): int { if a <= b then a else b }

  function Max(a: int, b: int): int { if a <= b then b else a }
}
