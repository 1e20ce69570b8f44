/** Vocabulary shared by every component model. */
module Basics {

  datatype Option<+T> = None | Some(value: T)

  datatype Result<+T, +E> = Ok(value: T) | Err(error: E)

  /** One byte of a file, a chunk or a UTF-8 string. */
  type byte = b: int | 0 <= b < 256

  const U32_MAX: nat := 0xFFFF_FFFF
  const U64_MAX: nat := 0xFFFF_FFFF_FFFF_FFFF

  function Min(a: int, b: int): int { if a <= b then a else b }

  function Max(a: int, b: int): int { if a <= b then b else a }

  /** `u64::saturating_add(x, 1)`. */
  function SaturatingSucc(x: nat): nat { if x >= U64_MAX then U64_MAX else x + 1 }

  function Sum(s: seq<nat>): nat
  {
    if s == [] then 0 else s[0] + Sum(s[1..])
  }
}
