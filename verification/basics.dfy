/** Value types shared by the whole model: bytes, Java's 64-bit `long`,
    and the optional / fallible result shapes that stand in for `null`
    and for thrown exceptions. */
module Basics {

  newtype byte = x: int | 0 <= x < 256

  /** A Java `byte[]`. */
  type Bytes = seq<byte>

  const I64_MIN: int := -0x8000_0000_0000_0000
  const I64_MAX: int := 0x7FFF_FFFF_FFFF_FFFF

  /** A Java `long`. */
  newtype i64 = x: int | -0x8000_0000_0000_0000 <= x <= 0x7FFF_FFFF_FFFF_FFFF

  /** A reference that may be `null`. */
  datatype Option<+T> = None | Some(value: T)

  /** A call that either returns a value or throws the error `error`. */
  datatype Result<+T, +E> = Ok(value: T) | Err(error: E)

  predicate StartsWith(s: Bytes, prefix: Bytes) {
    |prefix| <= |s| && s[..|prefix|] == prefix
  }
}
