/** The C-level vocabulary the UEFI AvbOps adapter is written in: the
    AvbIOResult codes it returns and the fixed-width integer types whose
    wrap-around its range arithmetic depends on. */
module AvbIo {

  const TWO_TO_THE_32: int := 0x1_0000_0000
  const TWO_TO_THE_63: int := 0x8000_0000_0000_0000
  const TWO_TO_THE_64: int := 0x1_0000_0000_0000_0000

  /** uint32_t (the media's BlockSize), uint64_t (LBAs, size_t on a 64-bit
      UEFI target, partition sizes) and int64_t (partition-relative offsets). */
  type u32 = x: int | 0 <= x < TWO_TO_THE_32
  type u64 = x: int | 0 <= x < TWO_TO_THE_64
  type i64 = x: int | -TWO_TO_THE_63 <= x < TWO_TO_THE_63

  /** The AvbIOResult values this adapter can return. */
  datatype IoResult =
    | Ok
    | ErrorOom
    | ErrorIo
    | ErrorNoSuchPartition
    | ErrorRangeOutsidePartition

  datatype Option<T> = None | Some(value: T)

  /** Reduction modulo 2^64: how unsigned 64-bit arithmetic wraps in C. */
  function Wrap64(x: int): u64
  {
    x % TWO_TO_THE_64
  }

  /** The usual arithmetic conversion of an int64_t operand to uint64_t. */
  function ToUint64(x: i64): (r: u64)
    ensures 0 <= x ==> r == x
    ensures x < 0 ==> r == x + TWO_TO_THE_64
  {
    Wrap64(x)
  }

  /** Storing a uint64_t into an int64_t variable, two's complement (the
      conversion is implementation-defined for values above INT64_MAX). The
      conversion back to uint64_t recovers the stored value. */
  function ToInt64(x: u64): (r: i64)
    ensures ToUint64(r) == x
    ensures x < TWO_TO_THE_63 <==> r == x
  {
    if x < TWO_TO_THE_63 then x else x - TWO_TO_THE_64
  }
}
