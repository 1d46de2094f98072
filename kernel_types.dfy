/**
 * Fixed-width integers and the small result types the kernel's routines
 * share.
 */
module KernelTypes {

  const TWO_TO_64: int := 0x1_0000_0000_0000_0000

  type U8 = x: int | 0 <= x < 0x100
  type U16 = x: int | 0 <= x < 0x1_0000
  type U32 = x: int | 0 <= x < 0x1_0000_0000
  /** A `uintptr_t` / `uint64_t` value. */
  type U64 = x: int | 0 <= x < TWO_TO_64

  datatype Option<T> = None | Some(value: T)

  /** The kernel's Error value: success, or a failure with its code. */
  datatype Error = Success | Failure(code: nat)
}
