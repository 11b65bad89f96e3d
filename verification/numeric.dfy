/**
  Shared vocabulary: the unsigned 32-bit integers the program stores, and the
  error outcomes of operations that throw in BitonicSortGPU.
*/
module Numeric {

  /** 2^32: one more than the largest `uint`. */
  const TwoTo32: nat := 0x1_0000_0000

  /** An unsigned 32-bit integer (`uint`). */
  type u32 = x: nat | x < TwoTo32

  /** The exceptions an operation of the model can end in. */
  datatype Error =
    | NegativeSize      // `new uint[size]` with size < 0
    | SourceTooShort    // `Array.Copy` asked for more elements than the source holds
    | DivideByZero      // `% modulus` with modulus == 0

  datatype Result<T> = Ok(value: T) | Err(error: Error)
}
