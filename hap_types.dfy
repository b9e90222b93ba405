/** Fixed-width integers, bytes and the error codes shared by the IP accessory protocol codec. */
module HAPTypes {

  /** An unsigned byte. */
  type byte = x: int | 0 <= x < 0x100

  /** The C `uint64_t` used for accessory ids, characteristic ids, TTLs and PIDs. */
  type uint64 = x: int | 0 <= x < 0x1_0000_0000_0000_0000

  /** The C `int32_t` used for status codes and signed integer values. */
  type int32 = x: int | -0x8000_0000 <= x < 0x8000_0000

  /** An IEEE 754 single-precision value, kept as its bit pattern: the codec never computes with it. */
  datatype Float32 = Float32(bits: bv32)

  /** The three outcomes the codec's operations report (`kHAPError_None`, `kHAPError_InvalidData`,
      `kHAPError_OutOfResources`). */
  datatype HAPError = None | InvalidData | OutOfResources

  /** A value or the error that prevented producing it; usable with `:-`. */
  datatype Result<+T> = Ok(value: T) | Err(error: HAPError) {
    predicate IsFailure() {
      Err?
    }

    function PropagateFailure<U>(): Result<U>
      requires Err?
    {
      Err(error)
    }

    function Extract(): T
      requires Ok?
    {
      value
    }
  }
}
