/**
 * Limits, shared value types and error codes of the speed_bump module
 * (src/speed_bump.h and the errno values the module returns).
 */
module SpeedBump {

  /** Configuration limits (src/speed_bump.h). */
  const MAX_TARGETS := 64
  const MAX_PATH_LEN := 256
  const MAX_SYMBOL_LEN := 128
  const MAX_LINE_LEN := 512
  const MAX_DELAY_NS := 10_000_000_000
  const DEFAULT_DELAY_NS := 1_000_000

  const U64_MODULUS := 0x1_0000_0000_0000_0000

  /** An unsigned 64-bit quantity (u64, or the bit pattern of an atomic64_t). */
  type u64 = x: int | 0 <= x < 0x1_0000_0000_0000_0000

  /** Addition of two 64-bit counters, wrapping around as the hardware does. */
  function WrapAdd(a: u64, b: u64): (r: u64)
    ensures a + b < U64_MODULUS ==> r == a + b
    ensures a + b >= U64_MODULUS ==> r == a + b - U64_MODULUS
  {
    (a + b) % U64_MODULUS
  }

  /** A signed 64-bit quantity (loff_t, long long). */
  type i64 = x: int | -0x8000_0000_0000_0000 <= x < 0x8000_0000_0000_0000

  /** A 64-bit bit pattern read as two's complement, as a u64 stored into a signed 64-bit variable is. */
  function Signed64(v: u64): (r: i64)
    ensures r == v || r == v - U64_MODULUS
    ensures r >= 0 <==> v < 0x8000_0000_0000_0000
    ensures r == 0 <==> v == 0
  {
    if v < 0x8000_0000_0000_0000 then v else v - U64_MODULUS
  }

  /** Linux errno values used by the module and its control tool. */
  const ENOENT := 2
  const ENOMEM := 12
  const EEXIST := 17
  const EINVAL := 22
  const ENOSPC := 28
  const ERANGE := 34
  const ENAMETOOLONG := 36

  datatype Option<T> = None | Some(value: T)

  /** A value, or the negative errno a kernel function returns instead. */
  datatype Result<T> = Ok(value: T) | Err(code: int)
}
