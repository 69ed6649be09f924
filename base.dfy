/** Machine types shared by the model: bytes, unsigned 32-bit integers and an option type. */
module Base {

  /** An octet, as written to the output sink. */
  type byte = b: int | 0 <= b < 0x100

  /** Rust's `u32`: the type of `max_repeat` and of the repetition bounds. */
  const U32_LIMIT: int := 0x1_0000_0000
  type u32 = x: int | 0 <= x < U32_LIMIT

  datatype Option<+T> = None | Some(value: T)

  /** A half-open interval `lo..hi`, the argument form of Rust's `gen_range(lo, hi)`. */
  datatype Interval = Interval(lo: int, hi: int) {
    predicate Contains(n: int) {
      lo <= n < hi
    }
  }
}
