/** Small shared vocabulary: Rust's `u64` and `Option`. */
module Common {

  /** Rust's `u64`: the ids of news items and of Discord channels. */
  type U64 = x: int | 0 <= x < 0x1_0000_0000_0000_0000

  /** Rust's `Option<T>`. */
  datatype Option<T> = None | Some(value: T)
}
