/** Rust's `Option<T>` and `Result<T, E>`, the fixed-width unsigned integers, and
    one sequence fact used throughout the model. */
module Wrappers {

  datatype Option<+T> = None | Some(value: T)

  datatype Result<+T, +E> = Success(value: T) | Failure(error: E)

  /** Fixed-width unsigned integers of the source, as subset types of `int`. */
  type u8 = b: int | 0 <= b < 0x100
  type u16 = n: int | 0 <= n < 0x1_0000
  type u32 = n: int | 0 <= n < 0x1_0000_0000

  /** Concatenation regroups freely; stated once so that long proofs can cite it
      instead of rediscovering it. */
  lemma AppendAssociative<T>(a: seq<T>, b: seq<T>, c: seq<T>)
    ensures a + b + c == a + (b + c)
  {
  }
}
