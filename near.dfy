/**
 * The pieces of the NEAR runtime and of near_sdk that the StatusMessage
 * contract stands on, reduced to what the contract observes of them.
 */
module Near {

  /** The three durable regions the contract's collections live in.
      The byte encoding of the tags is left out: only their distinctness matters. */
  datatype StorageKey = Records | UniqueValues | UniqueValuesSet

  /** Rust's `Option`, as returned by `get_status` and held by a `LazyOption`. */
  datatype Option<T> = None | Some(value: T)

  /** Rust's `u32`, the type of `other_business_field`. */
  type U32 = x: int | 0 <= x < 0x1_0000_0000

  /** Two regions are told apart by their tags alone. */
  predicate PairwiseDistinct(a: StorageKey, b: StorageKey, c: StorageKey)
  {
    a != b && b != c && a != c
  }
}
