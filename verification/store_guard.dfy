/** The admission rule of the three `store` commands: refuse a clip that is too large or that
    is nothing but ASCII whitespace. What is measured differs: app/src/commands/store.rs
    measures the payload slice, while src/commands/store.rs and app/src/main.rs apply
    `size_of_val` to the `Vec` itself, which measures its 24-byte header. */
module StoreGuard {
  import opened Machine
  import opened Text

  /** `5e6 as usize`. */
  const FIVE_MEGABYTES: nat := 5_000_000

  /** `size_of_val(&payload)` for a `Vec<u8>` on a 64-bit target: pointer, capacity, length. */
  const VEC_HEADER_SIZE: nat := 24

  /** The guard `measured > FIVE_MEGABYTES || trim(payload).is_empty()`. */
  predicate Refused(measured: nat, payload: seq<Byte>) {
    measured > FIVE_MEGABYTES || |Trim(payload)| == 0
  }

  /** Measuring the slice: a payload is refused exactly when it exceeds 5,000,000 bytes or is
      empty or all whitespace. */
  lemma SliceGuard(payload: seq<Byte>)
    ensures Refused(|payload|, payload) <==> |payload| > 5_000_000 || AllWhitespace(payload)
  {
  }

  /** Measuring the `Vec` header: the size limit never applies, only the whitespace rule. */
  lemma HeaderGuard(payload: seq<Byte>)
    ensures Refused(VEC_HEADER_SIZE, payload) <==> AllWhitespace(payload)
  {
  }
}
