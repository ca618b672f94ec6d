/** Fixed-width integers of a 64-bit Rust target, written out over unbounded `int`. */
module Machine {
  import opened Wrappers

  type Byte = b: int | 0 <= b < 256

  const U32_LIMIT: int := 0x1_0000_0000
  const I64_MIN: int := -0x8000_0000_0000_0000
  const I64_MAX: int := 0x7fff_ffff_ffff_ffff
  const U64_LIMIT: int := 0x1_0000_0000_0000_0000
  /** usize::MAX on a 64-bit target. */
  const USIZE_MAX: int := 0xffff_ffff_ffff_ffff

  type I32 = x: int | -0x8000_0000 <= x < 0x8000_0000
  type I64 = x: int | I64_MIN <= x <= I64_MAX
  type U64 = x: nat | x < U64_LIMIT
  type Usize = x: nat | x <= USIZE_MAX

  /** `a - b` on usize/u64: a panic when overflow checks are on (debug builds), two's-complement
      wrap-around otherwise (release builds). */
  function CheckedSub(a: U64, b: U64, overflowChecks: bool): (r: Outcome<U64, ()>)
    ensures b <= a ==> r == Ok(a - b)
    ensures a < b && overflowChecks ==> r.Panic?
    ensures a < b && !overflowChecks ==> r.Ok? && r.value + b == a + U64_LIMIT
  {
    if b <= a then Ok(a - b)
    else if overflowChecks then Panic("attempt to subtract with overflow")
    else Ok(a - b + U64_LIMIT)
  }

  /** `n as usize` for a signed integer: a negative value sign-extends to a huge usize. */
  function SignedAsUsize(n: I64): (r: Usize)
    ensures n >= 0 ==> r == n
    ensures n < 0 ==> r >= U64_LIMIT / 2
  {
    if n >= 0 then n else n + U64_LIMIT
  }

  /** `n.unsigned_abs()`: the magnitude, which for the most negative value does not fit
      the signed type. */
  function UnsignedAbs(n: int): (r: nat)
    ensures r == n || r == -n
  {
    if n < 0 then -n else n
  }

  /** `iter.take(n)` / `iter.skip(n)` on `len` items keeps or drops `Min(n, len)` of them. */
  function Min(a: int, b: int): int { if a <= b then a else b }
}
