/**
 * The fixed-width integers of the kernel (a 64-bit target) and the two's-complement
 * reinterpretation that Rust's `as` performs between `usize` and `isize`.
 */
module MachineInts {
  const USIZE_LIMIT: int := 0x1_0000_0000_0000_0000
  const ISIZE_LIMIT: int := 0x8000_0000_0000_0000
  const U32_LIMIT: int := 0x1_0000_0000

  type usize = x: int | 0 <= x < 0x1_0000_0000_0000_0000
  type isize = x: int | -0x8000_0000_0000_0000 <= x < 0x8000_0000_0000_0000
  type u32 = x: int | 0 <= x < 0x1_0000_0000
  type i32 = x: int | -0x8000_0000 <= x < 0x8000_0000

  /** `x as isize`: the same 64 bits read as a signed number. */
  function UsizeAsIsize(x: usize): (r: isize)
    ensures (r - x) % USIZE_LIMIT == 0
    ensures 0 <= r <==> x < ISIZE_LIMIT
  {
    if x < ISIZE_LIMIT then x else x - USIZE_LIMIT
  }

  /** `x as usize`: the same 64 bits read as an unsigned number. */
  function IsizeAsUsize(x: isize): (r: usize)
    ensures (r - x) % USIZE_LIMIT == 0
    ensures 0 <= x ==> r == x
    ensures x < 0 ==> ISIZE_LIMIT <= r
  {
    if 0 <= x then x else x + USIZE_LIMIT
  }

  /** Both casts only reinterpret bits, so each undoes the other. */
  lemma CastRoundTrip(x: usize, y: isize)
    ensures IsizeAsUsize(UsizeAsIsize(x)) == x
    ensures UsizeAsIsize(IsizeAsUsize(y)) == y
  {
  }

  /** `c.wrapping_add(1)` on a `u32` counter. */
  function WrappingIncrement(c: u32): (r: u32)
    ensures c < U32_LIMIT - 1 ==> r == c + 1
    ensures c == U32_LIMIT - 1 ==> r == 0
  {
    (c + 1) % U32_LIMIT
  }
}
