/** Machine types that cross the boundary between the Rust crate and the
    C/C++ code it links against, the conversions between them, and the
    failure-compatible wrappers the bridge returns. */
module CTypes {

  /** An `u8`. */
  type byte = x: int | 0 <= x < 0x100

  /** `size_t` / `usize` on a 64-bit target. */
  const USIZE_LIMIT: int := 0x1_0000_0000_0000_0000
  type usize = x: int | 0 <= x < USIZE_LIMIT

  /** `c_int`, a 32-bit two's-complement integer. */
  const CINT_MIN: int := -0x8000_0000
  const CINT_LIMIT: int := 0x8000_0000
  type cint = x: int | CINT_MIN <= x < CINT_LIMIT

  datatype Option<+T> = None | Some(value: T)

  datatype Result<+T, +E> = Ok(value: T) | Err(error: E)

  function Min(a: int, b: int): (m: int)
    ensures m <= a && m <= b && (m == a || m == b)
  {
    if a <= b then a else b
  }

  /** The Rust cast `q as c_int` from `usize`: keep the low 32 bits and read
      them as a two's-complement number. */
  function UsizeAsCInt(q: usize): (c: cint)
    ensures (c - q) % 0x1_0000_0000 == 0
    ensures 0 <= q < CINT_LIMIT ==> c == q
  {
    var low := q % 0x1_0000_0000;
    if low < CINT_LIMIT then low else low - 0x1_0000_0000
  }

  /** The Rust cast `b as c_int` from `bool`. */
  function BoolAsCInt(b: bool): (c: cint)
    ensures c == 0 || c == 1
    ensures c != 0 <==> b
  {
    if b then 1 else 0
  }

  /** The truncating cast is the identity on every value of `c_int` range
      that a `usize` can hold, and only there. */
  lemma UsizeAsCIntIdentityIff(q: usize)
    ensures UsizeAsCInt(q) == q <==> q < CINT_LIMIT
  {
    if q >= CINT_LIMIT {
      assert UsizeAsCInt(q) < CINT_LIMIT;
    }
  }

  /** Two qualities 2^32 apart reach the engine as the same `c_int`. */
  lemma UsizeAsCIntWraps(q: usize)
    requires q + 0x1_0000_0000 < USIZE_LIMIT
    ensures UsizeAsCInt(q + 0x1_0000_0000) == UsizeAsCInt(q)
  {
  }
}
