/** The encoder header that the woff2 C++ engine compiles against: the mode
    enumeration, the default parameters and the output-size bound. */
module BrotliEncode {
  import opened CTypes

  const BROTLI_TRUE: cint := 1
  const BROTLI_FALSE: cint := 0

  /** `BrotliEncoderMode`: what kind of input the compressor is tuned for. */
  datatype EncoderMode = Generic | Text | Font

  /** The integer each enumerator stands for in C. */
  function ModeValue(m: EncoderMode): (v: cint)
    ensures 0 <= v <= 2
    ensures m == Generic <==> v == 0
  {
    match m
    case Generic => 0
    case Text => 1
    case Font => 2
  }

  const BROTLI_DEFAULT_QUALITY: int := 11
  const BROTLI_DEFAULT_WINDOW: int := 22
  const BROTLI_DEFAULT_MODE: EncoderMode := Generic

  /** The enumerators have pairwise distinct values, so a mode survives the
      trip through its integer. */
  lemma ModeValueInjective(m: EncoderMode, n: EncoderMode)
    ensures ModeValue(m) == ModeValue(n) <==> m == n
  {
  }

  /** `input_size >> 14`, a right shift of an unsigned value. */
  function ShiftRight14(n: usize): (q: usize)
    ensures q * 0x4000 <= n < q * 0x4000 + 0x4000
  {
    n / 0x4000
  }

  /** `BrotliEncoderMaxCompressedSize`: `input + (input >> 14) + 11 + 2`,
      evaluated in `size_t`, so the sum wraps modulo 2^64. */
  function MaxCompressedSize(inputSize: usize): (r: usize)
    ensures (r - (inputSize + inputSize / 0x4000 + 13)) % USIZE_LIMIT == 0
  {
    (inputSize + ShiftRight14(inputSize) + 11 + 2) % USIZE_LIMIT
  }

  /** The largest input for which the sum does not wrap. */
  const MAX_UNWRAPPED_INPUT: usize := 0xfffc_000f_ffc0_00f2

  /** The bound is computed without wrap-around exactly up to MAX_UNWRAPPED_INPUT. */
  lemma NoWrapIff(n: usize)
    ensures n + ShiftRight14(n) + 13 < USIZE_LIMIT <==> n <= MAX_UNWRAPPED_INPUT
  {
    if n <= MAX_UNWRAPPED_INPUT {
      var q := ShiftRight14(MAX_UNWRAPPED_INPUT);
      assert q == 0x3_fff0_003f_ff00 by {
        assert q * 0x4000 <= MAX_UNWRAPPED_INPUT < q * 0x4000 + 0x4000;
      }
      ShiftRight14Monotone(n, MAX_UNWRAPPED_INPUT);
    } else {
      var q := ShiftRight14(MAX_UNWRAPPED_INPUT + 1);
      assert q == 0x3_fff0_003f_ff00 by {
        assert q * 0x4000 <= MAX_UNWRAPPED_INPUT + 1 < q * 0x4000 + 0x4000;
      }
      ShiftRight14Monotone(MAX_UNWRAPPED_INPUT + 1, n);
    }
  }

  lemma ShiftRight14Monotone(a: usize, b: usize)
    requires a <= b
    ensures ShiftRight14(a) <= ShiftRight14(b)
  {
  }

  /** Where it does not wrap, the bound is the plain sum and exceeds the input
      by 13 bytes plus one byte per 16 KiB block. */
  lemma MaxCompressedSizeBound(n: usize)
    requires n <= MAX_UNWRAPPED_INPUT
    ensures MaxCompressedSize(n) == n + n / 0x4000 + 13
    ensures n + 13 <= MaxCompressedSize(n)
    ensures MaxCompressedSize(n) > n
  {
    NoWrapIff(n);
  }

  /** Where it does not wrap, the bound grows with the input. */
  lemma MaxCompressedSizeMonotone(a: usize, b: usize)
    requires a <= b <= MAX_UNWRAPPED_INPUT
    ensures MaxCompressedSize(a) <= MaxCompressedSize(b)
  {
    MaxCompressedSizeBound(a);
    MaxCompressedSizeBound(b);
    ShiftRight14Monotone(a, b);
  }

  /** Beyond MAX_UNWRAPPED_INPUT the `size_t` sum wraps and the result is no
      longer an upper bound: it is smaller than the input. */
  lemma MaxCompressedSizeWrapsAbove(n: usize)
    requires n > MAX_UNWRAPPED_INPUT
    ensures MaxCompressedSize(n) < n
  {
    NoWrapIff(n);
  }
}
