/** The C entry points `BrotliEncoderCompress` and `BrotliDecoderDecompress`
    that the woff2 engine links against, served by the pure Rust brotli
    implementation. Raw pointers become nullable references: a byte buffer is
    an `array?<byte>` and the in/out length is a `SizeSlot?`. */
module BrotliShim {
  import opened CTypes
  import BrotliEncode

  const BROTLI_TRUE: cint := 1
  const BROTLI_FALSE: cint := 0

  const BROTLI_DECODER_RESULT_ERROR: cint := 0
  const BROTLI_DECODER_RESULT_SUCCESS: cint := 1

  const BROTLI_MODE_TEXT: cint := 1
  const BROTLI_MODE_FONT: cint := 2

  /** The `*mut usize` through which the caller passes the output capacity in
      and receives the used length back. */
  class SizeSlot {
    var value: usize

    constructor (v: usize)
      ensures value == v
    {
      value := v;
    }
  }

  /** The encoder parameters the shim builds; everything it leaves at the
      crate's defaults is not part of this model. */
  datatype EncoderParams = EncoderParams(quality: cint, lgwin: cint, mode: BrotliEncode.EncoderMode)

  /** What the brotli crate pushes into its writer during one call, in order,
      and whether it ran to completion as far as its own logic goes. */
  datatype Emission = Emission(bytes: seq<byte>, completed: bool)

  /** The foreign compressor and decompressor. */
  type Compressor = (EncoderParams, seq<byte>) -> Emission
  type Decompressor = seq<byte> -> Emission

  /** The integer mode of the C API as the crate's mode enumeration: the two
      recognised values select their mode and every other value, negative or
      out of range included, falls back to the generic mode. */
  function DecodeMode(mode: cint): (m: BrotliEncode.EncoderMode)
    ensures m == BrotliEncode.Text <==> mode == BROTLI_MODE_TEXT
    ensures m == BrotliEncode.Font <==> mode == BROTLI_MODE_FONT
    ensures m == BrotliEncode.Generic <==> mode != BROTLI_MODE_TEXT && mode != BROTLI_MODE_FONT
  {
    if mode == BROTLI_MODE_TEXT then BrotliEncode.Text
    else if mode == BROTLI_MODE_FONT then BrotliEncode.Font
    else BrotliEncode.Generic
  }

  /** The result of pushing an emission through `std::io::Cursor` over a
      slice of `capacity` bytes: every write stores what still fits, and once
      the slice is full the writer refuses, which the crate reports as an
      error. `written` is what ends up at the front of the slice. */
  datatype SliceWrite = SliceWrite(written: seq<byte>, ok: bool)

  function WriteThroughCursor(e: Emission, capacity: nat): (w: SliceWrite)
    ensures |w.written| == Min(|e.bytes|, capacity)
    ensures w.written == e.bytes[..|w.written|]
    ensures w.ok <==> e.completed && |e.bytes| <= capacity
    ensures w.ok ==> w.written == e.bytes
  {
    if |e.bytes| <= capacity then SliceWrite(e.bytes, e.completed)
    else SliceWrite(e.bytes[..capacity], false)
  }

  /** A larger output slice never turns a success into a failure, and the
      successful output does not depend on how much room was left over. */
  lemma CursorSuccessIsStable(e: Emission, small: nat, large: nat)
    requires small <= large
    requires WriteThroughCursor(e, small).ok
    ensures WriteThroughCursor(e, large) == WriteThroughCursor(e, small)
  {
  }

  /** The mode constants of the shim agree with the header's enumeration:
      decoding the value of each enumerator gives back that enumerator, and
      the header's default mode is the shim's fallback. */
  lemma ModeDecodingInvertsHeader(m: BrotliEncode.EncoderMode)
    ensures DecodeMode(BrotliEncode.ModeValue(m)) == m
    ensures BROTLI_MODE_TEXT == BrotliEncode.ModeValue(BrotliEncode.Text)
    ensures BROTLI_MODE_FONT == BrotliEncode.ModeValue(BrotliEncode.Font)
    ensures DecodeMode(BrotliEncode.ModeValue(BrotliEncode.BROTLI_DEFAULT_MODE)) == BrotliEncode.Generic
    ensures BROTLI_TRUE == BrotliEncode.BROTLI_TRUE && BROTLI_FALSE == BrotliEncode.BROTLI_FALSE
  {
  }

  /** Every unrecognised mode value compresses exactly as GENERIC does. */
  lemma UnrecognisedModeActsAsGeneric(compress: Compressor, quality: cint, lgwin: cint, mode: cint, input: seq<byte>, capacity: nat)
    requires mode != BROTLI_MODE_TEXT && mode != BROTLI_MODE_FONT
    ensures
      var generic := BrotliEncode.ModeValue(BrotliEncode.Generic);
      WriteThroughCursor(compress(EncoderParams(quality, lgwin, DecodeMode(mode)), input), capacity)
      == WriteThroughCursor(compress(EncoderParams(quality, lgwin, DecodeMode(generic)), input), capacity)
  {
  }

  /** `BrotliEncoderCompress`: compress `inputSize` bytes of `inputBuffer`
      into `encodedBuffer`, whose capacity is read from `encodedSize`. */
  method BrotliEncoderCompress(quality: cint, lgwin: cint, mode: cint, inputSize: usize,
                               inputBuffer: array?<byte>, encodedSize: SizeSlot?,
                               encodedBuffer: array?<byte>, compress: Compressor)
    returns (r: cint)
    // what `slice::from_raw_parts` and `slice::from_raw_parts_mut` demand
    requires inputBuffer != null ==> inputSize <= inputBuffer.Length
    requires encodedSize != null && encodedBuffer != null ==> encodedSize.value <= encodedBuffer.Length
    requires inputBuffer != null && encodedBuffer != null ==> inputBuffer != encodedBuffer
    modifies encodedSize, encodedBuffer
    ensures r == BROTLI_TRUE || r == BROTLI_FALSE
    ensures inputBuffer == null || encodedSize == null || encodedBuffer == null ==>
      && r == BROTLI_FALSE
      && (encodedSize != null ==> encodedSize.value == old(encodedSize.value))
      && (encodedBuffer != null ==> encodedBuffer[..] == old(encodedBuffer[..]))
    ensures inputBuffer != null && encodedSize != null && encodedBuffer != null ==>
      var w := WriteThroughCursor(compress(EncoderParams(quality, lgwin, DecodeMode(mode)),
                                           old(inputBuffer[..inputSize])),
                                  old(encodedSize.value));
      && (r == BROTLI_TRUE <==> w.ok)
      && encodedBuffer[..] == w.written + old(encodedBuffer[|w.written|..])
      && encodedSize.value == (if w.ok then |w.written| else old(encodedSize.value))
    // the reported length never exceeds the capacity passed in
    ensures r == BROTLI_TRUE ==> encodedSize != null && encodedSize.value <= old(encodedSize.value)
    ensures inputBuffer != null ==> inputBuffer[..] == old(inputBuffer[..])
  {
    if inputBuffer == null || encodedSize == null || encodedBuffer == null {
      return BROTLI_FALSE;
    }
    var input := inputBuffer[..inputSize];
    var maxOutputSize := encodedSize.value;
    var params := EncoderParams(quality, lgwin, DecodeMode(mode));
    var w := WriteThroughCursor(compress(params, input), maxOutputSize);
    forall k | 0 <= k < |w.written| {
      encodedBuffer[k] := w.written[k];
    }
    if w.ok {
      encodedSize.value := |w.written|;
      r := BROTLI_TRUE;
    } else {
      r := BROTLI_FALSE;
    }
  }

  /** `BrotliDecoderDecompress`: decompress `encodedSize` bytes of
      `encodedBuffer` into `decodedBuffer`, whose capacity is read from
      `decodedSize`. */
  method BrotliDecoderDecompress(encodedSize: usize, encodedBuffer: array?<byte>,
                                 decodedSize: SizeSlot?, decodedBuffer: array?<byte>,
                                 decompress: Decompressor)
    returns (r: cint)
    requires encodedBuffer != null ==> encodedSize <= encodedBuffer.Length
    requires decodedSize != null && decodedBuffer != null ==> decodedSize.value <= decodedBuffer.Length
    requires encodedBuffer != null && decodedBuffer != null ==> encodedBuffer != decodedBuffer
    modifies decodedSize, decodedBuffer
    ensures r == BROTLI_DECODER_RESULT_SUCCESS || r == BROTLI_DECODER_RESULT_ERROR
    ensures encodedBuffer == null || decodedSize == null || decodedBuffer == null ==>
      && r == BROTLI_DECODER_RESULT_ERROR
      && (decodedSize != null ==> decodedSize.value == old(decodedSize.value))
      && (decodedBuffer != null ==> decodedBuffer[..] == old(decodedBuffer[..]))
    ensures encodedBuffer != null && decodedSize != null && decodedBuffer != null ==>
      var w := WriteThroughCursor(decompress(old(encodedBuffer[..encodedSize])), old(decodedSize.value));
      && (r == BROTLI_DECODER_RESULT_SUCCESS <==> w.ok)
      && decodedBuffer[..] == w.written + old(decodedBuffer[|w.written|..])
      && decodedSize.value == (if w.ok then |w.written| else old(decodedSize.value))
    ensures r == BROTLI_DECODER_RESULT_SUCCESS ==> decodedSize != null && decodedSize.value <= old(decodedSize.value)
    ensures encodedBuffer != null ==> encodedBuffer[..] == old(encodedBuffer[..])
  {
    if encodedBuffer == null || decodedSize == null || decodedBuffer == null {
      return BROTLI_DECODER_RESULT_ERROR;
    }
    var input := encodedBuffer[..encodedSize];
    var maxOutputSize := decodedSize.value;
    var w := WriteThroughCursor(decompress(input), maxOutputSize);
    forall k | 0 <= k < |w.written| {
      decodedBuffer[k] := w.written[k];
    }
    if w.ok {
      decodedSize.value := |w.written|;
      r := BROTLI_DECODER_RESULT_SUCCESS;
    } else {
      r := BROTLI_DECODER_RESULT_ERROR;
    }
  }
}
