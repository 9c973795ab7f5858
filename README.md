# woofwoof bridge, modelled in Dafny

woofwoof converts fonts between TTF/OTF and WOFF2. The font transforms
are done by the woff2 C++ engine. Brotli compression is done by the pure
Rust `brotli` crate. This project models the bridging code that joins them:

- **The two-phase conversion protocol** (`Woff2.Compress`,
  `Woff2.Decompress`). Each one asks the engine for an output size and
  allocates a zeroed buffer of exactly that size. It then lets the engine
  convert into that buffer and maps the engine's status to an `Option`.
  `compress` first turns the metadata into a C string and fails, without
  calling the engine, when the metadata holds a 0 byte. After conversion
  it cuts the buffer to the length the engine reports. `decompress` treats
  a size of 0 as failure and then never calls the converter.
- **The C ABI shim** (`BrotliShim.BrotliEncoderCompress`,
  `BrotliShim.BrotliDecoderDecompress`). It rejects null pointers and
  decodes the integer mode, falling back to GENERIC. It forwards quality
  and window size unchanged. It writes the output through a
  `std::io::Cursor` over a slice whose size is the caller's capacity. Only
  on success does it store the used length back through the in/out
  pointer.
- **The encoder header** (`BrotliEncode`). It holds the mode enumeration,
  the defaults and the `BrotliEncoderMaxCompressedSize` formula.

How the model represents the foreign parts and the machine types:

- The engine's four entry points are function-valued fields of
  `Woff2.Engine`, written as functions of the bytes they may read.
  `Engine.Valid()` is the one promise the bridge relies on: a conversion
  writes only inside the buffer it is given.
- The brotli crate is a function from parameters and input to an
  `Emission`: the bytes it hands to its writer, and whether it finished.
  The bound on the reported length is not assumed. It is proved from the
  slice cursor, which stores what fits and then refuses further writes
  (`BrotliShim.WriteThroughCursor`).
- Raw pointers are nullable references: `array?<byte>` for buffers and
  `SizeSlot?` for `*mut usize`.
- The calls made to the engine come back as a ghost trace of `EngineCall`
  values. This lets the contracts say which entry points are called, with
  which arguments, and when they are skipped.
- `usize` is 64 bits wide and `c_int` 32 bits wide. `quality as c_int` and
  the `size_t` sum in `BrotliEncoderMaxCompressedSize` wrap around
  explicitly, as the machine does.

Two details of the code that the model keeps:

- The shim checks only for null: a zero `input_size` or capacity is passed
  on to the crate.
- `compress` cuts the buffer with `Vec::truncate`, which keeps
  `min(reported, estimate)` bytes, so a reported length above the estimate
  does not grow the result.

## Model

| member | source | states |
|---|---|---|
| `CTypes.UsizeAsCInt` | src/lib.rs:81 | `quality as c_int` is congruent to the quality modulo 2^32 and is the quality itself whenever it is below 2^31 |
| `CTypes.UsizeAsCIntIdentityIff` | src/lib.rs:81 | the cast leaves a quality unchanged exactly when it is below 2^31 |
| `CTypes.UsizeAsCIntWraps` | src/lib.rs:81 | two qualities 2^32 apart reach the engine as the same `c_int` |
| `CTypes.BoolAsCInt` | src/lib.rs:82 | the transform flag reaches the engine as 0 or 1, nonzero exactly when transforms are allowed |
| `BrotliEncode.ModeValue` | include/brotli/encode.h:16-20 | GENERIC is 0, and the enumerators take values in 0..2 |
| `BrotliEncode.ModeValueInjective` | include/brotli/encode.h:16-20 | distinct modes have distinct integer values |
| `BrotliEncode.ShiftRight14` | include/brotli/encode.h:42 | `n >> 14` is the number of whole 16 KiB blocks in `n` |
| `BrotliEncode.MaxCompressedSize` | include/brotli/encode.h:40-43 | the result is `n + (n >> 14) + 11 + 2` taken modulo 2^64, as `size_t` arithmetic does; its properties are stated by `NoWrapIff`, `MaxCompressedSizeBound`, `MaxCompressedSizeMonotone` and `MaxCompressedSizeWrapsAbove` |
| `BrotliEncode.NoWrapIff` | include/brotli/encode.h:40-43 | the `size_t` sum does not wrap exactly when the input is at most `0xfffc_000f_ffc0_00f2` |
| `BrotliEncode.MaxCompressedSizeBound` | include/brotli/encode.h:40-43 | without wrap-around the bound is `n + (n >> 14) + 13`, so at least `n + 13` and strictly above `n` |
| `BrotliEncode.MaxCompressedSizeMonotone` | include/brotli/encode.h:42 | without wrap-around the bound never decreases as the input grows |
| `BrotliEncode.MaxCompressedSizeWrapsAbove` | include/brotli/encode.h:42 | beyond the no-wrap limit the wrapped result is smaller than the input |
| `BrotliShim.DecodeMode` | src/brotli_shim.rs:54-58 | mode decoding is total: 1 gives TEXT, 2 gives FONT, and every other integer gives GENERIC (each direction of each case) |
| `BrotliShim.ModeDecodingInvertsHeader` | src/brotli_shim.rs:19-21 | the shim's constants equal the header enumerators, decoding an enumerator's value gives it back, and the header's default mode decodes to the fallback GENERIC |
| `BrotliShim.UnrecognisedModeActsAsGeneric` | src/brotli_shim.rs:54-58 | any mode other than TEXT or FONT gives exactly the same compression outcome as GENERIC |
| `BrotliShim.WriteThroughCursor` | src/brotli_shim.rs:62-71 | the slice cursor keeps a prefix of the compressor's output of length `min(output, capacity)`; the call succeeds exactly when the compressor finished and its output fits, and then all of it is kept |
| `BrotliShim.CursorSuccessIsStable` | src/brotli_shim.rs:63-68 | a success stays a success, with the same bytes, when the output slice is larger |
| `BrotliShim.BrotliEncoderCompress` | src/brotli_shim.rs:33-73 | returns FALSE and changes nothing if any pointer is null; otherwise compresses the input span with the caller's quality and window and the decoded mode; returns TRUE exactly when the crate finishes and all of its output fits; stores the used length, at most the capacity, only on success; changes only the output buffer's first bytes and the length; leaves the input unchanged |
| `BrotliShim.BrotliDecoderDecompress` | src/brotli_shim.rs:84-110 | returns ERROR and changes nothing if any pointer is null; otherwise SUCCESS exactly when the crate finishes and all of its output fits; stores the used length, at most the capacity, only on success; never returns another status; leaves the input unchanged |
| `Woff2.FirstNul` | src/lib.rs:55-58 | finds the first 0 byte: none exactly when the bytes contain no 0, otherwise the least index holding 0 |
| `Woff2.CStringNew` | src/lib.rs:55-58 | `CString::new` succeeds exactly when the metadata has no 0 byte, and then keeps the bytes unchanged; on failure it reports the first 0 byte |
| `Woff2.AsBytesWithNul` | src/lib.rs:65 | the memory behind `as_ptr()` is the bytes followed by one terminator |
| `Woff2.CountBytes` | src/lib.rs:59 | `count_bytes()` is the position of the terminator, the first 0 byte behind `as_ptr()` |
| `Woff2.MetadataSpanIsCallerMetadata` | src/lib.rs:59-66 | the span handed to the engine, `count_bytes()` bytes from `as_ptr()`, is the caller's metadata exactly, with no terminator counted |
| `Woff2.Truncate` | src/lib.rs:90 | `Vec::truncate(n)` keeps a prefix of length `min(n, len)` |
| `Woff2.TruncateLaws` | src/lib.rs:90 | truncation is a no-op exactly when `n` is at least the length, and two truncations equal one to the smaller length |
| `Woff2.Compress` | src/lib.rs:51-92 | with a 0 byte in the metadata: `None` and no engine call; otherwise exactly the size query and then one conversion, both with the caller's metadata and its length, into a buffer whose length and starting capacity equal the estimate; `None` exactly when the status is 0; otherwise the first `min(reported, estimate)` bytes of the buffer, never more than the estimate |
| `Woff2.Decompress` | src/lib.rs:101-119 | a size estimate of 0 gives `None` after the size query alone; otherwise exactly one conversion into a buffer of that size; `None` exactly when the status is 0; otherwise the whole buffer, whose length is the nonzero estimate |

## Left out

- The woff2 engine's internals (`ComputeTTFToWOFF2Size`,
  `ConvertTTFToWOFF2`, `ComputeWOFF2ToTTFSize`, `ConvertWOFF2ToTTF`) are
  foreign C++ code. They appear only as the abstract functions of
  `Woff2.Engine`, with the single promise that a conversion writes only
  inside the buffer it is given.
- The `brotli` crate's internals (`BrotliCompress`, `BrotliDecompress`) are
  foreign code. Each is an abstract function producing an `Emission`. The
  model assumes the crate reports an error once its writer refuses bytes,
  so it covers very small output buffers only under that assumption.
- The `wOF2` signature check and the round-trip assertions of the test
  (src/lib.rs:125-143) depend entirely on the engine. The bridge cannot
  establish them, so they are not stated.
- The encoder parameters that the shim leaves at the crate's defaults
  (`..Default::default()`) are not modelled. Neither are the crate's other
  mode variants, which the shim never produces.
- Raw-pointer mechanics are not modelled: addresses, `slice::from_raw_parts`,
  `unsafe`, and spans that overlap without being the same buffer. Each span
  is a whole Dafny array, and the input and output arrays must be distinct.
- The `#define` renaming of the entry points to `woofwoof_`-prefixed symbols
  in the headers is not modelled. Neither is how those symbols are linked.
- include/brotli/decode.h is not part of this model. It only declares the
  decoder entry point and its result enumeration. The two values the shim
  returns are its own constants, and NEEDS_MORE_INPUT / NEEDS_MORE_OUTPUT
  are never returned (the decoder's contract limits its status to 0 or 1).
- examples/roundtrip.rs is not part of this model: it reads and writes
  files and prints.
- Allocation failure of `vec![0u8; size]`, which aborts the process, is not
  modelled.
- 32-bit targets are not modelled. `usize` is 64 bits wide, so
  `output_cursor.position() as usize` is the identity.
- The generic `metadata: T` with `T: Into<Vec<u8>>` is modelled as the byte
  sequence it converts to.
