/** The crate's public API: `compress` (TTF/OTF to WOFF2) and `decompress`
    (WOFF2 to TTF/OTF). Each asks the woff2 engine for an output size,
    allocates a zeroed buffer of exactly that size, lets the engine convert
    into it and maps the engine's status to an `Option`. */
module Woff2 {
  import opened CTypes

  // ---------------------------------------------------------------------
  // `CString`, through which the metadata reaches the engine

  /** The position of the first 0 byte of `s`, if there is one. */
  function FirstNul(s: seq<byte>): (r: Option<nat>)
    ensures r == None <==> 0 !in s
    ensures r.Some? ==> r.value < |s| && s[r.value] == 0
    ensures r.Some? ==> forall j :: 0 <= j < r.value ==> s[j] != 0
  {
    if s == [] then None
    else if s[0] == 0 then Some(0)
    else
      var rest := FirstNul(s[1..]);
      if rest.None? then None else Some(rest.value + 1)
  }

  /** Bytes without an interior terminator. */
  type NulFree = s: seq<byte> | 0 !in s

  /** A C string: its bytes, followed in memory by an implicit terminator. */
  datatype CString = CString(bytes: NulFree)

  /** The error of `CString::new`: where the offending 0 byte is, and the
      bytes handed back. */
  datatype NulError = NulError(position: nat, bytes: seq<byte>)

  /** `CString::new`: succeeds exactly when the input has no 0 byte, keeping
      the bytes as they are; otherwise reports the first 0 byte. */
  function CStringNew(v: seq<byte>): (r: Result<CString, NulError>)
    ensures r.Ok? <==> 0 !in v
    ensures r.Ok? ==> r.value.bytes == v
    ensures r.Err? ==> r.error.bytes == v && r.error.position < |v| && v[r.error.position] == 0
    ensures r.Err? ==> forall j :: 0 <= j < r.error.position ==> v[j] != 0
  {
    match FirstNul(v)
    case None => Ok(CString(v))
    case Some(p) => Err(NulError(p, v))
  }

  /** The memory `as_ptr()` points to: the bytes and the terminator. */
  function AsBytesWithNul(c: CString): (m: seq<byte>)
    ensures |m| == |c.bytes| + 1 && m[|c.bytes|] == 0
    ensures m[..|c.bytes|] == c.bytes
  {
    c.bytes + [0]
  }

  /** `count_bytes()`: the length without the terminator, which is where the
      first 0 byte of the memory behind `as_ptr()` sits. */
  function CountBytes(c: CString): (n: nat)
    ensures FirstNul(AsBytesWithNul(c)) == Some(n)
  {
    var m := AsBytesWithNul(c);
    assert m[..|c.bytes|] == c.bytes;
    |c.bytes|
  }

  /** The span the engine reads: `len` bytes starting at `as_ptr()`. With
      `count_bytes()` as the length it is the caller's metadata exactly,
      without the terminator. */
  lemma MetadataSpanIsCallerMetadata(v: seq<byte>)
    requires CStringNew(v).Ok?
    ensures var c := CStringNew(v).value;
      CountBytes(c) == |v| && AsBytesWithNul(c)[..CountBytes(c)] == v
  {
    var c := CStringNew(v).value;
    assert AsBytesWithNul(c)[..|v|] == v;
  }

  // ---------------------------------------------------------------------
  // The woff2 engine, seen only through its four entry points

  /** What `ConvertTTFToWOFF2` leaves behind: its status, the content of the
      result buffer and the value it stores through `result_length`. */
  datatype TtfToWoff2Reply = TtfToWoff2Reply(status: cint, content: seq<byte>, resultLength: usize)

  /** What `ConvertWOFF2ToTTF` leaves behind: its status and the content of
      the result buffer. */
  datatype Woff2ToTtfReply = Woff2ToTtfReply(status: cint, content: seq<byte>)

  /** The engine's entry points as functions of what they read: the input
      span, the metadata span, the buffer capacity and the scalar options. */
  datatype Engine = Engine(
    computeTtfToWoff2Size: (seq<byte>, seq<byte>) -> usize,
    convertTtfToWoff2: (seq<byte>, usize, seq<byte>, cint, cint) -> TtfToWoff2Reply,
    computeWoff2ToTtfSize: seq<byte> -> usize,
    convertWoff2ToTtf: (usize, seq<byte>) -> Woff2ToTtfReply)
  {
    /** What the bridge relies on: a conversion writes only inside the
        buffer it is given, so the buffer content afterwards has exactly the
        capacity's length. */
    ghost predicate Valid() {
      && (forall data, capacity: usize, metadata, quality: cint, transforms: cint ::
            |convertTtfToWoff2(data, capacity, metadata, quality, transforms).content| == capacity)
      && (forall capacity: usize, data :: |convertWoff2ToTtf(capacity, data).content| == capacity)
    }
  }

  /** One call into the engine, with the arguments it received. Spans are
      given by the bytes the engine may read; `bufferLength` is the length of
      the buffer behind the result pointer and `capacity` the value the
      engine is told. */
  datatype EngineCall =
    | ComputeTtfToWoff2Size(data: seq<byte>, metadata: seq<byte>, metadataLength: nat)
    | ConvertTtfToWoff2(data: seq<byte>, bufferLength: nat, capacity: usize,
                        metadata: seq<byte>, metadataLength: nat, quality: cint, allowTransforms: cint)
    | ComputeWoff2ToTtfSize(data: seq<byte>)
    | ConvertWoff2ToTtf(bufferLength: nat, capacity: usize, data: seq<byte>)

  // ---------------------------------------------------------------------
  // The two-phase protocol

  /** `Vec::truncate(n)`: keep the first `n` elements, or all of them when
      there are fewer. */
  function Truncate(v: seq<byte>, n: nat): (t: seq<byte>)
    ensures |t| == Min(n, |v|)
    ensures t == v[..|t|]
  {
    if n < |v| then v[..n] else v
  }

  /** Truncating leaves the vector as it is exactly when the new length is
      not below the old one, and truncating twice is truncating once to the
      smaller length. */
  lemma TruncateLaws(v: seq<byte>, n: nat, m: nat)
    ensures Truncate(v, n) == v <==> n >= |v|
    ensures Truncate(Truncate(v, n), m) == Truncate(v, Min(n, m))
  {
    if Truncate(v, n) == v {
      assert |Truncate(v, n)| == |v|;
    }
  }

  /** `compress`: TTF/OTF to WOFF2. Fails without calling the engine when the
      metadata holds a 0 byte; otherwise asks the engine for the size, lets
      it convert into a buffer of exactly that size, fails when the status is
      0, and returns the buffer cut to the length the engine reports. */
  method Compress(engine: Engine, data: seq<byte>, metadata: seq<byte>, quality: usize, transform: bool)
    returns (r: Option<seq<byte>>, ghost calls: seq<EngineCall>)
    requires engine.Valid()
    ensures 0 in metadata ==> r == None && calls == []
    ensures 0 !in metadata ==>
      var estimate := engine.computeTtfToWoff2Size(data, metadata);
      var q, t := UsizeAsCInt(quality), BoolAsCInt(transform);
      var reply := engine.convertTtfToWoff2(data, estimate, metadata, q, t);
      && calls == [ComputeTtfToWoff2Size(data, metadata, |metadata|),
                   ConvertTtfToWoff2(data, estimate, estimate, metadata, |metadata|, q, t)]
      && (r == None <==> reply.status == 0)
      && (r != None ==> r.value == reply.content[..Min(reply.resultLength, estimate)])
    ensures r != None ==> |r.value| <= engine.computeTtfToWoff2Size(data, metadata)
  {
    calls := [];
    var cstr := CStringNew(metadata);
    if cstr.Err? {
      return None, calls;
    }
    var c := cstr.value;
    var metadataSize := CountBytes(c);
    MetadataSpanIsCallerMetadata(metadata);
    var metadataSpan := AsBytesWithNul(c)[..metadataSize];

    var size := engine.computeTtfToWoff2Size(data, metadataSpan);
    calls := calls + [ComputeTtfToWoff2Size(data, metadataSpan, metadataSize)];

    var buffer := new byte[size](_ => 0);
    var resultLength: usize := buffer.Length;

    var q, t := UsizeAsCInt(quality), BoolAsCInt(transform);
    var reply := engine.convertTtfToWoff2(data, resultLength, metadataSpan, q, t);
    calls := calls + [ConvertTtfToWoff2(data, buffer.Length, resultLength, metadataSpan, metadataSize, q, t)];
    forall k | 0 <= k < buffer.Length {
      buffer[k] := reply.content[k];
    }
    resultLength := reply.resultLength;

    if reply.status == 0 {
      return None, calls;
    }
    r := Some(Truncate(buffer[..], resultLength));
  }

  /** `decompress`: WOFF2 to TTF/OTF. A size of 0 from the engine is a
      failure and no conversion is attempted; otherwise the engine converts
      into a buffer of exactly that size, and the whole buffer is the
      result unless the status is 0. */
  method Decompress(engine: Engine, data: seq<byte>)
    returns (r: Option<seq<byte>>, ghost calls: seq<EngineCall>)
    requires engine.Valid()
    ensures engine.computeWoff2ToTtfSize(data) == 0 ==>
      r == None && calls == [ComputeWoff2ToTtfSize(data)]
    ensures engine.computeWoff2ToTtfSize(data) != 0 ==>
      var estimate := engine.computeWoff2ToTtfSize(data);
      var reply := engine.convertWoff2ToTtf(estimate, data);
      && calls == [ComputeWoff2ToTtfSize(data), ConvertWoff2ToTtf(estimate, estimate, data)]
      && (r == None <==> reply.status == 0)
      && (r != None ==> r.value == reply.content)
    ensures r != None ==> |r.value| == engine.computeWoff2ToTtfSize(data) > 0
  {
    var size := engine.computeWoff2ToTtfSize(data);
    calls := [ComputeWoff2ToTtfSize(data)];
    if size == 0 {
      return None, calls;
    }

    var buffer := new byte[size](_ => 0);
    var reply := engine.convertWoff2ToTtf(size, data);
    calls := calls + [ConvertWoff2ToTtf(buffer.Length, size, data)];
    forall k | 0 <= k < buffer.Length {
      buffer[k] := reply.content[k];
    }

    if reply.status == 0 {
      return None, calls;
    }
    r := Some(buffer[..]);
  }
}
