/**
 * The receipt format: a header (magic `ZipS`, version 1, a length-prefixed
 * hash of the original file and its size as a little-endian `long`) followed by
 * chunk records up to the end of the stream. A record is either a shared chunk
 * (type 1, a length-prefixed hash naming a blob in the chunk store) or inline
 * data (type 2 with a 16-bit length or type 3 with a 64-bit length, followed by
 * that many bytes).
 *
 * The binary writer and the size estimator are two implementations of one
 * writer interface; the reader decodes what the writer emits.
 */
module Receipt {
  import opened Wrappers
  import opened Bytes
  import opened Streams

  /** `'Z','i','p','S'`. */
  const Magic: Bytes := [0x5A, 0x69, 0x70, 0x53]
  const FormatVersion: uint8 := 1
  /** A hash length must fit the one-byte length prefix. */
  const MaxHashLength: nat := 255
  const SharedChunkType: uint8 := 1
  const ShortDataChunkType: uint8 := 2
  const LongDataChunkType: uint8 := 3
  /** The largest inline length the short (16-bit) form is used for: `ushort.MaxValue`. */
  const MaxShortDataSize: nat := 65535

  // ---------------------------------------------------------------------------
  // What the writer emits
  // ---------------------------------------------------------------------------

  /** The receipt header for a file with digest `fileHash` and length `fileSize`. */
  function HeaderBytes(fileHash: Bytes, fileSize: int64): (r: Bytes)
    requires |fileHash| <= MaxHashLength
    ensures |r| == 4 + 1 + 1 + |fileHash| + 8
  {
    Magic + [FormatVersion, |fileHash|] + fileHash + LE64(ToUInt64(fileSize))
  }

  /** A shared-chunk record naming the blob with digest `hash`. */
  function SharedChunkBytes(hash: Bytes): (r: Bytes)
    requires |hash| <= MaxHashLength
    ensures |r| == 2 + |hash|
  {
    [SharedChunkType, |hash|] + hash
  }

  /**
   * The head of an inline record of `size` bytes: the long form above 65535,
   * otherwise the short form holding the low 16 bits of `size`.
   */
  function DataChunkHeaderBytes(size: int64): (r: Bytes)
    ensures |r| == if size > MaxShortDataSize then 1 + 8 else 1 + 2
  {
    if size > MaxShortDataSize then [LongDataChunkType] + LE64(ToUInt64(size))
    else [ShortDataChunkType] + LE16(ToUInt16(size))
  }

  /** One call through the receipt writer interface. */
  datatype WriterCall =
    | HeaderCall(fileHash: Bytes, fileSize: int64)
    | SharedChunkCall(hash: Bytes)
    | StartDataChunkCall(size: int64)
    | ContentCall(data: Bytes)                            // `WriteDataChunkContent(Span<byte>)`
    | ContentRangeCall(data: Bytes, offset: int, length: int)  // `WriteDataChunkContent(byte[], int, int)`

  /** What the binary writer emits for one call, or the exception it raises instead. */
  function CallBytes(c: WriterCall): Result<Bytes>
  {
    match c
    case HeaderCall(fileHash, fileSize) =>
      if |fileHash| > MaxHashLength then Err(FormatError("file hash too long"))
      else Ok(HeaderBytes(fileHash, fileSize))
    case SharedChunkCall(hash) =>
      if |hash| > MaxHashLength then Err(FormatError("hash too long"))
      else Ok(SharedChunkBytes(hash))
    case StartDataChunkCall(size) => Ok(DataChunkHeaderBytes(size))
    case ContentCall(data) => Ok(data)
    case ContentRangeCall(data, offset, length) =>
      if offset < 0 || length < 0 then Err(ArgumentOutOfRange)
      else if offset + length > |data| then Err(InvalidArgument)
      else Ok(data[offset..offset + length])
  }

  /** How much the estimator adds to its size for one call, or the exception it raises instead. */
  function CallEstimate(c: WriterCall): Result<int>
  {
    match c
    case HeaderCall(fileHash, _) => Ok(4 + 1 + 1 + |fileHash| + 8)
    case SharedChunkCall(hash) =>
      if |hash| > MaxHashLength then Err(FormatError("hash too long"))
      else Ok(2 + |hash|)
    case StartDataChunkCall(size) => Ok(if size > MaxShortDataSize then 1 + 8 else 1 + 2)
    case ContentCall(data) => Ok(|data|)
    case ContentRangeCall(_, _, length) => Ok(length)
  }

  /** Everything a sequence of calls emits, or the first exception raised. */
  function Emit(calls: seq<WriterCall>): Result<Bytes>
  {
    if calls == [] then Ok([])
    else match CallBytes(calls[0])
      case Err(e) => Err(e)
      case Ok(head) =>
        match Emit(calls[1..])
        case Err(e) => Err(e)
        case Ok(tail) => Ok(head + tail)
  }

  /** The estimator's total for a sequence of calls, or the first exception raised. */
  function Estimate(calls: seq<WriterCall>): Result<int>
  {
    if calls == [] then Ok(0)
    else match CallEstimate(calls[0])
      case Err(e) => Err(e)
      case Ok(head) =>
        match Estimate(calls[1..])
        case Err(e) => Err(e)
        case Ok(tail) => Ok(head + tail)
  }

  /** For a single call the estimator counts exactly the bytes the writer emits. */
  lemma CallEstimateMatches(c: WriterCall)
    ensures CallBytes(c).Ok? ==> CallEstimate(c) == Ok(|CallBytes(c).value|)
  {
  }

  /**
   * Whenever the binary writer gets through a sequence of calls, the estimator
   * gets through it too and counts exactly the bytes the writer emitted.
   */
  lemma {:induction false} EstimateMatchesEmit(calls: seq<WriterCall>)
    ensures Emit(calls).Ok? ==> Estimate(calls) == Ok(|Emit(calls).value|)
  {
    if calls != [] {
      CallEstimateMatches(calls[0]);
      EstimateMatchesEmit(calls[1..]);
    }
  }

  /**
   * The converse does not hold: the estimator's `WriteHeader` accepts a hash
   * too long for the one-byte length prefix, which the binary writer refuses.
   */
  lemma EstimatorAcceptsLongFileHash(fileHash: Bytes, fileSize: int64)
    requires |fileHash| == MaxHashLength + 1
    ensures Emit([HeaderCall(fileHash, fileSize)]).Err?
    ensures Estimate([HeaderCall(fileHash, fileSize)]) == Ok(4 + 1 + 1 + 256 + 8)
  {
  }

  // ---------------------------------------------------------------------------
  // The two writers
  // ---------------------------------------------------------------------------

  /**
   * How a writer call changed an output stream from (`d0`, `p0`) to (`d1`, `p1`):
   * on success the emitted bytes are written at the old position; on failure
   * nothing is written.
   */
  predicate Performed(d0: Bytes, p0: nat, d1: Bytes, p1: nat, e: Result<Bytes>, r: Result<()>)
    requires p0 <= |d0|
  {
    && (r.Ok? <==> e.Ok?)
    && (e.Ok? ==> d1 == WriteAt(d0, p0, e.value) && p1 == p0 + |e.value|)
    && (e.Err? ==> r.error == e.error && d1 == d0 && p1 == p0)
  }

  /** The writer over a `BinaryWriter`: every call writes its framing at the output's position. */
  class BinaryReceiptFileWriter {
    const output: OutputStream

    constructor (output: OutputStream)
      ensures this.output == output
    {
      this.output := output;
    }

    /** Performs `c` on the output stream. */
    method Perform(c: WriterCall) returns (r: Result<()>)
      requires output.Valid()
      modifies output
      ensures output.Valid()
      ensures Performed(old(output.data), old(output.position), output.data, output.position, CallBytes(c), r)
    {
      var e := CallBytes(c);
      if e.Err? {
        return Err(e.error);
      }
      output.Write(e.value);
      return Ok(());
    }

    method WriteHeader(fileHash: Bytes, fileSize: int64) returns (r: Result<()>)
      requires output.Valid()
      modifies output
      ensures output.Valid()
      ensures |fileHash| > MaxHashLength ==> r == Err(FormatError("file hash too long")) && unchanged(output)
      ensures |fileHash| <= MaxHashLength ==> r == Ok(())
      ensures |fileHash| <= MaxHashLength ==>
        output.data == WriteAt(old(output.data), old(output.position), HeaderBytes(fileHash, fileSize))
      ensures |fileHash| <= MaxHashLength ==> output.position == old(output.position) + 14 + |fileHash|
    {
      if |fileHash| > MaxHashLength {
        return Err(FormatError("file hash too long"));
      }
      output.Write(HeaderBytes(fileHash, fileSize));
      return Ok(());
    }

    method WriteSharedChunk(hash: Bytes) returns (r: Result<()>)
      requires output.Valid()
      modifies output
      ensures output.Valid()
      ensures |hash| > MaxHashLength ==> r == Err(FormatError("hash too long")) && unchanged(output)
      ensures |hash| <= MaxHashLength ==> r == Ok(())
      ensures |hash| <= MaxHashLength ==> output.data == WriteAt(old(output.data), old(output.position), SharedChunkBytes(hash))
      ensures |hash| <= MaxHashLength ==> output.position == old(output.position) + 2 + |hash|
    {
      if |hash| > MaxHashLength {
        return Err(FormatError("hash too long"));
      }
      output.Write(SharedChunkBytes(hash));
      return Ok(());
    }

    /** Writes the type byte, then the length in the chosen width. */
    method StartDataChunk(size: int64)
      requires output.Valid()
      modifies output
      ensures output.Valid()
      ensures output.data == WriteAt(old(output.data), old(output.position), DataChunkHeaderBytes(size))
      ensures output.position == old(output.position) + |DataChunkHeaderBytes(size)|
    {
      if size > MaxShortDataSize {
        output.Write([LongDataChunkType]);
        output.Write(LE64(ToUInt64(size)));
        WriteAtTwice(old(output.data), old(output.position), [LongDataChunkType], LE64(ToUInt64(size)));
      } else {
        output.Write([ShortDataChunkType]);
        output.Write(LE16(ToUInt16(size)));
        WriteAtTwice(old(output.data), old(output.position), [ShortDataChunkType], LE16(ToUInt16(size)));
      }
    }

    method WriteDataChunkContent(data: Bytes)
      requires output.Valid()
      modifies output
      ensures output.Valid()
      ensures output.data == WriteAt(old(output.data), old(output.position), data)
      ensures output.position == old(output.position) + |data|
    {
      output.Write(data);
    }

    /** `BinaryWriter.Write(byte[], int, int)`: refuses a negative or overlong range. */
    method WriteDataChunkContentRange(data: Bytes, offset: int, length: int) returns (r: Result<()>)
      requires output.Valid()
      modifies output
      ensures output.Valid()
      ensures r.Ok? <==> 0 <= offset && 0 <= length && offset + length <= |data|
      ensures r.Err? ==> unchanged(output)
      ensures r.Ok? ==> output.data == WriteAt(old(output.data), old(output.position), data[offset..offset + length])
      ensures r.Ok? ==> output.position == old(output.position) + length
    {
      if offset < 0 || length < 0 {
        return Err(ArgumentOutOfRange);
      }
      if offset + length > |data| {
        return Err(InvalidArgument);
      }
      output.Write(data[offset..offset + length]);
      return Ok(());
    }
  }

  /** The estimator: counts the bytes the binary writer would emit, without emitting them. */
  class BinaryReceiptFileEstimator {
    var Size: int

    constructor ()
      ensures Size == 0
    {
      Size := 0;
    }

    /** Performs `c` on the running total. */
    method Perform(c: WriterCall) returns (r: Result<()>)
      modifies this
      ensures r.Ok? <==> CallEstimate(c).Ok?
      ensures r.Ok? ==> Size == old(Size) + CallEstimate(c).value
      ensures r.Err? ==> r.error == CallEstimate(c).error && Size == old(Size)
    {
      var e := CallEstimate(c);
      if e.Err? {
        return Err(e.error);
      }
      Size := Size + e.value;
      return Ok(());
    }

    /** Counts the header; unlike the binary writer it does not check the hash length. */
    method WriteHeader(fileHash: Bytes, fileSize: int64)
      modifies this
      ensures Size == old(Size) + 14 + |fileHash|
    {
      Size := Size + 4 + 1 + 1 + |fileHash| + 8;
    }

    method WriteSharedChunk(hash: Bytes) returns (r: Result<()>)
      modifies this
      ensures |hash| > MaxHashLength ==> r == Err(FormatError("hash too long")) && Size == old(Size)
      ensures |hash| <= MaxHashLength ==> r == Ok(()) && Size == old(Size) + |SharedChunkBytes(hash)|
    {
      if |hash| > MaxHashLength {
        return Err(FormatError("hash too long"));
      }
      Size := Size + 2 + |hash|;
      return Ok(());
    }

    method StartDataChunk(size: int64)
      modifies this
      ensures Size == old(Size) + |DataChunkHeaderBytes(size)|
    {
      if size > MaxShortDataSize {
        Size := Size + 1 + 8;
      } else {
        Size := Size + 1 + 2;
      }
    }

    method WriteDataChunkContent(data: Bytes)
      modifies this
      ensures Size == old(Size) + |data|
    {
      Size := Size + |data|;
    }

    /** Counts `length` without checking the range against `data`. */
    method WriteDataChunkContentRange(data: Bytes, offset: int, length: int)
      modifies this
      ensures Size == old(Size) + length
    {
      Size := Size + length;
    }

    /** The estimator-only overload: counts `length` bytes that are never read. */
    method WriteDataChunkContentLength(length: int64)
      modifies this
      ensures Size == old(Size) + length
    {
      Size := Size + length;
    }
  }

  /** The receipt writer interface: either implementation behind one type. */
  datatype ReceiptWriter =
    | Binary(writer: BinaryReceiptFileWriter)
    | Estimator(estimator: BinaryReceiptFileEstimator)
  {
    /** The objects a call through the interface may change. */
    function Footprint(): set<object>
    {
      if Binary? then {writer.output} else {estimator}
    }

    ghost predicate Valid()
      reads Footprint()
    {
      Binary? ==> writer.output.Valid()
    }
  }

  /** A call through the interface, dispatched to the implementation behind it. */
  method Perform(w: ReceiptWriter, c: WriterCall) returns (r: Result<()>)
    requires w.Valid()
    modifies w.Footprint()
    ensures w.Valid()
    ensures w.Binary? ==>
      Performed(old(w.writer.output.data), old(w.writer.output.position), w.writer.output.data, w.writer.output.position, CallBytes(c), r)
    ensures w.Estimator? ==> (r.Ok? <==> CallEstimate(c).Ok?)
    ensures w.Estimator? && r.Ok? ==> w.estimator.Size == old(w.estimator.Size) + CallEstimate(c).value
    ensures w.Estimator? && r.Err? ==> r.error == CallEstimate(c).error && w.estimator.Size == old(w.estimator.Size)
  {
    if w.Binary? {
      r := w.writer.Perform(c);
    } else {
      r := w.estimator.Perform(c);
    }
  }

  // ---------------------------------------------------------------------------
  // What the reader decodes
  // ---------------------------------------------------------------------------

  datatype Header = Header(FileHash: Bytes, FileSize: int64)

  datatype Chunk =
    | DataChunk(Size: int64)     // inline bytes follow the record head
    | SharedChunk(Hash: Bytes)   // names a blob in the chunk store

  /**
   * The checks on the five bytes `ReadBytes(5)` returned, in the order the
   * reader makes them: each of the four magic bytes, then the version. A short
   * read fails on the first index past its end unless an earlier byte already
   * mismatched.
   */
  function CheckSignature(sig: Bytes): (r: Result<()>)
    ensures r.Ok? <==> |sig| >= 5 && sig[..4] == Magic && sig[4] == FormatVersion
    ensures |sig| >= 5 && sig[..4] != Magic ==> r == Err(FormatError("bad sig"))
    ensures |sig| >= 5 && sig[..4] == Magic && sig[4] != FormatVersion ==> r == Err(FormatError("bad version"))
  {
    if |sig| < 1 then Err(IndexOutOfRange)
    else if sig[0] != Magic[0] then Err(FormatError("bad sig"))
    else if |sig| < 2 then Err(IndexOutOfRange)
    else if sig[1] != Magic[1] then Err(FormatError("bad sig"))
    else if |sig| < 3 then Err(IndexOutOfRange)
    else if sig[2] != Magic[2] then Err(FormatError("bad sig"))
    else if |sig| < 4 then Err(IndexOutOfRange)
    else if sig[3] != Magic[3] then Err(FormatError("bad sig"))
    else if |sig| < 5 then Err(IndexOutOfRange)
    else if sig[4] != FormatVersion then Err(FormatError("bad version"))
    else Ok(())
  }

  /** `BinaryReader.ReadByte` at `pos`. */
  function ByteAt(data: Bytes, pos: nat): Result<uint8>
  {
    if pos < |data| then Ok(data[pos]) else Err(EndOfStream)
  }

  /**
   * `ReadHeader` on a stream holding `data` and positioned at `pos`: the header
   * and the position after it.
   */
  function DecodeHeader(data: Bytes, pos: nat): (r: Result<(Header, nat)>)
    ensures r.Ok? ==> pos + 14 <= r.value.1 <= |data|
    ensures r.Ok? ==> data[pos..pos + 4] == Magic && data[pos + 4] == FormatVersion
    ensures r.Ok? ==> r.value.0.FileHash == data[pos + 6..r.value.1 - 8] && |r.value.0.FileHash| == data[pos + 5]
    ensures r.Ok? ==> r.value.0.FileSize == ToInt64(U64(data, r.value.1 - 8))
    ensures pos + 5 <= |data| && data[pos..pos + 4] != Magic ==> r == Err(FormatError("bad sig"))
    ensures pos + 5 <= |data| && data[pos..pos + 4] == Magic && data[pos + 4] != FormatVersion ==>
      r == Err(FormatError("bad version"))
  {
    var sig := Available(data, pos, 5);
    assert pos + 5 <= |data| ==> sig[..4] == data[pos..pos + 4];
    match CheckSignature(sig)
    case Err(e) => Err(e)
    case Ok(_) =>
      match ByteAt(data, pos + 5)
      case Err(e) => Err(e)
      case Ok(n) =>
        var fileHash := Available(data, pos + 6, n);
        var q := pos + 6 + |fileHash|;
        if q + 8 > |data| then Err(EndOfStream)
        else Ok((Header(fileHash, ToInt64(U64(data, q))), q + 8))
  }

  /**
   * `ReadChunkHeader` on a stream holding `data` and positioned at `pos`: the
   * record head and the position after it, which is where inline bytes start.
   */
  function DecodeChunkHeader(data: Bytes, pos: nat): (r: Result<(Chunk, nat)>)
    ensures r.Ok? ==> pos < r.value.1 <= |data|
    ensures r.Ok? && r.value.0.SharedChunk? ==>
      data[pos] == SharedChunkType && pos + 2 <= r.value.1
      && r.value.0.Hash == data[pos + 2..r.value.1] && |r.value.0.Hash| <= data[pos + 1]
      && (|r.value.0.Hash| == data[pos + 1] || r.value.1 == |data|)
    ensures r.Ok? && r.value.0.DataChunk? ==>
      (data[pos] == ShortDataChunkType && r.value.1 == pos + 3 && r.value.0.Size == U16(data, pos + 1))
      || (data[pos] == LongDataChunkType && r.value.1 == pos + 9 && r.value.0.Size == ToInt64(U64(data, pos + 1)))
    ensures pos < |data| && data[pos] !in {SharedChunkType, ShortDataChunkType, LongDataChunkType} ==>
      r == Err(FormatError("unknown chunk type"))
    ensures pos + 2 <= |data| && data[pos] == SharedChunkType ==> r.Ok? && r.value.0.SharedChunk?
    ensures pos + 3 <= |data| && data[pos] == ShortDataChunkType ==> r.Ok? && r.value.0.DataChunk?
    ensures pos + 9 <= |data| && data[pos] == LongDataChunkType ==> r.Ok? && r.value.0.DataChunk?
    ensures r.Err? && pos < |data| && data[pos] in {SharedChunkType, ShortDataChunkType, LongDataChunkType} ==>
      r == Err(EndOfStream)
    ensures pos >= |data| ==> r == Err(EndOfStream)
  {
    if pos >= |data| then Err(EndOfStream)
    else if data[pos] == SharedChunkType then
      match ByteAt(data, pos + 1)
      case Err(e) => Err(e)
      case Ok(n) =>
        var hash := Available(data, pos + 2, n);
        Ok((SharedChunk(hash), pos + 2 + |hash|))
    else if data[pos] == ShortDataChunkType then
      if pos + 3 > |data| then Err(EndOfStream)
      else Ok((DataChunk(U16(data, pos + 1)), pos + 3))
    else if data[pos] == LongDataChunkType then
      if pos + 9 > |data| then Err(EndOfStream)
      else Ok((DataChunk(ToInt64(U64(data, pos + 1))), pos + 9))
    else Err(FormatError("unknown chunk type"))
  }

  /** A reader call returned `r` and left the stream at `pos` as the decoder `d` says. */
  predicate Decoded<T(==)>(d: Result<(T, nat)>, r: Result<T>, pos: nat)
  {
    && (r.Ok? <==> d.Ok?)
    && (d.Ok? ==> r.value == d.value.0 && pos == d.value.1)
    && (d.Err? ==> r.error == d.error)
  }

  /** The reader over a `BinaryReader`. */
  class BinaryReceiptFileReader {
    const BaseStream: InputStream

    constructor (stream: InputStream)
      ensures BaseStream == stream
    {
      BaseStream := stream;
    }

    /** `BinaryReader.ReadBytes`: what is available, possibly fewer bytes than asked for. */
    method ReadBytes(count: nat) returns (bytes: Bytes)
      modifies BaseStream
      ensures bytes == Available(BaseStream.data, old(BaseStream.position), count)
      ensures BaseStream.position == old(BaseStream.position) + |bytes|
    {
      bytes := BaseStream.Read(count);
    }

    /** `BinaryReader.ReadByte`. */
    method ReadByte() returns (r: Result<uint8>)
      modifies BaseStream
      ensures r == ByteAt(BaseStream.data, old(BaseStream.position))
      ensures r.Ok? ==> BaseStream.position == old(BaseStream.position) + 1
    {
      var bytes := BaseStream.Read(1);
      if |bytes| == 0 {
        return Err(EndOfStream);
      }
      return Ok(bytes[0]);
    }

    /** The `k` bytes of a fixed-width read (`ReadUInt16`, `ReadUInt64`, `ReadInt64`). */
    method ReadFixed(k: nat) returns (r: Result<Bytes>)
      requires k > 0
      modifies BaseStream
      ensures r.Ok? <==> old(BaseStream.position) + k <= |BaseStream.data|
      ensures r.Ok? ==> r.value == BaseStream.data[old(BaseStream.position)..old(BaseStream.position) + k]
      ensures r.Ok? ==> BaseStream.position == old(BaseStream.position) + k
      ensures r.Err? ==> r.error == EndOfStream
    {
      var bytes := BaseStream.Read(k);
      if |bytes| < k {
        return Err(EndOfStream);
      }
      return Ok(bytes);
    }

    method ReadHeader() returns (r: Result<Header>)
      modifies BaseStream
      ensures Decoded(DecodeHeader(BaseStream.data, old(BaseStream.position)), r, BaseStream.position)
    {
      ghost var start := BaseStream.position;
      var sig := ReadBytes(5);
      var check := CheckSignature(sig);
      if check.Err? {
        return Err(check.error);
      }
      assert BaseStream.position == start + 5;
      var n :- ReadByte();
      var fileHash := ReadBytes(n);
      assert fileHash == Available(BaseStream.data, start + 6, n);
      var size :- ReadFixed(8);
      DecodeInside(BaseStream.data, BaseStream.position - 8, size);
      r := Ok(Header(fileHash, ToInt64(U64(size, 0))));
      assert DecodeHeader(BaseStream.data, start) == Ok((r.value, BaseStream.position));
    }

    /** Reads one record head and leaves the stream where its inline bytes, if any, start. */
    method ReadChunkHeader() returns (r: Result<Chunk>)
      modifies BaseStream
      ensures Decoded(DecodeChunkHeader(BaseStream.data, old(BaseStream.position)), r, BaseStream.position)
    {
      var chunkType :- ReadByte();
      if chunkType == SharedChunkType {
        var n :- ReadByte();
        var hash := ReadBytes(n);
        return Ok(SharedChunk(hash));
      } else if chunkType == ShortDataChunkType {
        var size :- ReadFixed(2);
        DecodeInside(BaseStream.data, BaseStream.position - 2, size);
        return Ok(DataChunk(U16(size, 0)));
      } else if chunkType == LongDataChunkType {
        var size :- ReadFixed(8);
        DecodeInside(BaseStream.data, BaseStream.position - 8, size);
        return Ok(DataChunk(ToInt64(U64(size, 0))));
      }
      return Err(FormatError("unknown chunk type"));
    }

    method IsEof() returns (eof: bool)
      ensures eof <==> BaseStream.position == |BaseStream.data|
    {
      return BaseStream.position == |BaseStream.data|;
    }
  }

  // ---------------------------------------------------------------------------
  // Round trips
  // ---------------------------------------------------------------------------

  /** The magic and version the writer emits pass the reader's checks. */
  lemma SignatureAccepted(data: Bytes, pos: nat)
    requires pos + 5 <= |data| && data[pos..pos + 5] == Magic + [FormatVersion]
    ensures CheckSignature(Available(data, pos, 5)) == Ok(())
  {
    var sig := Available(data, pos, 5);
    assert sig == Magic + [FormatVersion];
    assert sig[..4] == Magic;
  }

  /** Where the parts of a header sit. */
  lemma HeaderLayout(fileHash: Bytes, fileSize: int64)
    requires |fileHash| <= MaxHashLength
    ensures var enc := HeaderBytes(fileHash, fileSize);
      && enc[..5] == Magic + [FormatVersion] && enc[5] == |fileHash|
      && enc[6..6 + |fileHash|] == fileHash && enc[6 + |fileHash|..] == LE64(ToUInt64(fileSize))
  {
  }

  /** The header the writer emits reads back as the same hash and size. */
  lemma HeaderRoundTrip(data: Bytes, pos: nat, fileHash: Bytes, fileSize: int64)
    requires |fileHash| <= MaxHashLength
    requires pos + |HeaderBytes(fileHash, fileSize)| <= |data|
    requires data[pos..pos + |HeaderBytes(fileHash, fileSize)|] == HeaderBytes(fileHash, fileSize)
    ensures DecodeHeader(data, pos) == Ok((Header(fileHash, fileSize), pos + 14 + |fileHash|))
  {
    var enc := HeaderBytes(fileHash, fileSize);
    var n := |fileHash|;
    HeaderLayout(fileHash, fileSize);
    assert CheckSignature(Available(data, pos, 5)) == Ok(()) by {
      SliceInside(data, pos, enc, 0, 5);
      SignatureAccepted(data, pos);
    }
    assert data[pos + 5] == n by {
      SliceInside(data, pos, enc, 5, 6);
      assert data[pos + 5..pos + 6][0] == enc[5..6][0];
    }
    assert Available(data, pos + 6, n) == fileHash by {
      SliceInside(data, pos, enc, 6, 6 + n);
    }
    assert ToInt64(U64(data, pos + 6 + n)) == fileSize by {
      SliceInside(data, pos, enc, 6 + n, 14 + n);
      DecodeInside(data, pos + 6 + n, LE64(ToUInt64(fileSize)));
    }
    DecodeHeaderOfParts(data, pos, fileHash, fileSize);
  }

  /** A header whose parts each read back decodes to those parts. */
  lemma DecodeHeaderOfParts(data: Bytes, pos: nat, fileHash: Bytes, fileSize: int64)
    requires pos + 14 + |fileHash| <= |data|
    requires CheckSignature(Available(data, pos, 5)) == Ok(()) && data[pos + 5] == |fileHash|
    requires Available(data, pos + 6, |fileHash|) == fileHash
    requires ToInt64(U64(data, pos + 6 + |fileHash|)) == fileSize
    ensures DecodeHeader(data, pos) == Ok((Header(fileHash, fileSize), pos + 14 + |fileHash|))
  {
  }

  /** A shared-chunk record reads back as the same hash. */
  lemma SharedChunkRoundTrip(data: Bytes, pos: nat, hash: Bytes)
    requires |hash| <= MaxHashLength
    requires pos + 2 + |hash| <= |data| && data[pos..pos + 2 + |hash|] == SharedChunkBytes(hash)
    ensures DecodeChunkHeader(data, pos) == Ok((SharedChunk(hash), pos + 2 + |hash|))
  {
    var enc := SharedChunkBytes(hash);
    assert data[pos] == enc[0] && data[pos + 1] == enc[1];
    SliceInside(data, pos, enc, 2, 2 + |hash|);
    assert enc[2..] == hash;
  }

  /** The head of an inline record of any non-negative `long` length reads back as that length. */
  lemma DataChunkRoundTrip(data: Bytes, pos: nat, size: int64)
    requires 0 <= size
    requires pos + |DataChunkHeaderBytes(size)| <= |data|
    requires data[pos..pos + |DataChunkHeaderBytes(size)|] == DataChunkHeaderBytes(size)
    ensures DecodeChunkHeader(data, pos) == Ok((DataChunk(size), pos + |DataChunkHeaderBytes(size)|))
  {
    var enc := DataChunkHeaderBytes(size);
    assert data[pos] == enc[0];
    if size > MaxShortDataSize {
      assert enc[1..] == LE64(ToUInt64(size));
      SliceInside(data, pos, enc, 1, 9);
      DecodeInside(data, pos + 1, LE64(ToUInt64(size)));
    } else {
      assert enc[1..] == LE16(ToUInt16(size));
      SliceInside(data, pos, enc, 1, 3);
      DecodeInside(data, pos + 1, LE16(ToUInt16(size)));
    }
  }

  /** The reader also takes the long form for a short length, which the writer never emits. */
  lemma NonCanonicalDataChunkAccepted()
    ensures DecodeChunkHeader([LongDataChunkType] + LE64(5), 0) == Ok((DataChunk(5), 9))
    ensures DataChunkHeaderBytes(5) != [LongDataChunkType] + LE64(5)
  {
    DecodeAfter([LongDataChunkType], LE64(5), 0);
  }

  // ---------------------------------------------------------------------------
  // Whole receipts
  // ---------------------------------------------------------------------------

  /** A receipt record: inline bytes, or a reference to a stored blob by its digest. */
  datatype Record = Inline(data: Bytes) | Reference(hash: Bytes)

  /** A record the writer can frame: a short enough hash, an inline length that is a `long`. */
  predicate WellFormed(rec: Record)
  {
    match rec
    case Inline(data) => |data| < TWO_63
    case Reference(hash) => |hash| <= MaxHashLength
  }

  function RecordBytes(rec: Record): (r: Bytes)
    requires WellFormed(rec)
  {
    match rec
    case Inline(data) => DataChunkHeaderBytes(|data|) + data
    case Reference(hash) => SharedChunkBytes(hash)
  }

  function RecordsBytes(recs: seq<Record>): Bytes
    requires forall k | 0 <= k < |recs| :: WellFormed(recs[k])
  {
    if recs == [] then [] else RecordBytes(recs[0]) + RecordsBytes(recs[1..])
  }

  /** A whole receipt: header, then the records, with nothing after them. */
  function ReceiptBytes(fileHash: Bytes, fileSize: int64, recs: seq<Record>): Bytes
    requires |fileHash| <= MaxHashLength
    requires forall k | 0 <= k < |recs| :: WellFormed(recs[k])
  {
    HeaderBytes(fileHash, fileSize) + RecordsBytes(recs)
  }

  /**
   * One record at `pos` as the restore loop reads it: the record head, then for
   * inline data the next `Size` bytes (none for a length that is not positive),
   * with the position after it.
   */
  function NextRecord(data: Bytes, pos: nat): (r: Result<(Record, nat)>)
    ensures r.Ok? ==> pos < r.value.1 <= |data|
  {
    match DecodeChunkHeader(data, pos)
    case Err(e) => Err(e)
    case Ok((chunk, p)) =>
      if chunk.SharedChunk? then Ok((Reference(chunk.Hash), p))
      else if chunk.Size > 0 && p + chunk.Size > |data| then Err(EndOfStream)
      else
        var inline := Available(data, p, chunk.Size);
        Ok((Inline(inline), p + |inline|))
  }

  /** The records from `pos` to the end of `data`, read until the position is exactly the end. */
  function ReadRecords(data: Bytes, pos: nat): Result<seq<Record>>
    requires pos <= |data|
    decreases |data| - pos
  {
    if pos == |data| then Ok([])
    else match NextRecord(data, pos)
      case Err(e) => Err(e)
      case Ok((rec, p)) =>
        match ReadRecords(data, p)
        case Err(e) => Err(e)
        case Ok(rest) => Ok([rec] + rest)
  }

  /** A whole receipt read back: its header and its records. */
  function ReadReceipt(data: Bytes): Result<(Header, seq<Record>)>
  {
    match DecodeHeader(data, 0)
    case Err(e) => Err(e)
    case Ok((header, p)) =>
      match ReadRecords(data, p)
      case Err(e) => Err(e)
      case Ok(recs) => Ok((header, recs))
  }

  /** One framed record at `pos` reads back as itself, and the position moves past it. */
  lemma RecordRoundTrip(data: Bytes, pos: nat, rec: Record)
    requires WellFormed(rec)
    requires pos + |RecordBytes(rec)| <= |data| && data[pos..pos + |RecordBytes(rec)|] == RecordBytes(rec)
    ensures NextRecord(data, pos) == Ok((rec, pos + |RecordBytes(rec)|))
  {
    var enc := RecordBytes(rec);
    if rec.Inline? {
      var head := DataChunkHeaderBytes(|rec.data|);
      assert enc == head + rec.data;
      SliceInside(data, pos, enc, 0, |head|);
      SliceInside(data, pos, enc, |head|, |enc|);
      InlineRecordRoundTrip(data, pos, rec.data);
    } else {
      ReferenceRecordRoundTrip(data, pos, rec.hash);
    }
  }

  /** A shared-chunk record: the position moves past its hash. */
  lemma ReferenceRecordRoundTrip(data: Bytes, pos: nat, hash: Bytes)
    requires |hash| <= MaxHashLength
    requires pos + 2 + |hash| <= |data| && data[pos..pos + 2 + |hash|] == SharedChunkBytes(hash)
    ensures NextRecord(data, pos) == Ok((Reference(hash), pos + 2 + |hash|))
  {
    SharedChunkRoundTrip(data, pos, hash);
  }

  /** An inline record: its head, then its bytes. */
  lemma InlineRecordRoundTrip(data: Bytes, pos: nat, bytes: Bytes)
    requires |bytes| < TWO_63
    requires var n := |DataChunkHeaderBytes(|bytes|)|;
      && pos + n + |bytes| <= |data|
      && data[pos..pos + n] == DataChunkHeaderBytes(|bytes|)
      && data[pos + n..pos + n + |bytes|] == bytes
    ensures NextRecord(data, pos) == Ok((Inline(bytes), pos + |DataChunkHeaderBytes(|bytes|)| + |bytes|))
  {
    var p := pos + |DataChunkHeaderBytes(|bytes|)|;
    DataChunkRoundTrip(data, pos, |bytes|);
    assert DecodeChunkHeader(data, pos) == Ok((DataChunk(|bytes|), p));
    assert Available(data, p, |bytes|) == bytes;
  }

  /** Reading records from `pos` is reading the next one, then the rest. */
  lemma ReadRecordsStep(data: Bytes, pos: nat, rec: Record, p: nat, rest: seq<Record>)
    requires pos < |data| && NextRecord(data, pos) == Ok((rec, p))
    requires p <= |data| && ReadRecords(data, p) == Ok(rest)
    ensures ReadRecords(data, pos) == Ok([rec] + rest)
  {
  }

  /** A stretch of `s` equal to `a + b` is a stretch equal to `a` followed by one equal to `b`. */
  lemma SplitStretch(s: Bytes, pos: nat, a: Bytes, b: Bytes)
    requires pos + |a| + |b| == |s| && s[pos..] == a + b
    ensures s[pos..pos + |a|] == a && s[pos + |a|..] == b
  {
    assert s[pos..pos + |a|] == s[pos..][..|a|];
    assert s[pos + |a|..] == s[pos..][|a|..];
  }

  /** `data` holds, from `pos` to its end, the framed records `recs`, one after the other. */
  predicate Framed(data: Bytes, pos: nat, recs: seq<Record>)
    decreases |recs|
  {
    if recs == [] then pos == |data|
    else
      && WellFormed(recs[0])
      && pos + |RecordBytes(recs[0])| <= |data|
      && data[pos..pos + |RecordBytes(recs[0])|] == RecordBytes(recs[0])
      && Framed(data, pos + |RecordBytes(recs[0])|, recs[1..])
  }

  /** The concatenated frames at the end of `data` are framed one by one. */
  lemma {:induction false} FramedOfBytes(data: Bytes, pos: nat, recs: seq<Record>)
    requires forall k | 0 <= k < |recs| :: WellFormed(recs[k])
    requires pos + |RecordsBytes(recs)| == |data| && data[pos..] == RecordsBytes(recs)
    ensures Framed(data, pos, recs)
    decreases |recs|
  {
    if recs != [] {
      var enc, rest := RecordBytes(recs[0]), RecordsBytes(recs[1..]);
      SplitStretch(data, pos, enc, rest);
      FramedOfBytes(data, pos + |enc|, recs[1..]);
    }
  }

  /** Reading from `pos` yields the records `recs` one at a time, ending exactly at the end of `data`. */
  predicate Parses(data: Bytes, pos: nat, recs: seq<Record>)
    decreases |recs|
  {
    if recs == [] then pos == |data|
    else
      match NextRecord(data, pos)
      case Err(_) => false
      case Ok((rec, p)) => rec == recs[0] && Parses(data, p, recs[1..])
  }

  /** Framed records parse one by one. */
  lemma {:induction false} ParsesOfFramed(data: Bytes, pos: nat, recs: seq<Record>)
    requires Framed(data, pos, recs)
    ensures Parses(data, pos, recs)
    decreases |recs|
  {
    if recs != [] {
      var p := FramedHead(data, pos, recs);
      ParsesOfFramed(data, p, recs[1..]);
    }
  }

  /** The first of some framed records is the next one read, and the rest are framed after it. */
  lemma FramedHead(data: Bytes, pos: nat, recs: seq<Record>) returns (p: nat)
    requires recs != [] && Framed(data, pos, recs)
    ensures NextRecord(data, pos) == Ok((recs[0], p)) && Framed(data, p, recs[1..])
  {
    p := pos + |RecordBytes(recs[0])|;
    RecordRoundTrip(data, pos, recs[0]);
  }

  /** Records that parse one by one are what reading them all yields. */
  lemma {:induction false} ParsesRoundTrip(data: Bytes, pos: nat, recs: seq<Record>)
    requires pos <= |data| && Parses(data, pos, recs)
    ensures ReadRecords(data, pos) == Ok(recs)
    decreases |recs|
  {
    if recs != [] {
      var p := NextRecord(data, pos).value.1;
      ParsesRoundTrip(data, p, recs[1..]);
      ReadRecordsStep(data, pos, recs[0], p, recs[1..]);
      assert [recs[0]] + recs[1..] == recs;
    }
  }

  /** The framed records at the end of `data`, from `pos` on, read back as themselves. */
  lemma RecordsRoundTrip(data: Bytes, pos: nat, recs: seq<Record>)
    requires forall k | 0 <= k < |recs| :: WellFormed(recs[k])
    requires pos + |RecordsBytes(recs)| == |data| && data[pos..] == RecordsBytes(recs)
    ensures ReadRecords(data, pos) == Ok(recs)
  {
    FramedOfBytes(data, pos, recs);
    ParsesOfFramed(data, pos, recs);
    ParsesRoundTrip(data, pos, recs);
  }

  /** A receipt the writer can emit reads back as its header and records. */
  lemma ReceiptRoundTrip(fileHash: Bytes, fileSize: int64, recs: seq<Record>)
    requires |fileHash| <= MaxHashLength
    requires forall k | 0 <= k < |recs| :: WellFormed(recs[k])
    ensures ReadReceipt(ReceiptBytes(fileHash, fileSize, recs)) == Ok((Header(fileHash, fileSize), recs))
  {
    var head := HeaderBytes(fileHash, fileSize);
    var data := ReceiptBytes(fileHash, fileSize, recs);
    assert data[0..|head|] == head;
    HeaderRoundTrip(data, 0, fileHash, fileSize);
    assert data[|head|..] == RecordsBytes(recs);
    RecordsRoundTrip(data, |head|, recs);
  }
}
