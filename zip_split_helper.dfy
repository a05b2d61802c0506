/**
 * The `ZipSplitHelper` class itself: `ProcessZip`, `RestoreOriginalFile` and
 * `CopyRawData`, working on streams, a receipt writer and a chunk storage.
 * Each method is proved against the pure definitions of module `ZipSplit`:
 * a successful `ProcessZip` leaves the writer and the storage as `Process`
 * says, and `RestoreOriginalFile` writes what `Replay` says.
 */
module ZipSplitHelper {
  import opened Wrappers
  import opened Bytes
  import opened Streams
  import opened ZipFormat
  import ZipArchive
  import opened Receipt
  import opened ChunkStorage
  import opened ZipSplit

  // ---------------------------------------------------------------------------
  // The receipt writer as a value
  // ---------------------------------------------------------------------------

  /**
   * What a receipt writer holds: the binary writer's output stream, or the
   * estimator's running size.
   */
  datatype WriterState = Written(data: Bytes, position: nat) | Counted(size: int)
  {
    predicate Sane()
    {
      Written? ==> position <= |data|
    }
  }

  function StateOf(w: ReceiptWriter): (s: WriterState)
    reads w.Footprint()
    ensures w.Valid() ==> s.Sane()
    ensures w.Binary? <==> s.Written?
  {
    if w.Binary? then Written(w.writer.output.data, w.writer.output.position) else Counted(w.estimator.Size)
  }

  /**
   * A writer after one more write: the binary writer writes `bytes` at its
   * position and moves past them, the estimator adds `count` to its size.
   */
  function Wrote(s: WriterState, bytes: Bytes, count: int): (t: WriterState)
    requires s.Sane()
    ensures t.Sane() && t.Written? == s.Written?
    ensures t.Written? ==> t.position == s.position + |bytes|
    ensures t.Counted? ==> t.size == s.size + count
  {
    match s
    case Written(data, position) => Written(WriteAt(data, position, bytes), position + |bytes|)
    case Counted(size) => Counted(size + count)
  }

  /** Two writes one after the other are one write of both. */
  lemma WroteTwice(s: WriterState, a: Bytes, m: int, b: Bytes, n: int)
    requires s.Sane()
    ensures Wrote(Wrote(s, a, m), b, n) == Wrote(s, a + b, m + n)
  {
    if s.Written? {
      WriteAtTwice(s.data, s.position, a, b);
    }
  }

  /** Writing nothing changes nothing. */
  lemma WroteNothing(s: WriterState)
    requires s.Sane()
    ensures Wrote(s, [], 0) == s
  {
    if s.Written? {
      assert WriteAt(s.data, s.position, []) == s.data;
    }
  }

  /** The estimator's count does not depend on the bytes. */
  lemma CountedIgnoresBytes(s: WriterState, a: Bytes, b: Bytes, n: int)
    requires s.Counted?
    ensures Wrote(s, a, n) == Wrote(s, b, n)
  {
  }

  // ---------------------------------------------------------------------------
  // `IReceiptFileWriter` calls, dispatched to the implementation
  // ---------------------------------------------------------------------------

  method StartChunk(w: ReceiptWriter, size: int64)
    requires w.Valid()
    modifies w.Footprint()
    ensures w.Valid()
    ensures StateOf(w) == Wrote(old(StateOf(w)), DataChunkHeaderBytes(size), |DataChunkHeaderBytes(size)|)
  {
    if w.Binary? {
      w.writer.StartDataChunk(size);
    } else {
      w.estimator.StartDataChunk(size);
    }
  }

  method WriteContent(w: ReceiptWriter, bytes: Bytes)
    requires w.Valid()
    modifies w.Footprint()
    ensures w.Valid()
    ensures StateOf(w) == Wrote(old(StateOf(w)), bytes, |bytes|)
  {
    if w.Binary? {
      w.writer.WriteDataChunkContent(bytes);
    } else {
      w.estimator.WriteDataChunkContent(bytes);
    }
  }

  method WriteShared(w: ReceiptWriter, hash: Bytes) returns (r: Result<()>)
    requires w.Valid()
    modifies w.Footprint()
    ensures w.Valid()
    ensures |hash| > MaxHashLength ==> r == Err(FormatError("hash too long"))
    ensures |hash| <= MaxHashLength ==> r == Ok(()) && StateOf(w) == Wrote(old(StateOf(w)), SharedChunkBytes(hash), 2 + |hash|)
  {
    if w.Binary? {
      r := w.writer.WriteSharedChunk(hash);
    } else {
      r := w.estimator.WriteSharedChunk(hash);
    }
  }

  /** The header as the binary writer frames it; it refuses a digest too long to frame. */
  function HeaderEmitted(fileHash: Bytes, fileSize: int64): Bytes
  {
    if |fileHash| <= MaxHashLength then HeaderBytes(fileHash, fileSize) else []
  }

  method WriteFileHeader(w: ReceiptWriter, fileHash: Bytes, fileSize: int64) returns (r: Result<()>)
    requires w.Valid()
    modifies w.Footprint()
    ensures w.Valid()
    ensures r == if w.Estimator? || |fileHash| <= MaxHashLength then Ok(()) else Err(FormatError("file hash too long"))
    ensures r.Ok? ==> StateOf(w) == Wrote(old(StateOf(w)), HeaderEmitted(fileHash, fileSize), 14 + |fileHash|)
  {
    if w.Binary? {
      r := w.writer.WriteHeader(fileHash, fileSize);
    } else {
      w.estimator.WriteHeader(fileHash, fileSize);
      r := Ok(());
    }
  }

  // ---------------------------------------------------------------------------
  // CopyRawData
  // ---------------------------------------------------------------------------

  /** The head of a data chunk when one is written, else nothing. */
  function ChunkHead(size: int64, writeHeader: bool): Bytes
  {
    if writeHeader then DataChunkHeaderBytes(size) else []
  }

  /**
   * `CopyRawData`: the head of a data chunk of `size` bytes when asked for,
   * then the next `size` bytes of `from` as its content. The estimator only
   * counts them and seeks past them; the binary writer copies them, and fails
   * when the stream ends first.
   */
  method CopyRawData(from: InputStream, to: ReceiptWriter, size: int64, writeHeader: bool) returns (r: Result<()>)
    requires to.Valid()
    modifies from, to.Footprint()
    ensures to.Valid()
    ensures to.Binary? ==>
      r == if size <= 0 || old(from.position) + size <= |from.data| then Ok(()) else Err(EndOfStream)
    ensures to.Binary? && r.Ok? ==> from.position == old(from.position) + |Available(from.data, old(from.position), size)|
    ensures to.Estimator? ==> r == if old(from.position) + size >= 0 then Ok(()) else Err(SeekBeforeBegin)
    ensures to.Estimator? && r.Ok? ==> from.position == old(from.position) + size
    ensures r.Ok? ==> StateOf(to) == Wrote(old(StateOf(to)), ChunkHead(size, writeHeader) + Available(from.data, old(from.position), size),
                                          |ChunkHead(size, writeHeader)| + size)
  {
    ghost var s0 := StateOf(to);
    ghost var head := ChunkHead(size, writeHeader);
    ghost var bytes := Available(from.data, from.position, size);
    if writeHeader {
      StartChunk(to, size);
    } else {
      WroteNothing(s0);
    }
    ghost var s1 := StateOf(to);
    assert s1 == Wrote(s0, head, |head|);
    if to.Estimator? {
      to.estimator.WriteDataChunkContentLength(size);
      r := from.Seek(from.position + size);
      if r.Ok? {
        WroteTwice(s0, head, |head|, bytes, size);
      }
    } else {
      r := CopyData(from, to.writer.output, size);
      if r.Ok? {
        assert |bytes| == size || (size <= 0 && bytes == []);
        WroteTwice(s0, head, |head|, bytes, size);
      }
    }
  }

  // ---------------------------------------------------------------------------
  // One turn of ProcessZip's loop
  // ---------------------------------------------------------------------------

  /** What a run of steps does to the state of a receipt writer. */
  type Effect = (WriterState, seq<Step>) -> WriterState

  /** Writing what the steps emit, or counting what they count. */
  function Performing(data: Bytes, H: Bytes -> Bytes): Effect
  {
    (s: WriterState, steps: seq<Step>) =>
      if s.Sane() then Wrote(s, Emitted(data, H, steps), Estimated(data, H, steps)) else s
  }

  /**
   * `E` is that effect. The equation is only used where `Emitted` itself is
   * written next to `Wrote`, so a method that passes `E` on works with runs of
   * steps and never with their bytes.
   */
  ghost predicate Performs(E: Effect, data: Bytes, H: Bytes -> Bytes)
  {
    forall s: WriterState, steps: seq<Step> {:trigger Wrote(s, Emitted(data, H, steps), Estimated(data, H, steps))}
      :: s.Sane() ==> E(s, steps) == Wrote(s, Emitted(data, H, steps), Estimated(data, H, steps))
  }

  lemma PerformingPerforms(data: Bytes, H: Bytes -> Bytes)
    ensures Performs(Performing(data, H), data, H)
  {
  }

  /** A run, then another from where it ended, is the effect of the two together. */
  lemma PerformedThen(E: Effect, data: Bytes, H: Bytes -> Bytes, s: WriterState, a: seq<Step>, b: seq<Step>,
                      t: WriterState, u: WriterState)
    requires Performs(E, data, H) && s.Sane() && t == E(s, a) && u == E(t, b)
    ensures u == E(s, a + b)
  {
    var ea, ca, eb, cb := Emitted(data, H, a), Estimated(data, H, a), Emitted(data, H, b), Estimated(data, H, b);
    assert t == Wrote(s, ea, ca);
    assert u == Wrote(t, eb, cb);
    EmittedAppend(data, H, a, b);
    EstimatedAppend(data, H, a, b);
    WroteTwice(s, ea, ca, eb, cb);
    assert E(s, a + b) == Wrote(s, Emitted(data, H, a + b), Estimated(data, H, a + b));
  }

  /** Doing one step is the effect of a run of that step alone. */
  lemma PerformedOne(E: Effect, data: Bytes, H: Bytes -> Bytes, s: WriterState, step: Step, t: WriterState)
    requires Performs(E, data, H) && s.Sane()
    requires t == Wrote(s, StepBytes(data, H, step), StepCount(data, H, step))
    ensures t == E(s, [step])
  {
    OneStep(data, H, step);
    assert t == Wrote(s, Emitted(data, H, [step]), Estimated(data, H, [step]));
  }

  /** A run of one step emits and counts what the step does. */
  lemma {:induction false} OneStep(data: Bytes, H: Bytes -> Bytes, step: Step)
    ensures Emitted(data, H, [step]) == StepBytes(data, H, step)
    ensures Estimated(data, H, [step]) == StepCount(data, H, step)
  {
    assert [step][1..] == [];
  }

  /**
   * The walk `ProcessZip` performs: the writer kind, the digest, the local
   * header reader, the storage's `AddChunk` reading from `data`, the archive
   * path and the file name decoding.
   */
  function TheWalker(to: ReceiptWriter, st: SharedStorage, data: Bytes, H: Bytes -> Bytes, path: string,
                     Decode: Bytes -> string): (w: Walker)
    ensures Drives(w, to, st, data, H, path, Decode)
  {
    LocalHeadersInside();
    Walker(to.Estimator?, H, ReadLocalHeader, StoreAdder(st, data), path, Decode)
  }

  /**
   * The methods below carry out the walk `w`: it agrees with the writer, the
   * storage, the file's bytes and the other arguments they are given.
   */
  ghost predicate Drives(w: Walker, to: ReceiptWriter, st: SharedStorage, data: Bytes, H: Bytes -> Bytes, path: string,
                         Decode: Bytes -> string)
  {
    && w.estimating == to.Estimator? && w.H == H && w.path == path && w.Decode == Decode
    && ReadsInside(w.read) && ReadsLocalHeaders(w.read) && AddsTo(w.add, st, data)
  }

  /** The outcome of an operation whose result is dropped. */
  function Outcome<T>(r: Result<T>): (o: Result<()>)
    ensures o.Ok? <==> r.Ok?
    ensures r.Err? ==> o.error == r.error
  {
    if r.Ok? then Ok(()) else Err(r.error)
  }

  /**
   * Reads the local header at the stream's position: its 30 fixed bytes, which
   * are returned as they are too, then the file name.
   */
  method ReadLocalHeaderFrom(file: InputStream, ghost read: HeaderReader) returns (r: Result<(LocalFileHeader, Bytes)>, head: Bytes)
    requires ReadsInside(read) && ReadsLocalHeaders(read)
    modifies file
    ensures r == read(file.data, old(file.position))
    ensures r.Ok? ==> head == file.data[old(file.position)..old(file.position) + LocalFileHeaderMinSize]
    ensures r.Ok? ==> var name := old(file.position) + LocalFileHeaderMinSize;
      r.value.1 == file.data[name..name + |r.value.1|]
    ensures r.Ok? ==> file.position == old(file.position) + LocalFileHeaderMinSize + |r.value.1|
  {
    ghost var expected := ReadLocalHeader(file.data, file.position);
    head := file.Read(LocalFileHeaderMinSize);
    if |head| != LocalFileHeaderMinSize {
      return Err(FormatError("failed to read localHeaderData")), head;
    }
    var parsed := ParseLocalFileHeader(head);
    if parsed.Err? {
      return Err(parsed.error), head;
    }
    var h := parsed.value;
    var name := file.Read(h.FileNameLength);
    if |name| != h.FileNameLength {
      return Err(FormatError("failed to read file name from local header")), head;
    }
    return Ok((h, name)), head;
  }

  /** A turn whose entry is stored: its steps are the gap, the header and the compressed data. */
  lemma TurnIs(data: Bytes, w: Walker, store: StorageState, pos: nat, offset: int64, store': StorageState, h: LocalFileHeader)
    requires ReadsInside(w.read) && pos <= offset
    requires w.estimating || pos == offset || offset <= |data|
    requires Entry(data, w, store, offset) == (store', Ok(h))
    ensures var q := offset + h.Size;
      SplitOffset(data, w, store, pos, offset)
        == (store', Ok(Split(Gap(pos, offset) + [Raw(offset, h.Size), Payload(q, h.CompressedSize)], q + h.CompressedSize)))
  {
  }

  /** The bytes before the local header at `offset`, if any, as one inline chunk. */
  method CopyGap(file: InputStream, to: ReceiptWriter, offset: int64, ghost H: Bytes -> Bytes, ghost E: Effect)
    returns (r: Result<()>)
    requires to.Valid() && file.position <= offset && Performs(E, file.data, H)
    modifies file, to.Footprint()
    ensures to.Valid()
    ensures r == if to.Estimator? || old(file.position) == offset || offset <= |file.data| then Ok(()) else Err(EndOfStream)
    ensures r.Ok? ==> file.position == offset
    ensures r.Ok? ==> StateOf(to) == E(old(StateOf(to)), Gap(old(file.position), offset))
  {
    r := WriteGap(file, to, offset, H);
  }

  /** The gap's chunk, as the steps of `Gap` emit and count it. */
  method WriteGap(file: InputStream, to: ReceiptWriter, offset: int64, ghost H: Bytes -> Bytes)
    returns (r: Result<()>)
    requires to.Valid() && file.position <= offset
    modifies file, to.Footprint()
    ensures to.Valid()
    ensures r == if to.Estimator? || old(file.position) == offset || offset <= |file.data| then Ok(()) else Err(EndOfStream)
    ensures r.Ok? ==> file.position == offset
    ensures var gap := Gap(old(file.position), offset);
      r.Ok? ==> StateOf(to) == Wrote(old(StateOf(to)), Emitted(file.data, H, gap), Estimated(file.data, H, gap))
  {
    if file.position < offset {
      r := WriteGapChunk(file, to, offset, H);
    } else {
      WroteNothing(StateOf(to));
      r := Ok(());
    }
  }

  /** A gap that is there: one inline chunk of the bytes up to `offset`. */
  method WriteGapChunk(file: InputStream, to: ReceiptWriter, offset: int64, ghost H: Bytes -> Bytes)
    returns (r: Result<()>)
    requires to.Valid() && file.position < offset
    modifies file, to.Footprint()
    ensures to.Valid()
    ensures r == if to.Estimator? || offset <= |file.data| then Ok(()) else Err(EndOfStream)
    ensures r.Ok? ==> file.position == offset
    ensures var gap := Gap(old(file.position), offset);
      r.Ok? ==> StateOf(to) == Wrote(old(StateOf(to)), Emitted(file.data, H, gap), Estimated(file.data, H, gap))
  {
    ghost var data, pos, s0 := file.data, file.position, StateOf(to);
    r := CopyRawData(file, to, offset - file.position, true);
    if r.Ok? {
      GapChunk(data, H, s0, pos, offset);
    }
  }

  /** A gap before `offset` is one inline chunk of the bytes from `pos`. */
  lemma GapChunk(data: Bytes, H: Bytes -> Bytes, s: WriterState, pos: nat, offset: int64)
    requires s.Sane() && pos < offset && (s.Written? ==> offset <= |data|)
    ensures var n := offset - pos;
      Wrote(s, ChunkHead(n, true) + Available(data, pos, n), |ChunkHead(n, true)| + n)
        == Wrote(s, Emitted(data, H, Gap(pos, offset)), Estimated(data, H, Gap(pos, offset)))
  {
    var step := Raw(pos, offset - pos);
    OneStep(data, H, step);
    if s.Written? {
      CoveredIsRead(data, step);
    } else {
      CountedIgnoresBytes(s, StepBytes(data, H, step), DataChunkHeaderBytes(offset - pos) + Available(data, pos, offset - pos),
                          StepCount(data, H, step));
    }
  }

  /**
   * The local header at `offset`, already read up to the end of its file name,
   * copied as one inline chunk: the fixed bytes and the name as read, then the
   * extra field from the stream.
   */
  method CopyLocalHeader(file: InputStream, to: ReceiptWriter, offset: nat, h: LocalFileHeader, head: Bytes, name: Bytes,
                         ghost H: Bytes -> Bytes, ghost E: Effect) returns (r: Result<()>)
    requires to.Valid() && Performs(E, file.data, H)
    requires h.Size == LocalFileHeaderMinSize + |name| + h.ExtraFieldLength && |name| == h.FileNameLength
    requires |head| == LocalFileHeaderMinSize
    requires file.position == offset + LocalFileHeaderMinSize + |name| <= |file.data|
    requires head == file.data[offset..offset + LocalFileHeaderMinSize]
    requires name == file.data[offset + LocalFileHeaderMinSize..offset + LocalFileHeaderMinSize + |name|]
    modifies file, to.Footprint()
    ensures to.Valid()
    ensures r == if to.Estimator? || h.ExtraFieldLength == 0 || offset + h.Size <= |file.data| then Ok(()) else Err(EndOfStream)
    ensures r.Ok? ==> file.position == offset + h.Size
    ensures r.Ok? ==> StateOf(to) == E(old(StateOf(to)), [Raw(offset, h.Size)])
  {
    ghost var s0 := StateOf(to);
    r := WriteLocalHeader(file, to, offset, h, head, name, H);
    if r.Ok? {
      PerformedOne(E, file.data, H, s0, Raw(offset, h.Size), StateOf(to));
    }
  }

  /** The local header's chunk, as its raw step emits and counts it. */
  method WriteLocalHeader(file: InputStream, to: ReceiptWriter, offset: nat, h: LocalFileHeader, head: Bytes, name: Bytes,
                          ghost H: Bytes -> Bytes) returns (r: Result<()>)
    requires to.Valid()
    requires h.Size == LocalFileHeaderMinSize + |name| + h.ExtraFieldLength && |name| == h.FileNameLength
    requires |head| == LocalFileHeaderMinSize
    requires file.position == offset + LocalFileHeaderMinSize + |name| <= |file.data|
    requires head == file.data[offset..offset + LocalFileHeaderMinSize]
    requires name == file.data[offset + LocalFileHeaderMinSize..offset + LocalFileHeaderMinSize + |name|]
    modifies file, to.Footprint()
    ensures to.Valid()
    ensures r == if to.Estimator? || h.ExtraFieldLength == 0 || offset + h.Size <= |file.data| then Ok(()) else Err(EndOfStream)
    ensures r.Ok? ==> file.position == offset + h.Size
    ensures r.Ok? ==> StateOf(to) == Wrote(old(StateOf(to)), StepBytes(file.data, H, Raw(offset, h.Size)), StepCount(file.data, H, Raw(offset, h.Size)))
  {
    ghost var s0 := StateOf(to);
    WriteHeaderChunk(to, h.Size, head, name);
    ghost var s3 := StateOf(to);
    r := CopyRawData(file, to, h.ExtraFieldLength, false);
    if r.Ok? {
      LocalHeaderChunk(file.data, H, s0, offset, h.Size, h.ExtraFieldLength, head, name, s3);
    }
  }

  /** The head, the fixed bytes, the name and the extra field written one after the other make the raw step. */
  lemma LocalHeaderChunk(data: Bytes, H: Bytes -> Bytes, s0: WriterState, offset: nat, size: int64, extraLength: nat,
                         head: Bytes, name: Bytes, s3: WriterState)
    requires s0.Sane()
    requires size == LocalFileHeaderMinSize + |name| + extraLength && |head| == LocalFileHeaderMinSize
    requires offset + LocalFileHeaderMinSize + |name| <= |data|
    requires head == data[offset..offset + LocalFileHeaderMinSize]
    requires name == data[offset + LocalFileHeaderMinSize..offset + LocalFileHeaderMinSize + |name|]
    requires s0.Written? ==> offset + size <= |data|
    requires s3 == Wrote(Wrote(Wrote(s0, DataChunkHeaderBytes(size), |DataChunkHeaderBytes(size)|), head, |head|), name, |name|)
    ensures var extra := Available(data, offset + LocalFileHeaderMinSize + |name|, extraLength);
      Wrote(s3, ChunkHead(extraLength, false) + extra, |ChunkHead(extraLength, false)| + extraLength)
        == Wrote(s0, StepBytes(data, H, Raw(offset, size)), StepCount(data, H, Raw(offset, size)))
  {
    var a, b := DataChunkHeaderBytes(size), Available(data, offset + LocalFileHeaderMinSize + |name|, extraLength);
    assert ChunkHead(extraLength, false) + b == b;
    WroteFour(s0, a, head, name, b, |a|, extraLength);
    if s0.Written? {
      HeaderSlices(data, offset, size, head, name, b);
    }
    RawChunk(data, H, s0, offset, size, head + name + b);
  }

  /** The head of the local header's chunk, then the fixed bytes and the file name as read. */
  method WriteHeaderChunk(to: ReceiptWriter, size: int64, head: Bytes, name: Bytes)
    requires to.Valid()
    modifies to.Footprint()
    ensures to.Valid()
    ensures StateOf(to)
      == Wrote(Wrote(Wrote(old(StateOf(to)), DataChunkHeaderBytes(size), |DataChunkHeaderBytes(size)|), head, |head|), name, |name|)
  {
    StartChunk(to, size);
    WriteContent(to, head);
    WriteContent(to, name);
  }

  /** A data chunk of `size` bytes from `offset`, as its raw step emits and counts it. */
  lemma RawChunk(data: Bytes, H: Bytes -> Bytes, s: WriterState, offset: nat, size: int64, bytes: Bytes)
    requires s.Sane() && 0 <= size
    requires s.Written? ==> offset + size <= |data| && bytes == data[offset..offset + size]
    ensures Wrote(s, DataChunkHeaderBytes(size) + bytes, |DataChunkHeaderBytes(size)| + size)
         == Wrote(s, StepBytes(data, H, Raw(offset, size)), StepCount(data, H, Raw(offset, size)))
  {
  }

  /** Four writes one after the other are one write of all four. */
  lemma WroteFour(s: WriterState, a: Bytes, b: Bytes, c: Bytes, d: Bytes, m: int, n: int)
    requires s.Sane()
    ensures Wrote(Wrote(Wrote(Wrote(s, a, m), b, |b|), c, |c|), d, n) == Wrote(s, a + (b + c + d), m + |b| + |c| + n)
  {
    WroteTwice(s, a, m, b, |b|);
    WroteTwice(s, a + b, m + |b|, c, |c|);
    WroteTwice(s, a + b + c, m + |b| + |c|, d, n);
    assert a + b + c + d == a + (b + c + d);
  }

  lemma HeaderSlices(data: Bytes, offset: nat, size: nat, head: Bytes, name: Bytes, extra: Bytes)
    requires offset + size <= |data| && size == LocalFileHeaderMinSize + |name| + |extra|
    requires head == data[offset..offset + LocalFileHeaderMinSize]
    requires name == data[offset + LocalFileHeaderMinSize..offset + LocalFileHeaderMinSize + |name|]
    requires extra == data[offset + LocalFileHeaderMinSize + |name|..offset + size]
    ensures head + name + extra == data[offset..offset + size]
  {
  }

  /**
   * The compressed data at the stream's position hashed and added to the
   * storage under its digest; on success the digest, with the stream just
   * after the data.
   */
  method AddPayload(path: string, file: InputStream, st: SharedStorage, H: Bytes -> Bytes, Decode: Bytes -> string,
                    name: Bytes, cs: int64, ghost add: Adder) returns (r: Result<Bytes>)
    requires st.Valid() && 0 <= cs && AddsTo(add, st, file.data)
    modifies file, st.Footprint()
    ensures st.Valid()
    ensures var q := old(file.position);
      cs > 0 && q + cs > |file.data| ==> r == Err(EndOfStream) && Snapshot(st) == old(Snapshot(st))
    ensures var q := old(file.position);
      var hash := H(Available(file.data, q, cs));
      var added := add(old(Snapshot(st)), hash, q, cs, (path, Decode(name)));
      !(cs > 0 && q + cs > |file.data|) ==>
        && Snapshot(st) == added.0
        && (added.1.Err? ==> r == Err(added.1.error))
        && (added.1.Ok? ==> r == Ok(hash) && file.position == q + cs)
  {
    var q := file.position;
    var hashed := HashData(file, cs, H);
    if hashed.Err? {
      return Err(hashed.error);
    }
    var hash := hashed.value;
    PayloadIsRead(file.data, q, cs);
    var _ := file.Seek(q);
    var added := AddChunk(st, hash, file, cs, path, Decode(name));
    if added.Err? {
      return Err(added.error);
    }
    var _ := file.Seek(q + cs);
    r := Ok(hash);
  }

  /**
   * The compressed data at the stream's position: its digest, the data added
   * to the storage under it, and the digest recorded in the receipt. The
   * stream ends just after the data.
   */
  method StorePayload(path: string, file: InputStream, to: ReceiptWriter, st: SharedStorage, H: Bytes -> Bytes,
                      Decode: Bytes -> string, name: Bytes, cs: int64, ghost add: Adder, ghost E: Effect)
    returns (r: Result<()>)
    requires to.Valid() && st.Valid() && 0 <= cs && AddsTo(add, st, file.data) && Performs(E, file.data, H)
    modifies file, to.Footprint(), st.Footprint()
    ensures to.Valid() && st.Valid()
    ensures var q := old(file.position);
      cs > 0 && q + cs > |file.data| ==> r == Err(EndOfStream) && Snapshot(st) == old(Snapshot(st))
    ensures var q := old(file.position);
      var hash := H(Available(file.data, q, cs));
      var added := add(old(Snapshot(st)), hash, q, cs, (path, Decode(name)));
      !(cs > 0 && q + cs > |file.data|) ==>
        && Snapshot(st) == added.0
        && (added.1.Err? ==> r == added.1)
        && (added.1.Ok? && |hash| > MaxHashLength ==> r == Err(FormatError("hash too long")))
        && (added.1.Ok? && |hash| <= MaxHashLength ==>
              && r == Ok(()) && file.position == q + cs
              && StateOf(to) == E(old(StateOf(to)), [Payload(q, cs)]))
  {
    ghost var s0 := StateOf(to);
    var q := file.position;
    var hashed := AddPayload(path, file, st, H, Decode, name, cs, add);
    if hashed.Err? {
      return Err(hashed.error);
    }
    r := WriteShared(to, hashed.value);
    if r.Ok? {
      PayloadIsRead(file.data, q, cs);
      PerformedOne(E, file.data, H, s0, Payload(q, cs), StateOf(to));
    }
  }

  /** `Stored` once the header is copied: the compressed data, then the digest `add` gives and the outcome. */
  lemma StoredIs(data: Bytes, w: Walker, store: StorageState, offset: nat, h: LocalFileHeader, name: Bytes)
    requires h.Size == LocalFileHeaderMinSize + h.FileNameLength + h.ExtraFieldLength
    requires !(!w.estimating && h.ExtraFieldLength > 0 && offset + h.Size > |data|)
    ensures var q, cs := offset + h.Size, h.CompressedSize;
      var hash := w.H(Available(data, q, cs));
      var added := w.add(store, hash, q, cs, (w.path, w.Decode(name)));
      Stored(data, w, store, offset, h, name)
        == if cs > 0 && q + cs > |data| then (store, Err(EndOfStream))
           else if added.1.Err? then added
           else if |hash| > MaxHashLength then (added.0, Err(FormatError("hash too long")))
           else (added.0, Ok(()))
  {
  }

  /**
   * The local header at `offset`, read up to the end of its file name, copied
   * inline; then its compressed data stored. The storage and the outcome are
   * those of `Stored`.
   */
  method StoreEntry(path: string, file: InputStream, to: ReceiptWriter, st: SharedStorage, H: Bytes -> Bytes,
                    Decode: Bytes -> string, offset: nat, h: LocalFileHeader, head: Bytes, name: Bytes,
                    ghost w: Walker, ghost E: Effect) returns (r: Result<()>)
    requires to.Valid() && st.Valid() && Drives(w, to, st, file.data, H, path, Decode) && Performs(E, file.data, H)
    requires h.Size == LocalFileHeaderMinSize + |name| + h.ExtraFieldLength && |name| == h.FileNameLength
    requires h.CompressedSize < TWO_32 && |head| == LocalFileHeaderMinSize
    requires file.position == offset + LocalFileHeaderMinSize + |name| <= |file.data|
    requires head == file.data[offset..offset + LocalFileHeaderMinSize]
    requires name == file.data[offset + LocalFileHeaderMinSize..offset + LocalFileHeaderMinSize + |name|]
    modifies file, to.Footprint(), st.Footprint()
    ensures to.Valid() && st.Valid()
    ensures var stored := Stored(file.data, w, old(Snapshot(st)), offset, h, name);
      Snapshot(st) == stored.0 && r == stored.1
    ensures r.Ok? ==>
      var q := offset + h.Size;
      && file.position == q + h.CompressedSize
      && StateOf(to) == E(old(StateOf(to)), [Raw(offset, h.Size), Payload(q, h.CompressedSize)])
  {
    ghost var store, s0 := Snapshot(st), StateOf(to);
    r := CopyLocalHeader(file, to, offset, h, head, name, H, E);
    if r.Err? {
      assert Stored(file.data, w, store, offset, h, name) == (store, Err(EndOfStream));
      return;
    }
    ghost var q, s1 := offset + h.Size, StateOf(to);
    r := StorePayload(path, file, to, st, H, Decode, name, h.CompressedSize, w.add, E);
    StoredIs(file.data, w, store, offset, h, name);
    if r.Ok? {
      PerformedThen(E, file.data, H, s0, [Raw(offset, h.Size)], [Payload(q, h.CompressedSize)], s1, StateOf(to));
      assert [Raw(offset, h.Size)] + [Payload(q, h.CompressedSize)] == [Raw(offset, h.Size), Payload(q, h.CompressedSize)];
    }
  }

  /** The local header at the stream's position read, then its entry stored, as `Entry` says. */
  method EntryAt(path: string, file: InputStream, to: ReceiptWriter, st: SharedStorage, H: Bytes -> Bytes,
                 Decode: Bytes -> string, ghost w: Walker, ghost E: Effect) returns (r: Result<LocalFileHeader>)
    requires to.Valid() && st.Valid() && Drives(w, to, st, file.data, H, path, Decode) && Performs(E, file.data, H)
    modifies file, to.Footprint(), st.Footprint()
    ensures to.Valid() && st.Valid()
    ensures (Snapshot(st), r) == Entry(file.data, w, old(Snapshot(st)), old(file.position))
    ensures r.Ok? ==>
      var offset, h := old(file.position), r.value;
      var q := offset + h.Size;
      && file.position == q + h.CompressedSize
      && StateOf(to) == E(old(StateOf(to)), [Raw(offset, h.Size), Payload(q, h.CompressedSize)])
  {
    var offset := file.position;
    var header, head := ReadLocalHeaderFrom(file, w.read);
    if header.Err? {
      return Err(header.error);
    }
    var (h, name) := header.value;
    var stored := StoreEntry(path, file, to, st, H, Decode, offset, h, head, name, w, E);
    r := if stored.Ok? then Ok(h) else Err(stored.error);
  }

  /**
   * One turn of `ProcessZip`'s loop, for the local header at `offset`: the
   * bytes before it and the header inline, the compressed data into the
   * storage and its digest into the receipt. The storage and the outcome are
   * those of `SplitOffset`; after a successful turn the stream is where it
   * says and the writer holds what its steps emit.
   */
  method SplitEntry(path: string, file: InputStream, to: ReceiptWriter, st: SharedStorage, H: Bytes -> Bytes,
                    Decode: Bytes -> string, offset: int64, ghost w: Walker, ghost E: Effect) returns (r: Result<()>)
    requires to.Valid() && st.Valid() && Drives(w, to, st, file.data, H, path, Decode) && Performs(E, file.data, H)
    modifies file, to.Footprint(), st.Footprint()
    ensures to.Valid() && st.Valid()
    ensures var turn := SplitOffset(file.data, w, old(Snapshot(st)), old(file.position), offset);
      && Snapshot(st) == turn.0 && r == Outcome(turn.1)
      && (turn.1.Ok? ==> file.position == turn.1.value.pos)
      && (turn.1.Ok? ==> StateOf(to) == E(old(StateOf(to)), turn.1.value.steps))
  {
    ghost var data, pos, s0 := file.data, file.position, StateOf(to);
    if file.position > offset {
      return Err(FormatError("jumped over some data, the output file would be incorrect"));
    }
    r := CopyGap(file, to, offset, H, E);
    if r.Err? {
      return;
    }
    ghost var s1 := StateOf(to);
    var entry := EntryAt(path, file, to, st, H, Decode, w, E);
    if entry.Err? {
      return Err(entry.error);
    }
    r := Ok(());
    ghost var h := entry.value;
    PerformedThen(E, data, H, s0, Gap(pos, offset), [Raw(offset, h.Size), Payload(offset + h.Size, h.CompressedSize)], s1, StateOf(to));
    TurnIs(data, w, old(Snapshot(st)), pos, offset, Snapshot(st), h);
  }

  // ---------------------------------------------------------------------------
  // ProcessZip
  // ---------------------------------------------------------------------------

  /**
   * `ProcessZip`'s loop over the sorted offsets, from the start of the file:
   * the storage and the outcome are those of `SplitAll`; after a successful
   * walk the stream is at its end position and the writer holds what its
   * steps emit.
   */
  method SplitFile(path: string, file: InputStream, to: ReceiptWriter, st: SharedStorage, H: Bytes -> Bytes,
                   Decode: Bytes -> string, offsets: seq<int64>, ghost w: Walker, ghost E: Effect) returns (r: Result<()>)
    requires to.Valid() && st.Valid() && Drives(w, to, st, file.data, H, path, Decode) && Performs(E, file.data, H)
    requires file.position == 0
    modifies file, to.Footprint(), st.Footprint()
    ensures to.Valid() && st.Valid()
    ensures var walked := SplitAll(file.data, w, old(Snapshot(st)), offsets);
      && Snapshot(st) == walked.0 && r == Outcome(walked.1)
      && (walked.1.Ok? ==> file.position == walked.1.value.pos)
      && (walked.1.Ok? ==> StateOf(to) == E(old(StateOf(to)), walked.1.value.steps))
  {
    ghost var store0, s0 := Snapshot(st), StateOf(to);
    ghost var steps: seq<Step> := [];
    WroteNothing(s0);
    assert StateOf(to) == Wrote(s0, Emitted(file.data, H, steps), Estimated(file.data, H, steps));
    for i := 0 to |offsets|
      invariant to.Valid() && st.Valid()
      invariant SplitAll(file.data, w, store0, offsets[..i]) == (Snapshot(st), Ok(Split(steps, file.position)))
      invariant StateOf(to) == E(s0, steps)
    {
      assert offsets[..i + 1][..i] == offsets[..i];
      ghost var store, pos, s1 := Snapshot(st), file.position, StateOf(to);
      r := SplitEntry(path, file, to, st, H, Decode, offsets[i], w, E);
      ghost var turn := SplitOffset(file.data, w, store, pos, offsets[i]);
      if r.Err? {
        SplitAllStops(file.data, w, store0, offsets, i + 1);
        return;
      }
      PerformedThen(E, file.data, H, s0, steps, turn.1.value.steps, s1, StateOf(to));
      steps := steps + turn.1.value.steps;
    }
    assert offsets[..|offsets|] == offsets;
    r := Ok(());
  }

  /** The last `CopyRawData`: from the position to the end of the file as one inline chunk. */
  method CopyRest(file: InputStream, to: ReceiptWriter, ghost H: Bytes -> Bytes, ghost E: Effect)
    requires to.Valid() && Performs(E, file.data, H)
    requires |file.data| < TWO_63 && file.position < |file.data| + TWO_16
    requires to.Binary? ==> file.position <= |file.data|
    modifies file, to.Footprint()
    ensures to.Valid()
    ensures StateOf(to) == E(old(StateOf(to)), [Raw(old(file.position), |file.data| - old(file.position))])
  {
    ghost var data, s0 := file.data, StateOf(to);
    var pos := file.position;
    var size := |file.data| - file.position;
    var r := CopyRawData(file, to, size, true);
    var step := Raw(pos, size);
    if to.Binary? {
      CoveredIsRead(data, step);
    } else {
      CountedIgnoresBytes(s0, StepBytes(data, H, step), DataChunkHeaderBytes(size) + Available(data, pos, size),
                          StepCount(data, H, step));
    }
    PerformedOne(E, data, H, s0, step, StateOf(to));
  }

  /** The walk, then the rest of the file. */
  method WalkThenRest(path: string, file: InputStream, to: ReceiptWriter, st: SharedStorage, H: Bytes -> Bytes,
                      Decode: Bytes -> string, offsets: seq<int64>, ghost w: Walker, ghost E: Effect) returns (r: Result<()>)
    requires to.Valid() && st.Valid() && Drives(w, to, st, file.data, H, path, Decode) && Performs(E, file.data, H)
    requires file.position == 0 && |file.data| < TWO_63
    modifies file, to.Footprint(), st.Footprint()
    ensures to.Valid() && st.Valid()
    ensures var walked := SplitAll(file.data, w, old(Snapshot(st)), offsets);
      && Snapshot(st) == walked.0 && r == Outcome(walked.1)
      && (walked.1.Ok? ==>
            var pos := walked.1.value.pos;
            StateOf(to) == E(old(StateOf(to)), walked.1.value.steps + [Raw(pos, |file.data| - pos)]))
  {
    ghost var data, store0, s0 := file.data, Snapshot(st), StateOf(to);
    r := SplitFile(path, file, to, st, H, Decode, offsets, w, E);
    if r.Err? {
      return;
    }
    ghost var walked := SplitAll(data, w, store0, offsets).1.value;
    ghost var s1 := StateOf(to);
    CopyRest(file, to, H, E);
    PerformedThen(E, data, H, s0, walked.steps, [Raw(walked.pos, |data| - walked.pos)], s1, StateOf(to));
  }

  /** The digest of the whole file and its length into the receipt's header; the stream is left at the start. */
  method HashIntoHeader(file: InputStream, to: ReceiptWriter, H: Bytes -> Bytes) returns (r: Result<()>)
    requires to.Valid() && |file.data| < TWO_63
    modifies file, to.Footprint()
    ensures to.Valid() && file.position == 0
    ensures r == if to.Estimator? || |H(file.data)| <= MaxHashLength then Ok(()) else Err(FormatError("file hash too long"))
    ensures r.Ok? ==> StateOf(to) == Wrote(old(StateOf(to)), HeaderEmitted(H(file.data), |file.data|), 14 + |H(file.data)|)
  {
    var _ := file.Seek(0);
    var hashed := HashData(file, |file.data|, H);
    ReadAll(file.data);
    r := WriteFileHeader(to, hashed.value, |file.data|);
    var _ := file.Seek(0);
  }

  /** Reading a whole file from its start gives its bytes. */
  lemma ReadAll(data: Bytes)
    ensures Available(data, 0, |data|) == data
  {
  }

  /**
   * `ProcessZip` once the sorted offsets are known: the digest of the whole
   * file and its length into the header, then the walk, then the rest of the
   * file. The storage and the outcome are those of `Process`; a receipt that
   * is produced is the header followed by what the steps emit.
   */
  method SplitWithOffsets(path: string, file: InputStream, to: ReceiptWriter, st: SharedStorage, H: Bytes -> Bytes,
                          Decode: Bytes -> string, offsets: seq<int64>, ghost w: Walker) returns (r: Result<()>)
    requires to.Valid() && st.Valid() && |file.data| < TWO_63 && Drives(w, to, st, file.data, H, path, Decode)
    modifies file, to.Footprint(), st.Footprint()
    ensures to.Valid() && st.Valid()
    ensures var data := file.data;
      var proc := Process(data, w, old(Snapshot(st)), offsets);
      && Snapshot(st) == proc.0 && r == Outcome(proc.1)
      && (proc.1.Ok? ==>
            StateOf(to) == Wrote(Wrote(old(StateOf(to)), HeaderEmitted(H(data), |data|), 14 + |H(data)|),
                                 Emitted(data, H, proc.1.value), Estimated(data, H, proc.1.value)))
  {
    ghost var data, store0 := file.data, Snapshot(st);
    r := HashIntoHeader(file, to, H);
    if r.Err? {
      assert Process(data, w, store0, offsets) == (store0, Err(FormatError("file hash too long")));
      return;
    }
    r := WalkProcess(path, file, to, st, H, Decode, offsets, w);
  }

  /**
   * `WalkThenRest` once the header is written: the storage, the outcome and
   * what the receipt gains are those of `Process`.
   */
  method WalkProcess(path: string, file: InputStream, to: ReceiptWriter, st: SharedStorage, H: Bytes -> Bytes,
                     Decode: Bytes -> string, offsets: seq<int64>, ghost w: Walker) returns (r: Result<()>)
    requires to.Valid() && st.Valid() && Drives(w, to, st, file.data, H, path, Decode)
    requires file.position == 0 && |file.data| < TWO_63 && (!w.estimating ==> |H(file.data)| <= MaxHashLength)
    modifies file, to.Footprint(), st.Footprint()
    ensures to.Valid() && st.Valid()
    ensures var proc := Process(file.data, w, old(Snapshot(st)), offsets);
      && Snapshot(st) == proc.0 && r == Outcome(proc.1)
      && (proc.1.Ok? ==> StateOf(to) == Wrote(old(StateOf(to)), Emitted(file.data, H, proc.1.value), Estimated(file.data, H, proc.1.value)))
  {
    ghost var store0 := Snapshot(st);
    PerformingPerforms(file.data, H);
    r := WalkThenRest(path, file, to, st, H, Decode, offsets, w, Performing(file.data, H));
    ProcessIsWalk(file.data, w, store0, offsets);
  }

  /** Once the file's digest fits, `Process` is the walk followed by the rest of the file. */
  lemma ProcessIsWalk(data: Bytes, w: Walker, store: StorageState, offsets: seq<int64>)
    requires |data| < TWO_63 && ReadsInside(w.read) && (!w.estimating ==> |w.H(data)| <= MaxHashLength)
    ensures var walked := SplitAll(data, w, store, offsets);
      Process(data, w, store, offsets)
        == if walked.1.Err? then (walked.0, Err(walked.1.error))
           else (walked.0, Ok(walked.1.value.steps + [Raw(walked.1.value.pos, |data| - walked.1.value.pos)]))
  {
  }

  /**
   * The headers of the archive, then the offsets of the local headers of the
   * entries worth sharing, sorted. `entries` are the central directory
   * records read from the file.
   */
  method ReadOffsets(file: InputStream) returns (r: Result<()>, offsets: seq<int64>, ghost entries: seq<CentralDirectoryFileHeader>)
    modifies file
    ensures ZipArchive.FindEocd(file.data).Err? ==> r == Err(ZipArchive.FindEocd(file.data).error)
    ensures ZipArchive.ZipArchive.DirectoryRead(file.data, entries, r)
    ensures r.Ok? ==> offsets == SortOffsets(Candidates(entries))
  {
    var archive := new ZipArchive.ZipArchive();
    r := archive.ReadHeaders(file);
    if r.Err? {
      return r, [], [];
    }
    assert ZipArchive.ZipArchive.Directory(file.data) == Some((archive.DirectoryOffset(), archive.DirectoryEntries()));
    var headers, read := archive.ReadFileHeaders(file, ZipArchive.DefaultHeaderBufferSize);
    if read.Err? {
      return read, [], headers;
    }
    var candidates := CollectOffsets(headers);
    offsets, entries := SortOffsets(candidates), headers;
    r := read;
  }

  /**
   * `ProcessZip`: the archive's entries whose compressed data is worth
   * sharing are cut out of the file into the storage, and the receipt gets
   * everything else inline with the digests of what was cut out. Once the
   * offsets are read (`walked`), the storage and the outcome are those of
   * `Process` on the sorted offsets, and a receipt that is produced is the
   * header followed by what the steps emit; until then a failure changes
   * neither the storage nor the writer.
   */
  method ProcessZip(path: string, file: InputStream, to: ReceiptWriter, st: SharedStorage, H: Bytes -> Bytes,
                    Decode: Bytes -> string)
    returns (r: Result<()>, ghost walked: bool, ghost offsets: seq<int64>, ghost entries: seq<CentralDirectoryFileHeader>)
    requires to.Valid() && st.Valid() && |file.data| < TWO_63
    modifies file, to.Footprint(), st.Footprint()
    ensures to.Valid() && st.Valid()
    ensures ZipArchive.FindEocd(file.data).Err? ==> !walked && r == Err(ZipArchive.FindEocd(file.data).error)
    ensures !walked ==> r.Err? && Snapshot(st) == old(Snapshot(st)) && StateOf(to) == old(StateOf(to))
    ensures ZipArchive.ZipArchive.DirectoryRead(file.data, entries, if walked then Ok(()) else r)
    ensures walked ==> offsets == SortOffsets(Candidates(entries))
    ensures walked ==>
      var data := file.data;
      var proc := Process(data, TheWalker(to, st, data, H, path, Decode), old(Snapshot(st)), offsets);
      && Snapshot(st) == proc.0 && r == Outcome(proc.1)
      && (proc.1.Ok? ==>
            StateOf(to) == Wrote(Wrote(old(StateOf(to)), HeaderEmitted(H(data), |data|), 14 + |H(data)|),
                                 Emitted(data, H, proc.1.value), Estimated(data, H, proc.1.value)))
  {
    var sorted;
    r, sorted, entries := ReadOffsets(file);
    offsets := sorted;
    walked := r.Ok?;
    if r.Err? {
      return;
    }
    r := SplitWithOffsets(path, file, to, st, H, Decode, sorted, TheWalker(to, st, file.data, H, path, Decode));
  }

  // ---------------------------------------------------------------------------
  // RestoreOriginalFile
  // ---------------------------------------------------------------------------

  /** The storage's `OpenChunk`, read to the end, as a lookup. */
  function StoreLookup(st: SharedStorage): (lookup: Lookup)
    reads st.Footprint()
    ensures forall hash: Bytes :: lookup(hash) == st.OpenChunk(hash)
  {
    if st.EstimatorStorage? then (hash: Bytes) => Err(NotImplemented)
    else
      var dir, blobs := st.disk.chunkDir, st.disk.blobs;
      (hash: Bytes) => OpenBlob(dir, blobs, hash)
  }

  /** `bytes` in front of what `rest` gives, or the failure of `rest`. */
  function Prepend(bytes: Bytes, rest: Result<Bytes>): (r: Result<Bytes>)
    ensures r.Ok? <==> rest.Ok?
    ensures rest.Err? ==> r == rest
    ensures rest.Ok? ==> |r.value| == |bytes| + |rest.value| && r.value[..|bytes|] == bytes && r.value[|bytes|..] == rest.value
  {
    if rest.Ok? then Ok(bytes + rest.value) else rest
  }

  lemma PrependTwice(a: Bytes, b: Bytes, rest: Result<Bytes>)
    ensures Prepend(a, Prepend(b, rest)) == Prepend(a + b, rest)
  {
    if rest.Ok? {
      assert a + (b + rest.value) == a + b + rest.value;
    }
  }

  /** One record of the replay: the bytes it resolves to, then the replay of the rest. */
  lemma ReplayStep(data: Bytes, pos: nat, lookup: Lookup)
    requires pos < |data| && NextRecord(data, pos).Ok?
    requires Resolve(NextRecord(data, pos).value.0, lookup).Ok?
    ensures var (rec, p) := NextRecord(data, pos).value;
      Replay(data, pos, lookup) == Prepend(Resolve(rec, lookup).value, Replay(data, p, lookup))
  {
  }

  /** After the bytes of the record at `pos`, the replay from `pos0` goes on from the next record. */
  lemma ReplayGoesOn(data: Bytes, pos0: nat, pos: nat, lookup: Lookup, written: Bytes, bytes: Bytes)
    requires pos0 <= |data| && pos < |data| && NextRecord(data, pos).Ok?
    requires Resolve(NextRecord(data, pos).value.0, lookup) == Ok(bytes)
    requires Replay(data, pos0, lookup) == Prepend(written, Replay(data, pos, lookup))
    ensures Replay(data, pos0, lookup) == Prepend(written + bytes, Replay(data, NextRecord(data, pos).value.1, lookup))
  {
    ReplayStep(data, pos, lookup);
    PrependTwice(written, bytes, Replay(data, NextRecord(data, pos).value.1, lookup));
  }

  /** A record at `pos` that does not parse or resolve ends the replay from `pos0` with its error. */
  lemma ReplayStops(data: Bytes, pos0: nat, pos: nat, lookup: Lookup, written: Bytes)
    requires pos0 <= |data| && pos < |data|
    requires Replay(data, pos0, lookup) == Prepend(written, Replay(data, pos, lookup))
    ensures var next := NextRecord(data, pos);
      next.Err? ==> Replay(data, pos0, lookup) == Err(next.error)
    ensures var next := NextRecord(data, pos);
      next.Ok? && Resolve(next.value.0, lookup).Err? ==> Replay(data, pos0, lookup) == Err(Resolve(next.value.0, lookup).error)
  {
  }

  /** One pass of the restore loop: a record head, then its bytes copied to `output`. */
  method RestoreChunk(reader: BinaryReceiptFileReader, output: OutputStream, st: SharedStorage)
    returns (r: Result<()>, ghost bytes: Bytes)
    requires output.Valid() && reader.BaseStream.position < |reader.BaseStream.data|
    modifies reader.BaseStream, output
    ensures output.Valid()
    ensures var data, pos := reader.BaseStream.data, old(reader.BaseStream.position);
      var next := NextRecord(data, pos);
      && (next.Err? ==> r == Err(next.error))
      && (next.Ok? ==>
            var resolved := Resolve(next.value.0, StoreLookup(st));
            && (resolved.Err? ==> r == Err(resolved.error))
            && (resolved.Ok? ==>
                  && r == Ok(()) && bytes == resolved.value
                  && reader.BaseStream.position == next.value.1
                  && output.data == WriteAt(old(output.data), old(output.position), bytes)
                  && output.position == old(output.position) + |bytes|))
  {
    bytes := [];
    var chunk := reader.ReadChunkHeader();
    if chunk.Err? {
      return Err(chunk.error), bytes;
    }
    match chunk.value
    case DataChunk(size) =>
      ghost var p := reader.BaseStream.position;
      bytes := Available(reader.BaseStream.data, p, size);
      r := CopyData(reader.BaseStream, output, size);
    case SharedChunk(hash) =>
      var blob := st.OpenChunk(hash);
      if blob.Err? {
        return Err(blob.error), bytes;
      }
      output.Write(blob.value);
      bytes := blob.value;
      r := Ok(());
  }

  /**
   * The restore loop: until the receipt's end, each record's bytes appended to
   * `output`. The outcome is that of `Replay` from the stream's position, and
   * on success `output` holds the replayed bytes where it was positioned.
   */
  method ReplayInto(reader: BinaryReceiptFileReader, output: OutputStream, st: SharedStorage) returns (r: Result<()>)
    requires output.Valid() && reader.BaseStream.position <= |reader.BaseStream.data|
    modifies reader.BaseStream, output
    ensures output.Valid()
    ensures var replay := Replay(reader.BaseStream.data, old(reader.BaseStream.position), StoreLookup(st));
      && r == Outcome(replay)
      && (replay.Ok? ==> output.data == WriteAt(old(output.data), old(output.position), replay.value))
  {
    ghost var data, pos0, lookup := reader.BaseStream.data, reader.BaseStream.position, StoreLookup(st);
    ghost var out0, at0 := output.data, output.position;
    ghost var written: Bytes := [];
    assert Prepend(written, Replay(data, pos0, lookup)) == Replay(data, pos0, lookup);
    var eof := reader.IsEof();
    while !eof
      invariant output.Valid() && reader.BaseStream.position <= |data|
      invariant eof <==> reader.BaseStream.position == |data|
      invariant Replay(data, pos0, lookup) == Prepend(written, Replay(data, reader.BaseStream.position, lookup))
      invariant output.data == WriteAt(out0, at0, written) && output.position == at0 + |written|
      decreases |data| - reader.BaseStream.position
    {
      ghost var pos := reader.BaseStream.position;
      var step, bytes := RestoreChunk(reader, output, st);
      if step.Err? {
        ReplayStops(data, pos0, pos, lookup, written);
        return step;
      }
      ReplayGoesOn(data, pos0, pos, lookup, written, bytes);
      WriteAtTwice(out0, at0, written, bytes);
      written := written + bytes;
      eof := reader.IsEof();
    }
    assert Replay(data, reader.BaseStream.position, lookup) == Ok([]);
    assert written + [] == written;
    r := Ok(());
  }

  /**
   * The output's contents and position before the restore loop: as they were,
   * or after `SetLength(size)` when asked for.
   */
  function Presized(data: Bytes, position: nat, useSetLength: bool, size: nat): (r: (Bytes, nat))
    requires position <= |data|
    ensures r.1 <= |r.0|
    ensures useSetLength ==> |r.0| == size
  {
    if !useSetLength then (data, position)
    else if size <= |data| then (data[..size], Min(position, size))
    else (data + Zeros(size - |data|), position)
  }

  /**
   * `RestoreOriginalFile`: reads the receipt's header, sizes the output to
   * the file's length when asked to, then appends each record's bytes, and
   * returns the digest the header names. The outcome and the output are those
   * of `Replay` after the header.
   */
  method RestoreOriginalFile(reader: BinaryReceiptFileReader, output: OutputStream, useSetLength: bool, st: SharedStorage)
    returns (r: Result<Bytes>)
    requires output.Valid()
    modifies reader.BaseStream, output
    ensures output.Valid()
    ensures var hd := DecodeHeader(reader.BaseStream.data, old(reader.BaseStream.position));
      && (hd.Err? ==> r == Err(hd.error) && output.data == old(output.data))
      && (hd.Ok? && useSetLength && hd.value.0.FileSize < 0 ==> r == Err(ArgumentOutOfRange))
      && (hd.Ok? && !(useSetLength && hd.value.0.FileSize < 0) ==>
            var start := Presized(old(output.data), old(output.position), useSetLength,
                                  if hd.value.0.FileSize < 0 then 0 else hd.value.0.FileSize);
            var replay := Replay(reader.BaseStream.data, hd.value.1, StoreLookup(st));
            && (replay.Err? ==> r == Err(replay.error))
            && (replay.Ok? ==> r == Ok(hd.value.0.FileHash) && output.data == WriteAt(start.0, start.1, replay.value)))
  {
    var header := reader.ReadHeader();
    if header.Err? {
      return Err(header.error);
    }
    if useSetLength {
      var sized := output.SetLength(header.value.FileSize);
      if sized.Err? {
        return Err(sized.error);
      }
    }
    var replayed := ReplayInto(reader, output, st);
    if replayed.Err? {
      return Err(replayed.error);
    }
    return Ok(header.value.FileHash);
  }

  /**
   * Restoring into a new output gives exactly the replayed bytes, whether or
   * not it is first sized to the length the header names.
   */
  lemma FreshOutputHoldsReplay(useSetLength: bool, bytes: Bytes)
    ensures var start := Presized([], 0, useSetLength, |bytes|);
      WriteAt(start.0, start.1, bytes) == bytes
  {
    var start := Presized([], 0, useSetLength, |bytes|);
    WriteAtContents(start.0, start.1, bytes);
  }

  /**
   * Restoring what `ProcessZip` split gives the file back: with a store that
   * serves the chunks the split added, the receipt the binary writer produced
   * for `data` into a new stream restores, into a new output, to `data`, and
   * the digest returned is the file's.
   */
  lemma SplitThenRestoreFile(data: Bytes, w: Walker, store: StorageState, offsets: seq<int64>, lookup: Lookup,
                             useSetLength: bool)
    requires |data| < TWO_63 && ReadsInside(w.read) && !w.estimating
    requires Process(data, w, store, offsets).1.Ok?
    requires Serves(lookup, data, w.H, Process(data, w, store, offsets).1.value)
    ensures var steps := Process(data, w, store, offsets).1.value;
      var s := Wrote(Wrote(Written([], 0), HeaderEmitted(w.H(data), |data|), 14 + |w.H(data)|),
                     Emitted(data, w.H, steps), Estimated(data, w.H, steps));
      var hd := DecodeHeader(s.data, 0);
      && hd == Ok((Header(w.H(data), |data|), 14 + |w.H(data)|))
      && Replay(s.data, hd.value.1, lookup) == Ok(data)
      && var start := Presized([], 0, useSetLength, hd.value.0.FileSize);
         WriteAt(start.0, start.1, data) == data
  {
    var steps := Process(data, w, store, offsets).1.value;
    FreshReceipt(HeaderEmitted(w.H(data), |data|), 14 + |w.H(data)|, Emitted(data, w.H, steps), Estimated(data, w.H, steps));
    SplitThenRestore(data, w, store, offsets, lookup);
    FreshOutputHoldsReplay(useSetLength, data);
  }

  /** A new output stream written twice holds the two writes one after the other. */
  lemma FreshReceipt(a: Bytes, m: int, b: Bytes, n: int)
    ensures Wrote(Wrote(Written([], 0), a, m), b, n) == Written(a + b, |a + b|)
  {
    WroteTwice(Written([], 0), a, m, b, n);
    WriteAtEnd([], a + b);
  }
}
