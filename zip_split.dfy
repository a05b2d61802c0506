/**
 * `ZipSplitHelper`: splitting a ZIP file into a receipt plus shared chunks, and
 * restoring the file from the receipt.
 *
 * Splitting walks the file from the start. Every entry whose compressed data
 * is large enough is cut out: the bytes before its local header and the local
 * header itself go into the receipt inline, the compressed data goes into the
 * chunk store under its digest, and the receipt records only that digest.
 * Whatever follows the last such entry goes into the receipt inline.
 *
 * The walk is specified by pure functions over the file's bytes (`SplitOffset`,
 * `SplitAll`, `Process`), which produce the sequence of `Step`s the receipt
 * consists of; the methods are proved against them. Restoring is specified by
 * `Replay`, and `SplitThenRestore` proves that restoring a receipt gives back
 * the file it was made from.
 */
module ZipSplit {
  import opened Wrappers
  import opened Bytes
  import opened Streams
  import opened ZipFormat
  import ZipArchive
  import opened Receipt
  import opened ChunkStorage

  /** Entries with less compressed data than this stay inline in the receipt. */
  const MinSharedFileSize: nat := 64 * 1024

  // ---------------------------------------------------------------------------
  // Which entries are cut out, in which order
  // ---------------------------------------------------------------------------

  /**
   * The local header offsets of the entries whose compressed size reaches
   * `MinSharedFileSize`, in directory order, each cast to a `long`.
   */
  function Candidates(entries: seq<CentralDirectoryFileHeader>): (r: seq<int64>)
    ensures |r| <= |entries|
    decreases |entries|
  {
    if entries == [] then []
    else
      var e := entries[|entries| - 1];
      var rest := Candidates(entries[..|entries| - 1]);
      if e.CompressedSize < MinSharedFileSize then rest else rest + [ToInt64(e.LocalFileHeaderOffset)]
  }

  /** An entry is cut out exactly when its compressed size reaches the minimum. */
  lemma {:induction false} CandidatesMembers(entries: seq<CentralDirectoryFileHeader>, x: int64)
    ensures x in Candidates(entries) <==>
      exists k | 0 <= k < |entries| :: entries[k].CompressedSize >= MinSharedFileSize && ToInt64(entries[k].LocalFileHeaderOffset) == x
    decreases |entries|
  {
    if entries != [] {
      var n := |entries| - 1;
      var init := entries[..n];
      CandidatesMembers(init, x);
      if exists k | 0 <= k < n :: init[k].CompressedSize >= MinSharedFileSize && ToInt64(init[k].LocalFileHeaderOffset) == x {
        var k :| 0 <= k < n && init[k].CompressedSize >= MinSharedFileSize && ToInt64(init[k].LocalFileHeaderOffset) == x;
        assert entries[k] == init[k];
      }
      if exists k | 0 <= k < |entries| :: entries[k].CompressedSize >= MinSharedFileSize && ToInt64(entries[k].LocalFileHeaderOffset) == x {
        var k :| 0 <= k < |entries| && entries[k].CompressedSize >= MinSharedFileSize && ToInt64(entries[k].LocalFileHeaderOffset) == x;
        if k < n {
          assert init[k] == entries[k];
        }
      }
    }
  }

  /** The foreach over the central directory that collects the offsets. */
  method CollectOffsets(entries: seq<CentralDirectoryFileHeader>) returns (offsets: seq<int64>)
    ensures offsets == Candidates(entries)
  {
    offsets := [];
    for i := 0 to |entries|
      invariant offsets == Candidates(entries[..i])
    {
      assert entries[..i + 1][..i] == entries[..i];
      if entries[i].CompressedSize < MinSharedFileSize {
        continue;
      }
      offsets := offsets + [ToInt64(entries[i].LocalFileHeaderOffset)];
    }
    assert entries[..|entries|] == entries;
  }

  predicate Sorted(xs: seq<int64>)
  {
    forall i, j | 0 <= i < j < |xs| :: xs[i] <= xs[j]
  }

  lemma {:induction false} SortedCons(h: int64, t: seq<int64>)
    requires Sorted(t) && forall k | 0 <= k < |t| :: h <= t[k]
    ensures Sorted([h] + t)
  {
    forall i, j | 0 <= i < j < |t| + 1 ensures ([h] + t)[i] <= ([h] + t)[j] {
      if i > 0 {
        assert ([h] + t)[i] == t[i - 1];
      }
      assert ([h] + t)[j] == t[j - 1];
    }
  }

  /** `x` put into the sorted `xs` in front of the first element not below it. */
  function Insert(x: int64, xs: seq<int64>): (r: seq<int64>)
    requires Sorted(xs)
    ensures Sorted(r) && multiset(r) == multiset(xs) + multiset{x}
  {
    if xs == [] || x <= xs[0] then
      SortedCons(x, xs);
      [x] + xs
    else
      var rest := Insert(x, xs[1..]);
      assert xs == [xs[0]] + xs[1..];
      assert forall k | 0 <= k < |rest| :: xs[0] <= rest[k] by {
        forall k | 0 <= k < |rest| ensures xs[0] <= rest[k] {
          assert rest[k] in multiset(rest);
          assert rest[k] == x || rest[k] in multiset(xs[1..]);
        }
      }
      SortedCons(xs[0], rest);
      [xs[0]] + rest
  }

  /** `List<long>.Sort`: the same offsets, in ascending order. */
  function SortOffsets(xs: seq<int64>): (r: seq<int64>)
    ensures Sorted(r) && multiset(r) == multiset(xs)
  {
    if xs == [] then []
    else
      assert xs == [xs[0]] + xs[1..];
      Insert(xs[0], SortOffsets(xs[1..]))
  }

  // ---------------------------------------------------------------------------
  // The receipt as a sequence of steps
  // ---------------------------------------------------------------------------

  /**
   * One piece of the receipt: `Raw` bytes of the file copied inline as one data
   * chunk, or a `Payload` stored in the chunk store and recorded by its digest.
   * Both cover `length` bytes of the file from `start`.
   */
  datatype Step = Raw(start: nat, length: int64) | Payload(start: nat, length: int64)

  /** A step that lies wholly inside the file. */
  predicate Inside(data: Bytes, s: Step)
  {
    0 <= s.length && s.start + s.length <= |data|
  }

  /** The file bytes a step covers; a step reaching past the end covers none. */
  function Covered(data: Bytes, s: Step): Bytes
  {
    if Inside(data, s) then data[s.start..s.start + s.length] else []
  }

  /** A step inside the file covers what a read of its length from its start returns. */
  lemma {:induction false} CoveredIsRead(data: Bytes, s: Step)
    requires Inside(data, s)
    ensures Covered(data, s) == Available(data, s.start, s.length)
  {
  }

  /** An empty payload, or one inside the file, covers what the walk hashes. */
  lemma {:induction false} PayloadIsRead(data: Bytes, q: nat, cs: int64)
    requires 0 <= cs && (cs > 0 ==> q + cs <= |data|)
    ensures Covered(data, Payload(q, cs)) == Available(data, q, cs)
  {
  }

  /** What the binary writer emits for a step; a digest too long to frame emits nothing. */
  function StepBytes(data: Bytes, H: Bytes -> Bytes, s: Step): Bytes
  {
    match s
    case Raw(start, length) => DataChunkHeaderBytes(length) + Covered(data, s)
    case Payload(_, _) =>
      var hash := H(Covered(data, s));
      if |hash| <= MaxHashLength then SharedChunkBytes(hash) else []
  }

  /** What the size estimator counts for a step: it never reads the file. */
  function StepCount(data: Bytes, H: Bytes -> Bytes, s: Step): int
  {
    match s
    case Raw(_, length) => |DataChunkHeaderBytes(length)| + length
    case Payload(_, _) => 2 + |H(Covered(data, s))|
  }

  function Emitted(data: Bytes, H: Bytes -> Bytes, steps: seq<Step>): Bytes
  {
    if steps == [] then [] else StepBytes(data, H, steps[0]) + Emitted(data, H, steps[1..])
  }

  function Estimated(data: Bytes, H: Bytes -> Bytes, steps: seq<Step>): int
  {
    if steps == [] then 0 else StepCount(data, H, steps[0]) + Estimated(data, H, steps[1..])
  }

  /** The file bytes the steps cover, one after the other. */
  function Contents(data: Bytes, steps: seq<Step>): Bytes
  {
    if steps == [] then [] else Covered(data, steps[0]) + Contents(data, steps[1..])
  }

  /** The receipt record a step becomes. */
  function StepRecord(data: Bytes, H: Bytes -> Bytes, s: Step): Record
  {
    match s
    case Raw(_, _) => Inline(Covered(data, s))
    case Payload(_, _) => Reference(H(Covered(data, s)))
  }

  function Records(data: Bytes, H: Bytes -> Bytes, steps: seq<Step>): (r: seq<Record>)
    ensures |r| == |steps|
  {
    seq(|steps|, k requires 0 <= k < |steps| => StepRecord(data, H, steps[k]))
  }

  /** Every step inside the file, and every payload digest short enough to frame. */
  predicate Framable(data: Bytes, H: Bytes -> Bytes, steps: seq<Step>)
  {
    forall k | 0 <= k < |steps| :: Inside(data, steps[k]) && (steps[k].Payload? ==> |H(Covered(data, steps[k]))| <= MaxHashLength)
  }

  lemma {:induction false} EmittedAppend(data: Bytes, H: Bytes -> Bytes, a: seq<Step>, b: seq<Step>)
    ensures Emitted(data, H, a + b) == Emitted(data, H, a) + Emitted(data, H, b)
    decreases |a|
  {
    if a != [] {
      var head := StepBytes(data, H, a[0]);
      assert (a + b)[0] == a[0] && (a + b)[1..] == a[1..] + b;
      assert Emitted(data, H, a + b) == head + Emitted(data, H, a[1..] + b);
      EmittedAppend(data, H, a[1..], b);
      assert head + (Emitted(data, H, a[1..]) + Emitted(data, H, b)) == (head + Emitted(data, H, a[1..])) + Emitted(data, H, b);
    } else {
      assert a + b == b;
    }
  }

  lemma {:induction false} EstimatedAppend(data: Bytes, H: Bytes -> Bytes, a: seq<Step>, b: seq<Step>)
    ensures Estimated(data, H, a + b) == Estimated(data, H, a) + Estimated(data, H, b)
    decreases |a|
  {
    if a != [] {
      assert (a + b)[0] == a[0] && (a + b)[1..] == a[1..] + b;
      EstimatedAppend(data, H, a[1..], b);
    } else {
      assert a + b == b;
    }
  }

  lemma {:induction false} ContentsAppend(data: Bytes, a: seq<Step>, b: seq<Step>)
    ensures Contents(data, a + b) == Contents(data, a) + Contents(data, b)
    decreases |a|
  {
    if a != [] {
      assert (a + b)[0] == a[0] && (a + b)[1..] == a[1..] + b;
      ContentsAppend(data, a[1..], b);
    } else {
      assert a + b == b;
    }
  }

  /** The estimator counts exactly the bytes the writer emits for framable steps. */
  lemma {:induction false} EstimatedIsLength(data: Bytes, H: Bytes -> Bytes, steps: seq<Step>)
    requires Framable(data, H, steps)
    ensures Estimated(data, H, steps) == |Emitted(data, H, steps)|
    decreases |steps|
  {
    if steps != [] {
      assert Inside(data, steps[0]);
      EstimatedIsLength(data, H, steps[1..]);
    }
  }

  lemma {:induction false} RecordsWellFormed(data: Bytes, H: Bytes -> Bytes, steps: seq<Step>)
    requires Framable(data, H, steps)
    ensures forall k | 0 <= k < |steps| :: WellFormed(Records(data, H, steps)[k])
  {
    forall k | 0 <= k < |steps| ensures WellFormed(Records(data, H, steps)[k]) {
      assert Inside(data, steps[k]);
    }
  }

  /** A step inside the file is emitted as the framing of its record. */
  lemma {:induction false} StepBytesIsRecord(data: Bytes, H: Bytes -> Bytes, s: Step)
    requires Inside(data, s) && (s.Payload? ==> |H(Covered(data, s))| <= MaxHashLength)
    ensures WellFormed(StepRecord(data, H, s)) && StepBytes(data, H, s) == RecordBytes(StepRecord(data, H, s))
  {
  }

  /** For framable steps, the writer emits exactly the framing of their records. */
  lemma {:induction false} EmittedIsRecords(data: Bytes, H: Bytes -> Bytes, steps: seq<Step>)
    requires Framable(data, H, steps)
    ensures forall k | 0 <= k < |steps| :: WellFormed(Records(data, H, steps)[k])
    ensures Emitted(data, H, steps) == RecordsBytes(Records(data, H, steps))
    decreases |steps|
  {
    RecordsWellFormed(data, H, steps);
    if steps != [] {
      var recs, rest := Records(data, H, steps), steps[1..];
      FramableTail(data, H, steps);
      EmittedIsRecords(data, H, rest);
      StepBytesIsRecord(data, H, steps[0]);
      assert recs[0] == StepRecord(data, H, steps[0]) && recs[1..] == Records(data, H, rest);
      assert RecordsBytes(recs) == RecordBytes(recs[0]) + RecordsBytes(recs[1..]);
    }
  }

  /** The first of framable steps can be framed, and so can the others. */
  lemma FramableTail(data: Bytes, H: Bytes -> Bytes, steps: seq<Step>)
    requires Framable(data, H, steps) && steps != []
    ensures Inside(data, steps[0]) && (steps[0].Payload? ==> |H(Covered(data, steps[0]))| <= MaxHashLength)
    ensures Framable(data, H, steps[1..])
  {
    var rest := steps[1..];
    forall k | 0 <= k < |rest| ensures Inside(data, rest[k]) {
      assert rest[k] == steps[k + 1];
    }
  }
  // ---------------------------------------------------------------------------
  // The walk over the file
  // ---------------------------------------------------------------------------

  /**
   * `ISharedDataChunkStorage.AddChunk` as the walk sees it: given the store,
   * a digest, where its bytes start in the file, how many there are and the
   * reference to record, the store afterwards and the outcome.
   */
  type Adder = (StorageState, Bytes, nat, int, (string, string)) -> (StorageState, Result<()>)

  /** The adder of a storage reading from the file `data`. */
  function StoreAdder(st: SharedStorage, data: Bytes): Adder
  {
    (s: StorageState, hash: Bytes, pos: nat, length: int, ref: (string, string)) => StorageAdd(st, s, hash, data, pos, length, ref)
  }

  /** Reading the local header at an offset of the file: the header and its file name. */
  type HeaderReader = (Bytes, nat) -> Result<(LocalFileHeader, Bytes)>

  /**
   * The local header at `offset` as the walk reads it: its 30 fixed bytes, then
   * the file name. A short read of either is an error of the tool's own.
   */
  function ReadLocalHeader(data: Bytes, offset: nat): (r: Result<(LocalFileHeader, Bytes)>)
    ensures r.Ok? ==> offset + LocalFileHeaderMinSize + |r.value.1| <= |data|
    ensures r.Ok? ==> ParseLocalFileHeader(data[offset..offset + LocalFileHeaderMinSize]) == Ok(r.value.0)
    ensures r.Ok? ==> |r.value.1| == r.value.0.FileNameLength
    ensures r.Ok? ==> r.value.1 == data[offset + LocalFileHeaderMinSize..offset + LocalFileHeaderMinSize + |r.value.1|]
    ensures r.Ok? ==> r.value.0.Size == LocalFileHeaderMinSize + |r.value.1| + r.value.0.ExtraFieldLength
    ensures offset + LocalFileHeaderMinSize > |data| ==> r == Err(FormatError("failed to read localHeaderData"))
  {
    var head := Available(data, offset, LocalFileHeaderMinSize);
    if |head| != LocalFileHeaderMinSize then Err(FormatError("failed to read localHeaderData"))
    else match ParseLocalFileHeader(head)
      case Err(e) => Err(e)
      case Ok(h) =>
        var name := Available(data, offset + LocalFileHeaderMinSize, h.FileNameLength);
        if |name| != h.FileNameLength then Err(FormatError("failed to read file name from local header"))
        else Ok((h, name))
  }

  /**
   * What the walk relies on from its header reader: a header it returns lies
   * inside the file, file name included, its size counts the fixed part, the
   * name and the extra field, and its compressed size is a 32-bit field.
   */
  ghost predicate ReadsInside(read: HeaderReader)
  {
    forall data: Bytes, offset: nat :: read(data, offset).Ok? ==>
      && offset + LocalFileHeaderMinSize + |read(data, offset).value.1| <= |data|
      && |read(data, offset).value.1| == read(data, offset).value.0.FileNameLength
      && read(data, offset).value.0.Size
         == LocalFileHeaderMinSize + read(data, offset).value.0.FileNameLength + read(data, offset).value.0.ExtraFieldLength
      && read(data, offset).value.0.CompressedSize < TWO_32
  }

  /**
   * `read` is the tool's own header reader. The equation is only used where
   * `ReadLocalHeader` itself is mentioned, so a method that passes `read` on
   * does not see what it reads.
   */
  ghost predicate ReadsLocalHeaders(read: HeaderReader)
  {
    forall data: Bytes, offset: nat {:trigger ReadLocalHeader(data, offset)} :: read(data, offset) == ReadLocalHeader(data, offset)
  }

  /** `add` is the storage's `AddChunk` reading from `data`, in the same way. */
  ghost predicate AddsTo(add: Adder, st: SharedStorage, data: Bytes)
  {
    forall s: StorageState, hash: Bytes, pos: nat, length: int, ref: (string, string)
      {:trigger StorageAdd(st, s, hash, data, pos, length, ref)}
      :: add(s, hash, pos, length, ref) == StorageAdd(st, s, hash, data, pos, length, ref)
  }

  /** `ReadLocalHeader` is such a reader. */
  lemma LocalHeadersInside()
    ensures ReadsInside(ReadLocalHeader)
  {
  }

  /**
   * Everything a walk depends on besides the file and the store: whether the
   * writer is the estimator, the digest, the header reader, the store's
   * `AddChunk`, the archive path recorded with every chunk, and the decoding
   * of file names.
   */
  datatype Walker = Walker(estimating: bool, H: Bytes -> Bytes, read: HeaderReader, add: Adder,
                           path: string, Decode: Bytes -> string)

  /** How far the walk has come: the steps so far and the stream position after them. */
  datatype Split = Split(steps: seq<Step>, pos: nat)

  /** The inline copy of the bytes between the position and the next local header, if any. */
  function Gap(pos: nat, offset: int64): seq<Step>
  {
    if pos < offset then [Raw(pos, offset - pos)] else []
  }

  /**
   * The rest of a turn once the local header `h` at `offset` and its file
   * name are read. The binary writer copies what the estimator only counts,
   * so only it fails on a header whose extra field runs past the end of the
   * file; compressed data that runs past it fails for both. Otherwise the
   * compressed data is hashed and added to the store, whose digest must fit
   * the receipt's one-byte length.
   *
   * The result is the store afterwards (a store is changed by a failed
   * `AddChunk` too) and the outcome.
   */
  function Stored(data: Bytes, w: Walker, store: StorageState, offset: nat, h: LocalFileHeader, name: Bytes)
    : (r: (StorageState, Result<()>))
    requires h.Size == LocalFileHeaderMinSize + h.FileNameLength + h.ExtraFieldLength
  {
    var q := offset + h.Size;
    var cs := h.CompressedSize;
    if !w.estimating && h.ExtraFieldLength > 0 && q > |data| then (store, Err(EndOfStream))
    else if cs > 0 && q + cs > |data| then (store, Err(EndOfStream))
    else
      var hash := w.H(Available(data, q, cs));
      var (store', added) := w.add(store, hash, q, cs, (w.path, w.Decode(name)));
      if added.Err? then (store', Err(added.error))
      else if |hash| > MaxHashLength then (store', Err(FormatError("hash too long")))
      else (store', Ok(()))
  }

  /** The local header at `offset` is read, then its entry stored; on success, the header. */
  function Entry(data: Bytes, w: Walker, store: StorageState, offset: nat): (r: (StorageState, Result<LocalFileHeader>))
    requires ReadsInside(w.read)
    ensures r.1.Ok? ==> w.read(data, offset).Ok? && r.1.value == w.read(data, offset).value.0
  {
    match w.read(data, offset)
    case Err(e) => (store, Err(e))
    case Ok((h, name)) =>
      var stored := Stored(data, w, store, offset, h, name);
      (stored.0, if stored.1.Err? then Err(stored.1.error) else Ok(h))
  }

  /**
   * One turn of the walk: the local header at `offset`, reached from `pos`.
   * The bytes skipped to reach it and the header itself become inline steps;
   * the compressed data is hashed, added to the store and becomes a payload
   * step.
   *
   * The result is the store afterwards and the steps this turn adds with the
   * position after them.
   */
  function SplitOffset(data: Bytes, w: Walker, store: StorageState, pos: nat, offset: int64)
    : (r: (StorageState, Result<Split>))
    requires ReadsInside(w.read)
    ensures r.1.Ok? ==> pos <= offset < r.1.value.pos < |data| + TWO_16
    ensures r.1.Ok? && !w.estimating ==> r.1.value.pos <= |data|
    ensures pos > offset ==> r == (store, Err(FormatError("jumped over some data, the output file would be incorrect")))
  {
    if pos > offset then (store, Err(FormatError("jumped over some data, the output file would be incorrect")))
    else if !w.estimating && pos < offset && offset > |data| then (store, Err(EndOfStream))
    else
      var (store', entry) := Entry(data, w, store, offset);
      if entry.Err? then (store', Err(entry.error))
      else
        var h := entry.value;
        var q := offset + h.Size;
        (store', Ok(Split(Gap(pos, offset) + [Raw(offset, h.Size), Payload(q, h.CompressedSize)], q + h.CompressedSize)))
  }

  /**
   * The walk over the sorted offsets, from the start of the file: the steps of
   * every turn in order, or the first failure.
   */
  function SplitAll(data: Bytes, w: Walker, store: StorageState, offsets: seq<int64>)
    : (r: (StorageState, Result<Split>))
    requires ReadsInside(w.read)
    ensures r.1.Ok? ==> r.1.value.pos < |data| + TWO_16
    ensures r.1.Ok? && !w.estimating ==> r.1.value.pos <= |data|
    decreases |offsets|
  {
    if offsets == [] then (store, Ok(Split([], 0)))
    else
      var n := |offsets| - 1;
      var prior := SplitAll(data, w, store, offsets[..n]);
      if prior.1.Err? then prior
      else
        var next := SplitOffset(data, w, prior.0, prior.1.value.pos, offsets[n]);
        if next.1.Err? then (next.0, Err(next.1.error))
        else (next.0, Ok(Split(prior.1.value.steps + next.1.value.steps, next.1.value.pos)))
  }

  /**
   * `ProcessZip` after the offsets are known: the binary writer refuses a file
   * digest too long to frame before anything else is written; otherwise the
   * walk, then one inline step for the rest of the file.
   */
  function Process(data: Bytes, w: Walker, store: StorageState, offsets: seq<int64>)
    : (r: (StorageState, Result<seq<Step>>))
    requires |data| < TWO_63 && ReadsInside(w.read)
    ensures r.1.Ok? && !w.estimating ==> |w.H(data)| <= MaxHashLength
    ensures r.1.Ok? ==> |r.1.value| > 0 && r.1.value[|r.1.value| - 1].Raw?
  {
    if !w.estimating && |w.H(data)| > MaxHashLength then (store, Err(FormatError("file hash too long")))
    else
      var walked := SplitAll(data, w, store, offsets);
      if walked.1.Err? then (walked.0, Err(walked.1.error))
      else (walked.0, Ok(walked.1.value.steps + [Raw(walked.1.value.pos, |data| - walked.1.value.pos)]))
  }

  // ---------------------------------------------------------------------------
  // What the walk produces
  // ---------------------------------------------------------------------------

  /** What a successful turn consists of. */
  lemma {:induction false} SplitOffsetShape(data: Bytes, w: Walker, store: StorageState, pos: nat, offset: int64)
    requires ReadsInside(w.read) && SplitOffset(data, w, store, pos, offset).1.Ok?
    ensures w.read(data, offset).Ok?
    ensures var h := w.read(data, offset).value.0;
      var q, cs := offset + h.Size, h.CompressedSize;
      && SplitOffset(data, w, store, pos, offset).1.value == Split(Gap(pos, offset) + [Raw(offset, h.Size), Payload(q, cs)], q + cs)
      && pos <= offset && offset + LocalFileHeaderMinSize <= q && (cs > 0 ==> q + cs <= |data|)
      && |w.H(Covered(data, Payload(q, cs)))| <= MaxHashLength
      && (!w.estimating ==> q <= |data| && (pos < offset ==> offset <= |data|))
  {
    var h := w.read(data, offset).value.0;
    PayloadIsRead(data, offset + h.Size, h.CompressedSize);
  }

  /** The walk stops at its first failure: later offsets change nothing. */
  lemma {:induction false} SplitAllStops(data: Bytes, w: Walker, store: StorageState, offsets: seq<int64>, i: nat)
    requires ReadsInside(w.read) && i <= |offsets|
    requires SplitAll(data, w, store, offsets[..i]).1.Err?
    ensures SplitAll(data, w, store, offsets) == SplitAll(data, w, store, offsets[..i])
    decreases |offsets|
  {
    if i < |offsets| {
      var n := |offsets| - 1;
      assert offsets[..n][..i] == offsets[..i];
      SplitAllStops(data, w, store, offsets[..n], i);
      SplitAllAfterFailure(data, w, store, offsets);
    } else {
      assert offsets[..i] == offsets;
    }
  }

  /** A walk whose earlier turns failed has the outcome of those turns. */
  lemma SplitAllAfterFailure(data: Bytes, w: Walker, store: StorageState, offsets: seq<int64>)
    requires ReadsInside(w.read) && offsets != []
    requires SplitAll(data, w, store, offsets[..|offsets| - 1]).1.Err?
    ensures SplitAll(data, w, store, offsets) == SplitAll(data, w, store, offsets[..|offsets| - 1])
  {
  }

  /** Each turn moves the position past its header: after the walk, every offset lies behind. */
  lemma {:induction false} SplitAllPassesOffsets(data: Bytes, w: Walker, store: StorageState, offsets: seq<int64>, k: nat)
    requires ReadsInside(w.read) && k < |offsets|
    requires SplitAll(data, w, store, offsets).1.Ok?
    ensures offsets[k] < SplitAll(data, w, store, offsets).1.value.pos
    decreases |offsets|
  {
    var n := |offsets| - 1;
    var prior := SplitAll(data, w, store, offsets[..n]);
    var pos := SplitAll(data, w, store, offsets).1.value.pos;
    assert prior.1.Ok? && prior.1.value.pos <= offsets[n] < pos by {
      var next := SplitOffset(data, w, prior.0, prior.1.value.pos, offsets[n]);
      assert next.1.Ok? && pos == next.1.value.pos;
    }
    if k < n {
      assert offsets[k] < prior.1.value.pos by {
        SplitAllPassesOffsets(data, w, store, offsets[..n], k);
        assert offsets[k] == offsets[..n][k];
      }
    }
  }

  lemma {:induction false} FramableAppend(data: Bytes, H: Bytes -> Bytes, a: seq<Step>, b: seq<Step>)
    requires Framable(data, H, a) && Framable(data, H, b)
    ensures Framable(data, H, a + b)
  {
    forall k | 0 <= k < |a + b| ensures Inside(data, (a + b)[k]) && ((a + b)[k].Payload? ==> |H(Covered(data, (a + b)[k]))| <= MaxHashLength) {
      if k < |a| {
        assert (a + b)[k] == a[k];
      } else {
        assert (a + b)[k] == b[k - |a|];
      }
    }
  }

  /** Steps covering `data[i..j]` followed by steps covering `data[j..k]` cover `data[i..k]`. */
  lemma {:induction false} JoinTiles(data: Bytes, H: Bytes -> Bytes, a: seq<Step>, b: seq<Step>, i: nat, j: nat, k: nat)
    requires i <= j <= k <= |data|
    requires Framable(data, H, a) && Contents(data, a) == data[i..j]
    requires Framable(data, H, b) && Contents(data, b) == data[j..k]
    ensures Framable(data, H, a + b) && Contents(data, a + b) == data[i..k]
  {
    FramableAppend(data, H, a, b);
    JoinContents(data, a, b, i, j, k);
  }

  lemma {:induction false} JoinContents(data: Bytes, a: seq<Step>, b: seq<Step>, i: nat, j: nat, k: nat)
    requires i <= j <= k <= |data|
    requires Contents(data, a) == data[i..j] && Contents(data, b) == data[j..k]
    ensures Contents(data, a + b) == data[i..k]
  {
    ContentsAppend(data, a, b);
    assert data[i..j] + data[j..k] == data[i..k];
  }

  /** A step inside the file on its own covers exactly its bytes. */
  lemma {:induction false} OneTile(data: Bytes, H: Bytes -> Bytes, s: Step)
    requires Inside(data, s) && (s.Payload? ==> |H(Covered(data, s))| <= MaxHashLength)
    ensures Framable(data, H, [s]) && Contents(data, [s]) == data[s.start..s.start + s.length]
  {
    assert [s][1..] == [];
  }

  /** The header and the payload of a turn, given only their numbers. */
  lemma {:induction false} EntryTiles(data: Bytes, H: Bytes -> Bytes, offset: nat, size: int64, cs: int64)
    requires 0 <= size && 0 <= cs && offset + size <= |data|
    requires cs > 0 ==> offset + size + cs <= |data|
    requires |H(Covered(data, Payload(offset + size, cs)))| <= MaxHashLength
    ensures var entry := [Raw(offset, size), Payload(offset + size, cs)];
      && Framable(data, H, entry) && Contents(data, entry) == data[offset..offset + size + cs]
  {
    var raw, payload := Raw(offset, size), Payload(offset + size, cs);
    OneTile(data, H, raw);
    OneTile(data, H, payload);
    JoinTiles(data, H, [raw], [payload], offset, offset + size, offset + size + cs);
    assert [raw] + [payload] == [raw, payload];
  }

  /** The steps of a turn, given only its numbers. */
  lemma {:induction false} Tiles(data: Bytes, H: Bytes -> Bytes, pos: nat, offset: int64, size: int64, cs: int64)
    requires pos <= offset && 0 <= size && 0 <= cs && offset + size <= |data|
    requires cs > 0 ==> offset + size + cs <= |data|
    requires pos < offset ==> offset <= |data|
    requires |H(Covered(data, Payload(offset + size, cs)))| <= MaxHashLength
    ensures var steps := Gap(pos, offset) + [Raw(offset, size), Payload(offset + size, cs)];
      && Framable(data, H, steps) && Contents(data, steps) == data[pos..offset + size + cs]
  {
    var entry := [Raw(offset, size), Payload(offset + size, cs)];
    EntryTiles(data, H, offset, size, cs);
    if pos < offset {
      var g := Raw(pos, offset - pos);
      OneTile(data, H, g);
      JoinTiles(data, H, [g], entry, pos, offset, offset + size + cs);
    } else {
      assert Gap(pos, offset) + entry == entry;
    }
  }

  /** The steps of one binary turn lie inside the file and cover it from `pos` to the new position. */
  lemma {:induction false} SplitOffsetTiles(data: Bytes, w: Walker, store: StorageState, pos: nat, offset: int64)
    requires ReadsInside(w.read) && !w.estimating
    requires SplitOffset(data, w, store, pos, offset).1.Ok?
    ensures var next := SplitOffset(data, w, store, pos, offset).1.value;
      && Framable(data, w.H, next.steps) && pos <= next.pos <= |data| && Contents(data, next.steps) == data[pos..next.pos]
  {
    SplitOffsetShape(data, w, store, pos, offset);
    var h := w.read(data, offset).value.0;
    Tiles(data, w.H, pos, offset, h.Size, h.CompressedSize);
  }

  /** The steps of a binary walk lie inside the file and cover it from its start to the final position. */
  lemma {:induction false} SplitAllTiles(data: Bytes, w: Walker, store: StorageState, offsets: seq<int64>)
    requires ReadsInside(w.read) && !w.estimating
    requires SplitAll(data, w, store, offsets).1.Ok?
    ensures var r := SplitAll(data, w, store, offsets).1.value;
      && Framable(data, w.H, r.steps) && r.pos <= |data| && Contents(data, r.steps) == data[0..r.pos]
    decreases |offsets|
  {
    if offsets != [] {
      var n := |offsets| - 1;
      var prior := SplitAll(data, w, store, offsets[..n]);
      SplitAllTiles(data, w, store, offsets[..n]);
      var next := SplitOffset(data, w, prior.0, prior.1.value.pos, offsets[n]);
      SplitOffsetTiles(data, w, prior.0, prior.1.value.pos, offsets[n]);
      JoinTiles(data, w.H, prior.1.value.steps, next.1.value.steps, 0, prior.1.value.pos, next.1.value.pos);
    }
  }

  /**
   * A binary split cuts the whole file into steps: they lie inside it, their
   * payload digests can be framed, and together they cover the file exactly.
   */
  lemma {:induction false} ProcessTiles(data: Bytes, w: Walker, store: StorageState, offsets: seq<int64>)
    requires |data| < TWO_63 && ReadsInside(w.read) && !w.estimating
    requires Process(data, w, store, offsets).1.Ok?
    ensures var steps := Process(data, w, store, offsets).1.value;
      Framable(data, w.H, steps) && Contents(data, steps) == data
  {
    var walked := SplitAll(data, w, store, offsets).1.value;
    var steps := Process(data, w, store, offsets).1.value;
    assert steps == walked.steps + [Raw(walked.pos, |data| - walked.pos)];
    SplitAllTiles(data, w, store, offsets);
    RestTiles(data, w.H, walked.steps, walked.pos, steps);
  }

  /** Steps covering the file up to `pos`, then the rest of the file inline, cover the whole file. */
  lemma {:induction false} RestTiles(data: Bytes, H: Bytes -> Bytes, steps: seq<Step>, pos: nat, all: seq<Step>)
    requires |data| < TWO_63 && pos <= |data| && Framable(data, H, steps) && Contents(data, steps) == data[0..pos]
    requires all == steps + [Raw(pos, |data| - pos)]
    ensures Framable(data, H, all) && Contents(data, all) == data
  {
    var last := Raw(pos, |data| - pos);
    OneTile(data, H, last);
    JoinTiles(data, H, steps, [last], 0, pos, |data|);
    assert data[0..|data|] == data;
  }

  // ---------------------------------------------------------------------------
  // The estimator against the binary writer
  // ---------------------------------------------------------------------------

  /** Where the binary turn succeeds, the estimator's turn does the same. */
  lemma {:induction false} SplitOffsetEstimatorAgrees(data: Bytes, w: Walker, store: StorageState, pos: nat, offset: int64)
    requires ReadsInside(w.read) && !w.estimating
    requires SplitOffset(data, w, store, pos, offset).1.Ok?
    ensures SplitOffset(data, w.(estimating := true), store, pos, offset) == SplitOffset(data, w, store, pos, offset)
  {
    SplitOffsetShape(data, w, store, pos, offset);
  }

  lemma {:induction false} SplitAllEstimatorAgrees(data: Bytes, w: Walker, store: StorageState, offsets: seq<int64>)
    requires ReadsInside(w.read) && !w.estimating
    requires SplitAll(data, w, store, offsets).1.Ok?
    ensures SplitAll(data, w.(estimating := true), store, offsets) == SplitAll(data, w, store, offsets)
    decreases |offsets|
  {
    if offsets != [] {
      var n := |offsets| - 1;
      SplitAllEstimatorAgrees(data, w, store, offsets[..n]);
      var prior := SplitAll(data, w, store, offsets[..n]);
      SplitOffsetEstimatorAgrees(data, w, prior.0, prior.1.value.pos, offsets[n]);
    }
  }

  /**
   * Where the binary writer produces a receipt, the estimator run on the same
   * file and store makes the same steps and the same changes to the store.
   */
  lemma {:induction false} ProcessEstimatorAgrees(data: Bytes, w: Walker, store: StorageState, offsets: seq<int64>)
    requires |data| < TWO_63 && ReadsInside(w.read) && !w.estimating
    requires Process(data, w, store, offsets).1.Ok?
    ensures Process(data, w.(estimating := true), store, offsets) == Process(data, w, store, offsets)
  {
    SplitAllEstimatorAgrees(data, w, store, offsets);
  }

  /** The size estimate is exact: it counts the length of the receipt the binary writer produces. */
  lemma {:induction false} EstimateIsExact(data: Bytes, w: Walker, store: StorageState, offsets: seq<int64>)
    requires |data| < TWO_63 && ReadsInside(w.read) && !w.estimating
    requires Process(data, w, store, offsets).1.Ok?
    ensures var steps := Process(data, w, store, offsets).1.value;
      14 + |w.H(data)| + Estimated(data, w.H, steps) == |HeaderBytes(w.H(data), |data|) + Emitted(data, w.H, steps)|
  {
    ProcessTiles(data, w, store, offsets);
    EstimatedIsLength(data, w.H, Process(data, w, store, offsets).1.value);
  }

  // ---------------------------------------------------------------------------
  // Restoring
  // ---------------------------------------------------------------------------

  /** `ISharedDataChunkStorage.OpenChunk` read to its end: the blob for a digest, or why there is none. */
  type Lookup = Bytes -> Result<Bytes>

  /** The bytes a record stands for: inline bytes as they are, a reference resolved through the store. */
  function Resolve(rec: Record, lookup: Lookup): Result<Bytes>
  {
    match rec
    case Inline(bytes) => Ok(bytes)
    case Reference(hash) => lookup(hash)
  }

  /** The bytes of the records one after the other, or the first record that cannot be resolved. */
  function Expand(recs: seq<Record>, lookup: Lookup): Result<Bytes>
  {
    if recs == [] then Ok([])
    else match Resolve(recs[0], lookup)
      case Err(e) => Err(e)
      case Ok(bytes) =>
        match Expand(recs[1..], lookup)
        case Err(e) => Err(e)
        case Ok(rest) => Ok(bytes + rest)
  }

  /**
   * The restore loop after the header, on a receipt `data` read from `pos`:
   * until the end, each record head, then its inline bytes or the stored blob
   * it names, appended to the output. The first failure ends it.
   */
  function Replay(data: Bytes, pos: nat, lookup: Lookup): Result<Bytes>
    requires pos <= |data|
    decreases |data| - pos
  {
    if pos == |data| then Ok([])
    else match NextRecord(data, pos)
      case Err(e) => Err(e)
      case Ok((rec, p)) =>
        match Resolve(rec, lookup)
        case Err(e) => Err(e)
        case Ok(bytes) =>
          match Replay(data, p, lookup)
          case Err(e) => Err(e)
          case Ok(rest) => Ok(bytes + rest)
  }

  /** Replaying the records a receipt parses into gives their expansion. */
  lemma {:induction false} ReplayIsExpand(data: Bytes, pos: nat, lookup: Lookup, recs: seq<Record>)
    requires pos <= |data| && ReadRecords(data, pos) == Ok(recs)
    ensures Replay(data, pos, lookup) == Expand(recs, lookup)
    decreases |data| - pos
  {
    if pos < |data| {
      var (rec, p) := NextRecord(data, pos).value;
      var rest := ReadRecords(data, p).value;
      assert recs == [rec] + rest;
      ReplayIsExpand(data, p, lookup, rest);
      assert recs[0] == rec && recs[1..] == rest;
    }
  }

  /** The store returns, for the digest of every payload, exactly that payload's bytes. */
  predicate Serves(lookup: Lookup, data: Bytes, H: Bytes -> Bytes, steps: seq<Step>)
  {
    forall k | 0 <= k < |steps| && steps[k].Payload? :: lookup(H(Covered(data, steps[k]))) == Ok(Covered(data, steps[k]))
  }

  /** With a store that serves the payloads, the records of the steps expand to the bytes the steps cover. */
  lemma {:induction false} ExpandRecords(data: Bytes, H: Bytes -> Bytes, steps: seq<Step>, lookup: Lookup)
    requires Serves(lookup, data, H, steps)
    ensures Expand(Records(data, H, steps), lookup) == Ok(Contents(data, steps))
    decreases |steps|
  {
    if steps != [] {
      var recs := Records(data, H, steps);
      assert recs[0] == StepRecord(data, H, steps[0]);
      assert Resolve(recs[0], lookup) == Ok(Covered(data, steps[0])) by {
        if steps[0].Payload? {
          assert 0 < |steps|;
        }
      }
      assert recs[1..] == Records(data, H, steps[1..]);
      assert Serves(lookup, data, H, steps[1..]) by {
        forall k | 0 <= k < |steps| - 1 && steps[1..][k].Payload?
          ensures lookup(H(Covered(data, steps[1..][k]))) == Ok(Covered(data, steps[1..][k]))
        {
          assert steps[1..][k] == steps[k + 1];
        }
      }
      ExpandRecords(data, H, steps[1..], lookup);
    }
  }

  /**
   * A receipt the writer frames restores to its records' expansion: its
   * header reads back, and replaying what follows resolves the records in order.
   */
  lemma {:induction false} ReceiptReplays(fileHash: Bytes, fileSize: int64, recs: seq<Record>, lookup: Lookup)
    requires |fileHash| <= MaxHashLength
    requires forall k | 0 <= k < |recs| :: WellFormed(recs[k])
    ensures var receipt := HeaderBytes(fileHash, fileSize) + RecordsBytes(recs);
      && DecodeHeader(receipt, 0) == Ok((Header(fileHash, fileSize), 14 + |fileHash|))
      && Replay(receipt, 14 + |fileHash|, lookup) == Expand(recs, lookup)
  {
    var head := HeaderBytes(fileHash, fileSize);
    var receipt := head + RecordsBytes(recs);
    assert receipt[0..|head|] == head;
    HeaderRoundTrip(receipt, 0, fileHash, fileSize);
    assert receipt[|head|..] == RecordsBytes(recs);
    RecordsRoundTrip(receipt, |head|, recs);
    ReplayIsExpand(receipt, |head|, lookup, recs);
  }

  /**
   * Restoring undoes splitting: the receipt the binary writer produces for a
   * file starts with a header naming the file's digest and length, and, with
   * a store that serves the chunks added during the split, replaying its
   * records gives back the file byte for byte.
   */
  lemma {:induction false} SplitThenRestore(data: Bytes, w: Walker, store: StorageState, offsets: seq<int64>, lookup: Lookup)
    requires |data| < TWO_63 && ReadsInside(w.read) && !w.estimating
    requires Process(data, w, store, offsets).1.Ok?
    requires Serves(lookup, data, w.H, Process(data, w, store, offsets).1.value)
    ensures var receipt := HeaderBytes(w.H(data), |data|) + Emitted(data, w.H, Process(data, w, store, offsets).1.value);
      && DecodeHeader(receipt, 0) == Ok((Header(w.H(data), |data|), 14 + |w.H(data)|))
      && Replay(receipt, 14 + |w.H(data)|, lookup) == Ok(data)
  {
    var steps := Process(data, w, store, offsets).1.value;
    ProcessTiles(data, w, store, offsets);
    EmittedIsRecords(data, w.H, steps);
    ExpandRecords(data, w.H, steps, lookup);
    ReceiptReplays(w.H(data), |data|, Records(data, w.H, steps), lookup);
  }
}
