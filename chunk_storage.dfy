/**
 * The shared chunk store. The disk store keeps one blob per digest, in a
 * bucket directory named by the digest's first byte in hexadecimal; each
 * bucket has an index (`Index.json`) from the digest's hexadecimal spelling to
 * the blob's size and the set of (container, entry) pairs that refer to it.
 * Indexes are loaded lazily, cached, changed in memory and saved by `Flush`
 * for the buckets marked dirty. The estimator only counts distinct digests.
 *
 * The file system is modelled by two maps held by the store: the blob files
 * by path and the saved indexes by bucket path; JSON is not modelled (an
 * index is saved and loaded as the value it is).
 */
module ChunkStorage {
  import opened Wrappers
  import opened Bytes
  import opened Streams
  import opened Encodings

  /** `Path.Combine(dir, name)` for a relative `name`, with `/` as the directory separator. */
  function Combine(dir: string, name: string): (p: string)
  {
    if dir == [] then name
    else if dir[|dir| - 1] == '/' then dir + name
    else dir + "/" + name
  }

  /** Under one non-empty directory whose name does not end in `/`, distinct names give distinct paths. */
  lemma CombineInjective(dir: string, a: string, b: string)
    requires dir != [] && dir[|dir| - 1] != '/'
    requires Combine(dir, a) == Combine(dir, b)
    ensures a == b
  {
    assert a == Combine(dir, a)[|dir| + 1..];
    assert b == Combine(dir, b)[|dir| + 1..];
  }

  // ---------------------------------------------------------------------------
  // The estimator
  // ---------------------------------------------------------------------------

  /** The estimator's fields: the Base64 keys seen, and the total length and count of first sightings. */
  datatype EstimatorState = EstimatorState(chunkSet: set<string>, TotalSize: int, Count: int)

  /** `SharedDataChunkStorageEstimator.AddChunk`: counts a digest the first time its key is seen. */
  function EstimatorAdd(s: EstimatorState, hash: Bytes, length: int): EstimatorState
  {
    var key := Base64(hash);
    if key in s.chunkSet then s
    else EstimatorState(s.chunkSet + {key}, s.TotalSize + length, s.Count + 1)
  }

  class SharedDataChunkStorageEstimator {
    var chunkSet: set<string>
    var TotalSize: int
    var Count: int

    constructor ()
      ensures State() == EstimatorState({}, 0, 0)
    {
      chunkSet := {};
      TotalSize := 0;
      Count := 0;
    }

    function State(): EstimatorState
      reads this
    {
      EstimatorState(chunkSet, TotalSize, Count)
    }

    /** The estimator keeps no blobs. */
    method OpenChunk(hash: Bytes) returns (r: Result<Bytes>)
      ensures r == Err(NotImplemented)
    {
      return Err(NotImplemented);
    }

    /** Neither reads the stream nor keeps the names: only the key, the length and the count matter. */
    method AddChunk(hash: Bytes, stream: InputStream, length: int64, containerFileName: string, fileName: string)
      modifies this
      ensures State() == EstimatorAdd(old(State()), hash, length)
    {
      var key := Base64(hash);
      if key in chunkSet {
        return;
      }
      chunkSet := chunkSet + {key};
      TotalSize := TotalSize + length;
      Count := Count + 1;
    }
  }

  /** One `AddChunk` call as the estimator sees it. */
  datatype Added = Added(hash: Bytes, length: int)

  /** The estimator after a sequence of calls. */
  function EstimatorRun(s: EstimatorState, calls: seq<Added>): EstimatorState
    decreases |calls|
  {
    if calls == [] then s else EstimatorRun(EstimatorAdd(s, calls[0].hash, calls[0].length), calls[1..])
  }

  /** The calls whose digest is neither in `seen` nor in an earlier call. */
  function FirstSightings(calls: seq<Added>, seen: set<Bytes>): seq<Added>
    decreases |calls|
  {
    if calls == [] then []
    else if calls[0].hash in seen then FirstSightings(calls[1..], seen)
    else [calls[0]] + FirstSightings(calls[1..], seen + {calls[0].hash})
  }

  function TotalLength(calls: seq<Added>): int
  {
    if calls == [] then 0 else calls[0].length + TotalLength(calls[1..])
  }

  function Digests(calls: seq<Added>): set<Bytes>
  {
    set i | 0 <= i < |calls| :: calls[i].hash
  }

  function Keys(hashes: set<Bytes>): set<string>
  {
    set h | h in hashes :: Base64(h)
  }

  lemma DigestsOfCons(calls: seq<Added>)
    requires calls != []
    ensures Digests(calls) == {calls[0].hash} + Digests(calls[1..])
  {
    forall g | g in Digests(calls[1..]) ensures g in Digests(calls) {
      var i :| 0 <= i < |calls[1..]| && calls[1..][i].hash == g;
      assert calls[i + 1].hash == g;
    }
    assert calls[0].hash in Digests(calls);
  }

  /** A key is in the keys of `seen` exactly when its digest is in `seen`. */
  lemma KeysExactly(seen: set<Bytes>, h: Bytes)
    ensures Base64(h) in Keys(seen) <==> h in seen
    ensures Keys(seen) + {Base64(h)} == Keys(seen + {h})
  {
    if Base64(h) in Keys(seen) {
      var g :| g in seen && Base64(g) == Base64(h);
      Base64Injective(g, h);
    }
  }

  /** One call on a state whose keys are those of the digests `seen`. */
  lemma EstimatorAddKeys(seen: set<Bytes>, total: int, count: int, h: Bytes, length: int)
    ensures EstimatorAdd(EstimatorState(Keys(seen), total, count), h, length)
      == if h in seen then EstimatorState(Keys(seen), total, count)
         else EstimatorState(Keys(seen + {h}), total + length, count + 1)
  {
    KeysExactly(seen, h);
  }

  /**
   * From a state whose keys are those of the digests `seen`, the estimator ends
   * with the keys of every digest met, and adds exactly the lengths and the
   * number of the first sightings of digests not seen before.
   */
  lemma {:induction false} EstimatorCountsFirstSightings(seen: set<Bytes>, total: int, count: int, calls: seq<Added>)
    ensures EstimatorRun(EstimatorState(Keys(seen), total, count), calls)
      == EstimatorState(Keys(seen + Digests(calls)),
                        total + TotalLength(FirstSightings(calls, seen)),
                        count + |FirstSightings(calls, seen)|)
    decreases |calls|, 1
  {
    if calls == [] {
      assert seen + Digests(calls) == seen;
    } else {
      EstimatorAddKeys(seen, total, count, calls[0].hash, calls[0].length);
      DigestsOfCons(calls);
      if calls[0].hash in seen {
        EstimatorSeenAgain(seen, total, count, calls);
      } else {
        EstimatorSeenFirst(seen, total, count, calls);
      }
    }
  }

  /** A call whose digest was seen before changes nothing. */
  lemma {:induction false} EstimatorSeenAgain(seen: set<Bytes>, total: int, count: int, calls: seq<Added>)
    requires calls != [] && calls[0].hash in seen
    requires Digests(calls) == {calls[0].hash} + Digests(calls[1..])
    requires EstimatorAdd(EstimatorState(Keys(seen), total, count), calls[0].hash, calls[0].length)
      == EstimatorState(Keys(seen), total, count)
    ensures EstimatorRun(EstimatorState(Keys(seen), total, count), calls)
      == EstimatorState(Keys(seen + Digests(calls)),
                        total + TotalLength(FirstSightings(calls, seen)),
                        count + |FirstSightings(calls, seen)|)
    decreases |calls|, 0
  {
    var rest := calls[1..];
    assert seen + Digests(calls) == seen + Digests(rest);
    EstimatorCountsFirstSightings(seen, total, count, rest);
  }

  /** A call whose digest is new adds its key, its length and one to the count. */
  lemma {:induction false} EstimatorSeenFirst(seen: set<Bytes>, total: int, count: int, calls: seq<Added>)
    requires calls != [] && calls[0].hash !in seen
    requires Digests(calls) == {calls[0].hash} + Digests(calls[1..])
    requires EstimatorAdd(EstimatorState(Keys(seen), total, count), calls[0].hash, calls[0].length)
      == EstimatorState(Keys(seen + {calls[0].hash}), total + calls[0].length, count + 1)
    ensures EstimatorRun(EstimatorState(Keys(seen), total, count), calls)
      == EstimatorState(Keys(seen + Digests(calls)),
                        total + TotalLength(FirstSightings(calls, seen)),
                        count + |FirstSightings(calls, seen)|)
    decreases |calls|, 0
  {
    var h, n, rest := calls[0].hash, calls[0].length, calls[1..];
    var later := FirstSightings(rest, seen + {h});
    assert FirstSightings(calls, seen) == [calls[0]] + later;
    assert ([calls[0]] + later)[1..] == later;
    EstimatorCountsFirstSightings(seen + {h}, total + n, count + 1, rest);
    assert seen + {h} + Digests(rest) == seen + Digests(calls);
  }

  /** The first sightings are one per new digest: `Count` is the number of distinct digests. */
  lemma {:induction false} FirstSightingsAreDistinctDigests(calls: seq<Added>, seen: set<Bytes>)
    ensures |FirstSightings(calls, seen)| == |Digests(calls) - seen|
    decreases |calls|
  {
    if calls != [] {
      var h, rest := calls[0].hash, calls[1..];
      DigestsOfCons(calls);
      if h in seen {
        FirstSightingsAreDistinctDigests(rest, seen);
        assert Digests(calls) - seen == Digests(rest) - seen;
      } else {
        FirstSightingsAreDistinctDigests(rest, seen + {h});
        var later := Digests(rest) - (seen + {h});
        assert Digests(calls) - seen == later + {h};
        assert |later + {h}| == |later| + 1;
      }
    }
  }

  // ---------------------------------------------------------------------------
  // The disk store
  // ---------------------------------------------------------------------------

  /** An index entry: the blob's size and the (container path, entry name) pairs referring to it. */
  datatype IndexFileData = IndexFileData(Size: int, Refs: set<(string, string)>)

  /** A bucket index (`IndexData.Files`): hexadecimal digest to entry. */
  type Index = map<string, IndexFileData>

  /**
   * The store's state: the blob files and the saved indexes on disk, the cache of
   * loaded indexes, the buckets whose cached index has changed since it was
   * saved, and the two counters of blobs this store added.
   */
  datatype DiskState = DiskState(
    blobs: map<string, Bytes>,
    savedIndexes: map<string, Index>,
    indexFiles: map<string, Index>,
    dirtyIndexFiles: set<string>,
    AddedTotalSize: int,
    AddedCount: int)
  {
    /** Every dirty bucket has a cached index for `Flush` to save. */
    predicate Valid()
    {
      dirtyIndexFiles <= indexFiles.Keys
    }
  }

  /**
   * `GetBucketPath`: the directory named by the hexadecimal first byte of the
   * digest. `Convert.ToHexString(hash, 0, 1)` refuses an empty digest.
   */
  function BucketPath(chunkDir: string, hash: Bytes): Result<string>
  {
    if |hash| < 1 then Err(ArgumentOutOfRange) else Ok(Combine(chunkDir, Hex(hash[..1])))
  }

  /** Where the blob of a digest is: in its bucket, named by the digest in hexadecimal. */
  function ChunkPath(chunkDir: string, hash: Bytes): Result<string>
  {
    match BucketPath(chunkDir, hash)
    case Err(e) => Err(e)
    case Ok(bucket) => Ok(Combine(bucket, Hex(hash)))
  }

  /** The blob a digest opens to among `blobs`, or why there is none. */
  function OpenBlob(chunkDir: string, blobs: map<string, Bytes>, hash: Bytes): Result<Bytes>
  {
    match ChunkPath(chunkDir, hash)
    case Err(e) => Err(e)
    case Ok(path) => if path in blobs then Ok(blobs[path]) else Err(FileNotFound)
  }

  /** The index `OpenIndexForHash` returns: the cached one, else the saved one, else an empty one. */
  function LoadedIndex(s: DiskState, bucket: string): Index
  {
    if bucket in s.indexFiles then s.indexFiles[bucket]
    else if bucket in s.savedIndexes then s.savedIndexes[bucket]
    else map[]
  }

  /** The state after `OpenIndexForHash`: the bucket's index is in the cache. */
  function OpenIndex(s: DiskState, bucket: string): DiskState
  {
    s.(indexFiles := s.indexFiles[bucket := LoadedIndex(s, bucket)])
  }

  /** `AddChunk` writes a blob: the store is writable and the digest is not yet in its bucket's index. */
  predicate WritesBlob(s: DiskState, readOnly: bool, chunkDir: string, hash: Bytes)
  {
    !readOnly && BucketPath(chunkDir, hash).Ok? && Hex(hash) !in LoadedIndex(s, BucketPath(chunkDir, hash).value)
  }

  /** The cached index of `bucket` with `key` set to `entry`. */
  function WithEntry(s: DiskState, bucket: string, key: string, entry: IndexFileData): DiskState
    requires bucket in s.indexFiles
  {
    s.(indexFiles := s.indexFiles[bucket := s.indexFiles[bucket][key := entry]])
  }

  /** A new entry of `length` bytes and no references, counted in the two counters. */
  function NewEntry(s: DiskState, bucket: string, key: string, length: int): DiskState
    requires bucket in s.indexFiles
  {
    WithEntry(s, bucket, key, IndexFileData(length, {})).(
      AddedTotalSize := s.AddedTotalSize + length, AddedCount := s.AddedCount + 1)
  }

  /** The reference added to an entry, and the bucket marked dirty. */
  function AddReference(s: DiskState, bucket: string, key: string, ref: (string, string)): DiskState
    requires bucket in s.indexFiles && key in s.indexFiles[bucket]
  {
    var entry := s.indexFiles[bucket][key];
    WithEntry(s, bucket, key, entry.(Refs := entry.Refs + {ref})).(dirtyIndexFiles := s.dirtyIndexFiles + {bucket})
  }

  /**
   * `DiskDataChunkStorage.AddChunk` for the stream contents `data` at position
   * `pos`. A new digest gets its blob written with the next `length` bytes (over
   * whatever file was at that path, which `File.OpenWrite` does not truncate) and
   * an entry with that size; every digest gets the reference added and its bucket
   * marked dirty. When the stream ends early the blob is left partly written and
   * the index is not changed.
   */
  function AddChunkResult(s: DiskState, readOnly: bool, chunkDir: string, hash: Bytes,
                          data: Bytes, pos: nat, length: int, ref: (string, string)): (DiskState, Result<()>)
  {
    if readOnly then (s, Err(FormatError("opened the chunk storage read-only")))
    else match BucketPath(chunkDir, hash)
      case Err(e) => (s, Err(e))
      case Ok(bucket) =>
        var loaded := OpenIndex(s, bucket);
        var key := Hex(hash);
        if key in loaded.indexFiles[bucket] then (AddReference(loaded, bucket, key, ref), Ok(()))
        else
          var path := Combine(bucket, key);
          var before := if path in s.blobs then s.blobs[path] else [];
          var written := loaded.(blobs := s.blobs[path := WriteAt(before, 0, Available(data, pos, length))]);
          if length > 0 && pos + length > |data| then (written, Err(EndOfStream))
          else (AddReference(NewEntry(written, bucket, key, length), bucket, key, ref), Ok(()))
  }

  /** The saved indexes after the cached indexes of `buckets` are saved. */
  function SaveAll(saved: map<string, Index>, cache: map<string, Index>, buckets: set<string>): map<string, Index>
  {
    saved + map b | b in buckets && b in cache :: cache[b]
  }

  /** `Flush`: every dirty bucket's cached index is saved, and no bucket is dirty any more. */
  function Flushed(s: DiskState): DiskState
  {
    s.(savedIndexes := SaveAll(s.savedIndexes, s.indexFiles, s.dirtyIndexFiles), dirtyIndexFiles := {})
  }

  lemma SaveOneMore(saved: map<string, Index>, cache: map<string, Index>, buckets: set<string>, b: string)
    requires b in cache
    ensures SaveAll(saved, cache, buckets)[b := cache[b]] == SaveAll(saved, cache, buckets + {b})
  {
  }

  class DiskDataChunkStorage {
    const readOnly: bool
    const chunkDir: string
    var blobs: map<string, Bytes>
    var savedIndexes: map<string, Index>
    var indexFiles: map<string, Index>
    var dirtyIndexFiles: set<string>
    var AddedTotalSize: int
    var AddedCount: int

    function State(): DiskState
      reads this
    {
      DiskState(blobs, savedIndexes, indexFiles, dirtyIndexFiles, AddedTotalSize, AddedCount)
    }

    ghost predicate Valid()
      reads this
    {
      State().Valid()
    }

    /** A store over the chunk directory's current blobs and saved indexes; nothing is loaded yet. */
    constructor (chunkDir: string, readOnly: bool, blobs: map<string, Bytes>, savedIndexes: map<string, Index>)
      ensures Valid() && this.chunkDir == chunkDir && this.readOnly == readOnly
      ensures State() == DiskState(blobs, savedIndexes, map[], {}, 0, 0)
    {
      this.chunkDir := chunkDir;
      this.readOnly := readOnly;
      this.blobs := blobs;
      this.savedIndexes := savedIndexes;
      indexFiles := map[];
      dirtyIndexFiles := {};
      AddedTotalSize := 0;
      AddedCount := 0;
    }

    /** Loads the bucket's index into the cache unless it is there already, and returns it. */
    method OpenIndexForHash(hash: Bytes) returns (r: Result<Index>)
      requires Valid()
      modifies this
      ensures Valid()
      ensures BucketPath(chunkDir, hash).Err? ==> r == Err(ArgumentOutOfRange) && State() == old(State())
      ensures BucketPath(chunkDir, hash).Ok? ==>
        State() == OpenIndex(old(State()), BucketPath(chunkDir, hash).value)
        && r == Ok(LoadedIndex(old(State()), BucketPath(chunkDir, hash).value))
    {
      var bucket :- BucketPath(chunkDir, hash);
      if bucket !in indexFiles {
        if bucket in savedIndexes {
          indexFiles := indexFiles[bucket := savedIndexes[bucket]];
        } else {
          indexFiles := indexFiles[bucket := map[]];
        }
      }
      return Ok(indexFiles[bucket]);
    }

    /** Writes a bucket's index to its `Index.json`. */
    method SaveIndexImmediately(bucket: string, index: Index)
      modifies this
      ensures State() == old(State()).(savedIndexes := old(savedIndexes)[bucket := index])
    {
      savedIndexes := savedIndexes[bucket := index];
    }

    /** `File.OpenRead` on the blob's path. */
    function OpenChunk(hash: Bytes): (r: Result<Bytes>)
      reads this
    {
      OpenBlob(chunkDir, blobs, hash)
    }

    /**
     * The new-digest half of `AddChunk`: the blob written at its path from the
     * next `length` bytes of the stream, then, unless the stream ended early,
     * the entry created and counted.
     */
    method WriteBlob(bucket: string, key: string, stream: InputStream, length: int64) returns (r: Result<()>)
      requires Valid() && bucket in indexFiles
      modifies this, stream
      ensures Valid()
      ensures var path := Combine(bucket, key);
        var before := if path in old(blobs) then old(blobs)[path] else [];
        var written := old(State()).(blobs := old(blobs)[path := WriteAt(before, 0, Available(stream.data, old(stream.position), length))]);
        if length > 0 && old(stream.position) + length > |stream.data| then State() == written && r == Err(EndOfStream)
        else State() == NewEntry(written, bucket, key, length) && r == Ok(())
      ensures stream.position == old(stream.position) + |Available(stream.data, old(stream.position), length)|
    {
      var path := Combine(bucket, key);
      var outStream := new OutputStream.Open(if path in blobs then blobs[path] else []);
      var copied := CopyData(stream, outStream, length);
      blobs := blobs[path := outStream.data];
      if copied.Err? {
        return Err(copied.error);
      }
      ghost var written := State();
      indexFiles := indexFiles[bucket := indexFiles[bucket][key := IndexFileData(length, {})]];
      AddedTotalSize := AddedTotalSize + length;
      AddedCount := AddedCount + 1;
      assert State() == NewEntry(written, bucket, key, length);
      return Ok(());
    }

    method AddChunk(hash: Bytes, stream: InputStream, length: int64, containerFileName: string, fileName: string)
      returns (r: Result<()>)
      requires Valid()
      modifies this, stream
      ensures Valid()
      ensures (State(), r)
        == AddChunkResult(old(State()), readOnly, chunkDir, hash, stream.data, old(stream.position), length,
                          (containerFileName, fileName))
      ensures stream.position == old(stream.position)
        + if WritesBlob(old(State()), readOnly, chunkDir, hash) then |Available(stream.data, old(stream.position), length)| else 0
    {
      if readOnly {
        return Err(FormatError("opened the chunk storage read-only"));
      }
      var bucket :- BucketPath(chunkDir, hash);
      var _ := OpenIndexForHash(hash);
      ghost var loaded := State();
      var key := Hex(hash);
      if key !in indexFiles[bucket] {
        var written := WriteBlob(bucket, key, stream, length);
        if written.Err? {
          return written;
        }
      }
      ghost var entered := State();
      // The entry is changed in place, inside the cached index.
      var entry := indexFiles[bucket][key];
      indexFiles := indexFiles[bucket := indexFiles[bucket][key := entry.(Refs := entry.Refs + {(containerFileName, fileName)})]];
      dirtyIndexFiles := dirtyIndexFiles + {bucket};
      assert State() == AddReference(entered, bucket, key, (containerFileName, fileName));
      return Ok(());
    }

    /** Saves every dirty bucket's index, one at a time, then clears the dirty set. */
    method Flush()
      requires Valid()
      modifies this
      ensures Valid()
      ensures State() == Flushed(old(State()))
    {
      var pending := dirtyIndexFiles;
      ghost var done: set<string> := {};
      while pending != {}
        invariant pending + done == old(dirtyIndexFiles) && pending !! done
        invariant savedIndexes == SaveAll(old(savedIndexes), indexFiles, done)
        invariant blobs == old(blobs) && indexFiles == old(indexFiles) && dirtyIndexFiles == old(dirtyIndexFiles)
        invariant AddedTotalSize == old(AddedTotalSize) && AddedCount == old(AddedCount)
        decreases |pending|
      {
        var bucket :| bucket in pending;
        SaveOneMore(old(savedIndexes), indexFiles, done, bucket);
        SaveIndexImmediately(bucket, indexFiles[bucket]);
        pending := pending - {bucket};
        done := done + {bucket};
      }
      dirtyIndexFiles := {};
    }
  }

  // ---------------------------------------------------------------------------
  // What the disk store promises
  // ---------------------------------------------------------------------------

  /** The bucket depends on the digest's first byte and on nothing else. */
  lemma BucketPathIsFirstByte(chunkDir: string, a: Bytes, b: Bytes)
    requires |a| >= 1 && |b| >= 1
    ensures BucketPath(chunkDir, a).Ok? && BucketPath(chunkDir, b).Ok?
    ensures BucketPath(chunkDir, a) == BucketPath(chunkDir, b) <==> a[0] == b[0]
  {
    if a[0] == b[0] {
      assert a[..1] == [a[0]] == b[..1];
    }
    if BucketPath(chunkDir, a) == BucketPath(chunkDir, b) {
      var ha, hb := Hex(a[..1]), Hex(b[..1]);
      if chunkDir == [] {
      } else if chunkDir[|chunkDir| - 1] == '/' {
        assert ha == Combine(chunkDir, ha)[|chunkDir|..];
        assert hb == Combine(chunkDir, hb)[|chunkDir|..];
      } else {
        CombineInjective(chunkDir, ha, hb);
      }
      HexInjective(a[..1], b[..1]);
      assert a[0] == a[..1][0];
    }
  }

  /** Distinct digests have distinct blob paths. */
  lemma ChunkPathInjective(chunkDir: string, a: Bytes, b: Bytes)
    requires ChunkPath(chunkDir, a).Ok? && ChunkPath(chunkDir, a) == ChunkPath(chunkDir, b)
    ensures a == b
  {
    var ba, bb := BucketPath(chunkDir, a).value, BucketPath(chunkDir, b).value;
    assert |ba| == |bb| && ba != [] && ba[|ba| - 1] != '/' && bb[|bb| - 1] != '/' by {
      var ha, hb := Hex(a[..1]), Hex(b[..1]);
      assert ha[1] != '/' && hb[1] != '/';
    }
    var pa := Combine(ba, Hex(a));
    assert Hex(a) == pa[|ba| + 1..];
    assert Hex(b) == pa[|bb| + 1..];
    HexInjective(a, b);
  }

  /**
   * A bucket index is loaded at most once: opening an open bucket changes
   * nothing, opening keeps what a later open returns, and a bucket with
   * neither a cached nor a saved index opens empty.
   */
  lemma OpenIndexLoadsOnce(s: DiskState, bucket: string)
    ensures LoadedIndex(OpenIndex(s, bucket), bucket) == LoadedIndex(s, bucket)
    ensures OpenIndex(OpenIndex(s, bucket), bucket) == OpenIndex(s, bucket)
    ensures bucket in s.indexFiles ==> OpenIndex(s, bucket) == s
    ensures bucket !in s.indexFiles && bucket !in s.savedIndexes ==> LoadedIndex(s, bucket) == map[]
    ensures forall b | b != bucket :: LoadedIndex(OpenIndex(s, bucket), b) == LoadedIndex(s, b)
  {
  }

  /** A read-only store, or an empty digest, refuses the chunk and changes nothing. */
  lemma AddChunkRefusals(s: DiskState, readOnly: bool, chunkDir: string, hash: Bytes,
                         data: Bytes, pos: nat, length: int, ref: (string, string))
    requires readOnly || |hash| == 0
    ensures AddChunkResult(s, readOnly, chunkDir, hash, data, pos, length, ref).0 == s
    ensures readOnly ==>
      AddChunkResult(s, readOnly, chunkDir, hash, data, pos, length, ref).1 == Err(FormatError("opened the chunk storage read-only"))
    ensures !readOnly ==> AddChunkResult(s, readOnly, chunkDir, hash, data, pos, length, ref).1 == Err(ArgumentOutOfRange)
  {
  }

  /** `t` differs from `s` only in the index of `bucket`, in the blobs, the dirty set and the counters. */
  ghost predicate SameElsewhere(s: DiskState, t: DiskState, bucket: string)
  {
    && t.savedIndexes == s.savedIndexes
    && (forall b | b != bucket :: b in t.indexFiles <==> b in s.indexFiles)
    && (forall b | b != bucket :: LoadedIndex(t, b) == LoadedIndex(s, b))
  }

  lemma AddReferenceFacts(s: DiskState, bucket: string, key: string, ref: (string, string))
    requires bucket in s.indexFiles && key in s.indexFiles[bucket]
    ensures var t := AddReference(s, bucket, key, ref);
      && SameElsewhere(s, t, bucket) && (s.Valid() ==> t.Valid())
      && t.blobs == s.blobs && t.AddedTotalSize == s.AddedTotalSize && t.AddedCount == s.AddedCount
      && bucket in t.dirtyIndexFiles && bucket in t.indexFiles && key in t.indexFiles[bucket]
      && t.indexFiles[bucket][key] == s.indexFiles[bucket][key].(Refs := s.indexFiles[bucket][key].Refs + {ref})
  {
  }

  lemma NewEntryFacts(s: DiskState, bucket: string, key: string, length: int)
    requires bucket in s.indexFiles
    ensures var t := NewEntry(s, bucket, key, length);
      && SameElsewhere(s, t, bucket) && t.dirtyIndexFiles == s.dirtyIndexFiles && t.indexFiles.Keys == s.indexFiles.Keys
      && t.blobs == s.blobs && t.AddedTotalSize == s.AddedTotalSize + length && t.AddedCount == s.AddedCount + 1
      && key in t.indexFiles[bucket] && t.indexFiles[bucket][key] == IndexFileData(length, {})
  {
  }

  lemma OpenIndexFacts(s: DiskState, bucket: string)
    ensures var t := OpenIndex(s, bucket);
      && SameElsewhere(s, t, bucket) && t.dirtyIndexFiles == s.dirtyIndexFiles && (s.Valid() ==> t.Valid())
      && t.blobs == s.blobs && t.AddedTotalSize == s.AddedTotalSize && t.AddedCount == s.AddedCount
      && bucket in t.indexFiles && t.indexFiles[bucket] == LoadedIndex(s, bucket)
  {
  }

  /**
   * After a successful `AddChunk` the digest has an entry whose references
   * include the new one, its bucket is dirty, the state stays valid, the saved
   * indexes are untouched and so is every other bucket's index.
   */
  lemma AddChunkRecordsReference(s: DiskState, readOnly: bool, chunkDir: string, hash: Bytes,
                                 data: Bytes, pos: nat, length: int, ref: (string, string))
    requires s.Valid()
    requires AddChunkResult(s, readOnly, chunkDir, hash, data, pos, length, ref).1.Ok?
    ensures var t, bucket := AddChunkResult(s, readOnly, chunkDir, hash, data, pos, length, ref).0, BucketPath(chunkDir, hash).value;
      && t.Valid() && bucket in t.dirtyIndexFiles && SameElsewhere(s, t, bucket)
      && Hex(hash) in LoadedIndex(t, bucket) && ref in LoadedIndex(t, bucket)[Hex(hash)].Refs
  {
    var bucket, key := BucketPath(chunkDir, hash).value, Hex(hash);
    var loaded := OpenIndex(s, bucket);
    OpenIndexFacts(s, bucket);
    if key in loaded.indexFiles[bucket] {
      AddReferenceFacts(loaded, bucket, key, ref);
    } else {
      var path := Combine(bucket, key);
      var before := if path in s.blobs then s.blobs[path] else [];
      var written := loaded.(blobs := s.blobs[path := WriteAt(before, 0, Available(data, pos, length))]);
      NewEntryFacts(written, bucket, key, length);
      AddReferenceFacts(NewEntry(written, bucket, key, length), bucket, key, ref);
    }
  }

  /**
   * A digest already in its bucket's index writes no blob, keeps its size and
   * leaves the counters alone; only the reference is added.
   */
  lemma AddChunkKnownDigest(s: DiskState, readOnly: bool, chunkDir: string, hash: Bytes,
                            data: Bytes, pos: nat, length: int, ref: (string, string))
    requires !readOnly && |hash| >= 1
    requires Hex(hash) in LoadedIndex(s, BucketPath(chunkDir, hash).value)
    ensures var (t, r) := AddChunkResult(s, readOnly, chunkDir, hash, data, pos, length, ref);
      var bucket, key := BucketPath(chunkDir, hash).value, Hex(hash);
      && r.Ok? && t.blobs == s.blobs
      && t.AddedTotalSize == s.AddedTotalSize && t.AddedCount == s.AddedCount
      && LoadedIndex(t, bucket)[key] == LoadedIndex(s, bucket)[key].(Refs := LoadedIndex(s, bucket)[key].Refs + {ref})
  {
    var bucket, key := BucketPath(chunkDir, hash).value, Hex(hash);
    OpenIndexFacts(s, bucket);
    AddReferenceFacts(OpenIndex(s, bucket), bucket, key, ref);
  }

  /**
   * A new digest whose bytes are all there gets its blob written with exactly
   * those bytes (when no file was at its path), an entry of that size with just
   * the new reference, and both counters raised.
   */
  lemma AddChunkNewDigest(s: DiskState, readOnly: bool, chunkDir: string, hash: Bytes,
                          data: Bytes, pos: nat, length: int, ref: (string, string))
    requires WritesBlob(s, readOnly, chunkDir, hash)
    requires length <= 0 || pos + length <= |data|
    ensures var (t, r) := AddChunkResult(s, readOnly, chunkDir, hash, data, pos, length, ref);
      var bucket, key, path := BucketPath(chunkDir, hash).value, Hex(hash), ChunkPath(chunkDir, hash).value;
      && r.Ok? && path in t.blobs
      && (path !in s.blobs ==> t.blobs[path] == Available(data, pos, length))
      && (forall p | p != path :: p in t.blobs <==> p in s.blobs)
      && LoadedIndex(t, bucket)[key] == IndexFileData(length, {ref})
      && t.AddedTotalSize == s.AddedTotalSize + length && t.AddedCount == s.AddedCount + 1
  {
    var bucket, key := BucketPath(chunkDir, hash).value, Hex(hash);
    var path := Combine(bucket, key);
    var before := if path in s.blobs then s.blobs[path] else [];
    var loaded := OpenIndex(s, bucket);
    OpenIndexFacts(s, bucket);
    var written := loaded.(blobs := s.blobs[path := WriteAt(before, 0, Available(data, pos, length))]);
    NewEntryFacts(written, bucket, key, length);
    AddReferenceFacts(NewEntry(written, bucket, key, length), bucket, key, ref);
    assert {} + {ref} == {ref};
    if path !in s.blobs {
      assert WriteAt([], 0, Available(data, pos, length)) == Available(data, pos, length);
    }
  }

  /**
   * A new digest stored where no file was opens to exactly the bytes copied
   * for it, and a store that already opened a digest keeps opening it to
   * the same bytes after any other `AddChunk`.
   */
  lemma AddChunkThenOpen(s: DiskState, readOnly: bool, chunkDir: string, hash: Bytes,
                         data: Bytes, pos: nat, length: int, ref: (string, string), other: Bytes)
    requires AddChunkResult(s, readOnly, chunkDir, hash, data, pos, length, ref).1.Ok?
    ensures var t := AddChunkResult(s, readOnly, chunkDir, hash, data, pos, length, ref).0;
      && (WritesBlob(s, readOnly, chunkDir, hash) && OpenBlob(chunkDir, s.blobs, hash) == Err(FileNotFound) ==>
            OpenBlob(chunkDir, t.blobs, hash) == Ok(Available(data, pos, length)))
      && (OpenBlob(chunkDir, s.blobs, other).Ok? && other != hash ==> OpenBlob(chunkDir, t.blobs, other) == OpenBlob(chunkDir, s.blobs, other))
  {
    var t := AddChunkResult(s, readOnly, chunkDir, hash, data, pos, length, ref).0;
    var bucket := BucketPath(chunkDir, hash).value;
    OpenIndexFacts(s, bucket);
    if WritesBlob(s, readOnly, chunkDir, hash) && OpenBlob(chunkDir, s.blobs, hash) == Err(FileNotFound) {
      AddChunkNewDigest(s, readOnly, chunkDir, hash, data, pos, length, ref);
    }
    if OpenBlob(chunkDir, s.blobs, other).Ok? && other != hash {
      var path := ChunkPath(chunkDir, other).value;
      if ChunkPath(chunkDir, hash) == ChunkPath(chunkDir, other) {
        ChunkPathInjective(chunkDir, other, hash);
      }
      if WritesBlob(s, readOnly, chunkDir, hash) {
        AddChunkNewDigest(s, readOnly, chunkDir, hash, data, pos, length, ref);
      } else {
        AddChunkKnownDigest(s, readOnly, chunkDir, hash, data, pos, length, ref);
      }
    }
  }

  /**
   * A digest is stored at most once: once `AddChunk` has succeeded, adding the
   * same digest again writes no blob and changes no counter, and repeating the
   * same reference changes nothing at all.
   */
  lemma AddChunkStoresOnce(s: DiskState, readOnly: bool, chunkDir: string, hash: Bytes,
                           data: Bytes, pos: nat, length: int, ref: (string, string),
                           data': Bytes, pos': nat, length': int, ref': (string, string))
    requires s.Valid()
    requires AddChunkResult(s, readOnly, chunkDir, hash, data, pos, length, ref).1.Ok?
    ensures var t := AddChunkResult(s, readOnly, chunkDir, hash, data, pos, length, ref).0;
      var u := AddChunkResult(t, readOnly, chunkDir, hash, data', pos', length', ref').0;
      && u.blobs == t.blobs && u.AddedTotalSize == t.AddedTotalSize && u.AddedCount == t.AddedCount
      && (ref' == ref ==> u == t)
  {
    var t := AddChunkResult(s, readOnly, chunkDir, hash, data, pos, length, ref).0;
    AddChunkRecordsReference(s, readOnly, chunkDir, hash, data, pos, length, ref);
    AddChunkKnownDigest(t, readOnly, chunkDir, hash, data', pos', length', ref');
    var bucket, key := BucketPath(chunkDir, hash).value, Hex(hash);
    if ref' == ref {
      var u := AddChunkResult(t, readOnly, chunkDir, hash, data', pos', length', ref').0;
      OpenIndexFacts(t, bucket);
      assert OpenIndex(t, bucket) == t;
      AddReferenceFacts(t, bucket, key, ref');
      assert t.indexFiles[bucket][key].Refs + {ref'} == t.indexFiles[bucket][key].Refs;
      assert u.indexFiles[bucket] == t.indexFiles[bucket];
      assert u.indexFiles == t.indexFiles;
    }
  }

  /**
   * `Flush` saves exactly the dirty buckets' cached indexes, leaves nothing
   * dirty, and changes no index a later `OpenIndexForHash` would return.
   */
  lemma FlushPersists(s: DiskState)
    requires s.Valid()
    ensures var t := Flushed(s);
      && t.Valid() && t.dirtyIndexFiles == {}
      && (forall b | b in s.dirtyIndexFiles :: b in t.savedIndexes && t.savedIndexes[b] == s.indexFiles[b])
      && (forall b | b !in s.dirtyIndexFiles :: b in t.savedIndexes <==> b in s.savedIndexes)
      && (forall b | b !in s.dirtyIndexFiles && b in s.savedIndexes :: t.savedIndexes[b] == s.savedIndexes[b])
      && (forall b :: LoadedIndex(t, b) == LoadedIndex(s, b))
      && t.blobs == s.blobs && t.indexFiles == s.indexFiles
  {
  }

  // ---------------------------------------------------------------------------
  // The storage interface
  // ---------------------------------------------------------------------------

  /** `ISharedDataChunkStorage`: either implementation behind one type. */
  datatype SharedStorage =
    | EstimatorStorage(estimator: SharedDataChunkStorageEstimator)
    | DiskStorage(disk: DiskDataChunkStorage)
  {
    function Footprint(): set<object>
    {
      if EstimatorStorage? then {estimator} else {disk}
    }

    ghost predicate Valid()
      reads Footprint()
    {
      DiskStorage? ==> disk.Valid()
    }

    /** The blob a restore copies for a digest; the estimator has none. */
    function OpenChunk(hash: Bytes): (r: Result<Bytes>)
      reads Footprint()
      ensures EstimatorStorage? ==> r == Err(NotImplemented)
    {
      if EstimatorStorage? then Err(NotImplemented) else disk.OpenChunk(hash)
    }
  }

  /** What a storage holds, as a value. */
  datatype StorageState = EstimatorSnapshot(e: EstimatorState) | DiskSnapshot(d: DiskState)

  function Snapshot(st: SharedStorage): StorageState
    reads st.Footprint()
  {
    if st.EstimatorStorage? then EstimatorSnapshot(st.estimator.State()) else DiskSnapshot(st.disk.State())
  }

  /** `AddChunk` through the interface, on a snapshot of the storage behind it. */
  function StorageAdd(st: SharedStorage, s: StorageState, hash: Bytes, data: Bytes, pos: nat, length: int,
                      ref: (string, string)): (StorageState, Result<()>)
  {
    match s
    case EstimatorSnapshot(e) => (EstimatorSnapshot(EstimatorAdd(e, hash, length)), Ok(()))
    case DiskSnapshot(d) =>
      if st.EstimatorStorage? then (s, Ok(()))
      else
        var (d', r) := AddChunkResult(d, st.disk.readOnly, st.disk.chunkDir, hash, data, pos, length, ref);
        (DiskSnapshot(d'), r)
  }

  method AddChunk(st: SharedStorage, hash: Bytes, stream: InputStream, length: int64,
                  containerFileName: string, fileName: string) returns (r: Result<()>)
    requires st.Valid()
    modifies st.Footprint(), stream
    ensures st.Valid()
    ensures (Snapshot(st), r)
      == StorageAdd(st, old(Snapshot(st)), hash, stream.data, old(stream.position), length, (containerFileName, fileName))
  {
    if st.EstimatorStorage? {
      st.estimator.AddChunk(hash, stream, length, containerFileName, fileName);
      return Ok(());
    }
    r := st.disk.AddChunk(hash, stream, length, containerFileName, fileName);
  }
}
