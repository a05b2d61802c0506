/**
 * `ZipArchive`: finds the end of central directory record (and, for Zip64
 * archives, the locator and the Zip64 record) at the end of a file, then walks
 * the central directory in buffer-sized windows.
 */
module ZipArchive {
  import opened Wrappers
  import opened Bytes
  import opened Streams
  import opened ZipFormat

  /** How far back from the end of the file the end of central directory record is looked for. */
  const EocdSearchSize: nat := 512

  /** The window size `ReadFileHeaders` is called with by default: 4 MiB. */
  const DefaultHeaderBufferSize: nat := 4 * 1024 * 1024

  // ---------------------------------------------------------------------------
  // Locating the end of central directory record

  /** The end of central directory signature lies at index `i` of `buf`. */
  predicate EocdSignatureAt(buf: Bytes, i: int)
  {
    && 0 <= i && i + 4 <= |buf|
    && buf[i] == 0x50 && buf[i + 1] == 0x4b && buf[i + 2] == 0x05 && buf[i + 3] == 0x06
  }

  /** The signature lies at `i` exactly when the bytes from `i` on start with it. */
  lemma SignatureStartsWith(buf: Bytes, i: int)
    requires 0 <= i <= |buf|
    ensures EocdSignatureAt(buf, i) <==> StartsWith(buf[i..], SigEocd)
  {
    if i + 4 <= |buf| {
      assert buf[i..][..4] == [buf[i], buf[i + 1], buf[i + 2], buf[i + 3]];
    }
  }

  /** The highest index at or below `i` where the signature lies, if any. */
  function LastEocdSignature(buf: Bytes, i: int): (r: Option<nat>)
    requires i <= |buf| - 4
    ensures r.Some? ==> r.value <= i && EocdSignatureAt(buf, r.value)
    ensures r.Some? ==> forall j | r.value < j <= i :: !EocdSignatureAt(buf, j)
    ensures r.None? ==> forall j | 0 <= j <= i :: !EocdSignatureAt(buf, j)
    decreases if i < 0 then 0 else i + 1
  {
    if i < 0 then None
    else if EocdSignatureAt(buf, i) then Some(i)
    else LastEocdSignature(buf, i - 1)
  }

  /** The last min(512, length) bytes of the file. */
  function EocdSearchWindow(data: Bytes): (w: Bytes)
    ensures |w| == Min(EocdSearchSize, |data|)
  {
    data[|data| - Min(EocdSearchSize, |data|)..]
  }

  /** The window's signatures are the file's signatures shifted by where the window starts. */
  lemma SignaturesInWindow(data: Bytes)
    ensures var s := |data| - Min(EocdSearchSize, |data|);
      forall j | 0 <= j :: EocdSignatureAt(EocdSearchWindow(data), j) <==> EocdSignatureAt(data, s + j)
  {
  }

  /**
   * The end of central directory record of a file: the one whose signature is
   * the last one among the final 512 bytes. Its `Size` is its distance to the
   * end of the file.
   */
  function FindEocd(data: Bytes): (r: Result<Eocd>)
    ensures r.Ok? ==> EocdMinSize <= r.value.Size <= Min(EocdSearchSize, |data|)
    ensures r.Ok? ==> ParseEocd(data[|data| - r.value.Size..], false) == r
    ensures r.Err? ==> r == Err(FormatError("failed to find EOCD")) || r == Err(EndOfStream)
  {
    var w := EocdSearchWindow(data);
    match LastEocdSignature(w, |w| - 4)
    case None => Err(FormatError("failed to find EOCD"))
    case Some(i) =>
      assert w[i..] == data[|data| - |w| + i..];
      ParseEocd(w[i..], false)
  }

  /**
   * The record found starts with the signature, and no signature lies later;
   * the search fails with "failed to find EOCD" exactly when the last 512 bytes
   * hold no signature.
   */
  lemma FindEocdFindsLastSignature(data: Bytes)
    ensures var r := FindEocd(data);
      && (r.Ok? ==> EocdSignatureAt(data, |data| - r.value.Size))
      && (r.Ok? ==> forall j | |data| - r.value.Size < j <= |data| - 4 :: !EocdSignatureAt(data, j))
      && (r == Err(FormatError("failed to find EOCD"))
          <==> forall j | |data| - Min(EocdSearchSize, |data|) <= j <= |data| - 4 :: !EocdSignatureAt(data, j))
  {
    var w := EocdSearchWindow(data);
    var s := |data| - |w|;
    SignaturesInWindow(data);
    var found := LastEocdSignature(w, |w| - 4);
    if found.None? {
      forall j | s <= j <= |data| - 4 ensures !EocdSignatureAt(data, j) {
        assert !EocdSignatureAt(w, j - s);
      }
    } else {
      var i := found.value;
      assert w[i..] == data[s + i..];
      forall j | s + i < j <= |data| - 4 ensures !EocdSignatureAt(data, j) {
        assert !EocdSignatureAt(w, j - s);
      }
      SignatureStartsWith(w, i);
    }
  }

  /**
   * The scan as the tool writes it: it starts at `buf.Length - 3`, so when the
   * last three bytes are `PK\x05` the test of `buf[i + 3]` reads one past the end.
   */
  function EocdScanAsWritten(buf: Bytes, i: int): (r: Result<nat>)
    requires i <= |buf| - 3
    decreases if i < 0 then 0 else i + 1
  {
    if i < 0 then Err(FormatError("failed to find EOCD"))
    else if buf[i] == 0x50 && buf[i + 1] == 0x4b && buf[i + 2] == 0x05 then
      if i + 3 >= |buf| then Err(IndexOutOfRange)
      else if buf[i + 3] == 0x06 then Ok(i)
      else EocdScanAsWritten(buf, i - 1)
    else EocdScanAsWritten(buf, i - 1)
  }

  /**
   * An archive whose record is followed by the comment `PK\x05` makes the scan
   * as written fail with an out-of-range index, although the record is there.
   */
  lemma EocdScanAsWrittenOverrunsBuffer()
    ensures var buf: Bytes := [0x50, 0x4b, 0x05, 0x06] + seq(16, _ => 0) + [0x03, 0x00, 0x50, 0x4b, 0x05];
      && EocdScanAsWritten(buf, |buf| - 3) == Err(IndexOutOfRange)
      && FindEocd(buf).Ok?
  {
    var buf: Bytes := [0x50, 0x4b, 0x05, 0x06] + seq(16, _ => 0) + [0x03, 0x00, 0x50, 0x4b, 0x05];
    assert |buf| == 25 && buf[22] == 0x50 && buf[23] == 0x4b && buf[24] == 0x05;
    assert EocdSearchWindow(buf) == buf;
    assert forall j | 0 < j <= 21 :: buf[j] != 0x50 || j == 20 || j == 21;
    assert !EocdSignatureAt(buf, 20) && !EocdSignatureAt(buf, 21);
    LastEocdSignatureSkips(buf, 21, 0);
    assert EocdSignatureAt(buf, 0);
    SignatureStartsWith(buf, 0);
  }

  /** Indices without a signature are passed over. */
  lemma {:induction false} LastEocdSignatureSkips(buf: Bytes, i: int, k: int)
    requires k <= i <= |buf| - 4
    requires forall j | k < j <= i :: !EocdSignatureAt(buf, j)
    ensures LastEocdSignature(buf, i) == LastEocdSignature(buf, k)
    decreases i - k
  {
    if i > k {
      LastEocdSignatureSkips(buf, i - 1, k);
    }
  }

  /** Unless the file ends with `PK\x05`, the scan as written finds what the corrected scan finds. */
  lemma {:induction false} EocdScanAsWrittenAgrees(buf: Bytes, i: int)
    requires i <= |buf| - 4
    ensures EocdScanAsWritten(buf, i) == match LastEocdSignature(buf, i)
      case None => Err(FormatError("failed to find EOCD"))
      case Some(j) => Ok(j)
    decreases if i < 0 then 0 else i + 1
  {
    if i >= 0 {
      EocdScanAsWrittenAgrees(buf, i - 1);
    }
  }

  lemma EocdScanAsWrittenAgreesAtEnd(buf: Bytes)
    requires |buf| >= 3 ==> !(buf[|buf| - 3] == 0x50 && buf[|buf| - 2] == 0x4b && buf[|buf| - 1] == 0x05)
    ensures EocdScanAsWritten(buf, |buf| - 3) == match LastEocdSignature(buf, |buf| - 4)
      case None => Err(FormatError("failed to find EOCD"))
      case Some(j) => Ok(j)
  {
    EocdScanAsWrittenAgrees(buf, |buf| - 4);
  }

  // ---------------------------------------------------------------------------
  // Walking the central directory

  /** A decoder that moves on: every record it decodes is at least the fixed part long. */
  ghost predicate Advances(decode: Bytes -> Result<CentralDirectoryFileHeader>)
  {
    forall x :: decode(x).Ok? ==> decode(x).value.Size >= CentralDirectoryFileHeaderMinSize
  }

  lemma DecodeAdvances()
    ensures Advances(DecodeCentralDirectoryFileHeader)
  {
    forall x | DecodeCentralDirectoryFileHeader(x).Ok?
      ensures DecodeCentralDirectoryFileHeader(x).value.Size >= CentralDirectoryFileHeaderMinSize
    {
    }
  }

  /**
   * The records already `taken`, followed by the records `decode` reads from
   * window `w` starting at `i`, at most `k` more of them: each next one starts
   * `Size` bytes after the previous one. The walk stops quietly when a record
   * runs past the window (`EndOfStream`) and fails on any other decoding error.
   * Also returns where it stopped.
   */
  function WalkWith(decode: Bytes -> Result<CentralDirectoryFileHeader>, w: Bytes, i: nat, k: nat,
                    taken: seq<CentralDirectoryFileHeader>)
    : (r: (seq<CentralDirectoryFileHeader>, nat, Result<()>))
    requires Advances(decode)
    ensures |taken| <= |r.0| <= |taken| + k && i <= r.1
    ensures r.1 == i <==> r.0 == taken
    ensures r.2.Err? ==> r.2.error != EndOfStream && |r.0| < |taken| + k
    decreases k
  {
    if k == 0 || i >= |w| then (taken, i, Ok(()))
    else
      var parsed := decode(w[i..]);
      if parsed.Err? then
        if parsed.error == EndOfStream then (taken, i, Ok(())) else (taken, i, Err(parsed.error))
      else
        WalkWith(decode, w, i + parsed.value.Size, k - 1, taken + [parsed.value])
  }

  /** The walk over the central directory records of `w`. */
  function Walk(w: Bytes, i: nat, k: nat, taken: seq<CentralDirectoryFileHeader>)
    : (r: (seq<CentralDirectoryFileHeader>, nat, Result<()>))
    ensures |taken| <= |r.0| <= |taken| + k && i <= r.1
    ensures r.1 == i <==> r.0 == taken
    ensures r.2.Err? ==> r.2.error != EndOfStream && |r.0| < |taken| + k
  {
    DecodeAdvances();
    WalkWith(DecodeCentralDirectoryFileHeader, w, i, k, taken)
  }

  /**
   * One pass of the walk: the records taken, the position, the records still
   * allowed, the outcome, and whether the walk ends here.
   */
  function WalkStep(decode: Bytes -> Result<CentralDirectoryFileHeader>, w: Bytes, i: nat, k: nat,
                    taken: seq<CentralDirectoryFileHeader>)
    : (r: (seq<CentralDirectoryFileHeader>, nat, nat, Result<()>, bool))
    requires Advances(decode)
  {
    if k == 0 || i >= |w| then (taken, i, k, Ok(()), true)
    else
      var parsed := decode(w[i..]);
      if parsed.Err? then (taken, i, k, if parsed.error == EndOfStream then Ok(()) else Err(parsed.error), true)
      else (taken + [parsed.value], i + parsed.value.Size, k - 1, Ok(()), false)
  }

  /**
   * A pass that ends the walk gives its result; otherwise the walk goes on from
   * where the pass left it, further on and with one record fewer allowed.
   */
  lemma WalkStepIsWalk(decode: Bytes -> Result<CentralDirectoryFileHeader>, w: Bytes, i: nat, k: nat,
                       taken: seq<CentralDirectoryFileHeader>)
    requires Advances(decode)
    ensures var (taken', i', k', r, done) := WalkStep(decode, w, i, k, taken);
      && (done ==> WalkWith(decode, w, i, k, taken) == (taken', i', r))
      && (!done ==> k' < k && i' > i && WalkWith(decode, w, i', k', taken') == WalkWith(decode, w, i, k, taken))
  {
    if k > 0 && i < |w| {
      var parsed := decode(w[i..]);
      if parsed.Ok? {
        WalkWithTakes(decode, w, i, k, taken, parsed.value);
      } else {
        WalkWithStops(decode, w, i, k, taken, parsed.error);
      }
    }
  }

  /** A record that decodes is taken, and the walk goes on after it. */
  lemma WalkWithTakes(decode: Bytes -> Result<CentralDirectoryFileHeader>, w: Bytes, i: nat, k: nat,
                      taken: seq<CentralDirectoryFileHeader>, h: CentralDirectoryFileHeader)
    requires Advances(decode) && 0 < k && i < |w| && decode(w[i..]) == Ok(h)
    ensures h.Size >= CentralDirectoryFileHeaderMinSize
    ensures WalkWith(decode, w, i, k, taken) == WalkWith(decode, w, i + h.Size, k - 1, taken + [h])
  {
  }

  /** A record that does not decode ends the walk, quietly when it runs past the window. */
  lemma WalkWithStops(decode: Bytes -> Result<CentralDirectoryFileHeader>, w: Bytes, i: nat, k: nat,
                      taken: seq<CentralDirectoryFileHeader>, e: Failure)
    requires Advances(decode) && 0 < k && i < |w| && decode(w[i..]) == Err(e)
    ensures WalkWith(decode, w, i, k, taken) == (taken, i, if e == EndOfStream then Ok(()) else Err(e))
  {
  }

  /** `file.Read(buf, off, count)`: what is available lands at `buf[off..]`. */
  method ReadInto(file: InputStream, buf: array<uint8>, off: nat, count: nat) returns (n: nat)
    requires off + count <= buf.Length
    modifies file, buf
    ensures n == |Available(file.data, old(file.position), count)| <= count
    ensures file.position == old(file.position) + n
    ensures buf[..] == old(buf[..off]) + Available(file.data, old(file.position), count) + old(buf[off + n..])
  {
    var chunk := file.Read(count);
    forall k | off <= k < off + |chunk| {
      buf[k] := chunk[k - off];
    }
    n := |chunk|;
    assert buf[..] == old(buf[..off]) + chunk + old(buf[off + n..]);
  }

  /** `Array.Copy(buf, from, buf, 0, length)`: moves `buf[from..from + length]` to the front. */
  method CopyToFront(buf: array<uint8>, from: nat, length: nat)
    requires from + length <= buf.Length
    modifies buf
    ensures buf[..length] == old(buf[from..from + length])
    ensures buf[length..] == old(buf[length..])
  {
    forall k | 0 <= k < length {
      buf[k] := buf[from + k];
    }
  }

  class ZipArchive {
    var eocd: Eocd
    var eocd64LocatorOffset: int
    var eocd64Locator: Eocd64Locator
    var eocd64: Eocd64

    constructor ()
      ensures eocd == EmptyEocd && eocd64Locator == EmptyEocd64Locator && eocd64 == EmptyEocd64
      ensures eocd64LocatorOffset == 0
    {
      eocd := EmptyEocd;
      eocd64LocatorOffset := 0;
      eocd64Locator := EmptyEocd64Locator;
      eocd64 := EmptyEocd64;
    }

    /** Resets the three records; the locator offset is left as it was. */
    method Clear()
      modifies this
      ensures eocd == EmptyEocd && eocd64Locator == EmptyEocd64Locator && eocd64 == EmptyEocd64
      ensures eocd64LocatorOffset == old(eocd64LocatorOffset)
    {
      eocd := EmptyEocd;
      eocd64Locator := EmptyEocd64Locator;
      eocd64 := EmptyEocd64;
    }

    /** The Zip64 record a readable locator points at has a size in [56, 2^31) and lies inside the file. */
    static predicate Eocd64Readable(data: Bytes, offset: u64)
    {
      && offset < TWO_63
      && offset + Eocd64MinSizeForSizeRead <= |data|
      && StartsWith(data[offset..], SigEocd64)
      && var size := Eocd64TotalSize(U64(data, offset + 4));
         Eocd64FixedSize <= size < 0x8000_0000 && offset + size <= |data|
    }

    static function Eocd64At(data: Bytes, offset: u64): (e: Eocd64)
      requires Eocd64Readable(data, offset)
      ensures e.Size == Eocd64TotalSize(U64(data, offset + 4))
    {
      var size := Eocd64TotalSize(U64(data, offset + 4));
      ParseEocd64(data[offset..offset + size]).value
    }

    /**
     * A Zip64 locator sits at `offset` and the Zip64 record it points at can
     * be read.
     */
    static predicate Zip64TrailerReadable(data: Bytes, offset: int)
    {
      && 0 <= offset && offset + Eocd64LocatorSize <= |data|
      && StartsWith(data[offset..], SigEocd64Locator)
      && Eocd64Readable(data, U64(data, offset + 8))
    }

    /**
     * Reads the end of central directory record, then (only when it says so)
     * the Zip64 locator just before it and the Zip64 record the locator points at.
     */
    method ReadHeaders(file: InputStream) returns (r: Result<()>)
      modifies this, file
      ensures FindEocd(file.data).Err? ==>
        r == Err(FindEocd(file.data).error) && eocd == EmptyEocd && eocd64Locator == EmptyEocd64Locator && eocd64 == EmptyEocd64
      ensures r.Ok? ==> eocd == FindEocd(file.data).value
      ensures r.Ok? && !eocd.IsZip64() ==>
        && eocd64Locator == EmptyEocd64Locator && eocd64 == EmptyEocd64
        && eocd64LocatorOffset == old(eocd64LocatorOffset)
      ensures FindEocd(file.data).Ok? && FindEocd(file.data).value.IsZip64() ==>
        (r.Ok? <==> Zip64TrailerReadable(file.data, |file.data| - FindEocd(file.data).value.Size - Eocd64LocatorSize))
      ensures r.Ok? && eocd.IsZip64() ==> Zip64RecordsRead(file.data)
      ensures r.Ok? <==> Directory(file.data).Some?
      ensures r.Ok? ==> Directory(file.data) == Some((DirectoryOffset(), DirectoryEntries()))
    {
      Clear();
      r := ReadEocd(file);
      if r.Err? {
        return;
      }
      ghost var offset := |file.data| - eocd.Size - Eocd64LocatorSize;
      assert offset == |file.data| - FindEocd(file.data).value.Size - Eocd64LocatorSize;
      if eocd.IsZip64() {
        r := ReadZip64Records(file);
        assert r.Ok? <==> Zip64TrailerReadable(file.data, offset);
        if r.Ok? {
          DirectoryOfHeaders(file.data, eocd, offset, eocd64Locator, eocd64);
        }
      } else {
        DirectoryOfHeaders(file.data, eocd, offset, eocd64Locator, eocd64);
      }
    }

    /** The records `ReadHeaders` reads locate the directory where `Directory` does. */
    static lemma DirectoryOfHeaders(data: Bytes, e: Eocd, at: int, l: Eocd64Locator, z: Eocd64)
      requires FindEocd(data) == Ok(e)
      requires e.IsZip64() ==>
        && at == |data| - e.Size - Eocd64LocatorSize && Zip64TrailerReadable(data, at)
        && l.EocdOffset == U64(data, at + 8) && z == Eocd64At(data, l.EocdOffset)
      ensures Directory(data) == Some(
        if e.IsZip64() then (ToInt64(z.CentralDirectoryOffset), z.CentralDirectoryThisDiskRecords)
        else (ToInt64(e.CentralDirectoryOffset), e.CentralDirectoryThisDiskRecords))
    {
    }

    /**
     * Where the central directory of `data` starts, as a signed 64-bit offset,
     * and how many records it holds: from the Zip64 record when the end of
     * central directory record says so, otherwise from that record itself.
     * `None` when `ReadHeaders` fails.
     */
    static function Directory(data: Bytes): Option<(int64, nat)>
    {
      match FindEocd(data)
      case Err(_) => None
      case Ok(e) =>
        if !e.IsZip64() then Some((ToInt64(e.CentralDirectoryOffset), e.CentralDirectoryThisDiskRecords))
        else
          var at := |data| - e.Size - Eocd64LocatorSize;
          if !Zip64TrailerReadable(data, at) then None
          else
            var z := Eocd64At(data, U64(data, at + 8));
            Some((ToInt64(z.CentralDirectoryOffset), z.CentralDirectoryThisDiskRecords))
    }

    /**
     * `headers` and `r` are what `ReadFileHeaders` with the default buffer gives
     * for the central directory of `data`: none when the directory is empty, a
     * failed seek for a negative offset, and otherwise (for the first window)
     * the walk over the directory's bytes, at most as many records as it holds.
     */
    static ghost predicate DirectoryRead(data: Bytes, headers: seq<CentralDirectoryFileHeader>, r: Result<()>)
    {
      match Directory(data)
      case None => r.Err?
      case Some((offset, n)) =>
        && |headers| <= n
        && (n == 0 ==> headers == [] && r == Ok(()))
        && (n > 0 && offset < 0 ==> headers == [] && r == Err(SeekBeforeBegin))
        && (n > 0 && offset >= 0 ==>
              YieldsFirstWindow(Walk(Available(data, offset, DefaultHeaderBufferSize), 0, n, []), n, headers, r))
    }

    /** The locator and the Zip64 record hold what the file has just before the end of central directory record. */
    ghost predicate Zip64RecordsRead(data: Bytes)
      reads this
    {
      && eocd64LocatorOffset == |data| - eocd.Size - Eocd64LocatorSize
      && Zip64TrailerReadable(data, eocd64LocatorOffset)
      && eocd64Locator == ParseEocd64Locator(data[eocd64LocatorOffset..eocd64LocatorOffset + Eocd64LocatorSize]).value
      && eocd64Locator.EocdOffset == U64(data, eocd64LocatorOffset + 8)
      && eocd64 == Eocd64At(data, eocd64Locator.EocdOffset)
    }

    /** The Zip64 half of `ReadHeaders`: the locator, then the record. */
    method ReadZip64Records(file: InputStream) returns (r: Result<()>)
      modifies this, file
      ensures eocd == old(eocd)
      ensures r.Ok? <==> Zip64TrailerReadable(file.data, |file.data| - eocd.Size - Eocd64LocatorSize)
      ensures r.Ok? ==> Zip64RecordsRead(file.data)
    {
      r := ReadEocd64Locator(file);
      if r.Err? {
        return;
      }
      r := ReadEocd64(file);
    }

    /** Looks for the last end of central directory signature in the final 512 bytes. */
    method ReadEocd(file: InputStream) returns (r: Result<()>)
      modifies this, file
      ensures r.Ok? <==> FindEocd(file.data).Ok?
      ensures r.Ok? ==> eocd == FindEocd(file.data).value
      ensures r.Err? ==> r.error == FindEocd(file.data).error && eocd == old(eocd)
      ensures eocd64LocatorOffset == old(eocd64LocatorOffset)
      ensures eocd64Locator == old(eocd64Locator) && eocd64 == old(eocd64)
    {
      var length := |file.data|;
      var tryLen := Min(EocdSearchSize, length);
      var _ := file.Seek(length - tryLen);
      var buf := file.Read(tryLen);
      assert buf == EocdSearchWindow(file.data);  // a read inside the file is never short

      var i := |buf| - 4;
      while i >= 0 && !(buf[i] == 0x50 && buf[i + 1] == 0x4b && buf[i + 2] == 0x05 && buf[i + 3] == 0x06)
        invariant -4 <= i <= |buf| - 4
        invariant LastEocdSignature(buf, i) == LastEocdSignature(buf, |buf| - 4)
        decreases i + 4
      {
        i := i - 1;
      }
      if i < 0 {
        return Err(FormatError("failed to find EOCD"));
      }
      assert EocdSignatureAt(buf, i);
      var parsed := ParseEocd(buf[i..], false);
      if parsed.Err? {
        return Err(parsed.error);
      }
      eocd := parsed.value;
      return Ok(());
    }

    /** Reads the 20-byte Zip64 locator that sits just before the end of central directory record. */
    method ReadEocd64Locator(file: InputStream) returns (r: Result<()>)
      modifies this, file
      ensures eocd64LocatorOffset == |file.data| - eocd.Size - Eocd64LocatorSize
      ensures eocd64LocatorOffset < 0 ==> r == Err(SeekBeforeBegin)
      ensures r.Ok? <==> && 0 <= eocd64LocatorOffset
                         && eocd64LocatorOffset + Eocd64LocatorSize <= |file.data|
                         && StartsWith(file.data[eocd64LocatorOffset..], SigEocd64Locator)
      ensures r.Ok? ==> eocd64Locator == ParseEocd64Locator(
                          file.data[eocd64LocatorOffset..eocd64LocatorOffset + Eocd64LocatorSize]).value
      ensures r.Ok? ==> eocd64Locator.EocdOffset == U64(file.data, eocd64LocatorOffset + 8)
      ensures r.Err? ==> eocd64Locator == old(eocd64Locator)
      ensures eocd == old(eocd) && eocd64 == old(eocd64)
    {
      eocd64LocatorOffset := |file.data| - eocd.Size - Eocd64LocatorSize;
      var s := file.Seek(eocd64LocatorOffset);
      if s.Err? {
        return s;
      }
      var buf := file.Read(Eocd64LocatorSize);
      if |buf| != Eocd64LocatorSize {
        return Err(FormatError("failed to read bytes for EOCD64 locator"));
      }
      assert buf == file.data[eocd64LocatorOffset..eocd64LocatorOffset + Eocd64LocatorSize];
      assert StartsWith(buf, SigEocd64Locator) <==> StartsWith(file.data[eocd64LocatorOffset..], SigEocd64Locator);
      var parsed := ParseEocd64Locator(buf);
      if parsed.Err? {
        return Err(parsed.error);
      }
      DecodeInside(file.data, eocd64LocatorOffset + 8, buf[8..16]);
      DecodeInside(buf, 8, buf[8..16]);
      eocd64Locator := parsed.value;
      return Ok(());
    }

    /**
     * Reads the Zip64 record at the locator's offset: first its 12-byte prefix,
     * which gives the record size, then the rest of the record.
     */
    method ReadEocd64(file: InputStream) returns (r: Result<()>)
      modifies this, file
      ensures eocd64Locator.EocdOffset >= TWO_63 ==> r == Err(SeekBeforeBegin)
      ensures r.Ok? <==> Eocd64Readable(file.data, eocd64Locator.EocdOffset)
      ensures r.Ok? ==> eocd64 == Eocd64At(file.data, eocd64Locator.EocdOffset)
      ensures r.Err? ==> eocd64 == old(eocd64)
      ensures eocd == old(eocd) && eocd64Locator == old(eocd64Locator)
      ensures eocd64LocatorOffset == old(eocd64LocatorOffset)
    {
      var record := ReadEocd64At(file, eocd64Locator.EocdOffset);
      if record.Err? {
        return Err(record.error);
      }
      eocd64 := record.value;
      return Ok(());
    }

    /** `ReadEocd64` for a given offset. */
    static method ReadEocd64At(file: InputStream, offset: u64) returns (r: Result<Eocd64>)
      modifies file
      ensures offset >= TWO_63 ==> r == Err(SeekBeforeBegin)
      ensures r.Ok? <==> Eocd64Readable(file.data, offset)
      ensures r.Ok? ==> r.value == Eocd64At(file.data, offset)
    {
      var s := file.Seek(ToInt64(offset));
      if s.Err? {
        return Err(s.error);
      }
      var head := file.Read(Eocd64MinSizeForSizeRead);
      if |head| != Eocd64MinSizeForSizeRead {
        return Err(FormatError("failed to read bytes for EOCD64 header size"));
      }
      Eocd64HeadInFile(file.data, offset, head);
      var sized := GetEocd64Size(head);
      if sized.Err? {
        return Err(sized.error);
      }
      r := ReadEocd64Rest(file, offset, head, sized.value);
    }

    /** The part of `ReadEocd64` after the size is known: the rest of the record. */
    static method ReadEocd64Rest(file: InputStream, offset: u64, head: Bytes, size: int64) returns (r: Result<Eocd64>)
      requires offset < TWO_63 && offset + Eocd64MinSizeForSizeRead <= |file.data|
      requires head == file.data[offset..offset + Eocd64MinSizeForSizeRead]
      requires StartsWith(file.data[offset..], SigEocd64)
      requires size == ToInt64(Eocd64TotalSize(U64(file.data, offset + 4)))
      requires file.position == offset + Eocd64MinSizeForSizeRead
      modifies file
      ensures r.Ok? <==> Eocd64Readable(file.data, offset)
      ensures r.Ok? ==> r.value == Eocd64At(file.data, offset)
    {
      ghost var total := Eocd64TotalSize(U64(file.data, offset + 4));
      var bufLength := ToInt32(size);                         // (int)size
      var count := ToInt32(size - Eocd64MinSizeForSizeRead);  // (int)(size - 12)
      Eocd64Casts(total, size, bufLength, count);
      if bufLength < 0 || count < 0 {
        return Err(ArgumentOutOfRange);
      }
      var rest := file.Read(count);
      if |rest| != size - Eocd64MinSizeForSizeRead {
        return Err(FormatError("failed to read bytes for EOCD64 header"));
      }
      var buf := head + rest;
      assert buf == file.data[offset..offset + total];
      r := ParseEocd64(buf);
    }

    /** The directory offset the walk starts at, as the signed 64-bit value it is seeked to. */
    function DirectoryOffset(): int64
      reads this
    {
      ToInt64(if eocd.IsZip64() then eocd64.CentralDirectoryOffset else eocd.CentralDirectoryOffset)
    }

    /** How many records the walk yields at most. */
    function DirectoryEntries(): nat
      reads this
    {
      if eocd.IsZip64() then eocd64.CentralDirectoryThisDiskRecords else eocd.CentralDirectoryThisDiskRecords
    }

    /**
     * What the enumeration yields, `headers` and its outcome `r`, agrees with the
     * walk over its first window: it starts with the records of that walk, and it
     * is exactly them when the walk failed, took all `k` records, or took none.
     */
    static ghost predicate YieldsFirstWindow(walk: (seq<CentralDirectoryFileHeader>, nat, Result<()>), k: nat,
                                             headers: seq<CentralDirectoryFileHeader>, r: Result<()>)
    {
      && |walk.0| <= |headers| && headers[..|walk.0|] == walk.0
      && (walk.2.Err? ==> headers == walk.0 && r == walk.2)
      && (|walk.0| == k ==> headers == walk.0 && r == Ok(()))
      && (walk.2.Ok? && walk.1 == 0 ==> headers == [] && r == Ok(()))
    }

    /**
     * Yields the central directory records. The contract covers the first window
     * of `bufSize` bytes: what it yields from that window is the `Walk` of it.
     */
    method ReadFileHeaders(file: InputStream, bufSize: nat)
      returns (headers: seq<CentralDirectoryFileHeader>, r: Result<()>)
      modifies file
      ensures |headers| <= DirectoryEntries()
      ensures DirectoryEntries() == 0 ==> headers == [] && r == Ok(())
      ensures DirectoryEntries() > 0 && DirectoryOffset() < 0 ==> headers == [] && r == Err(SeekBeforeBegin)
      ensures DirectoryEntries() > 0 && DirectoryOffset() >= 0 ==>
        YieldsFirstWindow(Walk(Available(file.data, DirectoryOffset(), bufSize), 0, DirectoryEntries(), []),
                          DirectoryEntries(), headers, r)
    {
      var buf := new uint8[bufSize];
      var off: nat := 0;
      var fileTotalOff: int := DirectoryOffset();
      var remainingEntries: nat := DirectoryEntries();
      headers := [];
      ghost var first := true;
      ghost var k0 := remainingEntries;
      ghost var start := fileTotalOff;
      ghost var walk := if start >= 0 then Walk(Available(file.data, start, bufSize), 0, k0, []) else ([], 0, Ok(()));
      while remainingEntries > 0
        invariant buf.Length == bufSize && off <= bufSize
        invariant |headers| + remainingEntries == k0
        invariant first ==> headers == [] && off == 0 && fileTotalOff == start
        invariant !first ==> start >= 0 && walk.2.Ok? && 0 < walk.1 && |walk.0| < k0
        invariant !first ==> walk.0 <= headers
        decreases remainingEntries
      {
        var parsed, i, read, status := ReadWindow(file, buf, off, fileTotalOff, remainingEntries);
        if first && start >= 0 {
          assert parsed == walk.0 && i == walk.1 && status == walk.2;
          assert headers + parsed == parsed;
        }
        headers := headers + parsed;
        remainingEntries := remainingEntries - |parsed|;
        if status.Err? {
          assert first && start >= 0 ==> YieldsFirstWindow(walk, k0, headers, status);
          return headers, status;
        }
        fileTotalOff := fileTotalOff + read;
        first := false;
        if i == 0 || remainingEntries == 0 {
          break;
        }
        if i > read {
          PrefixSlice(walk.0, headers);
          return headers, Err(ArgumentOutOfRange);
        }
        CopyToFront(buf, i, read - i);
        off := read;
      }
      if k0 > 0 && start >= 0 {
        PrefixSlice(walk.0, headers);
      }
      return headers, Ok(());
    }

    /**
     * One pass of the outer loop of `ReadFileHeaders`: seeks to `fileTotalOff`,
     * fills the window after the `off` bytes carried over, and decodes at most
     * `k` records from the first `read` bytes of the window.
     */
    static method ReadWindow(file: InputStream, buf: array<uint8>, off: nat, fileTotalOff: int, k: nat)
      returns (parsed: seq<CentralDirectoryFileHeader>, i: nat, read: nat, r: Result<()>)
      requires off <= buf.Length && k > 0
      modifies file, buf
      ensures |parsed| <= k && (i == 0 <==> parsed == []) && (r.Err? ==> |parsed| < k)
      ensures fileTotalOff < 0 ==> parsed == [] && r == Err(SeekBeforeBegin)
      ensures fileTotalOff >= 0 ==> off <= read <= buf.Length
      ensures fileTotalOff >= 0 && off == 0 ==> (parsed, i, r) == Walk(Available(file.data, fileTotalOff, buf.Length), 0, k, [])
    {
      var s := file.Seek(fileTotalOff);
      if s.Err? {
        return [], 0, 0, s;
      }
      var n := ReadInto(file, buf, off, buf.Length - off);
      read := n + off;
      assert off == 0 ==> buf[..read] == Available(file.data, fileTotalOff, buf.Length);
      parsed, i, r := WalkWindow(buf[..read], k);
    }

    /**
     * The inner loop of `ReadFileHeaders`: decodes records one after the other
     * from a window, at most `k` of them, stopping at a record that runs past the
     * window.
     */
    static method WalkWindow(w: Bytes, k: nat) returns (parsed: seq<CentralDirectoryFileHeader>, i: nat, r: Result<()>)
      ensures (parsed, i, r) == Walk(w, 0, k, [])
    {
      parsed := [];
      i := 0;
      var remaining := k;
      var done := false;
      r := Ok(());
      while !done
        invariant done ==> Walk(w, 0, k, []) == (parsed, i, r)
        invariant !done ==> Walk(w, i, remaining, parsed) == Walk(w, 0, k, [])
        decreases if done then 0 else remaining + 1
      {
        ghost var i0, remaining0, parsed0 := i, remaining, parsed;
        parsed, i, remaining, r, done := WalkWindowStep(w, i, remaining, parsed);
        WalkStepIsWalk(DecodeCentralDirectoryFileHeader, w, i0, remaining0, parsed0);
      }
    }

    /** One pass of the loop in `WalkWindow`. */
    static method WalkWindowStep(w: Bytes, i: nat, remaining: nat, parsed: seq<CentralDirectoryFileHeader>)
      returns (parsed': seq<CentralDirectoryFileHeader>, i': nat, remaining': nat, r: Result<()>, done: bool)
      ensures Advances(DecodeCentralDirectoryFileHeader)
        && (parsed', i', remaining', r, done) == WalkStep(DecodeCentralDirectoryFileHeader, w, i, remaining, parsed)
    {
      DecodeAdvances();
      parsed', i', remaining', r, done := parsed, i, remaining, Ok(()), true;
      if i >= |w| || remaining == 0 {
        return;
      }
      var header := ParseCentralDirectoryFileHeader(w[i..]);
      if header.Err? {
        if header.error != EndOfStream {
          r := Err(header.error);
        }
        return;
      }
      parsed', i', remaining', done := parsed + [header.value], i + header.value.Size, remaining - 1, false;
    }

    /** Reads the 30 fixed bytes of a local file header at the stream's position. */
    static method ReadLocalFileHeader(file: InputStream) returns (r: Result<LocalFileHeader>)
      modifies file
      ensures var p := old(file.position);
        r.Ok? <==> p + LocalFileHeaderMinSize <= |file.data| && StartsWith(file.data[p..], SigLocalFileHeader)
      ensures var p := old(file.position);
        r.Ok? ==> r.value == ParseLocalFileHeader(file.data[p..p + LocalFileHeaderMinSize]).value
      ensures var p := old(file.position);
        p + LocalFileHeaderMinSize > |file.data| ==> r == Err(FormatError("failed to read bytes for local header"))
      ensures file.position == old(file.position) + |Available(file.data, old(file.position), LocalFileHeaderMinSize)|
    {
      var data := file.Read(LocalFileHeaderMinSize);
      if |data| != LocalFileHeaderMinSize {
        return Err(FormatError("failed to read bytes for local header"));
      }
      ghost var p := file.position - LocalFileHeaderMinSize;
      assert data == file.data[p..p + LocalFileHeaderMinSize];
      assert data[..4] == file.data[p..][..4];
      r := ParseLocalFileHeader(data);
    }
  }

  /** A prefix of `b` is the slice of `b` of its own length. */
  lemma PrefixSlice<T>(a: seq<T>, b: seq<T>)
    requires a <= b
    ensures |a| <= |b| && b[..|a|] == a
  {
  }

  /** The C# cast `(int)` of a `long`: keeps the low 32 bits, read as signed. */
  function ToInt32(x: int): (n: int)
    ensures -0x8000_0000 <= n < 0x8000_0000 && (x - n) % TWO_32 == 0
    ensures 0 <= x < 0x8000_0000 ==> n == x
  {
    var m := x % TWO_32;
    if m < 0x8000_0000 then m else m - TWO_32
  }

  /** The record's 12-byte prefix read from the file carries the file's signature and size field. */
  lemma Eocd64HeadInFile(data: Bytes, offset: nat, head: Bytes)
    requires offset + Eocd64MinSizeForSizeRead <= |data| && head == data[offset..offset + Eocd64MinSizeForSizeRead]
    ensures StartsWith(head, SigEocd64) <==> StartsWith(data[offset..], SigEocd64)
    ensures U64(head, 4) == U64(data, offset + 4)
  {
    assert data[offset..][..4] == head[..4];
    DecodeInside(data, offset + 4, head[4..12]);
    DecodeInside(head, 4, head[4..12]);
  }

  /**
   * The two `(int)` casts of the record size both succeed, and the second is 12
   * less than the first, exactly when the size is in [12, 2^31).
   */
  lemma Eocd64Casts(total: u64, size: int64, bufLength: int, count: int)
    requires size == ToInt64(total) && bufLength == ToInt32(size) && count == ToInt32(size - 12)
    ensures (bufLength >= 0 && count >= 0 && count == size - 12) <==> 12 <= total < 0x8000_0000
    ensures 12 <= total < 0x8000_0000 ==> size == total
  {
  }
}
