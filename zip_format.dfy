/**
 * The ZIP records the tool reads (PKWARE APPNOTE.TXT sections 4.3.7, 4.3.12,
 * 4.3.14, 4.3.15, 4.3.16 and the Zip64 extended information extra field of
 * section 4.5.3), decoded from a window `w` of bytes the way a `BinaryReader`
 * over that window reads them: a signature read that comes back short simply
 * does not match, a fixed-width field read past the end fails with
 * `EndOfStream`, and a variable-length `ReadBytes` returns what is there.
 */
module ZipFormat {
  import opened Wrappers
  import opened Bytes
  import opened Streams

  const SigEocd: Bytes := [0x50, 0x4b, 0x05, 0x06]
  const SigEocd64: Bytes := [0x50, 0x4b, 0x06, 0x06]
  const SigEocd64Locator: Bytes := [0x50, 0x4b, 0x06, 0x07]
  const SigCentralDirectoryFileHeader: Bytes := [0x50, 0x4b, 0x01, 0x02]
  const SigLocalFileHeader: Bytes := [0x50, 0x4b, 0x03, 0x04]

  /** The values a 32-bit (16-bit) field holds when its real value lives in the Zip64 extra field. */
  const Sentinel32: nat := 0xFFFF_FFFF
  const Sentinel16: nat := 0xFFFF

  /** Fixed record sizes. */
  const EocdMinSize: nat := 22
  const Eocd64MinSizeForSizeRead: nat := 12
  const Eocd64FixedSize: nat := 56
  const Eocd64LocatorSize: nat := 20
  const CentralDirectoryFileHeaderMinSize: nat := 46
  const LocalFileHeaderMinSize: nat := 30

  /** Whether `ReadBytes(|sig|)` at the start of `w` returns `sig`; a short read never does. */
  predicate StartsWith(w: Bytes, sig: Bytes)
  {
    |sig| <= |w| && w[..|sig|] == sig
  }

  datatype Eocd = Eocd(
    Size: int,
    NumberOfThisDisk: u16,
    CentralDirectoryStartDisk: u16,
    CentralDirectoryThisDiskRecords: u16,
    CentralDirectoryTotalRecords: u16,
    CentralDirectorySize: u32,
    CentralDirectoryOffset: u32,
    CommentLength: u16,
    Comment: Option<Bytes>)
  {
    /** The archive keeps its real directory figures in a Zip64 record. */
    predicate IsZip64()
    {
      CentralDirectoryOffset == Sentinel32
    }
  }

  datatype Eocd64 = Eocd64(
    Size: u64,
    VersionMadeBy: u16,
    VersionNeededToExtract: u16,
    NumberOfThisDisk: u32,
    CentralDirectoryStartDisk: u32,
    CentralDirectoryThisDiskRecords: u64,
    CentralDirectoryTotalRecords: u64,
    CentralDirectorySize: u64,
    CentralDirectoryOffset: u64)

  datatype Eocd64Locator = Eocd64Locator(
    EocdStartDisk: u32,
    EocdOffset: u64,
    NumberOfDisks: u32)

  datatype CentralDirectoryFileHeader = CentralDirectoryFileHeader(
    Size: int,
    VersionMadeBy: u16,
    VersionNeededToExtract: u16,
    Flags: u16,
    CompressionMethod: u16,
    LastModificationTime: u16,
    LastModificationDate: u16,
    DataCrc32: u32,
    CompressedSize: u64,
    UncompressedSize: u64,
    FileNameLength: u16,
    ExtraFieldLength: u16,
    CommentFieldLength: u16,
    FileStartDisk: u32,
    InternalFileAttributes: u16,
    ExternalFileAttributes: u32,
    LocalFileHeaderOffset: u64,
    FileName: Bytes)

  datatype LocalFileHeader = LocalFileHeader(
    Size: int,
    VersionNeededToExtract: u16,
    Flags: u16,
    CompressionMethod: u16,
    LastModificationTime: u16,
    LastModificationDate: u16,
    DataCrc32: u32,
    CompressedSize: u64,
    UncompressedSize: u64,
    FileNameLength: u16,
    ExtraFieldLength: u16)

  /** The zero-initialised records `Clear` installs. */
  const EmptyEocd := Eocd(0, 0, 0, 0, 0, 0, 0, 0, None)
  const EmptyEocd64 := Eocd64(0, 0, 0, 0, 0, 0, 0, 0, 0)
  const EmptyEocd64Locator := Eocd64Locator(0, 0, 0)

  // ---------------------------------------------------------------------------
  // Decoders

  /** End of central directory record; `Size` is the length of the window handed in. */
  function ParseEocd(w: Bytes, readComment: bool): (r: Result<Eocd>)
    ensures r.Ok? <==> StartsWith(w, SigEocd) && |w| >= EocdMinSize
    ensures !StartsWith(w, SigEocd) ==> r == Err(FormatError("bad eocd64 locator signature"))
    ensures r.Err? && StartsWith(w, SigEocd) ==> r == Err(EndOfStream)
    ensures r.Ok? ==> r.value.Size == |w|
    ensures r.Ok? ==> (r.value.IsZip64() <==> w[16..20] == [0xFF, 0xFF, 0xFF, 0xFF])
    ensures r.Ok? && readComment ==> r.value.Comment == Some(w[22..][..Min(|w| - 22, r.value.CommentLength)])
  {
    if !StartsWith(w, SigEocd) then Err(FormatError("bad eocd64 locator signature"))
    else if |w| < EocdMinSize then Err(EndOfStream)
    else
      AllOnes32(w, 16);
      var commentLength := U16(w, 20);
      var comment := Available(w, 22, commentLength);
      assert comment == w[22..][..Min(|w| - 22, commentLength)];
      Ok(Eocd(
        Size := |w|,
        NumberOfThisDisk := U16(w, 4),
        CentralDirectoryStartDisk := U16(w, 6),
        CentralDirectoryThisDiskRecords := U16(w, 8),
        CentralDirectoryTotalRecords := U16(w, 10),
        CentralDirectorySize := U32(w, 12),
        CentralDirectoryOffset := U32(w, 16),
        CommentLength := commentLength,
        Comment := if readComment then Some(comment) else None))
  }

  /** Zip64 end of central directory locator: fixed 20 bytes. */
  function ParseEocd64Locator(w: Bytes): (r: Result<Eocd64Locator>)
    ensures r.Ok? <==> StartsWith(w, SigEocd64Locator) && |w| >= Eocd64LocatorSize
    ensures !StartsWith(w, SigEocd64Locator) ==> r == Err(FormatError("bad eocd64 locator signature"))
    ensures r.Err? && StartsWith(w, SigEocd64Locator) ==> r == Err(EndOfStream)
  {
    if !StartsWith(w, SigEocd64Locator) then Err(FormatError("bad eocd64 locator signature"))
    else if |w| < Eocd64LocatorSize then Err(EndOfStream)
    else Ok(Eocd64Locator(U32(w, 4), U64(w, 8), U32(w, 16)))
  }

  /**
   * The size-of-record field of a Zip64 end of central directory record plus the
   * 12 bytes that precede it, computed in 64-bit unsigned arithmetic (so it wraps).
   */
  function Eocd64TotalSize(declared: u64): (size: u64)
    ensures declared < TWO_64 - 12 ==> size == declared + 12
    ensures declared >= TWO_64 - 12 ==> size == declared + 12 - TWO_64
  {
    (declared + 12) % TWO_64
  }

  /** The whole record size read from the first 12 bytes, cast to a signed 64-bit value. */
  function GetEocd64Size(w: Bytes): (r: Result<int64>)
    ensures r.Ok? <==> StartsWith(w, SigEocd64) && |w| >= Eocd64MinSizeForSizeRead
    ensures !StartsWith(w, SigEocd64) ==> r == Err(FormatError("bad eocd64 locator signature"))
    ensures r.Err? && StartsWith(w, SigEocd64) ==> r == Err(EndOfStream)
    ensures r.Ok? && ParseEocd64(w).Ok? ==> r.value == ToInt64(ParseEocd64(w).value.Size)
    ensures r.Ok? && U64(w, 4) < TWO_63 - 12 ==> r.value == U64(w, 4) + 12
  {
    if !StartsWith(w, SigEocd64) then Err(FormatError("bad eocd64 locator signature"))
    else if |w| < Eocd64MinSizeForSizeRead then Err(EndOfStream)
    else Ok(ToInt64(Eocd64TotalSize(U64(w, 4))))
  }

  /** Zip64 end of central directory record (its extensible data sector is not read). */
  function ParseEocd64(w: Bytes): (r: Result<Eocd64>)
    ensures r.Ok? <==> StartsWith(w, SigEocd64) && |w| >= Eocd64FixedSize
    ensures !StartsWith(w, SigEocd64) ==> r == Err(FormatError("bad eocd64 signature"))
    ensures r.Err? && StartsWith(w, SigEocd64) ==> r == Err(EndOfStream)
    ensures r.Ok? ==> r.value.Size == Eocd64TotalSize(U64(w, 4))
  {
    if !StartsWith(w, SigEocd64) then Err(FormatError("bad eocd64 signature"))
    else if |w| < Eocd64FixedSize then Err(EndOfStream)
    else Ok(Eocd64(
      Size := Eocd64TotalSize(U64(w, 4)),
      VersionMadeBy := U16(w, 12),
      VersionNeededToExtract := U16(w, 14),
      NumberOfThisDisk := U32(w, 16),
      CentralDirectoryStartDisk := U32(w, 20),
      CentralDirectoryThisDiskRecords := U64(w, 24),
      CentralDirectoryTotalRecords := U64(w, 32),
      CentralDirectorySize := U64(w, 40),
      CentralDirectoryOffset := U64(w, 48)))
  }

  /**
   * Local file header. The sizes are the raw 32-bit fields: the Zip64 extra
   * field of a local header is never consulted.
   */
  function ParseLocalFileHeader(w: Bytes): (r: Result<LocalFileHeader>)
    ensures r.Ok? <==> StartsWith(w, SigLocalFileHeader) && |w| >= LocalFileHeaderMinSize
    ensures !StartsWith(w, SigLocalFileHeader) ==> r == Err(FormatError("bad local file header signature"))
    ensures r.Err? && StartsWith(w, SigLocalFileHeader) ==> r == Err(EndOfStream)
    ensures r.Ok? ==> r.value.Size == LocalFileHeaderMinSize + U16(w, 26) + U16(w, 28)
    ensures r.Ok? ==> r.value.CompressedSize == U32(w, 18) < TWO_32
  {
    if !StartsWith(w, SigLocalFileHeader) then Err(FormatError("bad local file header signature"))
    else if |w| < LocalFileHeaderMinSize then Err(EndOfStream)
    else
      var nameLength, extraLength := U16(w, 26), U16(w, 28);
      Ok(LocalFileHeader(
        Size := LocalFileHeaderMinSize + nameLength + extraLength,
        VersionNeededToExtract := U16(w, 4),
        Flags := U16(w, 6),
        CompressionMethod := U16(w, 8),
        LastModificationTime := U16(w, 10),
        LastModificationDate := U16(w, 12),
        DataCrc32 := U32(w, 14),
        CompressedSize := U32(w, 18),
        UncompressedSize := U32(w, 22),
        FileNameLength := nameLength,
        ExtraFieldLength := extraLength))
  }

  // ---------------------------------------------------------------------------
  // Central directory file header and the Zip64 extended information override

  /** The 46 fixed bytes and the file name of a central directory record, before any override. */
  function CentralDirectoryFixedFields(w: Bytes): (h: CentralDirectoryFileHeader)
    requires |w| >= CentralDirectoryFileHeaderMinSize
  {
    var nameLength := U16(w, 28);
    CentralDirectoryFileHeader(
      Size := 0,
      VersionMadeBy := U16(w, 4),
      VersionNeededToExtract := U16(w, 6),
      Flags := U16(w, 8),
      CompressionMethod := U16(w, 10),
      LastModificationTime := U16(w, 12),
      LastModificationDate := U16(w, 14),
      DataCrc32 := U32(w, 16),
      CompressedSize := U32(w, 20),
      UncompressedSize := U32(w, 24),
      FileNameLength := nameLength,
      ExtraFieldLength := U16(w, 30),
      CommentFieldLength := U16(w, 32),
      FileStartDisk := U16(w, 34),
      InternalFileAttributes := U16(w, 36),
      ExternalFileAttributes := U32(w, 38),
      LocalFileHeaderOffset := U32(w, 42),
      FileName := Available(w, CentralDirectoryFileHeaderMinSize, nameLength))
  }

  /** Every field but `Size` that the Zip64 extra field cannot touch is the same in `a` and `b`. */
  predicate SameUnextendedFields(a: CentralDirectoryFileHeader, b: CentralDirectoryFileHeader)
  {
    a.(Size := 0, CompressedSize := 0, UncompressedSize := 0, LocalFileHeaderOffset := 0, FileStartDisk := 0)
    == b.(Size := 0, CompressedSize := 0, UncompressedSize := 0, LocalFileHeaderOffset := 0, FileStartDisk := 0)
  }

  /** A field of `b` differs from the one in `a` only where `a` holds the sentinel. */
  predicate OnlySentinelsReplaced(a: CentralDirectoryFileHeader, b: CentralDirectoryFileHeader)
  {
    && (a.UncompressedSize != Sentinel32 ==> b.UncompressedSize == a.UncompressedSize)
    && (a.CompressedSize != Sentinel32 ==> b.CompressedSize == a.CompressedSize)
    && (a.LocalFileHeaderOffset != Sentinel32 ==> b.LocalFileHeaderOffset == a.LocalFileHeaderOffset)
    && (a.FileStartDisk != Sentinel16 ==> b.FileStartDisk == a.FileStartDisk)
  }

  /** One 8-byte replacement of a sentinel field from `data` at `p`: the value and the cursor after it. */
  function Replace64(field: u64, data: Bytes, p: nat): (u64, nat)
  {
    if |data| - p >= 8 && field == Sentinel32 then (U64(data, p), p + 8) else (field, p)
  }

  /**
   * The data of one 0x0001 sub-record: uncompressed size, compressed size and
   * local header offset (8 bytes each) and then the start disk (4 bytes), each
   * read only when its 32-bit field holds the sentinel and enough bytes remain.
   */
  function Zip64Override(h: CentralDirectoryFileHeader, data: Bytes): (r: CentralDirectoryFileHeader)
    ensures r.Size == h.Size && r.FileName == h.FileName
  {
    var (uncompressed, p1) := Replace64(h.UncompressedSize, data, 0);
    var (compressed, p2) := Replace64(h.CompressedSize, data, p1);
    var (offset, p3) := Replace64(h.LocalFileHeaderOffset, data, p2);
    var disk := if |data| - p3 >= 4 && h.FileStartDisk == Sentinel16 then U32(data, p3) else h.FileStartDisk;
    h.(UncompressedSize := uncompressed, CompressedSize := compressed,
       LocalFileHeaderOffset := offset, FileStartDisk := disk)
  }

  /** One sub-record of the extra field: only header id 0x0001 changes the record. */
  function ApplyExtraRecord(h: CentralDirectoryFileHeader, headerId: nat, data: Bytes): (r: CentralDirectoryFileHeader)
  {
    if headerId == 1 then Zip64Override(h, data) else h
  }

  /** The override touches the four overridable fields only, and each only where it holds its sentinel. */
  lemma Zip64OverrideKeepsFields(h: CentralDirectoryFileHeader, data: Bytes)
    ensures var r := Zip64Override(h, data);
      SameUnextendedFields(h, r) && OnlySentinelsReplaced(h, r)
  {
  }

  /** A measure for the extra-field loop: how far the counter `i` is below `extraLength`. */
  function ExtraRemaining(i: nat, extraLength: nat): nat
  {
    if i <= extraLength then extraLength - i else 0
  }

  /** How one sub-record, given its header id and data, changes the record. */
  type ExtraRecordEffect = (CentralDirectoryFileHeader, nat, Bytes) -> CentralDirectoryFileHeader

  /**
   * The extra-field loop: `i` adds up the declared sizes `4 + chunkSize` of the
   * sub-records, `q` is where the reader stands in `w`. Each sub-record is
   * (header id, data size, data) and changes the record as `apply` says.
   */
  function ExtraFieldWalkWith(apply: ExtraRecordEffect, w: Bytes, q: nat, i: nat, extraLength: nat,
                              h: CentralDirectoryFileHeader)
    : (r: Result<CentralDirectoryFileHeader>)
    ensures r.Err? ==> r.error == EndOfStream
    decreases ExtraRemaining(i, extraLength)
  {
    if i >= extraLength - 3 then Ok(h)
    else if q + 4 > |w| then Err(EndOfStream)
    else
      var headerId, chunkSize := U16(w, q), U16(w, q + 2);
      var chunkData := Available(w, q + 4, chunkSize);
      var h' := apply(h, headerId, chunkData);
      ExtraFieldWalkWith(apply, w, q + 4 + |chunkData|, i + 4 + chunkSize, extraLength, h')
  }

  /** The extra-field loop of `ParseCentralDirectoryFileHeader`: only id 0x0001 changes the record. */
  function ExtraFieldWalk(w: Bytes, q: nat, i: nat, extraLength: nat, h: CentralDirectoryFileHeader)
    : (r: Result<CentralDirectoryFileHeader>)
    ensures r.Err? ==> r.error == EndOfStream
  {
    ExtraFieldWalkWith(ApplyExtraRecord, w, q, i, extraLength, h)
  }

  /** One pass of the loop, whatever the sub-records do. */
  lemma ExtraFieldWalkWithStep(apply: ExtraRecordEffect, w: Bytes, q: nat, i: nat, extraLength: nat,
                               h: CentralDirectoryFileHeader, q': nat, i': nat, h': CentralDirectoryFileHeader)
    requires i < extraLength - 3 && q + 4 <= |w|
    requires var chunkData := Available(w, q + 4, U16(w, q + 2));
      && q' == q + 4 + |chunkData| && i' == i + 4 + U16(w, q + 2)
      && h' == apply(h, U16(w, q), chunkData)
    ensures ExtraFieldWalkWith(apply, w, q, i, extraLength, h) == ExtraFieldWalkWith(apply, w, q', i', extraLength, h')
  {
  }

  /**
   * Walking the extra field keeps every field the Zip64 extra field cannot
   * touch, and replaces a field only where it holds its sentinel.
   */
  lemma {:induction false} ExtraFieldWalkKeepsFields(w: Bytes, q: nat, i: nat, extraLength: nat, h: CentralDirectoryFileHeader)
    ensures var r := ExtraFieldWalk(w, q, i, extraLength, h);
      r.Ok? ==> SameUnextendedFields(h, r.value) && OnlySentinelsReplaced(h, r.value)
    decreases ExtraRemaining(i, extraLength)
  {
    var r := ExtraFieldWalk(w, q, i, extraLength, h);
    if i < extraLength - 3 && q + 4 <= |w| {
      var chunkSize := U16(w, q + 2);
      var chunkData := Available(w, q + 4, chunkSize);
      var h' := ApplyExtraRecord(h, U16(w, q), chunkData);
      var q', i' := q + 4 + |chunkData|, i + 4 + chunkSize;
      ExtraFieldWalkStep(w, q, i, extraLength, h, q', i', h');
      assert r == ExtraFieldWalk(w, q', i', extraLength, h');
      if r.Ok? {
        ExtraFieldWalkKeepsFields(w, q', i', extraLength, h');
        if U16(w, q) == 1 {
          Zip64OverrideKeepsFields(h, chunkData);
        } else {
          KeepsFieldsReflexive(h);
        }
        KeepsFieldsTransitive(h, h', r.value);
      }
    } else if r.Ok? {
      assert r.value == h;
      KeepsFieldsReflexive(h);
    }
  }

  /** A record keeps its own fields. */
  lemma KeepsFieldsReflexive(a: CentralDirectoryFileHeader)
    ensures SameUnextendedFields(a, a) && OnlySentinelsReplaced(a, a)
  {
  }

  /** Keeping the unextended fields and replacing only sentinels compose. */
  lemma KeepsFieldsTransitive(a: CentralDirectoryFileHeader, b: CentralDirectoryFileHeader, c: CentralDirectoryFileHeader)
    requires SameUnextendedFields(a, b) && OnlySentinelsReplaced(a, b)
    requires SameUnextendedFields(b, c) && OnlySentinelsReplaced(b, c)
    ensures SameUnextendedFields(a, c) && OnlySentinelsReplaced(a, c)
  {
  }

  /** One pass of the extra-field loop. */
  lemma ExtraFieldWalkStep(w: Bytes, q: nat, i: nat, extraLength: nat, h: CentralDirectoryFileHeader,
                           q': nat, i': nat, h': CentralDirectoryFileHeader)
    requires i < extraLength - 3 && q + 4 <= |w|
    requires var chunkData := Available(w, q + 4, U16(w, q + 2));
      && q' == q + 4 + |chunkData| && i' == i + 4 + U16(w, q + 2)
      && h' == ApplyExtraRecord(h, U16(w, q), chunkData)
    ensures ExtraFieldWalk(w, q, i, extraLength, h) == ExtraFieldWalk(w, q', i', extraLength, h')
  {
    ExtraFieldWalkWithStep(ApplyExtraRecord, w, q, i, extraLength, h, q', i', h');
  }

  /** What the central directory record at the start of `w` decodes to. */
  function DecodeCentralDirectoryFileHeader(w: Bytes): (r: Result<CentralDirectoryFileHeader>)
    ensures r.Ok? ==> StartsWith(w, SigCentralDirectoryFileHeader) && |w| >= CentralDirectoryFileHeaderMinSize
    ensures !StartsWith(w, SigCentralDirectoryFileHeader) ==> r == Err(FormatError("bad central directory file header signature"))
    ensures r.Err? && StartsWith(w, SigCentralDirectoryFileHeader) ==> r == Err(EndOfStream)
    ensures StartsWith(w, SigCentralDirectoryFileHeader) && |w| >= CentralDirectoryFileHeaderMinSize && U16(w, 30) <= 3
      ==> r.Ok?
    ensures r.Ok? ==> r.value.Size == CentralDirectoryFileHeaderMinSize + U16(w, 28) + U16(w, 30) + U16(w, 32)
  {
    if !StartsWith(w, SigCentralDirectoryFileHeader) then
      Err(FormatError("bad central directory file header signature"))
    else if |w| < CentralDirectoryFileHeaderMinSize then Err(EndOfStream)
    else
      var raw := CentralDirectoryFixedFields(w);
      var walked := ExtraFieldWalk(w, CentralDirectoryFileHeaderMinSize + |raw.FileName|, 0, raw.ExtraFieldLength, raw);
      if walked.Err? then Err(walked.error)
      else Ok(walked.value.(Size := CentralDirectoryFileHeaderMinSize + raw.FileNameLength
                                      + raw.ExtraFieldLength + raw.CommentFieldLength))
  }

  /**
   * A decoded record has the fixed fields of the bytes, except that a Zip64
   * extra field may replace the sizes, the offset and the disk number, and
   * only those that hold their sentinel value.
   */
  lemma DecodeCentralDirectoryFileHeaderKeepsFields(w: Bytes)
    requires DecodeCentralDirectoryFileHeader(w).Ok?
    ensures var raw := CentralDirectoryFixedFields(w);
      var h := DecodeCentralDirectoryFileHeader(w).value;
      SameUnextendedFields(raw, h) && OnlySentinelsReplaced(raw, h)
  {
    var raw := CentralDirectoryFixedFields(w);
    ExtraFieldWalkKeepsFields(w, CentralDirectoryFileHeaderMinSize + |raw.FileName|, 0, raw.ExtraFieldLength, raw);
  }

  /**
   * `ZipFormat.ParseCentralDirectoryFileHeader`, with its loop over the extra
   * field overwriting the record's fields in place.
   */
  method ParseCentralDirectoryFileHeader(w: Bytes) returns (r: Result<CentralDirectoryFileHeader>)
    ensures r == DecodeCentralDirectoryFileHeader(w)
  {
    if !StartsWith(w, SigCentralDirectoryFileHeader) {
      return Err(FormatError("bad central directory file header signature"));
    }
    if |w| < CentralDirectoryFileHeaderMinSize {
      return Err(EndOfStream);
    }
    var retval := CentralDirectoryFixedFields(w);
    var walked := WalkExtraField(w, CentralDirectoryFileHeaderMinSize + |retval.FileName|, retval);
    if walked.Err? {
      return Err(walked.error);
    }
    retval := walked.value.(Size := CentralDirectoryFileHeaderMinSize + retval.FileNameLength
                                    + retval.ExtraFieldLength + retval.CommentFieldLength);
    return Ok(retval);
  }

  /**
   * The loop over the extra field's sub-records that follow the file name at `q`,
   * overwriting the fields of `retval` in place.
   */
  method WalkExtraField(w: Bytes, q: nat, h: CentralDirectoryFileHeader) returns (r: Result<CentralDirectoryFileHeader>)
    ensures r == ExtraFieldWalk(w, q, 0, h.ExtraFieldLength, h)
  {
    var retval := h;
    var q: nat := q;
    ghost var walked := ExtraFieldWalk(w, q, 0, h.ExtraFieldLength, h);
    var i: nat := 0;
    while i < retval.ExtraFieldLength - 3
      invariant retval.ExtraFieldLength == h.ExtraFieldLength
      invariant ExtraFieldWalk(w, q, i, h.ExtraFieldLength, retval) == walked
      decreases ExtraRemaining(i, h.ExtraFieldLength)
    {
      if q + 4 > |w| {
        return Err(EndOfStream);
      }
      var headerId, chunkSize := U16(w, q), U16(w, q + 2);
      var chunkData := Available(w, q + 4, chunkSize);
      ghost var q0, i0, retval0 := q, i, retval;
      q := q + 4 + |chunkData|;
      if headerId == 1 {
        retval := ApplyZip64Extra(retval, chunkData);
      }
      i := i + 4 + chunkSize;
      ExtraFieldWalkStep(w, q0, i0, h.ExtraFieldLength, retval0, q, i, retval);
    }
    return Ok(retval);
  }

  /**
   * The body of the `headerId == 0x0001` branch: a reader over `chunkData` replaces
   * the sentinel fields one after the other.
   */
  method ApplyZip64Extra(h: CentralDirectoryFileHeader, chunkData: Bytes) returns (retval: CentralDirectoryFileHeader)
    ensures retval == Zip64Override(h, chunkData)
  {
    retval := h;
    var p := 0;  // the chunk reader's position
    if |chunkData| - p >= 8 && retval.UncompressedSize == Sentinel32 {
      retval := retval.(UncompressedSize := U64(chunkData, p));
      p := p + 8;
    }
    if |chunkData| - p >= 8 && retval.CompressedSize == Sentinel32 {
      retval := retval.(CompressedSize := U64(chunkData, p));
      p := p + 8;
    }
    if |chunkData| - p >= 8 && retval.LocalFileHeaderOffset == Sentinel32 {
      retval := retval.(LocalFileHeaderOffset := U64(chunkData, p));
      p := p + 8;
    }
    if |chunkData| - p >= 4 && retval.FileStartDisk == Sentinel16 {
      retval := retval.(FileStartDisk := U32(chunkData, p));
    }
  }

  // ---------------------------------------------------------------------------
  // Reference encoders (APPNOTE layouts) and the decoders undoing them

  function EocdBytes(e: Eocd): (r: Bytes)
    ensures |r| == EocdMinSize
  {
    SigEocd + LE16(e.NumberOfThisDisk) + LE16(e.CentralDirectoryStartDisk)
    + LE16(e.CentralDirectoryThisDiskRecords) + LE16(e.CentralDirectoryTotalRecords)
    + LE32(e.CentralDirectorySize) + LE32(e.CentralDirectoryOffset) + LE16(e.CommentLength)
  }

  function Eocd64LocatorBytes(l: Eocd64Locator): (r: Bytes)
    ensures |r| == Eocd64LocatorSize
  {
    SigEocd64Locator + LE32(l.EocdStartDisk) + LE64(l.EocdOffset) + LE32(l.NumberOfDisks)
  }

  /** The size field holds the record size less the 12 bytes of signature and size field. */
  function Eocd64Bytes(e: Eocd64): (r: Bytes)
    requires e.Size >= Eocd64MinSizeForSizeRead
    ensures |r| == Eocd64FixedSize
  {
    SigEocd64 + LE64(e.Size - 12) + LE16(e.VersionMadeBy) + LE16(e.VersionNeededToExtract)
    + LE32(e.NumberOfThisDisk) + LE32(e.CentralDirectoryStartDisk)
    + LE64(e.CentralDirectoryThisDiskRecords) + LE64(e.CentralDirectoryTotalRecords)
    + LE64(e.CentralDirectorySize) + LE64(e.CentralDirectoryOffset)
  }

  function LocalFileHeaderBytes(h: LocalFileHeader): (r: Bytes)
    requires h.CompressedSize < TWO_32 && h.UncompressedSize < TWO_32
    ensures |r| == LocalFileHeaderMinSize
  {
    SigLocalFileHeader + LE16(h.VersionNeededToExtract) + LE16(h.Flags) + LE16(h.CompressionMethod)
    + LE16(h.LastModificationTime) + LE16(h.LastModificationDate) + LE32(h.DataCrc32)
    + LE32(h.CompressedSize) + LE32(h.UncompressedSize)
    + LE16(h.FileNameLength) + LE16(h.ExtraFieldLength)
  }

  /** Four bytes read as a 32-bit value are all ones exactly when the value is the sentinel. */
  lemma AllOnes32(s: Bytes, p: nat)
    requires p + 4 <= |s|
    ensures U32(s, p) == Sentinel32 <==> s[p..p + 4] == [0xFF, 0xFF, 0xFF, 0xFF]
  {
    if U32(s, p) == Sentinel32 {
      assert U16(s, p) == 0xFFFF && U16(s, p + 2) == 0xFFFF;
      assert s[p] == 0xFF && s[p + 1] == 0xFF && s[p + 2] == 0xFF && s[p + 3] == 0xFF;
    }
  }

  lemma ParseEocdRoundTrip(e: Eocd, comment: Bytes)
    requires |comment| == e.CommentLength
    ensures ParseEocd(EocdBytes(e) + comment, true)
         == Ok(e.(Size := EocdMinSize + |comment|, Comment := Some(comment)))
    ensures ParseEocd(EocdBytes(e) + comment, false)
         == Ok(e.(Size := EocdMinSize + |comment|, Comment := None))
    ensures ParseEocd(EocdBytes(e) + comment, false).value.IsZip64() <==> e.CentralDirectoryOffset == Sentinel32
  {
    var w := EocdBytes(e) + comment;
    assert w[..4] == SigEocd;
    assert w[22..][..e.CommentLength] == comment;
  }

  lemma ParseEocd64LocatorRoundTrip(l: Eocd64Locator, rest: Bytes)
    ensures ParseEocd64Locator(Eocd64LocatorBytes(l) + rest) == Ok(l)
  {
    var w := Eocd64LocatorBytes(l) + rest;
    assert w[..4] == SigEocd64Locator;
  }

  lemma ParseEocd64RoundTrip(e: Eocd64, rest: Bytes)
    requires e.Size >= Eocd64MinSizeForSizeRead
    ensures ParseEocd64(Eocd64Bytes(e) + rest) == Ok(e)
  {
    var w := Eocd64Bytes(e) + rest;
    assert StartsWith(w, SigEocd64) && |w| >= Eocd64FixedSize by {
      assert w[..4] == SigEocd64;
    }
    Eocd64HeadFields(e, rest);
    Eocd64DirectoryFields(e, rest);
    Eocd64SizeOfDeclared(U64(w, 4), e.Size);
    ParseEocd64OfFields(w, e);
  }

  /** A record whose fields each read back decodes to those fields. */
  lemma ParseEocd64OfFields(w: Bytes, e: Eocd64)
    requires StartsWith(w, SigEocd64) && |w| >= Eocd64FixedSize
    requires Eocd64TotalSize(U64(w, 4)) == e.Size
    requires U16(w, 12) == e.VersionMadeBy && U16(w, 14) == e.VersionNeededToExtract
    requires U32(w, 16) == e.NumberOfThisDisk && U32(w, 20) == e.CentralDirectoryStartDisk
    requires U64(w, 24) == e.CentralDirectoryThisDiskRecords && U64(w, 32) == e.CentralDirectoryTotalRecords
    requires U64(w, 40) == e.CentralDirectorySize && U64(w, 48) == e.CentralDirectoryOffset
    ensures ParseEocd64(w) == Ok(e)
  {
  }

  /** The declared size of a record of at least 12 bytes gives back its size. */
  lemma Eocd64SizeOfDeclared(declared: u64, size: u64)
    requires size >= 12 && declared == size - 12
    ensures Eocd64TotalSize(declared) == size
  {
  }

  /** The size read back from the first 12 bytes of a record is the record's size. */
  lemma GetEocd64SizeRoundTrip(e: Eocd64, rest: Bytes)
    requires Eocd64MinSizeForSizeRead <= e.Size < TWO_63
    ensures GetEocd64Size(Eocd64Bytes(e) + rest) == Ok(e.Size)
  {
    var w := Eocd64Bytes(e) + rest;
    assert StartsWith(w, SigEocd64) && |w| >= Eocd64MinSizeForSizeRead by {
      assert w[..4] == SigEocd64;
    }
    Eocd64HeadFields(e, rest);
    Eocd64SizeOfDeclared(U64(w, 4), e.Size);
  }

  lemma Eocd64HeadFields(e: Eocd64, rest: Bytes)
    requires e.Size >= Eocd64MinSizeForSizeRead
    ensures var w := Eocd64Bytes(e) + rest;
      && U64(w, 4) == e.Size - 12
      && U16(w, 12) == e.VersionMadeBy && U16(w, 14) == e.VersionNeededToExtract
      && U32(w, 16) == e.NumberOfThisDisk && U32(w, 20) == e.CentralDirectoryStartDisk
  {
  }

  lemma Eocd64DirectoryFields(e: Eocd64, rest: Bytes)
    requires e.Size >= Eocd64MinSizeForSizeRead
    ensures var w := Eocd64Bytes(e) + rest;
      && U64(w, 24) == e.CentralDirectoryThisDiskRecords && U64(w, 32) == e.CentralDirectoryTotalRecords
      && U64(w, 40) == e.CentralDirectorySize && U64(w, 48) == e.CentralDirectoryOffset
  {
  }

  lemma ParseLocalFileHeaderRoundTrip(h: LocalFileHeader, rest: Bytes)
    requires h.CompressedSize < TWO_32 && h.UncompressedSize < TWO_32
    ensures ParseLocalFileHeader(LocalFileHeaderBytes(h) + rest)
         == Ok(h.(Size := LocalFileHeaderMinSize + h.FileNameLength + h.ExtraFieldLength))
  {
    var w := LocalFileHeaderBytes(h) + rest;
    assert w[..4] == SigLocalFileHeader;
  }

  // ---------------------------------------------------------------------------
  // Central directory records with extra fields

  /** One sub-record of an extra field: a header id and its data. */
  datatype ExtraRecord = ExtraRecord(HeaderId: u16, Data: Bytes)

  predicate WellSizedExtras(rs: seq<ExtraRecord>)
  {
    forall k :: 0 <= k < |rs| ==> |rs[k].Data| < TWO_16
  }

  /** The extra field laid out as (header id, data size, data) per sub-record. */
  function ExtraBytes(rs: seq<ExtraRecord>): (r: Bytes)
    requires WellSizedExtras(rs)
    ensures rs == [] <==> r == []
  {
    if rs == [] then []
    else LE16(rs[0].HeaderId) + LE16(|rs[0].Data|) + rs[0].Data + ExtraBytes(rs[1..])
  }

  /** The record after each 0x0001 sub-record has been applied in order; other ids change nothing. */
  function ApplyExtras(h: CentralDirectoryFileHeader, rs: seq<ExtraRecord>): CentralDirectoryFileHeader
    decreases |rs|
  {
    if rs == [] then h
    else ApplyExtras(ApplyExtraRecord(h, rs[0].HeaderId, rs[0].Data), rs[1..])
  }

  /**
   * Over a well-formed extra field the loop visits exactly its sub-records,
   * advancing by 4 plus the declared data size each time.
   */
  lemma {:induction false} ExtraFieldWalkOfRecords(
    w: Bytes, q: nat, i: nat, extraLength: nat, h: CentralDirectoryFileHeader, rs: seq<ExtraRecord>)
    requires WellSizedExtras(rs)
    requires q + |ExtraBytes(rs)| <= |w| && w[q..q + |ExtraBytes(rs)|] == ExtraBytes(rs)
    requires i + |ExtraBytes(rs)| == extraLength
    ensures ExtraFieldWalk(w, q, i, extraLength, h) == Ok(ApplyExtras(h, rs))
    decreases rs
  {
    if rs != [] {
      var r, rest := rs[0], rs[1..];
      var q': nat := q + 4 + |r.Data|;
      var i': nat := i + 4 + |r.Data|;
      var h' := ApplyExtraRecord(h, r.HeaderId, r.Data);
      assert WellSizedExtras(rest) && q' + |ExtraBytes(rest)| <= |w| && w[q'..q' + |ExtraBytes(rest)|] == ExtraBytes(rest)
        && i' + |ExtraBytes(rest)| == extraLength
        && ExtraFieldWalk(w, q, i, extraLength, h) == ExtraFieldWalk(w, q', i', extraLength, h') by {
        ExtraRecordAt(w, q, rs);
        ExtraFieldWalkStep(w, q, i, extraLength, h, q', i', h');
      }
      ExtraFieldWalkOfRecords(w, q', i', extraLength, h', rest);
      assert ApplyExtras(h, rs) == ApplyExtras(h', rest);
    } else {
      assert i >= extraLength - 3;
    }
  }

  /** The parts of a non-empty extra field: the first sub-record's id, size and data, then the rest. */
  lemma ExtraBytesParts(rs: seq<ExtraRecord>)
    requires WellSizedExtras(rs) && rs != []
    ensures WellSizedExtras(rs[1..]) && |rs[0].Data| < TWO_16
    ensures var x, d := ExtraBytes(rs), |rs[0].Data|;
      && |x| == 4 + d + |ExtraBytes(rs[1..])|
      && x[..2] == LE16(rs[0].HeaderId) && x[2..4] == LE16(d)
      && x[4..4 + d] == rs[0].Data && x[4 + d..|x|] == ExtraBytes(rs[1..])
  {
    assert WellSizedExtras(rs[1..]) by {
      forall k | 0 <= k < |rs[1..]| ensures |rs[1..][k].Data| < TWO_16 {
        assert rs[1..][k] == rs[k + 1];
      }
    }
    var r := rs[0];
    assert |r.Data| < TWO_16;
    assert ExtraBytes(rs) == LE16(r.HeaderId) + LE16(|r.Data|) + r.Data + ExtraBytes(rs[1..]);
  }

  /** What the loop reads at the start of a well-formed extra field. */
  lemma ExtraRecordAt(w: Bytes, q: nat, rs: seq<ExtraRecord>)
    requires WellSizedExtras(rs) && rs != []
    requires q + |ExtraBytes(rs)| <= |w| && w[q..q + |ExtraBytes(rs)|] == ExtraBytes(rs)
    ensures WellSizedExtras(rs[1..])
    ensures |ExtraBytes(rs)| == 4 + |rs[0].Data| + |ExtraBytes(rs[1..])|
    ensures U16(w, q) == rs[0].HeaderId && U16(w, q + 2) == |rs[0].Data|
    ensures Available(w, q + 4, |rs[0].Data|) == rs[0].Data
    ensures var q' := q + 4 + |rs[0].Data|; w[q'..q' + |ExtraBytes(rs[1..])|] == ExtraBytes(rs[1..])
  {
    var r := rs[0];
    var x := ExtraBytes(rs);
    ExtraBytesParts(rs);
    SliceInside(w, q, x, 0, 2);
    SliceInside(w, q, x, 2, 4);
    SliceInside(w, q, x, 4, 4 + |r.Data|);
    SliceInside(w, q, x, 4 + |r.Data|, |x|);
    DecodeInside(w, q, LE16(r.HeaderId));
    DecodeInside(w, q + 2, LE16(|r.Data|));
  }

  /** The 46 fixed bytes of a central directory record whose fields all fit their 32-bit slots. */
  function CentralDirectoryFixedBytes(h: CentralDirectoryFileHeader): (r: Bytes)
    requires h.CompressedSize < TWO_32 && h.UncompressedSize < TWO_32
    requires h.LocalFileHeaderOffset < TWO_32 && h.FileStartDisk < TWO_16
    ensures |r| == CentralDirectoryFileHeaderMinSize
  {
    SigCentralDirectoryFileHeader + LE16(h.VersionMadeBy) + LE16(h.VersionNeededToExtract)
    + LE16(h.Flags) + LE16(h.CompressionMethod) + LE16(h.LastModificationTime)
    + LE16(h.LastModificationDate) + LE32(h.DataCrc32) + LE32(h.CompressedSize)
    + LE32(h.UncompressedSize) + LE16(h.FileNameLength) + LE16(h.ExtraFieldLength)
    + LE16(h.CommentFieldLength) + LE16(h.FileStartDisk) + LE16(h.InternalFileAttributes)
    + LE32(h.ExternalFileAttributes) + LE32(h.LocalFileHeaderOffset)
  }

  /** The record `h` as APPNOTE section 4.3.12 lays it out, with the given extra field and comment. */
  predicate EncodableCentralDirectoryFileHeader(h: CentralDirectoryFileHeader, extras: seq<ExtraRecord>, comment: Bytes)
  {
    && h.CompressedSize < TWO_32 && h.UncompressedSize < TWO_32
    && h.LocalFileHeaderOffset < TWO_32 && h.FileStartDisk < TWO_16
    && WellSizedExtras(extras)
    && |h.FileName| == h.FileNameLength
    && |ExtraBytes(extras)| == h.ExtraFieldLength
    && |comment| == h.CommentFieldLength
  }

  function CentralDirectoryFileHeaderBytes(h: CentralDirectoryFileHeader, extras: seq<ExtraRecord>, comment: Bytes): (r: Bytes)
    requires EncodableCentralDirectoryFileHeader(h, extras, comment)
    ensures |r| == CentralDirectoryFileHeaderMinSize + h.FileNameLength + h.ExtraFieldLength + h.CommentFieldLength
  {
    CentralDirectoryFixedBytes(h) + h.FileName + ExtraBytes(extras) + comment
  }

  lemma CentralDirectoryHeadFields(h: CentralDirectoryFileHeader, rest: Bytes)
    requires h.CompressedSize < TWO_32 && h.UncompressedSize < TWO_32
    requires h.LocalFileHeaderOffset < TWO_32 && h.FileStartDisk < TWO_16
    ensures var w := CentralDirectoryFixedBytes(h) + rest;
      && w[..4] == SigCentralDirectoryFileHeader
      && U16(w, 4) == h.VersionMadeBy && U16(w, 6) == h.VersionNeededToExtract
      && U16(w, 8) == h.Flags && U16(w, 10) == h.CompressionMethod
      && U16(w, 12) == h.LastModificationTime && U16(w, 14) == h.LastModificationDate
      && U32(w, 16) == h.DataCrc32 && U32(w, 20) == h.CompressedSize
  {
  }

  lemma CentralDirectoryTailFields(h: CentralDirectoryFileHeader, rest: Bytes)
    requires h.CompressedSize < TWO_32 && h.UncompressedSize < TWO_32
    requires h.LocalFileHeaderOffset < TWO_32 && h.FileStartDisk < TWO_16
    ensures var w := CentralDirectoryFixedBytes(h) + rest;
      && U32(w, 24) == h.UncompressedSize
      && U16(w, 28) == h.FileNameLength && U16(w, 30) == h.ExtraFieldLength
      && U16(w, 32) == h.CommentFieldLength && U16(w, 34) == h.FileStartDisk
      && U16(w, 36) == h.InternalFileAttributes && U32(w, 38) == h.ExternalFileAttributes
      && U32(w, 42) == h.LocalFileHeaderOffset
  {
  }

  /**
   * A central directory record reads back as written, with every 0x0001
   * sub-record of its extra field applied in order and all others skipped.
   */
  lemma DecodeCentralDirectoryFileHeaderRoundTrip(
    h: CentralDirectoryFileHeader, extras: seq<ExtraRecord>, comment: Bytes, rest: Bytes)
    requires EncodableCentralDirectoryFileHeader(h, extras, comment)
    ensures DecodeCentralDirectoryFileHeader(CentralDirectoryFileHeaderBytes(h, extras, comment) + rest)
         == Ok(ApplyExtras(h.(Size := CentralDirectoryFileHeaderMinSize + h.FileNameLength
                                        + h.ExtraFieldLength + h.CommentFieldLength), extras))
  {
    CentralDirectoryRawFields(h, extras, comment, rest);
    DecodeOfLaidOutFields(CentralDirectoryFileHeaderBytes(h, extras, comment) + rest, h, extras);
  }

  /** Any window whose fixed fields, file name and extra field are those of `h` decodes to `h` extended. */
  lemma DecodeOfLaidOutFields(w: Bytes, h: CentralDirectoryFileHeader, extras: seq<ExtraRecord>)
    requires WellSizedExtras(extras)
    requires |h.FileName| == h.FileNameLength && |ExtraBytes(extras)| == h.ExtraFieldLength
    requires StartsWith(w, SigCentralDirectoryFileHeader) && |w| >= CentralDirectoryFileHeaderMinSize
    requires CentralDirectoryFixedFields(w) == h.(Size := 0)
    requires var p := CentralDirectoryFileHeaderMinSize + |h.FileName|;
      p + |ExtraBytes(extras)| <= |w| && w[p..p + |ExtraBytes(extras)|] == ExtraBytes(extras)
    ensures DecodeCentralDirectoryFileHeader(w)
         == Ok(ApplyExtras(h.(Size := CentralDirectoryFileHeaderMinSize + h.FileNameLength
                                        + h.ExtraFieldLength + h.CommentFieldLength), extras))
  {
    var n := CentralDirectoryFileHeaderMinSize;
    var raw := CentralDirectoryFixedFields(w);
    var size := n + h.FileNameLength + h.ExtraFieldLength + h.CommentFieldLength;
    var v := ApplyExtras(raw, extras);
    assert ExtraFieldWalk(w, n + |raw.FileName|, 0, raw.ExtraFieldLength, raw) == Ok(v) by {
      ExtraFieldWalkOfRecords(w, n + |raw.FileName|, 0, raw.ExtraFieldLength, raw, extras);
    }
    assert DecodeCentralDirectoryFileHeader(w) == Ok(v.(Size := size)) by {
      DecodeOfWalk(w, v);
      assert raw.FileNameLength == h.FileNameLength && raw.ExtraFieldLength == h.ExtraFieldLength
        && raw.CommentFieldLength == h.CommentFieldLength;
    }
    assert v.(Size := size) == ApplyExtras(h.(Size := size), extras) by {
      ApplyExtrasIgnoresSize(raw, extras, size);
      assert raw.(Size := size) == h.(Size := size);
    }
  }

  /** A window whose extra-field walk succeeds decodes to the walked record with its size set. */
  lemma DecodeOfWalk(w: Bytes, v: CentralDirectoryFileHeader)
    requires StartsWith(w, SigCentralDirectoryFileHeader) && |w| >= CentralDirectoryFileHeaderMinSize
    requires var raw := CentralDirectoryFixedFields(w);
      ExtraFieldWalk(w, CentralDirectoryFileHeaderMinSize + |raw.FileName|, 0, raw.ExtraFieldLength, raw) == Ok(v)
    ensures var raw := CentralDirectoryFixedFields(w);
      DecodeCentralDirectoryFileHeader(w)
      == Ok(v.(Size := CentralDirectoryFileHeaderMinSize + raw.FileNameLength + raw.ExtraFieldLength + raw.CommentFieldLength))
  {
  }

  /** The fixed fields and file name read back as written, and the extra field follows the name. */
  lemma CentralDirectoryRawFields(h: CentralDirectoryFileHeader, extras: seq<ExtraRecord>, comment: Bytes, rest: Bytes)
    requires EncodableCentralDirectoryFileHeader(h, extras, comment)
    ensures var w := CentralDirectoryFileHeaderBytes(h, extras, comment) + rest;
      var p := CentralDirectoryFileHeaderMinSize + |h.FileName|;
      && StartsWith(w, SigCentralDirectoryFileHeader)
      && |w| >= p + |ExtraBytes(extras)|
      && CentralDirectoryFixedFields(w) == h.(Size := 0)
      && w[p..p + |ExtraBytes(extras)|] == ExtraBytes(extras)
  {
    var fixed := CentralDirectoryFixedBytes(h);
    var x := ExtraBytes(extras);
    var tail := h.FileName + x + comment + rest;
    var w := CentralDirectoryFileHeaderBytes(h, extras, comment) + rest;
    assert w == fixed + tail;
    CentralDirectoryHeadFields(h, tail);
    CentralDirectoryTailFields(h, tail);
    var n := CentralDirectoryFileHeaderMinSize;
    assert w[n..n + |h.FileName|] == h.FileName;
    assert Available(w, n, h.FileNameLength) == h.FileName;
    assert w[n + |h.FileName|..n + |h.FileName| + |x|] == x;
  }

  lemma ApplyOneExtra(h: CentralDirectoryFileHeader, r: ExtraRecord)
    ensures ApplyExtras(h, [r]) == ApplyExtraRecord(h, r.HeaderId, r.Data)
  {
    assert [r][1..] == [];
  }

  /** Applying the extra field commutes with setting the record size. */
  lemma {:induction false} ApplyExtrasIgnoresSize(h: CentralDirectoryFileHeader, rs: seq<ExtraRecord>, size: int)
    ensures ApplyExtras(h, rs).(Size := size) == ApplyExtras(h.(Size := size), rs)
    decreases rs
  {
    if rs != [] {
      var h' := ApplyExtraRecord(h, rs[0].HeaderId, rs[0].Data);
      assert h'.(Size := size) == ApplyExtraRecord(h.(Size := size), rs[0].HeaderId, rs[0].Data);
      ApplyExtrasIgnoresSize(h', rs[1..], size);
    }
  }

  // ---------------------------------------------------------------------------
  // The Zip64 extended information extra field (APPNOTE section 4.5.3)

  /**
   * The data of a 0x0001 sub-record as APPNOTE section 4.5.3 lays it out: the
   * 64-bit values of exactly those fields whose 32-bit (or 16-bit) slot holds
   * the sentinel, in the fixed order uncompressed size, compressed size, local
   * header offset, start disk.
   */
  function Zip64ExtraData(h: CentralDirectoryFileHeader, uncompressed: u64, compressed: u64, offset: u64, disk: u32): Bytes
  {
    (if h.UncompressedSize == Sentinel32 then LE64(uncompressed) else [])
    + ((if h.CompressedSize == Sentinel32 then LE64(compressed) else [])
    + ((if h.LocalFileHeaderOffset == Sentinel32 then LE64(offset) else [])
    + (if h.FileStartDisk == Sentinel16 then LE32(disk) else [])))
  }

  /** `h` with the given 64-bit values in place of exactly its sentinel fields. */
  function WithZip64Values(h: CentralDirectoryFileHeader, uncompressed: u64, compressed: u64, offset: u64, disk: u32)
    : CentralDirectoryFileHeader
  {
    h.(UncompressedSize := if h.UncompressedSize == Sentinel32 then uncompressed else h.UncompressedSize,
       CompressedSize := if h.CompressedSize == Sentinel32 then compressed else h.CompressedSize,
       LocalFileHeaderOffset := if h.LocalFileHeaderOffset == Sentinel32 then offset else h.LocalFileHeaderOffset,
       FileStartDisk := if h.FileStartDisk == Sentinel16 then disk else h.FileStartDisk)
  }

  /** Each sentinel field is replaced by its own value from such a sub-record; the others stay. */
  lemma Zip64OverrideOfAppNoteLayout(h: CentralDirectoryFileHeader, uncompressed: u64, compressed: u64, offset: u64, disk: u32)
    ensures Zip64Override(h, Zip64ExtraData(h, uncompressed, compressed, offset, disk))
         == WithZip64Values(h, uncompressed, compressed, offset, disk)
  {
    var a := if h.UncompressedSize == Sentinel32 then LE64(uncompressed) else [];
    var b := if h.CompressedSize == Sentinel32 then LE64(compressed) else [];
    var c := if h.LocalFileHeaderOffset == Sentinel32 then LE64(offset) else [];
    var d := if h.FileStartDisk == Sentinel16 then LE32(disk) else [];
    var data := a + (b + (c + d));
    var r := WithZip64Values(h, uncompressed, compressed, offset, disk);
    assert Replace64(h.UncompressedSize, data, 0) == (r.UncompressedSize, |a|) by {
      DecodeBefore(a, b + (c + d), 0);
    }
    assert Replace64(h.CompressedSize, data, |a|) == (r.CompressedSize, |a| + |b|) by {
      DecodeAfter(a, b + (c + d), 0);
      DecodeBefore(b, c + d, 0);
    }
    assert Replace64(h.LocalFileHeaderOffset, data, |a| + |b|) == (r.LocalFileHeaderOffset, |a| + |b| + |c|) by {
      if h.LocalFileHeaderOffset == Sentinel32 {
        DecodeAfterTwo(a, b, c + d, 0);
        DecodeBefore(c, d, 0);
      }
    }
    assert (if |data| - (|a| + |b| + |c|) >= 4 && h.FileStartDisk == Sentinel16
            then U32(data, |a| + |b| + |c|) else h.FileStartDisk) == r.FileStartDisk by {
      if h.FileStartDisk == Sentinel16 {
        DecodeAfterTwo(a, b, c + d, |c|);
        DecodeAfter(c, d, 0);
      }
    }
  }

  /**
   * A central directory record whose extra field is one Zip64 extended
   * information sub-record in APPNOTE layout reads back with the 64-bit values
   * in place of exactly its sentinel fields.
   */
  lemma Zip64CentralDirectoryRecordRoundTrip(
    h: CentralDirectoryFileHeader, uncompressed: u64, compressed: u64, offset: u64, disk: u32,
    comment: Bytes, rest: Bytes)
    requires var extras := [ExtraRecord(1, Zip64ExtraData(h, uncompressed, compressed, offset, disk))];
      EncodableCentralDirectoryFileHeader(h, extras, comment)
    ensures var extras := [ExtraRecord(1, Zip64ExtraData(h, uncompressed, compressed, offset, disk))];
      DecodeCentralDirectoryFileHeader(CentralDirectoryFileHeaderBytes(h, extras, comment) + rest)
      == Ok(WithZip64Values(
              h.(Size := CentralDirectoryFileHeaderMinSize + h.FileNameLength + h.ExtraFieldLength + h.CommentFieldLength),
              uncompressed, compressed, offset, disk))
  {
    var data := Zip64ExtraData(h, uncompressed, compressed, offset, disk);
    var extras := [ExtraRecord(1, data)];
    var size := CentralDirectoryFileHeaderMinSize + h.FileNameLength + h.ExtraFieldLength + h.CommentFieldLength;
    var sized := h.(Size := size);
    DecodeCentralDirectoryFileHeaderRoundTrip(h, extras, comment, rest);
    ApplyOneExtra(sized, extras[0]);
    assert Zip64ExtraData(sized, uncompressed, compressed, offset, disk) == data;
    Zip64OverrideOfAppNoteLayout(sized, uncompressed, compressed, offset, disk);
  }
}
