# ZipSplitTool, modelled in Dafny

ZipSplitTool takes a ZIP archive apart into a small *receipt* and a store of
*shared chunks*. An entry is cut out when its compressed data is at least
64 KiB. Its compressed data goes into the chunk store under the SHA-256 digest
of those bytes, and the receipt records only the digest. Everything else goes
into the receipt inline: the bytes between entries, each local file header,
and the tail of the archive with the central directory. Restoring replays the
receipt: inline data is copied out, and each digest is replaced by the blob
stored under it.

This project models the core of the tool:

- `common.dfy`: outcomes and little-endian integers. Module `Wrappers` has one
  `Failure` constructor per kind of exception the code raises. Module `Bytes`
  has the C# integer widths, the little-endian codecs and the C# casts.
- `encodings.dfy`: `Convert.ToHexString` and `Convert.ToBase64String`. Both
  are proved injective.
- `streams.dfy`: seekable input streams and overwriting output streams, plus
  `StreamHelper.CopyData` and `StreamHelper.HashData` as loops.
- `zip_format.dfy`: the `ZipFormat` decoders and reference encoders in the
  layout of PKWARE APPNOTE.TXT, with round-trip lemmas. The Zip64
  extra-field walk of `ParseCentralDirectoryFileHeader` is a method with a
  loop, proved against a function.
- `zip_archive.dfy`: class `ZipArchive`. It finds the end of central
  directory record, reads the Zip64 locator and record, and walks the central
  directory through an array buffer.
- `receipt.dfy`: the receipt format. It holds the binary writer, the size
  estimator, the reader, and the byte-level round trip.
- `chunk_storage.dfy`: `SharedDataChunkStorageEstimator` and
  `DiskDataChunkStorage`, with the file system held as maps.
- `zip_split.dfy`: the specification of a split. `SplitOffset`, `SplitAll`
  and `Process` give the receipt steps, and `Replay` restores them.
  `SplitThenRestore` proves that restoring a receipt yields the original file.
- `zip_split_helper.dfy`: `ProcessZip`, `RestoreOriginalFile` and
  `CopyRawData` as methods over the streams, the writer and the storage. Each
  is proved against the functions of `zip_split.dfy`.

Some parts of the tool are parameters of the model:

- The digest is a parameter `H: Bytes -> Bytes`. SHA-256 itself is not part
  of this model.
- The UTF-8 decoding of file names is a parameter `Decode`.
- The file system consists of maps held by the storage: blobs by path and
  saved indexes by bucket path.
- A C# exception becomes an `Err` result. A "jumped over some data" failure
  and the others keep the tool's own message.

Where the description of the tool and the code disagree, the model follows the
code:

- The length of a shared chunk is the local header's 32-bit compressed size,
  read at `ZipSplitHelper.cs:62`. The central directory's possibly-Zip64 size
  is only used to choose the entries.
- `ParseEocd` reports a bad signature with the message "bad eocd64 locator
  signature", as the code does (`ZipFormat.cs:98`).
- The estimator's `WriteHeader` does not check the hash length. The binary
  writer does.
- `File.OpenWrite` does not truncate. A blob that already exists at the path
  is overwritten from its start.

## Model

| member | source | states |
|---|---|---|
| Bytes.U16 | ZipFormat.cs:161 | a two-byte field read little-endian is below 2^16 |
| Bytes.U32 | ZipFormat.cs:169 | a four-byte field read little-endian is below 2^32 |
| Bytes.U64 | ZipFormat.cs:143 | an eight-byte field read little-endian is below 2^64 |
| Bytes.LE16 | ReceiptFileWriter.cs:54 | a `ushort` is written as two bytes that read back as the same value |
| Bytes.LE32 | ZipFormat.cs:167 | a `uint` written little-endian reads back as the same value |
| Bytes.LE64 | ReceiptFileWriter.cs:49 | a `ulong` written as eight bytes reads back as the same value |
| Bytes.DecodeAfterTwo | ZipFormat.cs:190-197 | a field read inside the third of three concatenated parts reads the same as in that part alone |
| Bytes.ToInt64 | ZipFormat.cs:132 | the `(long)` cast of a `ulong` is congruent to it modulo 2^64 and lies in the `long` range |
| Bytes.ToUInt64 | ReceiptFileWriter.cs:49 | the `(ulong)` cast of a `long` is undone by the `(long)` cast |
| Bytes.ToUInt16 | ReceiptFileWriter.cs:54 | the `(ushort)` cast keeps the value modulo 2^16 |
| Encodings.Hex | SharedDataChunkStorage.cs:121 | the hexadecimal spelling has two characters per byte |
| Encodings.HexInjective | SharedDataChunkStorage.cs:121 | two digests with the same hexadecimal spelling are equal, so an index key names one blob |
| Encodings.HexByteInjective | SharedDataChunkStorage.cs:73 | one byte is determined by its two hexadecimal digits, so the bucket name determines the first digest byte |
| Encodings.Base64 | SharedDataChunkStorage.cs:25 | the Base64 spelling has four characters per started group of three bytes |
| Encodings.QuadInjective | SharedDataChunkStorage.cs:25 | a four-character Base64 group determines its byte count (from the padding) and its bytes |
| Encodings.Base64Injective | SharedDataChunkStorage.cs:25-27 | two digests with the same Base64 spelling are equal, so the estimator's key set counts distinct digests |
| Streams.Available | StreamHelper.cs:12 | a read returns the requested bytes when they are there, fewer at the end, and none at or past the end |
| Streams.InputStream.constructor | ZipSplitHelper.cs:18 | a stream over the file's bytes starts at position 0 |
| Streams.InputStream.Seek | ZipSplitHelper.cs:32 | a seek moves to any non-negative position and refuses a negative one |
| Streams.InputStream.Read | StreamHelper.cs:12 | a read returns what is available at the position and advances past it |
| Streams.Zeros | ZipSplitHelper.cs:78 | the bytes a stream grows by are zeros |
| Streams.WriteAt | StreamHelper.cs:13 | a write overwrites from the position and extends the stream past its end |
| Streams.WriteAtContents | StreamHelper.cs:13 | after a write, the bytes before the position are unchanged, the written bytes follow, and then the old bytes after them |
| Streams.WriteAtEnd | StreamHelper.cs:13 | a write at the end of a stream appends |
| Streams.WriteAtTwice | StreamHelper.cs:10-15 | two writes, each where the last stopped, equal one write of both |
| Streams.OutputStream.constructor | ZipSplitHelper.cs:74 | a new output stream is empty |
| Streams.OutputStream.Open | SharedDataChunkStorage.cs:129 | `File.OpenWrite` keeps the existing contents and starts at position 0 |
| Streams.OutputStream.Write | StreamHelper.cs:13 | a write lands at the position and moves it past the written bytes |
| Streams.OutputStream.SetLength | ZipSplitHelper.cs:77-78 | `SetLength` cuts or zero-extends to exactly the new length, moves the position back to the end if it was past it, and refuses a negative length |
| Streams.CopyData | StreamHelper.cs:7-16 | the copy writes exactly the next `length` bytes of the source at the output position; it fails with `EndOfStream` exactly when fewer bytes remain; both positions advance by what was copied |
| Streams.AvailableExtends | StreamHelper.cs:12-14 | a full read followed by a read where it stopped equals one read of both lengths |
| Streams.AvailableStops | StreamHelper.cs:12 | once a read returns nothing, a longer read from the start returns nothing more |
| Streams.ReadAppends | StreamHelper.cs:24-27 | a non-empty read extends the slice read so far |
| Streams.HashData | StreamHelper.cs:18-32 | the digest is `H` of exactly the next `size` bytes; it succeeds exactly when that many bytes remain, and the position moves past them |
| Streams.CopyLoopAsWrittenNeverEnds | StreamHelper.cs:10-15 | as written, the copy loop never ends when the source holds fewer than `length` bytes: after any number of passes something is still left to copy |
| Streams.CopyOneByteFromEmptyStreamAsWritten | StreamHelper.cs:22-28 | as written, copying or hashing one byte from an empty stream stays in the same state on every pass |
| ZipFormat.ParseEocd | ZipFormat.cs:94-112 | the record parses exactly when the signature matches and 22 bytes are there; `Size` is the window length; `IsZip64` holds exactly when the directory offset is 0xFFFFFFFF; the comment is read only on request, truncated at the window end |
| ZipFormat.ParseEocd64Locator | ZipFormat.cs:114-125 | the locator parses exactly when the signature matches and 20 bytes are there; otherwise a signature error or `EndOfStream` |
| ZipFormat.Eocd64TotalSize | ZipFormat.cs:142 | the declared size plus 12 wraps modulo 2^64, as `ulong` addition does |
| ZipFormat.GetEocd64Size | ZipFormat.cs:127-133 | the size read agrees with `ParseEocd64`'s `Size` cast to `long`; for a declared size below 2^63 - 12 it is that size plus 12 |
| ZipFormat.ParseEocd64 | ZipFormat.cs:135-152 | the record parses exactly when the signature matches and 56 bytes are there; `Size` is the declared size plus 12, with wrap-around |
| ZipFormat.ParseLocalFileHeader | ZipFormat.cs:207-227 | the header parses exactly when the signature matches and 30 bytes are there; `Size` is 30 plus the name and extra lengths; the compressed size is the 32-bit field |
| ZipFormat.Zip64Override | ZipFormat.cs:188-198 | a 0x0001 sub-record never changes the record's size or file name |
| ZipFormat.Zip64OverrideKeepsFields | ZipFormat.cs:188-198 | a 0x0001 sub-record changes only the uncompressed size, compressed size, local header offset and start disk, and each only where it holds its sentinel |
| ZipFormat.ExtraFieldWalkWith | ZipFormat.cs:180-201 | the extra-field loop can only fail with `EndOfStream` |
| ZipFormat.ExtraFieldWalk | ZipFormat.cs:180-201 | the extra-field loop over the 0x0001 effect can only fail with `EndOfStream` |
| ZipFormat.ExtraFieldWalkWithStep | ZipFormat.cs:180-201 | one pass of the loop reads the header id and size, advances the counter by 4 + size and the reader past the data, and applies the sub-record |
| ZipFormat.ExtraFieldWalkStep | ZipFormat.cs:180-201 | the same pass for the tool's own effect |
| ZipFormat.ExtraFieldWalkKeepsFields | ZipFormat.cs:180-201 | the whole extra field changes only the overridable fields, and only those holding their sentinel |
| ZipFormat.KeepsFieldsReflexive | ZipFormat.cs:180 | an empty extra field changes nothing |
| ZipFormat.KeepsFieldsTransitive | ZipFormat.cs:180-201 | changing only sentinel fields, twice in a row, changes only sentinel fields |
| ZipFormat.DecodeCentralDirectoryFileHeader | ZipFormat.cs:154-205 | a bad signature is refused with its message; otherwise only `EndOfStream` can fail; a full 46-byte window whose extra field is shorter than 4 bytes always parses; `Size` is 46 plus the three lengths |
| ZipFormat.DecodeCentralDirectoryFileHeaderKeepsFields | ZipFormat.cs:160-201 | a decoded record has the fixed fields of its bytes, except the sentinel fields a Zip64 sub-record replaced |
| ZipFormat.ParseCentralDirectoryFileHeader | ZipFormat.cs:154-205 | the method with the extra-field loop returns what the decoding function specifies |
| ZipFormat.WalkExtraField | ZipFormat.cs:180-201 | the loop over the extra field returns what the walk specifies |
| ZipFormat.ApplyZip64Extra | ZipFormat.cs:188-198 | the four guarded reads from the sub-record give the Zip64 override |
| ZipFormat.EocdBytes | ZipFormat.cs:94-112 | the encoded end of central directory record is 22 bytes |
| ZipFormat.Eocd64LocatorBytes | ZipFormat.cs:114-125 | the encoded locator is 20 bytes |
| ZipFormat.Eocd64Bytes | ZipFormat.cs:135-152 | the encoded Zip64 record is 56 bytes |
| ZipFormat.LocalFileHeaderBytes | ZipFormat.cs:207-227 | the encoded local header is 30 bytes |
| ZipFormat.AllOnes32 | ZipFormat.cs:67 | a 32-bit field holds 0xFFFFFFFF exactly when its four bytes are 0xFF |
| ZipFormat.ParseEocdRoundTrip | ZipFormat.cs:94-112 | an encoded record with its comment parses back to itself, with the comment when asked for it and without it otherwise; it is Zip64 exactly when its offset is the sentinel |
| ZipFormat.ParseEocd64LocatorRoundTrip | ZipFormat.cs:114-125 | an encoded locator parses back to itself, whatever follows it |
| ZipFormat.ParseEocd64RoundTrip | ZipFormat.cs:135-152 | an encoded Zip64 record parses back to itself, whatever follows it |
| ZipFormat.ParseEocd64OfFields | ZipFormat.cs:135-152 | a window whose fields hold a record's values parses to that record |
| ZipFormat.Eocd64SizeOfDeclared | ZipFormat.cs:142 | a declared size of `size - 12` gives back `size` |
| ZipFormat.GetEocd64SizeRoundTrip | ZipFormat.cs:127-133 | the size read from an encoded Zip64 record is its total size |
| ZipFormat.Eocd64HeadFields | ZipFormat.cs:141-146 | the declared size, versions and disk numbers of an encoded Zip64 record read back |
| ZipFormat.Eocd64DirectoryFields | ZipFormat.cs:147-150 | the record counts, directory size and directory offset of an encoded Zip64 record read back |
| ZipFormat.ParseLocalFileHeaderRoundTrip | ZipFormat.cs:207-227 | an encoded local header parses back to itself, with `Size` set to 30 plus its name and extra lengths |
| ZipFormat.ExtraBytes | ZipFormat.cs:180-201 | an extra field is empty exactly when it has no sub-records |
| ZipFormat.ExtraFieldWalkOfRecords | ZipFormat.cs:180-201 | walking a laid-out extra field applies its sub-records in order |
| ZipFormat.ExtraBytesParts | ZipFormat.cs:182-184 | a laid-out extra field is the first sub-record's id, size and data, then the rest |
| ZipFormat.ExtraRecordAt | ZipFormat.cs:182-184 | at a laid-out extra field, the reads of the header id, the size and the data give the first sub-record, and the rest follows it |
| ZipFormat.CentralDirectoryFixedBytes | ZipFormat.cs:160-176 | the fixed part of an encoded central directory record is 46 bytes |
| ZipFormat.CentralDirectoryFileHeaderBytes | ZipFormat.cs:203 | an encoded record is 46 bytes plus its name, extra and comment lengths |
| ZipFormat.CentralDirectoryHeadFields | ZipFormat.cs:157-168 | the signature and the fields up to the compressed size of an encoded record read back |
| ZipFormat.CentralDirectoryTailFields | ZipFormat.cs:169-176 | the fields from the uncompressed size to the local header offset of an encoded record read back |
| ZipFormat.DecodeCentralDirectoryFileHeaderRoundTrip | ZipFormat.cs:154-205 | an encoded central directory record decodes to itself with its size set and each 0x0001 sub-record applied in order, whatever follows it |
| ZipFormat.DecodeOfLaidOutFields | ZipFormat.cs:154-205 | a window holding a record's fixed fields and extra field decodes to that record, extended |
| ZipFormat.DecodeOfWalk | ZipFormat.cs:178-204 | a window whose extra-field walk succeeds decodes to the walked record with `Size` set |
| ZipFormat.CentralDirectoryRawFields | ZipFormat.cs:157-178 | an encoded record starts with the signature, its fixed fields read back, and its extra field follows the name |
| ZipFormat.ApplyOneExtra | ZipFormat.cs:188 | an extra field of one sub-record applies that sub-record |
| ZipFormat.ApplyExtrasIgnoresSize | ZipFormat.cs:203 | setting `Size` after the extra field equals setting it before |
| ZipFormat.Zip64OverrideOfAppNoteLayout | ZipFormat.cs:188-198 | a sub-record laid out per APPNOTE section 4.5.3 replaces exactly the sentinel fields, each with its own value |
| ZipFormat.Zip64CentralDirectoryRecordRoundTrip | ZipFormat.cs:154-205 | a record carrying such a sub-record decodes with its 64-bit values in place of exactly its sentinel fields |
| ZipArchive.SignatureStartsWith | ZipArchive.cs:44 | the four-byte test at `i` matches exactly when the bytes from `i` start with the signature |
| ZipArchive.LastEocdSignature | ZipArchive.cs:42-46 | the search returns the highest index at or below `i` where the signature lies, or none when none lies there |
| ZipArchive.EocdSearchWindow | ZipArchive.cs:32-36 | the search window is the last min(512, length) bytes |
| ZipArchive.SignaturesInWindow | ZipArchive.cs:35-36 | a signature in the window is a signature in the file, shifted by the window start |
| ZipArchive.FindEocd | ZipArchive.cs:30-52 | a record found is 22 to min(512, length) bytes from the end and parses from there; failure is "failed to find EOCD" or `EndOfStream` |
| ZipArchive.FindEocdFindsLastSignature | ZipArchive.cs:41-51 | the record found starts at a signature with no later one, and the search fails exactly when the last 512 bytes hold none |
| ZipArchive.EocdScanAsWrittenOverrunsBuffer | ZipArchive.cs:42-46 | a 25-byte archive ending with the comment `PK\x05` makes the scan as written index past the buffer, although a record is there |
| ZipArchive.LastEocdSignatureSkips | ZipArchive.cs:42-46 | indices without a signature are passed over |
| ZipArchive.EocdScanAsWrittenAgrees | ZipArchive.cs:42-49 | from one below the written start, the scan as written finds what the corrected search finds |
| ZipArchive.EocdScanAsWrittenAgreesAtEnd | ZipArchive.cs:42-49 | unless the file ends with `PK\x05`, the scan as written equals the corrected search |
| ZipArchive.DecodeAdvances | ZipArchive.cs:106 | every decoded record is at least 46 bytes, so the inner loop advances |
| ZipArchive.WalkWith | ZipArchive.cs:93-108 | the inner loop yields at most the remaining count of records; it stays put exactly when it yields none; it fails only on an error other than `EndOfStream`, before the count is reached |
| ZipArchive.Walk | ZipArchive.cs:93-108 | the same, for the tool's central directory decoder |
| ZipArchive.WalkStepIsWalk | ZipArchive.cs:93-108 | one pass of the inner loop either ends the walk with its result or moves to a state with the same result, one record fewer to go and a later index |
| ZipArchive.WalkWithTakes | ZipArchive.cs:98-107 | a decoded record is yielded, and the walk moves past its size |
| ZipArchive.WalkWithStops | ZipArchive.cs:98-103 | `EndOfStream` ends the window quietly, and any other error ends the walk with it |
| ZipArchive.ReadInto | ZipArchive.cs:90 | a read into the buffer at `off` fills what the file has there and leaves the rest of the buffer alone |
| ZipArchive.CopyToFront | ZipArchive.cs:112 | the unread tail moves to the front of the buffer |
| ZipArchive.ZipArchive.constructor | ZipArchive.cs:19 | a new archive holds empty records |
| ZipArchive.ZipArchive.Clear | ZipArchive.cs:11-16 | `Clear` resets the three records and keeps the locator offset |
| ZipArchive.ZipArchive.Eocd64At | ZipArchive.cs:66-79 | the Zip64 record read at an offset has the total size declared there |
| ZipArchive.ZipArchive.ReadHeaders | ZipArchive.cs:18-28 | the end of central directory record is the one `FindEocd` finds, or its failure is returned with the records cleared; a non-Zip64 archive leaves the Zip64 records empty; a Zip64 one reads the locator and then the record it points to; it succeeds exactly when `Directory` locates the central directory, and then the offset and record count it uses are those |
| ZipArchive.ZipArchive.ReadZip64Records | ZipArchive.cs:23-27 | the locator and the Zip64 record are read when, and only when, both are there |
| ZipArchive.ZipArchive.ReadEocd | ZipArchive.cs:30-52 | the record is read exactly when `FindEocd` finds one, and the other fields stay |
| ZipArchive.ZipArchive.ReadEocd64Locator | ZipArchive.cs:54-64 | the locator offset is length minus the record size minus 20; the locator is read exactly when it lies inside the file and starts with its signature |
| ZipArchive.ZipArchive.ReadEocd64 | ZipArchive.cs:66-79 | the Zip64 record is read at the locator's offset exactly when it can be; an offset of 2^63 or more is a negative seek |
| ZipArchive.ZipArchive.ReadEocd64At | ZipArchive.cs:66-79 | the 12-byte size read, the resize and the second read give the Zip64 record exactly when it is readable |
| ZipArchive.ZipArchive.ReadEocd64Rest | ZipArchive.cs:73-78 | after the size read, the `int` casts, the resize and the rest read give the record exactly when it is readable |
| ZipArchive.ZipArchive.ReadFileHeaders | ZipArchive.cs:81-115 | at most the directory's entry count is yielded; an empty directory yields nothing and succeeds; a negative directory offset fails the seek; the first window yields what the walk of the first `bufSize` bytes yields |
| ZipArchive.ZipArchive.ReadWindow | ZipArchive.cs:89-108 | one window: the seek, the read into the buffer, then the walk of what is in the buffer |
| ZipArchive.ZipArchive.WalkWindow | ZipArchive.cs:93-108 | the inner loop yields what `Walk` specifies |
| ZipArchive.ZipArchive.WalkWindowStep | ZipArchive.cs:95-107 | one pass of the inner loop is one `WalkStep` |
| ZipArchive.ZipArchive.ReadLocalFileHeader | ZipArchive.cs:117-123 | a local header is read exactly when 30 bytes starting with its signature are there; a short read is the tool's own error |
| ZipArchive.ToInt32 | ZipArchive.cs:74-75 | the `(int)` cast keeps the value modulo 2^32 in the `int` range, and values that fit are unchanged |
| ZipArchive.Eocd64HeadInFile | ZipArchive.cs:70-73 | the 12 bytes read at the offset hold the signature and declared size of the file there |
| ZipArchive.Eocd64Casts | ZipArchive.cs:73-75 | the resize and the second read are valid exactly when the total size is from 12 to below 2^31 |
| Receipt.HeaderBytes | ReceiptFileWriter.cs:21-33 | the header is 4 + 1 + 1 + hash length + 8 bytes |
| Receipt.SharedChunkBytes | ReceiptFileWriter.cs:35-42 | a shared chunk is 2 + hash length bytes |
| Receipt.DataChunkHeaderBytes | ReceiptFileWriter.cs:44-56 | a data chunk header is 9 bytes above 65535 and 3 otherwise |
| Receipt.CallEstimateMatches | ReceiptFileWriter.cs:73-106 | for each writer call the binary writer accepts, the estimator adds exactly the number of bytes written |
| Receipt.EstimateMatchesEmit | ReceiptFileWriter.cs:69-107 | for any sequence of calls the binary writer accepts, the estimator's total is the length of what is written |
| Receipt.EstimatorAcceptsLongFileHash | ReceiptFileWriter.cs:73-76 | the converse fails: the estimator counts a 256-byte file hash that the binary writer refuses |
| Receipt.BinaryReceiptFileWriter.constructor | ReceiptFileWriter.cs:16-19 | the writer writes to the given output |
| Receipt.BinaryReceiptFileWriter.Perform | ReceiptFileWriter.cs:12-67 | any call writes its bytes at the position, or writes nothing and fails |
| Receipt.BinaryReceiptFileWriter.WriteHeader | ReceiptFileWriter.cs:21-33 | a hash over 255 bytes is refused with nothing written; otherwise the header bytes are written |
| Receipt.BinaryReceiptFileWriter.WriteSharedChunk | ReceiptFileWriter.cs:35-42 | a hash over 255 bytes is refused with nothing written; otherwise type 1, the length and the hash are written |
| Receipt.BinaryReceiptFileWriter.StartDataChunk | ReceiptFileWriter.cs:44-56 | type 3 with a 64-bit length above 65535, else type 2 with a 16-bit length |
| Receipt.BinaryReceiptFileWriter.WriteDataChunkContent | ReceiptFileWriter.cs:58-61 | the content is written as is |
| Receipt.BinaryReceiptFileWriter.WriteDataChunkContentRange | ReceiptFileWriter.cs:63-66 | the range is written when it lies inside the array, and refused with nothing written otherwise |
| Receipt.BinaryReceiptFileEstimator.constructor | ReceiptFileWriter.cs:71 | a new estimator counts zero bytes |
| Receipt.BinaryReceiptFileEstimator.Perform | ReceiptFileWriter.cs:69-107 | any call adds its estimate, or fails with nothing added |
| Receipt.BinaryReceiptFileEstimator.WriteHeader | ReceiptFileWriter.cs:73-76 | adds 14 plus the hash length, with no length check |
| Receipt.BinaryReceiptFileEstimator.WriteSharedChunk | ReceiptFileWriter.cs:78-83 | refuses a hash over 255 bytes, else adds 2 plus its length |
| Receipt.BinaryReceiptFileEstimator.StartDataChunk | ReceiptFileWriter.cs:85-91 | adds 9 above 65535, else 3 |
| Receipt.BinaryReceiptFileEstimator.WriteDataChunkContent | ReceiptFileWriter.cs:93-96 | adds the content length |
| Receipt.BinaryReceiptFileEstimator.WriteDataChunkContentRange | ReceiptFileWriter.cs:98-101 | adds the range length without checking the range |
| Receipt.BinaryReceiptFileEstimator.WriteDataChunkContentLength | ReceiptFileWriter.cs:103-106 | adds the given length |
| Receipt.Perform | ReceiptFileWriter.cs:3-10 | a call through the writer interface does what the binary writer or the estimator does |
| Receipt.CheckSignature | ReceiptFileReader.cs:48-52 | the signature is accepted exactly when it is `ZipS` followed by version 1; "bad sig" before "bad version" |
| Receipt.DecodeHeader | ReceiptFileReader.cs:46-58 | a decoded header lies inside the data after magic and version; its hash is the length-prefixed bytes and its size the `long` after them; bad magic and bad version give their messages |
| Receipt.DecodeChunkHeader | ReceiptFileReader.cs:60-87 | a shared chunk carries the length-prefixed hash, cut short only at the end of the data; a data chunk's size is the 16-bit or the 64-bit field cast to `long`; each type succeeds exactly when its 2, 3 or 9 bytes are there and otherwise fails with `EndOfStream`; any other type is "unknown chunk type" |
| Receipt.BinaryReceiptFileReader.constructor | ReceiptFileReader.cs:41-44 | the reader reads from the given stream |
| Receipt.BinaryReceiptFileReader.ReadBytes | ReceiptFileReader.cs:55 | `ReadBytes` returns what is there, up to the count |
| Receipt.BinaryReceiptFileReader.ReadByte | ReceiptFileReader.cs:62 | `ReadByte` returns the next byte, or `EndOfStream` at the end |
| Receipt.BinaryReceiptFileReader.ReadFixed | ReceiptFileReader.cs:56 | a fixed-width read succeeds exactly when all its bytes are there, else `EndOfStream` |
| Receipt.BinaryReceiptFileReader.ReadHeader | ReceiptFileReader.cs:46-58 | the header read is the one `DecodeHeader` specifies, and the stream ends up after it |
| Receipt.BinaryReceiptFileReader.ReadChunkHeader | ReceiptFileReader.cs:60-87 | the chunk header read is the one `DecodeChunkHeader` specifies, and the stream ends up after it |
| Receipt.BinaryReceiptFileReader.IsEof | ReceiptFileReader.cs:89-92 | end of file exactly when the position is the length |
| Receipt.SignatureAccepted | ReceiptFileReader.cs:48-52 | the written magic and version pass the reader's check |
| Receipt.HeaderLayout | ReceiptFileWriter.cs:25-32 | the header is magic, version 1, the hash length, the hash and the size as a `ulong` |
| Receipt.HeaderRoundTrip | ReceiptFileReader.cs:46-58 | a written header reads back as the same hash and size, wherever it lies |
| Receipt.DecodeHeaderOfParts | ReceiptFileReader.cs:46-58 | a header whose parts read back decodes to them |
| Receipt.SharedChunkRoundTrip | ReceiptFileReader.cs:66-71 | a written shared chunk reads back as the same hash |
| Receipt.DataChunkRoundTrip | ReceiptFileReader.cs:72-83 | a written data chunk header reads back as the same size, for either width |
| Receipt.NonCanonicalDataChunkAccepted | ReceiptFileReader.cs:78-83 | the reader also accepts a 64-bit length the writer would write as 16 bits |
| Receipt.NextRecord | ReceiptFileReader.cs:60-87 | a record read lies inside the data and moves the position forward |
| Receipt.RecordRoundTrip | ReceiptFileWriter.cs:35-66 | a written record, shared or inline, reads back as itself |
| Receipt.ReferenceRecordRoundTrip | ReceiptFileWriter.cs:35-42 | a written shared chunk reads back as a reference to the same hash |
| Receipt.InlineRecordRoundTrip | ReceiptFileWriter.cs:44-66 | a data chunk header and its content read back as the same inline bytes |
| Receipt.ReadRecordsStep | ReceiptFileReader.cs:80-82 | reading the records is one record, then the records after it |
| Receipt.FramedOfBytes | ReceiptFileWriter.cs:35-66 | written records lie one after the other in the data |
| Receipt.ParsesOfFramed | ReceiptFileReader.cs:60-87 | records that lie one after the other each read back |
| Receipt.FramedHead | ReceiptFileReader.cs:60-87 | the first framed record is read, and the rest are framed after it |
| Receipt.ParsesRoundTrip | ReceiptFileReader.cs:80-82 | reading to the end gives the framed records |
| Receipt.RecordsRoundTrip | ReceiptFileReader.cs:80-82 | any written sequence of records reads back as itself |
| Receipt.ReceiptRoundTrip | ReceiptFileReader.cs:46-87 | a whole receipt, header and records, reads back as written |
| ChunkStorage.CombineInjective | SharedDataChunkStorage.cs:110 | two names joined to one directory give the same path only if they are the same |
| ChunkStorage.SharedDataChunkStorageEstimator.constructor | SharedDataChunkStorage.cs:14-16 | a new estimator has seen no digest and counts zero bytes in zero chunks |
| ChunkStorage.SharedDataChunkStorageEstimator.OpenChunk | SharedDataChunkStorage.cs:18-21 | the estimator cannot open chunks |
| ChunkStorage.SharedDataChunkStorageEstimator.AddChunk | SharedDataChunkStorage.cs:23-30 | a digest seen before changes nothing; a new one is recorded and counted with its length |
| ChunkStorage.DigestsOfCons | SharedDataChunkStorage.cs:23-30 | the digests of a call sequence are the first one and those of the rest |
| ChunkStorage.KeysExactly | SharedDataChunkStorage.cs:25-27 | a digest's Base64 key is in the key set exactly when the digest was added before |
| ChunkStorage.EstimatorAddKeys | SharedDataChunkStorage.cs:23-30 | one `AddChunk` on a key set of digests adds the digest and its length exactly when it is new |
| ChunkStorage.EstimatorCountsFirstSightings | SharedDataChunkStorage.cs:23-30 | after any sequence of calls, `TotalSize` and `Count` add up the first call of each new digest, and the key set is the digests seen |
| ChunkStorage.EstimatorSeenAgain | SharedDataChunkStorage.cs:25-26 | a call with a known digest is skipped |
| ChunkStorage.EstimatorSeenFirst | SharedDataChunkStorage.cs:27-29 | a call with a new digest counts its length |
| ChunkStorage.FirstSightingsAreDistinctDigests | SharedDataChunkStorage.cs:29 | `Count` rises by the number of distinct new digests |
| ChunkStorage.SaveOneMore | SharedDataChunkStorage.cs:143-146 | saving one more dirty bucket is saving the larger set |
| ChunkStorage.DiskDataChunkStorage.constructor | SharedDataChunkStorage.cs:63-69 | a new store has no cached index, nothing dirty and zero counters |
| ChunkStorage.DiskDataChunkStorage.OpenIndexForHash | SharedDataChunkStorage.cs:76-93 | the bucket's index comes from the cache, else from the saved index, else it is empty, and it is cached from then on; an empty digest has no bucket |
| ChunkStorage.DiskDataChunkStorage.SaveIndexImmediately | SharedDataChunkStorage.cs:95-104 | the bucket's saved index becomes the given one |
| ChunkStorage.DiskDataChunkStorage.WriteBlob | SharedDataChunkStorage.cs:125-134 | the blob at bucket/hex is overwritten from its start with the next `length` bytes; on success the index gets an entry of that size and the counters rise |
| ChunkStorage.DiskDataChunkStorage.AddChunk | SharedDataChunkStorage.cs:114-139 | the store changes as `AddChunkResult` says, and the source stream ends where it started |
| ChunkStorage.DiskDataChunkStorage.Flush | SharedDataChunkStorage.cs:141-149 | every dirty bucket's cached index is saved, and nothing is dirty afterwards |
| ChunkStorage.BucketPathIsFirstByte | SharedDataChunkStorage.cs:71-74 | two digests share a bucket exactly when their first bytes agree |
| ChunkStorage.ChunkPathInjective | SharedDataChunkStorage.cs:106-111 | two digests with the same chunk path are equal |
| ChunkStorage.OpenIndexLoadsOnce | SharedDataChunkStorage.cs:76-93 | opening an index twice is opening it once; a cached index is kept; other buckets are unaffected |
| ChunkStorage.AddChunkRefusals | SharedDataChunkStorage.cs:116-119 | a read-only store refuses with its message and changes nothing; so does an empty digest |
| ChunkStorage.AddReferenceFacts | SharedDataChunkStorage.cs:137-138 | the reference is added to the digest's entry, the bucket becomes dirty, and nothing else changes |
| ChunkStorage.NewEntryFacts | SharedDataChunkStorage.cs:132-134 | a new digest gets an entry of its size with no references, and the counters rise by its length and by one |
| ChunkStorage.OpenIndexFacts | SharedDataChunkStorage.cs:76-93 | opening an index caches it and changes nothing else |
| ChunkStorage.AddChunkRecordsReference | SharedDataChunkStorage.cs:114-139 | after a successful add, the digest's entry in its bucket holds the reference and the bucket is dirty; other buckets are unchanged |
| ChunkStorage.AddChunkKnownDigest | SharedDataChunkStorage.cs:123-138 | a digest already indexed writes no blob and leaves the counters, only adding the reference |
| ChunkStorage.AddChunkNewDigest | SharedDataChunkStorage.cs:123-135 | a new digest writes its blob with the copied bytes, gets an entry with the reference, and raises the counters |
| ChunkStorage.AddChunkThenOpen | SharedDataChunkStorage.cs:106-139 | after adding a new digest, opening it gives the bytes copied; other blobs open as before |
| ChunkStorage.AddChunkStoresOnce | SharedDataChunkStorage.cs:123-138 | adding a digest again writes no blob and leaves the counters; with the same reference it changes nothing |
| ChunkStorage.FlushPersists | SharedDataChunkStorage.cs:141-149 | after `Flush` each dirty bucket's saved index is its cached one, other saved indexes stay, and every bucket loads as before |
| ChunkStorage.SharedStorage.OpenChunk | SharedDataChunkStorage.cs:5-10 | through the storage interface, the estimator cannot open chunks |
| ChunkStorage.AddChunk | SharedDataChunkStorage.cs:5-10 | `AddChunk` through the storage interface does what the estimator or the disk store does |
| ZipSplit.Candidates | ZipSplitHelper.cs:22-28 | at most one offset per entry |
| ZipSplit.CandidatesMembers | ZipSplitHelper.cs:23-28 | an offset is collected exactly when some entry of at least 64 KiB compressed has it as its local header offset, cast to `long` |
| ZipSplit.CollectOffsets | ZipSplitHelper.cs:22-28 | the loop collects the offsets `Candidates` specifies |
| ZipSplit.SortedCons | ZipSplitHelper.cs:30 | a value no greater than a sorted sequence's elements can go in front |
| ZipSplit.Insert | ZipSplitHelper.cs:30 | inserting keeps the sequence sorted and adds exactly the value |
| ZipSplit.SortOffsets | ZipSplitHelper.cs:30 | `Sort` gives a sorted permutation of the offsets |
| ZipSplit.CoveredIsRead | ZipSplitHelper.cs:59-62 | the bytes a step covers are what a read of its length returns |
| ZipSplit.PayloadIsRead | ZipSplitHelper.cs:62-64 | the compressed data is what the hash read returns |
| ZipSplit.Records | ZipSplitHelper.cs:37-71 | one receipt record per step |
| ZipSplit.EmittedAppend | ZipSplitHelper.cs:37-71 | the bytes written for two runs of steps are those of each, in order |
| ZipSplit.EstimatedAppend | ZipSplitHelper.cs:37-71 | the estimate for two runs of steps is the sum of each |
| ZipSplit.ContentsAppend | ZipSplitHelper.cs:37-71 | the file bytes two runs of steps cover are those of each, in order |
| ZipSplit.EstimatedIsLength | ZipSplitHelper.cs:97-107 | the estimator's total for the steps is the length of what the binary writer writes |
| ZipSplit.RecordsWellFormed | ZipSplitHelper.cs:37-71 | every record the steps give fits the receipt format |
| ZipSplit.StepBytesIsRecord | ZipSplitHelper.cs:56-68 | a step writes exactly its receipt record |
| ZipSplit.EmittedIsRecords | ZipSplitHelper.cs:37-71 | what the split writes after the header is the bytes of its records |
| ZipSplit.FramableTail | ZipSplitHelper.cs:37-71 | the first of a run of writable steps lies inside the file, and the rest are writable |
| ZipSplit.ReadLocalHeader | ZipSplitHelper.cs:45-54 | the header is parsed from the 30 bytes at the offset, and the name is the next `FileNameLength` bytes; `Size` is 30 plus name plus extra; a short header read is the tool's own error |
| ZipSplit.LocalHeadersInside | ZipSplitHelper.cs:45-54 | the tool's header reader returns headers inside the file with 32-bit compressed sizes |
| ZipSplit.Entry | ZipSplitHelper.cs:45-66 | an entry that succeeds is the header read at its offset |
| ZipSplit.SplitOffset | ZipSplitHelper.cs:37-69 | a turn ends past its offset and, for the binary writer, inside the file; a position past the offset is "jumped over some data" |
| ZipSplit.SplitAll | ZipSplitHelper.cs:37-69 | the walk over the offsets ends inside the file for the binary writer |
| ZipSplit.Process | ZipSplitHelper.cs:33-71 | a successful split has a file hash that fits the header and ends with the inline rest of the file |
| ZipSplit.SplitOffsetShape | ZipSplitHelper.cs:40-66 | a turn is the gap, the local header and the compressed data, and its data lies inside the file |
| ZipSplit.SplitAllStops | ZipSplitHelper.cs:37-41 | after a failed turn the walk fails with it |
| ZipSplit.SplitAllAfterFailure | ZipSplitHelper.cs:37-41 | one more offset after a failure changes nothing |
| ZipSplit.SplitAllPassesOffsets | ZipSplitHelper.cs:40-66 | a successful walk ends past every offset |
| ZipSplit.FramableAppend | ZipSplitHelper.cs:37-71 | two runs of writable steps together are writable |
| ZipSplit.JoinTiles | ZipSplitHelper.cs:37-71 | steps covering adjacent stretches cover their union |
| ZipSplit.JoinContents | ZipSplitHelper.cs:37-71 | contents of adjacent stretches join |
| ZipSplit.OneTile | ZipSplitHelper.cs:59-66 | one step inside the file covers its stretch |
| ZipSplit.EntryTiles | ZipSplitHelper.cs:45-66 | the local header and its compressed data cover the entry's bytes without gap or overlap |
| ZipSplit.Tiles | ZipSplitHelper.cs:40-66 | a turn covers the bytes from the position to the end of the entry's data |
| ZipSplit.SplitOffsetTiles | ZipSplitHelper.cs:40-66 | a successful turn of the binary writer covers the bytes from the position to where it ends |
| ZipSplit.SplitAllTiles | ZipSplitHelper.cs:37-69 | the walk covers the file from its start to where it ends |
| ZipSplit.ProcessTiles | ZipSplitHelper.cs:33-71 | the steps of a successful split cover the whole file, in order, without gap or overlap |
| ZipSplit.RestTiles | ZipSplitHelper.cs:71 | the inline rest completes the covering |
| ZipSplit.SplitOffsetEstimatorAgrees | ZipSplitHelper.cs:97-107 | a turn that succeeds for the binary writer gives the same for the estimator |
| ZipSplit.SplitAllEstimatorAgrees | ZipSplitHelper.cs:97-107 | so does the whole walk |
| ZipSplit.ProcessEstimatorAgrees | ZipSplitHelper.cs:16-72 | a split that succeeds with the binary writer gives the same steps and storage with the estimator |
| ZipSplit.EstimateIsExact | ZipSplitHelper.cs:16-72 | the estimator's total for a split is exactly the length of the receipt the binary writer produces |
| ZipSplit.ReplayIsExpand | ZipSplitHelper.cs:80-92 | replaying the receipt from a position expands the records read from there |
| ZipSplit.ExpandRecords | ZipSplitHelper.cs:80-92 | with a store that serves each digest's data, the records expand to the bytes the steps cover |
| ZipSplit.ReceiptReplays | ZipSplitHelper.cs:74-92 | a receipt's header reads back, and replaying after it expands its records |
| ZipSplit.SplitThenRestore | ZipSplitHelper.cs:16-95 | restoring the receipt of a successful split, with a store that serves its chunks, gives back the original file |
| ZipSplitHelper.StateOf | ZipSplitHelper.cs:97-107 | the writer's state is bytes written for the binary writer and a count for the estimator |
| ZipSplitHelper.Wrote | ZipSplitHelper.cs:97-107 | writing moves the binary writer's position by the bytes and the estimator's size by the count |
| ZipSplitHelper.WroteTwice | ZipSplitHelper.cs:56-59 | two writes in a row are one write of both |
| ZipSplitHelper.WroteNothing | ZipSplitHelper.cs:42-43 | writing nothing changes nothing |
| ZipSplitHelper.CountedIgnoresBytes | ZipSplitHelper.cs:102-106 | the estimator's state does not depend on the bytes |
| ZipSplitHelper.StartChunk | ZipSplitHelper.cs:56 | `StartDataChunk` through the writer interface writes or counts the data chunk header |
| ZipSplitHelper.WriteContent | ZipSplitHelper.cs:57-58 | `WriteDataChunkContent` writes or counts the bytes |
| ZipSplitHelper.WriteShared | ZipSplitHelper.cs:68 | `WriteSharedChunk` refuses a hash over 255 bytes, else writes or counts the shared chunk |
| ZipSplitHelper.WriteFileHeader | ZipSplitHelper.cs:34 | `WriteHeader` writes or counts the header; only the binary writer refuses a hash over 255 bytes |
| ZipSplitHelper.CopyRawData | ZipSplitHelper.cs:97-116 | the binary writer gets the optional chunk header and the next `size` bytes, and fails with `EndOfStream` exactly when they are not there; the estimator counts them and seeks past, and fails only on a negative seek |
| ZipSplitHelper.PerformingPerforms | ZipSplitHelper.cs:37-71 | the writer effect of a run of steps is writing what they emit |
| ZipSplitHelper.PerformedThen | ZipSplitHelper.cs:37-71 | performing two runs of steps in a row is performing both |
| ZipSplitHelper.PerformedOne | ZipSplitHelper.cs:37-71 | writing a step's bytes performs that step |
| ZipSplitHelper.OneStep | ZipSplitHelper.cs:37-71 | a run of one step writes that step's bytes |
| ZipSplitHelper.TheWalker | ZipSplitHelper.cs:16-72 | the walker of a `ProcessZip` call drives its writer and storage |
| ZipSplitHelper.Outcome | ZipSplitHelper.cs:16-72 | the outcome succeeds exactly when the result does, and keeps its failure |
| ZipSplitHelper.ReadLocalHeaderFrom | ZipSplitHelper.cs:45-52 | the two reads return the header and name `ReadLocalHeader` specifies, and the stream ends after the name |
| ZipSplitHelper.TurnIs | ZipSplitHelper.cs:40-66 | a turn whose entry succeeds has the gap, header and payload steps |
| ZipSplitHelper.CopyGap | ZipSplitHelper.cs:42-43 | the bytes up to the next local header are copied in one data chunk, when there are any |
| ZipSplitHelper.WriteGap | ZipSplitHelper.cs:42-43 | the same, stated as the bytes and count of the gap step |
| ZipSplitHelper.WriteGapChunk | ZipSplitHelper.cs:43 | a gap that is not empty writes one data chunk with the skipped bytes |
| ZipSplitHelper.GapChunk | ZipSplitHelper.cs:43 | the chunk header and the skipped bytes are what the gap step emits |
| ZipSplitHelper.CopyLocalHeader | ZipSplitHelper.cs:54-59 | the local header becomes one data chunk of its full size: the 30 bytes, the name and the extra field |
| ZipSplitHelper.WriteLocalHeader | ZipSplitHelper.cs:54-59 | the same, stated as the bytes and count of the header step |
| ZipSplitHelper.LocalHeaderChunk | ZipSplitHelper.cs:56-59 | the chunk header, the 30 bytes, the name and the extra field together are the header step |
| ZipSplitHelper.WriteHeaderChunk | ZipSplitHelper.cs:56-58 | the chunk header, the fixed bytes and the name are written in that order |
| ZipSplitHelper.RawChunk | ZipSplitHelper.cs:56-59 | a data chunk header followed by a stretch of the file is its inline step |
| ZipSplitHelper.WroteFour | ZipSplitHelper.cs:56-59 | four writes in a row are one write of all four |
| ZipSplitHelper.HeaderSlices | ZipSplitHelper.cs:45-59 | the 30 bytes, the name and the extra field are the local header's stretch of the file |
| ZipSplitHelper.AddPayload | ZipSplitHelper.cs:61-66 | the compressed data is hashed and handed to the storage under that digest with the archive path and file name; past the end of the file it fails with `EndOfStream` and the storage is unchanged; afterwards the stream is past the data |
| ZipSplitHelper.StorePayload | ZipSplitHelper.cs:61-68 | after the add, the digest is written as a shared chunk, or refused if over 255 bytes |
| ZipSplitHelper.StoredIs | ZipSplitHelper.cs:59-68 | the rest of a turn fails at the end of the file, fails as the storage fails, refuses a long digest, or succeeds |
| ZipSplitHelper.StoreEntry | ZipSplitHelper.cs:54-68 | the local header chunk, the add and the shared chunk together do what `Stored` says |
| ZipSplitHelper.EntryAt | ZipSplitHelper.cs:45-68 | reading the header and storing the entry do what `Entry` says |
| ZipSplitHelper.SplitEntry | ZipSplitHelper.cs:37-69 | one pass of the loop does what `SplitOffset` says, to the storage, the stream and the writer |
| ZipSplitHelper.SplitFile | ZipSplitHelper.cs:36-69 | the loop over the sorted offsets does what `SplitAll` says |
| ZipSplitHelper.CopyRest | ZipSplitHelper.cs:71 | the rest of the file after the last entry is copied in one data chunk |
| ZipSplitHelper.WalkThenRest | ZipSplitHelper.cs:36-71 | the loop and then the rest write the walk's steps followed by the inline rest |
| ZipSplitHelper.HashIntoHeader | ZipSplitHelper.cs:32-34 | the receipt starts with the digest of the whole file and its length |
| ZipSplitHelper.ReadAll | ZipSplitHelper.cs:33 | reading the file's length from its start reads the whole file |
| ZipSplitHelper.SplitWithOffsets | ZipSplitHelper.cs:32-71 | with the offsets known, the writer gets the header and then what `Process` emits, and the storage is as `Process` says |
| ZipSplitHelper.WalkProcess | ZipSplitHelper.cs:36-71 | the walk and the rest write what `Process` emits |
| ZipSplitHelper.ProcessIsWalk | ZipSplitHelper.cs:36-71 | `Process` is the walk over the offsets followed by the inline rest |
| ZipSplitHelper.ReadOffsets | ZipSplitHelper.cs:18-30 | a missing end of central directory record fails the call; the records read are those of the archive's own central directory as `DirectoryRead` states it (none for an empty directory, a failed seek for a negative offset, otherwise the walk over the directory's first window); on success the offsets are the sorted candidates of those records |
| ZipSplitHelper.ProcessZip | ZipSplitHelper.cs:16-72 | until the offsets are read a failure changes neither writer nor storage; the records the offsets come from are the archive's own central directory records, as `DirectoryRead` states; afterwards the storage and outcome are those of `Process` on the sorted candidate offsets of those records, and the receipt is the header followed by what the steps emit |
| ZipSplitHelper.StoreLookup | ZipSplitHelper.cs:89-90 | a digest looks up what the storage's `OpenChunk` returns for it |
| ZipSplitHelper.Prepend | ZipSplitHelper.cs:80-92 | the bytes already written come before the rest of the replay |
| ZipSplitHelper.PrependTwice | ZipSplitHelper.cs:80-92 | two prefixes in a row are one of both |
| ZipSplitHelper.ReplayStep | ZipSplitHelper.cs:80-92 | a replay is the first record's bytes followed by the replay after it |
| ZipSplitHelper.ReplayGoesOn | ZipSplitHelper.cs:80-92 | after one more record, the bytes written so far include that record's bytes |
| ZipSplitHelper.ReplayStops | ZipSplitHelper.cs:82-90 | a chunk header that does not read, or a digest the storage cannot open, fails the whole replay |
| ZipSplitHelper.RestoreChunk | ZipSplitHelper.cs:82-91 | one pass reads a chunk header, then copies its inline data or the stored blob to the output |
| ZipSplitHelper.ReplayInto | ZipSplitHelper.cs:80-92 | the loop writes what `Replay` gives from the position, or fails as it fails |
| ZipSplitHelper.Presized | ZipSplitHelper.cs:77-78 | with `useSetLength` the output is first sized to the recorded file size |
| ZipSplitHelper.RestoreOriginalFile | ZipSplitHelper.cs:74-95 | a bad header fails with nothing written; a negative size with `useSetLength` is refused; otherwise the replay is written over the presized output and the recorded file hash is returned |
| ZipSplitHelper.FreshOutputHoldsReplay | ZipSplitHelper.cs:74-95 | into a new output, with or without `SetLength`, the output ends up holding exactly the replayed bytes |
| ZipSplitHelper.SplitThenRestoreFile | ZipSplitHelper.cs:16-95 | restoring into a new output the receipt `ProcessZip` writes, with a store that serves its chunks, gives back the original file |
| ZipSplitHelper.FreshReceipt | ZipSplitHelper.cs:34 | a receipt written into a new output holds the header followed by the chunks |

## Left out

- `Program.cs` is not part of this model. It covers command-line handling, directory walking and the choice of writer and store.
- SHA-256 is the parameter `H`. Its internals are not modelled.
- `Encoding.UTF8.GetString` is the parameter `Decode`.
- The file system is maps. `Directory.Exists`, `CreateDirectory`, the temporary file and the atomic `File.Move` are not modelled. Neither is the lock file or `Dispose`.
- JSON serialisation of the index is not modelled: an index is saved and loaded as the value it is.
- Paths are joined with `/` only; platform path rules are left out.
- Overflow of the `long` and `int` counters (`TotalSize`, `Count`, `AddedTotalSize`, `AddedCount`, the estimator's `Size`) is not modelled. The counters are unbounded integers.
- The contents of the receipt output after a failed write are not stated beyond what each call writes.
- `List.Sort` is the function `SortOffsets`: a sorted permutation, not the library's algorithm.
- The estimator store's `Flush` does nothing and is not modelled.
- `fileStream.CopyTo(output)` in `RestoreOriginalFile` is one write of the whole blob.
- ZipArchive.ZipArchive.ReadFileHeaders: the lazy `IEnumerable` is read to the end, and its contract states only what the first buffer window yields. Later windows, after the unread tail moves to the front (`CopyToFront`), are run but not specified.
- ZipSplitHelper.ReadOffsets: the records are tied to the central directory through the first buffer window only, as for `ReadFileHeaders`; for a directory larger than 4 MiB the later records are read but not specified.
- ZipSplitHelper.ProcessZip: the same first-window limit applies to the entries its offsets come from.
- `Stream.Read` and `BinaryReader.ReadBytes` return as many bytes as are there (`Streams.Available`). .NET allows a shorter read before the end; the corrected copy loops would still be right under it, but the as-written lemmas `Streams.CopyLoopAsWrittenNeverEnds` and `Streams.CopyOneByteFromEmptyStreamAsWritten` rely on this choice.
- ZipSplit.SplitThenRestore: it assumes, through `Serves`, a store that returns each digest's data. Writing and reading blobs is stated separately by `ChunkStorage.AddChunkThenOpen`.
- The model follows the code, not the description, on one point: the length of a shared chunk is the local header's 32-bit compressed size, not the central directory's.

## Findings

| source | as written | input that shows it | evidently intended | confidence | as-written member | corrected member |
|---|---|---|---|---|---|---|
| ZipArchive.cs:42-46 | the scan for the end of central directory signature starts at `buf.Length - 3` and tests `buf[i + 3]` | a file whose last three bytes are `PK\x05` (e.g. a record with the 3-byte comment `PK\x05`): the test reads one byte past the buffer and throws `IndexOutOfRangeException` | start the scan at `buf.Length - 4`, the last index where a whole signature fits | not executed | ZipArchive.EocdScanAsWrittenOverrunsBuffer | ZipArchive.FindEocdFindsLastSignature |
| StreamHelper.cs:10-15 | `CopyData` loops while `length > 0` and subtracts what `Read` returned, without checking for a read of zero bytes | copying one byte from an empty stream: every read returns nothing, and the loop never ends | stop with an end-of-stream error once a read returns nothing | not executed | Streams.CopyLoopAsWrittenNeverEnds | Streams.CopyData |
| StreamHelper.cs:22-28 | `HashData` has the same loop | hashing one byte from an empty stream never ends | the same check | not executed | Streams.CopyOneByteFromEmptyStreamAsWritten | Streams.HashData |
| ZipSplitHelper.cs:110-115 | the copy loop of `CopyRawData` is the same | a candidate offset past the end of the file: the gap copy before it (or the copy of a local header's extra field that runs past the end) never ends | the same check | not executed | Streams.CopyLoopAsWrittenNeverEnds | ZipSplitHelper.CopyRawData |
