/**
 * Seekable byte streams and the two bounded-buffer loops of `StreamHelper`:
 * `CopyData` (copy the next `length` bytes) and `HashData` (digest the next
 * `size` bytes). The SHA-256 digest is a parameter `H`: its internals are not
 * part of this model.
 */
module Streams {
  import opened Wrappers
  import opened Bytes

  /** Size of the stack buffer both loops read through: 4 MiB. */
  const BufferSize: nat := 4 * 1024 * 1024

  function Min(a: int, b: int): int
  {
    if a <= b then a else b
  }

  /**
   * What a read of `count` bytes at position `pos` returns: fewer bytes near the
   * end of the data, none at or past it (a `FileStream`/`MemoryStream` read).
   */
  function Available(data: Bytes, pos: nat, count: int): (r: Bytes)
    ensures count <= 0 || pos >= |data| ==> r == []
    ensures 0 < count && pos + count <= |data| ==> r == data[pos..pos + count]
    ensures 0 < count && pos < |data| < pos + count ==> r == data[pos..]
    ensures |r| <= (if count < 0 then 0 else count)
    ensures r == [] || pos + |r| <= |data|
    ensures 0 < |r| < count ==> pos + |r| == |data|
  {
    if count <= 0 || pos >= |data| then []
    else if pos + count <= |data| then data[pos..pos + count]
    else data[pos..]
  }

  /** A seekable, read-only stream over fixed contents; the position may lie past the end. */
  class InputStream {
    const data: Bytes
    var position: nat

    constructor (data: Bytes)
      ensures this.data == data && position == 0
    {
      this.data := data;
      position := 0;
    }

    /** `Seek(target, SeekOrigin.Begin)`: a negative target is an error, anything else is allowed. */
    method Seek(target: int) returns (r: Result<()>)
      modifies this
      ensures target >= 0 ==> r == Ok(()) && position == target
      ensures target < 0 ==> r == Err(SeekBeforeBegin) && position == old(position)
    {
      if target < 0 {
        return Err(SeekBeforeBegin);
      }
      position := target;
      return Ok(());
    }

    /** `Read(buffer[..count])`: returns what is available and advances past it. */
    method Read(count: nat) returns (chunk: Bytes)
      modifies this
      ensures chunk == Available(data, old(position), count)
      ensures position == old(position) + |chunk|
    {
      chunk := Available(data, position, count);
      position := position + |chunk|;
    }
  }

  /** `n` zero bytes: what a stream grown by `SetLength` holds past its old end. */
  function Zeros(n: nat): (r: Bytes)
    ensures |r| == n && forall k | 0 <= k < n :: r[k] == 0
  {
    seq(n, _ => 0)
  }

  /** The contents after writing `bytes` at `pos`: they overwrite what was there and may extend it. */
  function WriteAt(data: Bytes, pos: nat, bytes: Bytes): (r: Bytes)
    requires pos <= |data|
    ensures |r| == if pos + |bytes| <= |data| then |data| else pos + |bytes|
  {
    data[..pos] + bytes + (if pos + |bytes| < |data| then data[pos + |bytes|..] else [])
  }

  /** Before the write position nothing changes, then come the written bytes, then the rest of the old contents. */
  lemma WriteAtContents(data: Bytes, pos: nat, bytes: Bytes)
    requires pos <= |data|
    ensures var r := WriteAt(data, pos, bytes);
      && r[..pos] == data[..pos] && r[pos..pos + |bytes|] == bytes
      && (pos + |bytes| <= |data| ==> r[pos + |bytes|..] == data[pos + |bytes|..])
  {
  }

  /** Writing at the end appends. */
  lemma WriteAtEnd(data: Bytes, bytes: Bytes)
    ensures WriteAt(data, |data|, bytes) == data + bytes
  {
  }

  /** Two writes, the second where the first stopped, are one write of both. */
  lemma WriteAtTwice(data: Bytes, pos: nat, a: Bytes, b: Bytes)
    requires pos <= |data|
    ensures WriteAt(WriteAt(data, pos, a), pos + |a|, b) == WriteAt(data, pos, a + b)
  {
    var once := WriteAt(data, pos, a);
    assert once[..pos + |a|] == data[..pos] + a;
    if pos + |a| + |b| < |data| {
      assert once[pos + |a| + |b|..] == data[pos + |a| + |b|..];
    }
    assert data[..pos] + a + b == data[..pos] + (a + b);
  }

  /**
   * A writable, seek-free stream (a new file, or one opened with
   * `File.OpenWrite`): writes land at the position, overwriting what is there
   * and extending the stream when they run past its end.
   */
  class OutputStream {
    var data: Bytes
    var position: nat

    ghost predicate Valid()
      reads this
    {
      position <= |data|
    }

    /** A new, empty stream. */
    constructor ()
      ensures Valid() && data == [] && position == 0
    {
      data := [];
      position := 0;
    }

    /** A stream opened at position 0 over existing contents, which it does not truncate. */
    constructor Open(existing: Bytes)
      ensures Valid() && data == existing && position == 0
    {
      data := existing;
      position := 0;
    }

    method Write(bytes: Bytes)
      requires Valid()
      modifies this
      ensures Valid()
      ensures data == WriteAt(old(data), old(position), bytes)
      ensures position == old(position) + |bytes|
    {
      data := WriteAt(data, position, bytes);
      position := position + |bytes|;
    }

    /**
     * `SetLength(n)`: cuts the stream to `n` bytes or grows it with zeros; a
     * position past the new end moves to the end. A negative length is refused.
     */
    method SetLength(n: int) returns (r: Result<()>)
      requires Valid()
      modifies this
      ensures Valid()
      ensures n < 0 ==> r == Err(ArgumentOutOfRange) && data == old(data) && position == old(position)
      ensures n >= 0 ==> r.Ok? && |data| == n && position == Min(old(position), n)
      ensures n >= 0 ==> data == if n <= |old(data)| then old(data)[..n] else old(data) + Zeros(n - |old(data)|)
    {
      if n < 0 {
        return Err(ArgumentOutOfRange);
      }
      data := if n <= |data| then data[..n] else data + Zeros(n - |data|);
      position := Min(position, n);
      return Ok(());
    }
  }

  /**
   * `StreamHelper.CopyData`: appends the next `length` bytes of `from` to `to`,
   * reading at most min(remaining, 4 MiB) at a time. A read that returns nothing
   * ends the copy with `EndOfStream` (see `CopyLoopAsWrittenNeverEnds` for the loop
   * without that check).
   */
  method CopyData(from: InputStream, to: OutputStream, length: int64) returns (r: Result<()>)
    requires to.Valid()
    modifies from, to
    ensures to.Valid()
    ensures r == if length <= 0 || old(from.position) + length <= |from.data| then Ok(()) else Err(EndOfStream)
    ensures to.data == WriteAt(old(to.data), old(to.position), Available(from.data, old(from.position), length))
    ensures to.position == old(to.position) + |Available(from.data, old(from.position), length)|
    ensures from.position == old(from.position) + |Available(from.data, old(from.position), length)|
  {
    ghost var start := from.position;
    ghost var copied: Bytes := [];
    var remaining: int := length;
    while remaining > 0
      invariant if length > 0 then 0 <= remaining else remaining == length
      invariant |copied| == length - remaining && copied == Available(from.data, start, |copied|)
      invariant from.position == start + |copied|
      invariant to.Valid() && to.data == WriteAt(old(to.data), old(to.position), copied)
      invariant to.position == old(to.position) + |copied|
      decreases remaining
    {
      var count := Min(remaining, BufferSize);
      var chunk := from.Read(count);
      if |chunk| == 0 {
        AvailableStops(from.data, start, |copied|, count, length);
        return Err(EndOfStream);
      }
      AvailableExtends(from.data, start, |copied|, count);
      WriteAtTwice(old(to.data), old(to.position), copied, chunk);
      to.Write(chunk);
      copied := copied + chunk;
      remaining := remaining - |chunk|;
    }
    assert copied == Available(from.data, start, length);
    return Ok(());
  }

  /** A read that got all `n` bytes, then a read where it stopped, together are one read of both lengths. */
  lemma AvailableExtends(data: Bytes, start: nat, n: nat, count: nat)
    requires |Available(data, start, n)| == n
    ensures Available(data, start, n) + Available(data, start + n, count)
      == Available(data, start, n + |Available(data, start + n, count)|)
  {
    var chunk := Available(data, start, n);
    var next := Available(data, start + n, count);
    if next != [] {
      assert start + n + |next| <= |data|;
      assert chunk == data[start..start + n] || n == 0;
      assert next == data[start + n..start + n + |next|];
      assert data[start..start + n] + data[start + n..start + n + |next|] == data[start..start + n + |next|];
    }
  }

  /** Once a read where a full read stopped comes back empty, no longer read gets more. */
  lemma AvailableStops(data: Bytes, start: nat, n: nat, count: int, length: int)
    requires count > 0 && Available(data, start + n, count) == [] && n <= length
    requires |Available(data, start, n)| == n
    ensures Available(data, start, length) == Available(data, start, n)
  {
    if n > 0 {
      assert start + n >= |data|;
      assert start + n <= |data|;
    }
  }

  /** A non-empty read at `pos` extends the slice read so far from `start`. */
  lemma ReadAppends(data: Bytes, start: nat, pos: nat, count: int, chunk: Bytes)
    requires start <= pos && chunk != []
    requires chunk == Available(data, pos, count)
    ensures pos + |chunk| <= |data|
    ensures data[start..pos] + chunk == data[start..pos + |chunk|]
  {
  }

  /**
   * `StreamHelper.HashData`: feeds the next `size` bytes to the hasher in reads
   * of at most 4 MiB and returns the digest of exactly those bytes. A read that
   * returns nothing ends it with `EndOfStream`.
   */
  method HashData(stream: InputStream, size: int64, H: Bytes -> Bytes) returns (r: Result<Bytes>)
    modifies stream
    ensures r.Ok? <==> size <= 0 || old(stream.position) + size <= |stream.data|
    ensures r.Ok? ==> r.value == H(Available(stream.data, old(stream.position), size))
    ensures r.Ok? ==> stream.position == old(stream.position) + |Available(stream.data, old(stream.position), size)|
    ensures r.Err? ==> r.error == EndOfStream
  {
    ghost var start := stream.position;
    var remaining: int := size;
    var hashed: Bytes := [];  // what TransformBlock has been given so far
    while remaining > 0
      invariant size > 0 ==> 0 <= remaining <= size
      invariant size <= 0 ==> remaining == size
      invariant stream.position == start + (size - remaining)
      invariant remaining < size ==> stream.position <= |stream.data|
      invariant hashed == if remaining == size then [] else stream.data[start..stream.position]
      decreases remaining
    {
      var count := Min(remaining, BufferSize);
      var chunk := stream.Read(count);
      if |chunk| == 0 {
        return Err(EndOfStream);
      }
      ReadAppends(stream.data, start, stream.position - |chunk|, count, chunk);
      hashed := hashed + chunk;
      remaining := remaining - |chunk|;
    }
    return Ok(H(hashed));
  }

  /**
   * One pass of the copy/hash loop body as the tool writes it: read at most
   * min(remaining, 4 MiB) bytes at `pos`, then subtract what was read. The tool
   * does not test for a read of zero bytes.
   */
  function CopyStepAsWritten(data: Bytes, pos: nat, remaining: int): (nat, int)
  {
    var chunk := Available(data, pos, Min(remaining, BufferSize));
    (pos + |chunk|, remaining - |chunk|)
  }

  /** The loop state after `n` passes, stopping early once `remaining` is no longer positive. */
  function CopyLoopAsWritten(data: Bytes, pos: nat, remaining: int, n: nat): (nat, int)
    decreases n
  {
    if n == 0 || remaining <= 0 then (pos, remaining)
    else
      var (pos', remaining') := CopyStepAsWritten(data, pos, remaining);
      CopyLoopAsWritten(data, pos', remaining', n - 1)
  }

  /**
   * As written, when fewer than `length` bytes remain in the source the loop
   * never ends: after any number of passes there is still something left to read.
   */
  lemma {:induction false} CopyLoopAsWrittenNeverEnds(data: Bytes, pos: nat, length: int, n: nat)
    requires length > 0 && pos + length > |data|
    ensures CopyLoopAsWritten(data, pos, length, n).1 > 0
    decreases n
  {
    if n > 0 {
      var (pos', remaining') := CopyStepAsWritten(data, pos, length);
      CopyLoopAsWrittenNeverEnds(data, pos', remaining', n - 1);
    }
  }

  /** The smallest such input: copying one byte out of an empty stream. */
  lemma CopyOneByteFromEmptyStreamAsWritten(n: nat)
    ensures CopyLoopAsWritten([], 0, 1, n) == (0, 1)
  {
    if n > 0 {
      CopyOneByteFromEmptyStreamAsWritten(n - 1);
    }
  }
}
