/**
 * Outcomes shared by every component: the tool signals every failure with an
 * exception, and the model returns the matching `Failure` instead.
 */
module Wrappers {

  /** One constructor per kind of exception the tool's code raises or lets through. */
  datatype Failure =
    | EndOfStream                   // a BinaryReader read past the end of its stream
    | FormatError(message: string)  // a `throw new Exception(...)` of the tool itself
    | IndexOutOfRange               // an array index one past the end
    | ArgumentOutOfRange            // a negative length handed to a library call
    | InvalidArgument               // an offset and count that run past the end of an array
    | SeekBeforeBegin               // a seek to a negative stream position
    | FileNotFound                  // opening a chunk blob that is not in the store
    | NotImplemented                // an operation the size estimator does not provide

  datatype Result<+T> = Ok(value: T) | Err(error: Failure) {
    predicate IsFailure() { Err? }

    function PropagateFailure<U>(): Result<U>
      requires Err?
    {
      Err(error)
    }

    function Extract(): T
      requires Ok?
    {
      value
    }
  }

  datatype Option<+T> = None | Some(value: T)
}

/**
 * Bytes and the little-endian integer layouts used by both the ZIP records
 * and the receipt format (`BinaryReader`/`BinaryWriter` are little-endian).
 */
module Bytes {

  type uint8 = x: int | 0 <= x < 0x100
  type Bytes = seq<uint8>

  const TWO_16: int := 0x1_0000
  const TWO_32: int := 0x1_0000_0000
  const TWO_63: int := 0x8000_0000_0000_0000
  const TWO_64: int := 0x1_0000_0000_0000_0000

  /** The C# `ushort`, `uint` and `ulong`. */
  type u16 = x: int | 0 <= x < 0x1_0000
  type u32 = x: int | 0 <= x < 0x1_0000_0000
  type u64 = x: int | 0 <= x < 0x1_0000_0000_0000_0000

  /** The C# `long`. */
  type int64 = x: int | -0x8000_0000_0000_0000 <= x < 0x8000_0000_0000_0000

  /** Unsigned little-endian decoders reading at byte position `p`. */
  function U16(s: Bytes, p: nat): (v: nat)
    requires p + 2 <= |s|
    ensures v < TWO_16
  {
    s[p] as int + 0x100 * (s[p + 1] as int)
  }

  function U32(s: Bytes, p: nat): (v: nat)
    requires p + 4 <= |s|
    ensures v < TWO_32
  {
    U16(s, p) + TWO_16 * U16(s, p + 2)
  }

  function U64(s: Bytes, p: nat): (v: nat)
    requires p + 8 <= |s|
    ensures v < TWO_64
  {
    U32(s, p) + TWO_32 * U32(s, p + 4)
  }

  /** Little-endian encoders; each one is undone by the decoder of the same width. */
  function LE16(n: nat): (r: Bytes)
    requires n < TWO_16
    ensures |r| == 2 && U16(r, 0) == n
  {
    [n % 0x100, n / 0x100]
  }

  function LE32(n: nat): (r: Bytes)
    requires n < TWO_32
    ensures |r| == 4 && U32(r, 0) == n
  {
    var lo, hi := LE16(n % TWO_16), LE16(n / TWO_16);
    DecodeAfter(lo, hi, 0);
    DecodeBefore(lo, hi, 0);
    lo + hi
  }

  function LE64(n: nat): (r: Bytes)
    requires n < TWO_64
    ensures |r| == 8 && U64(r, 0) == n
  {
    var lo, hi := LE32(n % TWO_32), LE32(n / TWO_32);
    DecodeAfter(lo, hi, 0);
    DecodeBefore(lo, hi, 0);
    lo + hi
  }

  /** A decoder reading inside `a` is not affected by what follows `a`. */
  lemma DecodeBefore(a: Bytes, b: Bytes, p: nat)
    ensures p + 2 <= |a| ==> U16(a + b, p) == U16(a, p)
    ensures p + 4 <= |a| ==> U32(a + b, p) == U32(a, p)
    ensures p + 8 <= |a| ==> U64(a + b, p) == U64(a, p)
  {
  }

  /** A decoder reading inside `b` is not affected by what precedes `b`. */
  lemma DecodeAfter(a: Bytes, b: Bytes, p: nat)
    ensures p + 2 <= |b| ==> U16(a + b, |a| + p) == U16(b, p)
    ensures p + 4 <= |b| ==> U32(a + b, |a| + p) == U32(b, p)
    ensures p + 8 <= |b| ==> U64(a + b, |a| + p) == U64(b, p)
  {
  }

  /** A decoder reading inside `c` is not affected by the two stretches before it. */
  lemma DecodeAfterTwo(a: Bytes, b: Bytes, c: Bytes, p: nat)
    ensures p + 4 <= |c| ==> U32(a + (b + c), |a| + |b| + p) == U32(c, p)
    ensures p + 8 <= |c| ==> U64(a + (b + c), |a| + |b| + p) == U64(c, p)
  {
    DecodeAfter(a, b + c, |b| + p);
    DecodeAfter(b, c, p);
  }

  /** A decoder reading inside a stretch of `s` equal to `t` reads what it reads in `t`. */
  lemma DecodeInside(s: Bytes, p: nat, t: Bytes)
    requires p + |t| <= |s| && s[p..p + |t|] == t
    ensures 2 <= |t| ==> U16(s, p) == U16(t, 0)
    ensures 4 <= |t| ==> U32(s, p) == U32(t, 0)
    ensures 8 <= |t| ==> U64(s, p) == U64(t, 0)
  {
    forall k | 0 <= k < |t|
      ensures s[p + k] == t[k]
    {
      assert s[p..p + |t|][k] == s[p + k];
    }
  }

  /** A stretch of a stretch of `s` equal to `t` is the matching stretch of `t`. */
  lemma SliceInside(s: Bytes, p: nat, t: Bytes, a: nat, b: nat)
    requires p + |t| <= |s| && s[p..p + |t|] == t
    requires a <= b <= |t|
    ensures s[p + a..p + b] == t[a..b]
  {
    forall k | 0 <= k < b - a
      ensures s[p + a..p + b][k] == t[a..b][k]
    {
      assert s[p..p + |t|][a + k] == s[p + a + k];
    }
  }

  /** The C# cast `(long)` of a `ulong`: values from 2^63 on become negative. */
  function ToInt64(u: nat): (x: int64)
    requires u < TWO_64
    ensures (x - u) % TWO_64 == 0
  {
    if u < TWO_63 then u else u - TWO_64
  }

  /** The C# cast `(ulong)` of a `long`: two's complement reinterpretation. */
  function ToUInt64(x: int64): (u: nat)
    ensures u < TWO_64 && ToInt64(u) == x
  {
    if x < 0 then x + TWO_64 else x
  }

  /** The C# cast `(ushort)` of a `long`: keeps the low 16 bits. */
  function ToUInt16(x: int): (u: nat)
    ensures u < TWO_16 && (x - u) % TWO_16 == 0
  {
    x % TWO_16
  }
}
