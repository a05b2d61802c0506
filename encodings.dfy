/**
 * The two text encodings of a digest the chunk store uses as keys:
 * `Convert.ToHexString` (upper-case hexadecimal, two digits per byte) and
 * `Convert.ToBase64String` (RFC 4648 section 4 alphabet, `=` padding). Both
 * are injective, which is what makes a key stand for exactly one digest.
 */
module Encodings {
  import opened Bytes

  // ---------------------------------------------------------------------------
  // Hexadecimal

  function HexDigit(v: nat): (c: char)
    requires v < 16
  {
    if v < 10 then ('0' as int + v) as char else ('A' as int + v - 10) as char
  }

  /** `Convert.ToHexString(s)`: the high then the low digit of each byte, in order. */
  function Hex(s: Bytes): (r: string)
    ensures |r| == 2 * |s|
  {
    seq(2 * |s|, i requires 0 <= i < 2 * |s| => if i % 2 == 0 then HexDigit(s[i / 2] / 16) else HexDigit(s[i / 2] % 16))
  }

  lemma HexDigitInjective(a: nat, b: nat)
    requires a < 16 && b < 16
    ensures HexDigit(a) == HexDigit(b) ==> a == b
  {
  }

  /** A byte is its two digits. */
  lemma HexByteInjective(x: uint8, y: uint8)
    requires HexDigit(x / 16) == HexDigit(y / 16) && HexDigit(x % 16) == HexDigit(y % 16)
    ensures x == y
  {
    HexDigitInjective(x / 16, y / 16);
    HexDigitInjective(x % 16, y % 16);
  }

  /** Distinct byte strings have distinct hexadecimal spellings. */
  lemma HexInjective(a: Bytes, b: Bytes)
    requires Hex(a) == Hex(b)
    ensures a == b
  {
    forall k | 0 <= k < |a| ensures a[k] == b[k] {
      assert Hex(a)[2 * k] == Hex(b)[2 * k] && Hex(a)[2 * k + 1] == Hex(b)[2 * k + 1];
      HexByteInjective(a[k], b[k]);
    }
  }

  // ---------------------------------------------------------------------------
  // Base64

  /** The digit for a 6-bit group: `A`-`Z`, `a`-`z`, `0`-`9`, `+`, `/`. */
  function Base64Digit(v: nat): (c: char)
    requires v < 64
    ensures c != '='
  {
    if v < 26 then ('A' as int + v) as char
    else if v < 52 then ('a' as int + v - 26) as char
    else if v < 62 then ('0' as int + v - 52) as char
    else if v == 62 then '+'
    else '/'
  }

  lemma Base64DigitInjective(a: nat, b: nat)
    requires a < 64 && b < 64
    ensures Base64Digit(a) == Base64Digit(b) ==> a == b
  {
  }

  /**
   * The four characters for a group of `n` bytes `x`, `y`, `z` (1 <= n <= 3,
   * with the missing bytes zero): the 6-bit digits, then `=` for each missing byte.
   */
  function Quad(x: uint8, y: uint8, z: uint8, n: nat): (q: string)
    requires 1 <= n <= 3
    ensures |q| == 4
  {
    [Base64Digit(x / 4), Base64Digit(x % 4 * 16 + y / 16),
     if n >= 2 then Base64Digit(y % 16 * 4 + z / 64) else '=',
     if n == 3 then Base64Digit(z % 64) else '=']
  }

  /**
   * `Convert.ToBase64String(s)`: each group of three bytes becomes four digits;
   * a final group of one or two bytes is padded with `=` to four characters.
   */
  function Base64(s: Bytes): (r: string)
    ensures |r| == 4 * ((|s| + 2) / 3)
  {
    if |s| == 0 then ""
    else if |s| == 1 then Quad(s[0], 0, 0, 1)
    else if |s| == 2 then Quad(s[0], s[1], 0, 2)
    else Quad(s[0], s[1], s[2], 3) + Base64(s[3..])
  }

  /** A number split at a power of two is recovered from its two parts. */
  lemma SplitInjective(hi1: int, lo1: int, hi2: int, lo2: int, k: int)
    requires k == 4 || k == 16 || k == 64
    requires 0 <= lo1 < k && 0 <= lo2 < k
    requires hi1 * k + lo1 == hi2 * k + lo2
    ensures hi1 == hi2 && lo1 == lo2
  {
  }

  /** The padding gives the group length, and the digits give the bytes of the group. */
  lemma QuadInjective(x: uint8, y: uint8, z: uint8, n: nat, x': uint8, y': uint8, z': uint8, n': nat)
    requires 1 <= n <= 3 && 1 <= n' <= 3
    requires n < 2 ==> y == 0
    requires n < 3 ==> z == 0
    requires n' < 2 ==> y' == 0
    requires n' < 3 ==> z' == 0
    requires Quad(x, y, z, n) == Quad(x', y', z', n')
    ensures n == n' && x == x' && y == y' && z == z'
  {
    var q := Quad(x, y, z, n);
    assert q[2] == '=' <==> n < 2;
    assert q[3] == '=' <==> n < 3;
    Base64DigitInjective(x / 4, x' / 4);
    Base64DigitInjective(x % 4 * 16 + y / 16, x' % 4 * 16 + y' / 16);
    SplitInjective(x % 4, y / 16, x' % 4, y' / 16, 16);
    SplitInjective(x / 4, x % 4, x' / 4, x' % 4, 4);
    if n >= 2 {
      Base64DigitInjective(y % 16 * 4 + z / 64, y' % 16 * 4 + z' / 64);
      SplitInjective(y % 16, z / 64, y' % 16, z' / 64, 4);
    }
    SplitInjective(y / 16, y % 16, y' / 16, y' % 16, 16);
    if n == 3 {
      Base64DigitInjective(z % 64, z' % 64);
    }
    SplitInjective(z / 64, z % 64, z' / 64, z' % 64, 64);
  }

  /** Distinct byte strings have distinct Base64 spellings. */
  lemma {:induction false} Base64Injective(a: Bytes, b: Bytes)
    requires Base64(a) == Base64(b)
    ensures a == b
    decreases |a|
  {
    var ea, eb := Base64(a), Base64(b);
    if |a| == 0 || |b| == 0 {
      assert |ea| == 0 || |eb| == 0;
      return;
    }
    var na, nb := if |a| < 3 then |a| else 3, if |b| < 3 then |b| else 3;
    var qa := Quad(a[0], if na >= 2 then a[1] else 0, if na == 3 then a[2] else 0, na);
    var qb := Quad(b[0], if nb >= 2 then b[1] else 0, if nb == 3 then b[2] else 0, nb);
    assert ea[..4] == qa;
    assert eb[..4] == qb;
    QuadInjective(a[0], if na >= 2 then a[1] else 0, if na == 3 then a[2] else 0, na,
                  b[0], if nb >= 2 then b[1] else 0, if nb == 3 then b[2] else 0, nb);
    if na == 3 {
      assert |a| > 3 <==> |b| > 3 by {
        assert (|a| + 2) / 3 == (|b| + 2) / 3;
      }
      assert Base64(a[3..]) == ea[4..] == eb[4..] == Base64(b[3..]);
      Base64Injective(a[3..], b[3..]);
      assert a == a[..3] + a[3..] && b == b[..3] + b[3..];
    } else if na == 2 {
      assert |a| == 2 && |b| == 2;
      assert a == [a[0], a[1]] && b == [b[0], b[1]];
    } else {
      assert a == [a[0]] && b == [b[0]];
    }
  }
}
