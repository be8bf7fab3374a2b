/** Byte-level helpers: bytes and 32-bit words as Python's `int.from_bytes`
    and `int.to_bytes` see them, Python's forgiving slice, and the two hex
    spellings the decoder uses (`bytes.hex()` and `f"{v:02X}"`) together with
    `bytes.fromhex`. */
module Bytes {

  /** A Python `bytes` element. */
  type byte = x: int | 0 <= x < 256

  /** An unsigned 32-bit value, the range of `zlib.crc32` and of a chunk length. */
  type u32 = x: int | 0 <= x < 0x1_0000_0000

  function Pow256(k: nat): (p: nat)
    ensures p >= 1
  {
    if k == 0 then 1 else 256 * Pow256(k - 1)
  }

  /** `int.from_bytes(s, byteorder='big')`. */
  function BigEndian(s: seq<byte>): (n: nat)
    ensures n < Pow256(|s|)
  {
    if s == [] then 0
    else
      var m := BigEndian(s[..|s| - 1]);
      assert m * 256 + s[|s| - 1] < Pow256(|s| - 1) * 256 by {
        assert m <= Pow256(|s| - 1) - 1;
        assert m * 256 <= (Pow256(|s| - 1) - 1) * 256;
      }
      m * 256 + s[|s| - 1]
  }

  /** `n.to_bytes(4, 'big')` for a value that fits (Python raises otherwise). */
  function U32BE(n: u32): (s: seq<byte>)
    ensures |s| == 4
  {
    [n / 0x100_0000, (n / 0x1_0000) % 256, (n / 0x100) % 256, n % 256]
  }

  lemma BigEndianFour(s: seq<byte>)
    requires |s| == 4
    ensures BigEndian(s) == ((s[0] as int * 256 + s[1]) * 256 + s[2]) * 256 + s[3]
  {
    assert s[..3][..2][..1][..0] == [];
    assert BigEndian(s[..1]) == s[0];
    assert s[..2][..1] == s[..1];
    assert BigEndian(s[..2]) == s[0] as int * 256 + s[1];
    assert s[..3][..2] == s[..2];
    assert BigEndian(s[..3]) == (s[0] as int * 256 + s[1]) * 256 + s[2];
    assert s[..4][..3] == s[..3];
  }

  /** Reading back what `to_bytes(4, 'big')` wrote gives the original value. */
  lemma {:induction false} BigEndianOfU32(n: u32)
    ensures BigEndian(U32BE(n)) == n
  {
    var s := U32BE(n);
    BigEndianFour(s);
    var a, b, c, d := n / 0x100_0000, (n / 0x1_0000) % 256, (n / 0x100) % 256, n % 256;
    assert n / 0x100 == (n / 0x1_0000) * 256 + c;
    assert n / 0x1_0000 == a * 256 + b;
  }

  /** Writing a four-byte word out again reproduces its bytes. */
  lemma {:induction false} U32OfBigEndian(s: seq<byte>)
    requires |s| == 4
    ensures BigEndian(s) < 0x1_0000_0000
    ensures U32BE(BigEndian(s)) == s
  {
    BigEndianFour(s);
    var n := BigEndian(s);
    assert Pow256(4) == 0x1_0000_0000;
    assert n / 0x100 == (s[0] as int * 256 + s[1]) * 256 + s[2];
    assert n / 0x1_0000 == s[0] as int * 256 + s[1];
    assert n / 0x100_0000 == s[0];
  }

  /** Python's `s[i:j]` for 0 <= i <= j: indices past the end are clipped,
      so a slice near the end of a buffer is silently shorter. */
  function PySlice(s: seq<byte>, i: nat, j: nat): (r: seq<byte>)
    requires i <= j
    ensures |r| == if j <= |s| then j - i else if i <= |s| then |s| - i else 0
    ensures j <= |s| ==> r == s[i..j]
    ensures i <= |s| <= j ==> r == s[i..]
    ensures i >= |s| ==> r == []
  {
    var lo := if i < |s| then i else |s|;
    var hi := if j < |s| then j else |s|;
    s[lo..hi]
  }

  /** Adjacent Python slices concatenate to the slice over their union. */
  lemma PySliceJoin(s: seq<byte>, i: nat, j: nat, k: nat)
    requires i <= j <= k
    ensures PySlice(s, i, j) + PySlice(s, j, k) == PySlice(s, i, k)
  {
  }

  // ---------------------------------------------------------------------
  // Hexadecimal text

  function HexDigit(d: int, upper: bool): (c: char)
    requires 0 <= d < 16
  {
    if d < 10 then (48 + d) as char
    else if upper then (55 + d) as char
    else (87 + d) as char
  }

  predicate IsHexChar(c: char) {
    ('0' <= c <= '9') || ('a' <= c <= 'f') || ('A' <= c <= 'F')
  }

  function HexValue(c: char): (d: int)
    requires IsHexChar(c)
    ensures 0 <= d < 16
  {
    if '0' <= c <= '9' then c as int - 48
    else if 'a' <= c <= 'f' then c as int - 87
    else c as int - 55
  }

  lemma HexDigitValue(d: int, upper: bool)
    requires 0 <= d < 16
    ensures IsHexChar(HexDigit(d, upper)) && HexValue(HexDigit(d, upper)) == d
  {
  }

  /** Two hex digits of one byte: `f"{v:02X}"` when `upper`, the pair that
      `bytes.hex()` writes otherwise. */
  function ByteHex(v: byte, upper: bool): (t: string)
    ensures |t| == 2
  {
    [HexDigit(v / 16, upper), HexDigit(v % 16, upper)]
  }

  /** `bytes.hex()` (lower case) or the upper-case spelling. */
  function HexOf(s: seq<byte>, upper: bool): (t: string)
    ensures |t| == 2 * |s|
    ensures forall i :: 0 <= i < |s| ==> t[2 * i] == HexDigit(s[i] / 16, upper) && t[2 * i + 1] == HexDigit(s[i] % 16, upper)
  {
    if s == [] then []
    else
      var rest := HexOf(s[1..], upper);
      assert forall i :: 1 <= i < |s| ==> s[i] == s[1..][i - 1];
      ByteHex(s[0], upper) + rest
  }

  lemma HexOfNil(upper: bool)
    ensures HexOf([], upper) == []
  {
  }

  lemma HexOfFront(s: seq<byte>, upper: bool)
    requires s != []
    ensures HexOf(s, upper) == ByteHex(s[0], upper) + HexOf(s[1..], upper)
  {
  }

  predicate IsHexText(t: string) {
    |t| % 2 == 0 && forall i :: 0 <= i < |t| ==> IsHexChar(t[i])
  }

  /** `bytes.fromhex(t)` on text made only of hex digit pairs. */
  function FromHex(t: string): (s: seq<byte>)
    requires IsHexText(t)
    ensures |s| == |t| / 2
  {
    if t == [] then []
    else [HexValue(t[0]) * 16 + HexValue(t[1])] + FromHex(t[2..])
  }

  lemma {:induction false} HexOfAppend(a: seq<byte>, b: seq<byte>, upper: bool)
    ensures HexOf(a + b, upper) == HexOf(a, upper) + HexOf(b, upper)
  {
    if a == [] {
      assert a + b == b;
    } else {
      assert (a + b)[1..] == a[1..] + b;
      HexOfAppend(a[1..], b, upper);
    }
  }

  /** Either hex spelling is made of hex digit pairs only. */
  lemma HexOfIsHexText(s: seq<byte>, upper: bool)
    ensures IsHexText(HexOf(s, upper))
  {
    var t := HexOf(s, upper);
    forall i | 0 <= i < |t|
      ensures IsHexChar(t[i])
    {
      var k := i / 2;
      HexDigitValue(s[k] / 16, upper);
      HexDigitValue(s[k] % 16, upper);
      assert i == 2 * k || i == 2 * k + 1;
    }
  }

  /** `bytes.fromhex` undoes either hex spelling. */
  lemma {:induction false} FromHexOfHex(s: seq<byte>, upper: bool)
    ensures IsHexText(HexOf(s, upper))
    ensures FromHex(HexOf(s, upper)) == s
  {
    HexOfIsHexText(s, upper);
    if s != [] {
      hide HexOf;
      var t := HexOf(s, upper);
      HexOfFront(s, upper);
      FromHexOfHex(s[1..], upper);
      HexDigitValue(s[0] / 16, upper);
      HexDigitValue(s[0] % 16, upper);
      assert t[2..] == HexOf(s[1..], upper);
    }
  }

  /** Hex text determines the bytes it spells. */
  lemma HexOfInjective(s: seq<byte>, t: seq<byte>, upper: bool)
    requires HexOf(s, upper) == HexOf(t, upper)
    ensures s == t
  {
    FromHexOfHex(s, upper);
    FromHexOfHex(t, upper);
  }
}
