/** Lowercase hexadecimal as the scripts use it: the digits of `%02x`,
    `hexdigest()` and `encode('hex')`, and the parse done by `int(s, 16)`. */
module Hex {

  /** One byte of file content (Python 2 `str` elements are bytes). */
  type byte = bv8

  /** The shape of a SHA-256 digest: 32 bytes. The digest function itself is
      not modelled; it is a parameter wherever it is used. */
  type Digest = d: seq<byte> | |d| == 32 witness seq(32, _ => 0)

  /** The regex class `[0-9a-f]`. */
  predicate IsHexDigit(c: char) {
    '0' <= c <= '9' || 'a' <= c <= 'f'
  }

  predicate IsHexString(s: string) {
    forall i :: 0 <= i < |s| ==> IsHexDigit(s[i])
  }

  /** The value of one lowercase hex digit. */
  function DigitValue(c: char): (n: nat)
    requires IsHexDigit(c)
    ensures n < 16
  {
    if c <= '9' then c as int - '0' as int else c as int - 'a' as int + 10
  }

  /** The lowercase digit for a value below 16; inverse of DigitValue. */
  function DigitChar(n: nat): (c: char)
    requires n < 16
    ensures IsHexDigit(c) && DigitValue(c) == n
  {
    if n < 10 then ('0' as int + n) as char else ('a' as int + n - 10) as char
  }

  lemma DigitCharOfValue(c: char)
    requires IsHexDigit(c)
    ensures DigitChar(DigitValue(c)) == c
  {
  }

  /** Digit characters are ordered as their values are: '0' < ... < '9' < 'a' < ... < 'f'. */
  lemma DigitCharMonotonic(m: nat, n: nat)
    requires m < 16 && n < 16
    ensures DigitChar(m) < DigitChar(n) <==> m < n
  {
  }

  function Pow16(k: nat): (p: nat)
    ensures p >= 1
  {
    if k == 0 then 1 else 16 * Pow16(k - 1)
  }

  /** `int(s, 16)` on a string of lowercase hex digits: most significant digit first. */
  function ParseHex(s: string): (n: nat)
    requires IsHexString(s)
    ensures n < Pow16(|s|)
  {
    if s == [] then 0 else ParseHex(s[..|s| - 1]) * 16 + DigitValue(s[|s| - 1])
  }

  /** The digits of `%x`: shortest lowercase hex spelling of n. */
  function HexDigits(n: nat): (s: string)
    ensures IsHexString(s) && ParseHex(s) == n
    ensures 1 <= |s| && (n < 256 ==> |s| <= 2)
  {
    if n < 16 then [DigitChar(n)]
    else
      var s := HexDigits(n / 16) + [DigitChar(n % 16)];
      assert s[..|s| - 1] == HexDigits(n / 16);
      s
  }

  /** `"%02x" % n`: the lowercase hex digits of n, zero-padded to at least two. */
  function Format02x(n: nat): (s: string)
    ensures IsHexString(s) && ParseHex(s) == n
    ensures |s| >= 2 && (n < 256 ==> |s| == 2)
  {
    var d := HexDigits(n);
    if |d| < 2 then
      var s := "0" + d;
      assert s[..1] == "0";
      s
    else d
  }

  /** Below 256, `%02x` is exactly the high nibble's digit then the low nibble's. */
  lemma Format02xDigits(n: nat)
    requires n < 256
    ensures Format02x(n) == [DigitChar(n / 16), DigitChar(n % 16)]
  {
    var s := Format02x(n);
    assert |s| == 2;
    assert ParseHex(s) == DigitValue(s[0]) * 16 + DigitValue(s[1]) by {
      assert s[..1][..0] == [];
      assert s[..1] == [s[0]];
    }
    DigitCharOfValue(s[0]);
    DigitCharOfValue(s[1]);
  }

  /** Two-digit hex strings are determined by their value. */
  lemma ParseHex2Injective(s: string, t: string)
    requires |s| == 2 && |t| == 2 && IsHexString(s) && IsHexString(t)
    requires ParseHex(s) == ParseHex(t)
    ensures s == t
  {
    assert ParseHex(s) == DigitValue(s[0]) * 16 + DigitValue(s[1]) by {
      assert s[..1][..0] == [];
    }
    assert ParseHex(t) == DigitValue(t[0]) * 16 + DigitValue(t[1]) by {
      assert t[..1][..0] == [];
    }
    DigitCharOfValue(s[0]); DigitCharOfValue(s[1]);
    DigitCharOfValue(t[0]); DigitCharOfValue(t[1]);
  }

  /** The two lowercase digits of one byte, high nibble first. */
  function ByteHex(x: byte): (s: string)
    ensures |s| == 2 && IsHexString(s)
  {
    [DigitChar((x >> 4) as int), DigitChar((x & 0xf) as int)]
  }

  /** `hexdigest()` / `encode('hex')`: two lowercase digits per byte. */
  function HexEncode(b: seq<byte>): (s: string)
    ensures |s| == 2 * |b| && IsHexString(s)
  {
    if b == [] then [] else ByteHex(b[0]) + HexEncode(b[1..])
  }

  /** The byte whose value is a digit value below 16. */
  function NibbleByte(n: nat): (b: byte)
    requires n < 16
    ensures b < 16
  {
    [0x0, 0x1, 0x2, 0x3, 0x4, 0x5, 0x6, 0x7, 0x8, 0x9, 0xa, 0xb, 0xc, 0xd, 0xe, 0xf][n]
  }

  /** The byte spelled by two hex digits, high nibble first. */
  function PairValue(c0: char, c1: char): byte
    requires IsHexDigit(c0) && IsHexDigit(c1)
  {
    (NibbleByte(DigitValue(c0)) << 4) | NibbleByte(DigitValue(c1))
  }

  /** The byte string spelled by an even-length lowercase hex string. */
  function HexDecode(s: string): (b: seq<byte>)
    requires IsHexString(s) && |s| % 2 == 0
    ensures |b| == |s| / 2
  {
    if s == [] then [] else [PairValue(s[0], s[1])] + HexDecode(s[2..])
  }

  /** Decoding undoes encoding. */
  lemma {:induction false} DecodeEncode(b: seq<byte>)
    ensures HexDecode(HexEncode(b)) == b
  {
    if b != [] {
      var p, t := ByteHex(b[0]), HexEncode(b[1..]);
      DecodeCons(p, t);
      ByteDigits(b[0]);
      DecodeEncode(b[1..]);
      assert b == [b[0]] + b[1..];
    }
  }

  /** Decoding a two-digit prefix yields one byte before the rest. */
  lemma DecodeCons(p: string, t: string)
    requires |p| == 2 && IsHexString(p) && IsHexString(t) && |t| % 2 == 0
    ensures IsHexString(p + t) && HexDecode(p + t) == [PairValue(p[0], p[1])] + HexDecode(t)
  {
    var s := p + t;
    assert s[2..] == t && s[0] == p[0] && s[1] == p[1];
  }

  /** One byte survives being spelled as two digits and read back. */
  lemma ByteDigits(x: byte)
    ensures PairValue(ByteHex(x)[0], ByteHex(x)[1]) == x
  {
    NibbleByteOf(x >> 4);
    NibbleByteOf(x & 0xf);
    assert ((x >> 4) << 4) | (x & 0xf) == x;
  }

  /** A byte below 16 is the nibble byte of its own value. */
  lemma NibbleByteOf(b: byte)
    requires b < 16
    ensures NibbleByte(b as int) == b
  {
  }

  /** The nibble byte of a digit value has that value. */
  lemma NibbleValue(n: nat)
    requires n < 16
    ensures NibbleByte(n) as int == n
  {
  }

  /** Encoding undoes decoding on even-length lowercase hex strings. */
  lemma {:induction false} EncodeDecode(s: string)
    requires IsHexString(s) && |s| % 2 == 0
    ensures HexEncode(HexDecode(s)) == s
  {
    if s != [] {
      var x := PairValue(s[0], s[1]);
      EncodeCons(x, HexDecode(s[2..]));
      ByteHexOfDigits(s[0], s[1]);
      EncodeDecode(s[2..]);
      assert s == [s[0], s[1]] + s[2..];
    }
  }

  /** Encoding a byte string with a leading byte puts that byte's digits first. */
  lemma EncodeCons(x: byte, b: seq<byte>)
    ensures HexEncode([x] + b) == ByteHex(x) + HexEncode(b)
  {
    assert ([x] + b)[1..] == b;
  }

  /** Two digits read as a byte spell themselves again. */
  lemma ByteHexOfDigits(c0: char, c1: char)
    requires IsHexDigit(c0) && IsHexDigit(c1)
    ensures ByteHex(PairValue(c0, c1)) == [c0, c1]
  {
    var h, l := NibbleByte(DigitValue(c0)), NibbleByte(DigitValue(c1));
    assert ((h << 4) | l) >> 4 == h && ((h << 4) | l) & 0xf == l;
    NibbleValue(DigitValue(c0));
    NibbleValue(DigitValue(c1));
    DigitCharOfValue(c0);
    DigitCharOfValue(c1);
  }

  /** Comparing hex digests is comparing the digests themselves. */
  lemma HexEncodeInjective(a: seq<byte>, b: seq<byte>)
    ensures HexEncode(a) == HexEncode(b) <==> a == b
  {
    if HexEncode(a) == HexEncode(b) {
      DecodeEncode(a);
      DecodeEncode(b);
    }
  }
}
