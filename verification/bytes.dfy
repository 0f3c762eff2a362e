/** Byte strings and the Python `bytes`/`str` conversions the HLR relies on:
    16-bit integers in both byte orders, ASCII and UTF-8 text, and
    `bytes.fromhex`. */
module Bytes {
  import opened Wrappers

  type byte = x: int | 0 <= x < 256
  type bytes = seq<byte>

  /** `n.to_bytes(2, 'big')`. Python raises OverflowError from 65536 on;
      the callers model that failure themselves. */
  function BE16(n: nat): (r: bytes)
    requires n < 0x1_0000
    ensures |r| == 2 && (r[0] as int) * 256 + r[1] == n
  {
    [n / 256, n % 256]
  }

  /** The little-endian 16-bit field `Int16ul` of the GSUP header. */
  function LE16(n: nat): (r: bytes)
    requires n < 0x1_0000
    ensures |r| == 2 && (r[0] as int) + (r[1] as int) * 256 == n
  {
    [n % 256, n / 256]
  }

  // ---------------------------------------------------------------- ASCII

  predicate IsAsciiText(s: string) {
    forall i :: 0 <= i < |s| ==> s[i] as int < 128
  }

  predicate IsAsciiBytes(b: bytes) {
    forall i :: 0 <= i < |b| ==> b[i] < 128
  }

  /** `s.encode('ascii')`: fails (UnicodeEncodeError) on any code point above 127. */
  function AsciiEncode(s: string): (r: Option<bytes>)
    ensures r.Some? <==> IsAsciiText(s)
    ensures r.Some? ==> |r.value| == |s| && IsAsciiBytes(r.value)
  {
    if IsAsciiText(s) then Some(seq(|s|, i requires 0 <= i < |s| => s[i] as int)) else None
  }

  /** Encoding works character by character: the encoding of a suffix is the
      same suffix of the encoding. */
  lemma AsciiEncodeSuffix(s: string, n: nat)
    requires IsAsciiText(s) && n <= |s|
    ensures AsciiEncode(s[n..]) == Some(AsciiEncode(s).value[n..])
  {
    assert IsAsciiText(s[n..]) by {
      forall i | 0 <= i < |s| - n
        ensures s[n..][i] as int < 128
      {
        assert s[n..][i] == s[n + i];
      }
    }
    var b, c := AsciiEncode(s).value, AsciiEncode(s[n..]).value;
    forall i | 0 <= i < |c|
      ensures c[i] == b[n..][i]
    {
      assert s[n..][i] == s[n + i];
    }
    assert c == b[n..];
  }

  /** `b.decode('ascii')`: fails (UnicodeDecodeError) on any byte above 127. */
  function AsciiDecode(b: bytes): (r: Option<string>)
    ensures r.Some? <==> IsAsciiBytes(b)
    ensures r.Some? ==> |r.value| == |b| && IsAsciiText(r.value)
  {
    if IsAsciiBytes(b) then Some(seq(|b|, i requires 0 <= i < |b| => b[i] as char)) else None
  }

  /** Encoding after decoding gives back the bytes. */
  lemma AsciiDecodeEncode(b: bytes)
    requires IsAsciiBytes(b)
    ensures AsciiEncode(AsciiDecode(b).value) == Some(b)
  {
    var s := AsciiDecode(b).value;
    assert AsciiEncode(s).value == b;
  }

  /** Decoding after encoding gives back the text. */
  lemma AsciiEncodeDecode(s: string)
    requires IsAsciiText(s)
    ensures AsciiDecode(AsciiEncode(s).value) == Some(s)
  {
    var b := AsciiEncode(s).value;
    assert AsciiDecode(b).value == s;
  }

  // ---------------------------------------------------------------- UTF-8

  /** The UTF-8 encoding of one code point (Dafny's `char` is a Unicode scalar value). */
  function Utf8Char(c: char): (r: bytes)
    ensures 1 <= |r| <= 4
    ensures |r| == 1 <==> c as int < 128
    ensures |r| == 1 ==> r[0] == c as int
    ensures |r| > 1 ==> forall i :: 0 <= i < |r| ==> r[i] >= 0x80
  {
    var n := c as int;
    if n < 0x80 then [n]
    else if n < 0x800 then [0xC0 + n / 64, 0x80 + n % 64]
    else if n < 0x1_0000 then [0xE0 + n / 4096, 0x80 + (n / 64) % 64, 0x80 + n % 64]
    else [0xF0 + n / 0x4_0000, 0x80 + (n / 4096) % 64, 0x80 + (n / 64) % 64, 0x80 + n % 64]
  }

  /** `s.encode('utf-8')`. */
  function Utf8(s: string): bytes
  {
    if |s| == 0 then [] else Utf8Char(s[0]) + Utf8(s[1..])
  }

  /** UTF-8 never produces a zero byte except for the NUL code point, which is
      what lets the CCM identity fields be NUL-terminated. */
  lemma {:induction false} Utf8NoNul(s: string)
    requires forall i :: 0 <= i < |s| ==> s[i] as int != 0
    ensures forall i :: 0 <= i < |Utf8(s)| ==> Utf8(s)[i] != 0
  {
    if |s| > 0 {
      Utf8NoNul(s[1..]);
      var head := Utf8Char(s[0]);
      forall i | 0 <= i < |Utf8(s)|
        ensures Utf8(s)[i] != 0
      {
        if i >= |head| {
          assert Utf8(s)[i] == Utf8(s[1..])[i - |head|];
        }
      }
    }
  }

  /** On ASCII text UTF-8 and ASCII agree byte for byte. */
  lemma {:induction false} Utf8OfAscii(s: string)
    requires IsAsciiText(s)
    ensures Utf8(s) == AsciiEncode(s).value
  {
    if |s| > 0 {
      Utf8OfAscii(s[1..]);
      assert AsciiEncode(s).value == [s[0] as int] + AsciiEncode(s[1..]).value;
    }
  }

  // ---------------------------------------------------------------- hex

  /** The characters `bytes.fromhex` skips between byte pairs. */
  predicate IsSpace(c: char) {
    c == ' ' || 9 <= c as int <= 13
  }

  function HexValue(c: char): Option<byte>
  {
    if '0' <= c <= '9' then Some(c as int - '0' as int)
    else if 'a' <= c <= 'f' then Some(c as int - 'a' as int + 10)
    else if 'A' <= c <= 'F' then Some(c as int - 'A' as int + 10)
    else None
  }

  /** `bytes.fromhex(s)`: white space may separate byte pairs, each byte is
      exactly two hex digits, anything else fails (ValueError). */
  function FromHex(s: string): (r: Option<bytes>)
    ensures r.Some? ==> 2 * |r.value| <= |s|
    ensures |s| == 0 ==> r == Some([])
  {
    if |s| == 0 then Some([])
    else if IsSpace(s[0]) then FromHex(s[1..])
    else if |s| >= 2 && HexValue(s[0]).Some? && HexValue(s[1]).Some? then
      match FromHex(s[2..])
      case Some(rest) => Some([HexValue(s[0]).value * 16 + HexValue(s[1]).value] + rest)
      case None => None
    else None
  }

  /** The lower-case hex digit of `v`. */
  function HexDigit(v: int): (c: char)
    requires 0 <= v < 16
    ensures HexValue(c) == Some(v) && !IsSpace(c)
  {
    if v < 10 then ('0' as int + v) as char else ('a' as int + v - 10) as char
  }

  /** Lower-case hex rendering, the reference partner of `FromHex`. */
  function ToHex(b: bytes): (s: string)
    ensures |s| == 2 * |b|
  {
    if |b| == 0 then [] else [HexDigit(b[0] / 16), HexDigit(b[0] % 16)] + ToHex(b[1..])
  }

  /** `bytes.fromhex` reads the two digits `ToHex` writes for a byte as that
      byte. */
  lemma FromHexPair(x: byte, rest: string, tail: bytes)
    requires FromHex(rest) == Some(tail)
    ensures FromHex([HexDigit(x / 16), HexDigit(x % 16)] + rest) == Some([x] + tail)
  {
    FromHexCons(HexDigit(x / 16), HexDigit(x % 16), rest, tail);
  }

  /** `bytes.fromhex` reads a leading pair of hex digits as one byte. */
  lemma FromHexCons(c0: char, c1: char, rest: string, tail: bytes)
    requires !IsSpace(c0) && HexValue(c0).Some? && HexValue(c1).Some? && FromHex(rest) == Some(tail)
    ensures FromHex([c0, c1] + rest) == Some([HexValue(c0).value * 16 + HexValue(c1).value] + tail)
  {
    assert ([c0, c1] + rest)[2..] == rest;
  }

  /** `bytes.fromhex` inverts the hex rendering of every byte string. */
  lemma {:induction false} FromHexToHex(b: bytes)
    ensures FromHex(ToHex(b)) == Some(b)
  {
    if |b| > 0 {
      assert ToHex(b) == [HexDigit(b[0] / 16), HexDigit(b[0] % 16)] + ToHex(b[1..]);
      FromHexToHex(b[1..]);
      FromHexPair(b[0], ToHex(b[1..]), b[1..]);
      assert [b[0]] + b[1..] == b;
    }
  }
}
