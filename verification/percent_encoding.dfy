/** UTF-8 encoding of strings and the percent-encoding of the `urlencoding`
    crate: every byte outside the unreserved set of section 2.3 of RFC 3986
    becomes `%` and two upper-case hexadecimal digits (section 2.1). */
module PercentEncoding {
  import opened Wrappers

  type Byte = b: int | 0 <= b < 256

  /** The bytes of one Unicode scalar value in UTF-8. */
  function Utf8Char(c: char): (bs: seq<Byte>)
    ensures 1 <= |bs| <= 4
    ensures (|bs| == 1) == (c as int < 0x80)
  {
    var cp := c as int;
    if cp < 0x80 then [cp]
    else if cp < 0x800 then [0xC0 + cp / 64, 0x80 + cp % 64]
    else if cp < 0x10000 then [0xE0 + cp / 4096, 0x80 + cp / 64 % 64, 0x80 + cp % 64]
    else [0xF0 + cp / 262144, 0x80 + cp / 4096 % 64, 0x80 + cp / 64 % 64, 0x80 + cp % 64]
  }

  /** `str::as_bytes`. */
  function Utf8(s: string): (bs: seq<Byte>)
    ensures |bs| >= |s|
  {
    if |s| == 0 then [] else Utf8Char(s[0]) + Utf8(s[1..])
  }

  /** ASCII letters and digits and `-` `.` `_` `~`: section 2.3 of RFC 3986. */
  predicate IsUnreserved(b: int) {
    || ('A' as int <= b <= 'Z' as int)
    || ('a' as int <= b <= 'z' as int)
    || ('0' as int <= b <= '9' as int)
    || b == '-' as int || b == '.' as int || b == '_' as int || b == '~' as int
  }

  function HexDigit(n: nat): (c: char)
    requires n < 16
  {
    if n < 10 then (('0' as int) + n) as char else (('A' as int) + n - 10) as char
  }

  /** The value of an upper-case hexadecimal digit. */
  function HexValue(c: char): Option<nat> {
    if '0' <= c <= '9' then Some((c as int) - ('0' as int))
    else if 'A' <= c <= 'F' then Some((c as int) - ('A' as int) + 10)
    else None
  }

  lemma HexRoundTrip(n: nat)
    requires n < 16
    ensures HexValue(HexDigit(n)) == Some(n)
  {
  }

  /** Characters that may appear in encoded text. */
  predicate IsEncodedChar(c: char) {
    IsUnreserved(c as int) || c == '%' || HexValue(c).Some?
  }

  function EncodeByte(b: Byte): (s: string)
    ensures forall i :: 0 <= i < |s| ==> IsEncodedChar(s[i])
  {
    if IsUnreserved(b) then [b as char] else ['%', HexDigit(b / 16), HexDigit(b % 16)]
  }

  /** `urlencoding::encode` on the UTF-8 bytes of the input. */
  function Encode(bs: seq<Byte>): (s: string)
    ensures forall i :: 0 <= i < |s| ==> IsEncodedChar(s[i])
  {
    if |bs| == 0 then [] else EncodeByte(bs[0]) + Encode(bs[1..])
  }

  /** Percent-decoding of text made of unreserved characters and `%XX` triplets;
      anything else is rejected. */
  function Decode(s: string): Option<seq<Byte>>
    decreases |s|
  {
    if |s| == 0 then Some([])
    else if s[0] == '%' then
      if |s| < 3 || HexValue(s[1]).None? || HexValue(s[2]).None? then None
      else match Decode(s[3..])
        case None => None
        case Some(rest) => Some([HexValue(s[1]).value * 16 + HexValue(s[2]).value] + rest)
    else if IsUnreserved(s[0] as int) && s[0] as int < 256 then
      match Decode(s[1..])
      case None => None
      case Some(rest) => Some([s[0] as int] + rest)
    else None
  }

  lemma DecodeUnreservedStep(b: Byte, tail: string)
    requires IsUnreserved(b)
    ensures Decode(EncodeByte(b) + tail) == if Decode(tail).None? then None else Some([b] + Decode(tail).value)
  {
    var s := EncodeByte(b) + tail;
    assert s[0] == b as char && s[1..] == tail;
  }

  lemma DecodeEscapedStep(b: Byte, tail: string)
    requires !IsUnreserved(b)
    ensures Decode(EncodeByte(b) + tail) == if Decode(tail).None? then None else Some([b] + Decode(tail).value)
  {
    var hi, lo := b / 16, b % 16;
    var s := ['%', HexDigit(hi), HexDigit(lo)] + tail;
    assert EncodeByte(b) + tail == s;
    HexRoundTrip(hi);
    HexRoundTrip(lo);
    assert s[3..] == tail;
    assert hi * 16 + lo == b;
  }

  /** Decoding undoes encoding. */
  lemma {:induction false} DecodeEncode(bs: seq<Byte>)
    ensures Decode(Encode(bs)) == Some(bs)
  {
    if |bs| > 0 {
      DecodeEncode(bs[1..]);
      assert Encode(bs) == EncodeByte(bs[0]) + Encode(bs[1..]);
      if IsUnreserved(bs[0]) {
        DecodeUnreservedStep(bs[0], Encode(bs[1..]));
      } else {
        DecodeEscapedStep(bs[0], Encode(bs[1..]));
      }
      assert [bs[0]] + bs[1..] == bs;
    }
  }
}
