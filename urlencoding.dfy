/** `urlencoding::encode`: percent-encoding (section 2.1 of RFC 3986) of the
    UTF-8 bytes of a string, leaving only the unreserved characters of
    section 2.3 (ALPHA / DIGIT / "-" / "." / "_" / "~") as they are; and the
    percent-decoding that the router applies to a path segment, which undoes
    it. */
module UrlEncoding {
  import opened Wrappers
  import Utf8

  predicate IsUnreservedChar(c: char) {
    ('A' <= c <= 'Z') || ('a' <= c <= 'z') || ('0' <= c <= '9')
    || c == '-' || c == '.' || c == '_' || c == '~'
  }

  predicate IsUnreservedByte(b: Utf8.byte) {
    b < 0x80 && IsUnreservedChar(b as char)
  }

  /** Upper-case hexadecimal digit, as the encoder writes it. */
  function HexDigit(d: int): (c: char)
    requires 0 <= d < 16
    ensures IsUnreservedChar(c) && c != '.'
    ensures ('0' <= c <= '9') || ('A' <= c <= 'F')
  {
    if d < 10 then ('0' as int + d) as char else ('A' as int + d - 10) as char
  }

  predicate IsHexChar(c: char) {
    ('0' <= c <= '9') || ('A' <= c <= 'F') || ('a' <= c <= 'f')
  }

  /** The value of a hexadecimal digit of either case, as the decoder reads it. */
  function HexValue(c: char): (d: int)
    requires IsHexChar(c)
    ensures 0 <= d < 16
  {
    if '0' <= c <= '9' then c as int - '0' as int
    else if 'A' <= c <= 'F' then c as int - 'A' as int + 10
    else c as int - 'a' as int + 10
  }

  function EncodeByte(b: Utf8.byte): (t: string)
    ensures forall i :: 0 <= i < |t| ==> IsUnreservedChar(t[i]) || t[i] == '%'
  {
    if IsUnreservedByte(b) then [b as char] else ['%', HexDigit(b / 16), HexDigit(b % 16)]
  }

  /** The encoding of a byte sequence uses only unreserved characters and
      '%'; in particular it never holds a '/', so it stays one path segment. */
  function EncodeBytes(bs: seq<Utf8.byte>): (t: string)
    ensures forall i :: 0 <= i < |t| ==> IsUnreservedChar(t[i]) || t[i] == '%'
    ensures |t| >= |bs|
  {
    if bs == [] then [] else EncodeByte(bs[0]) + EncodeBytes(bs[1..])
  }

  /** `urlencoding::encode`: the output holds only unreserved characters and
      the '%' of escapes. */
  function Encode(s: string): (t: string)
    ensures forall i :: 0 <= i < |t| ==> IsUnreservedChar(t[i]) || t[i] == '%'
  {
    EncodeBytes(Utf8.Encode(s))
  }

  /** Percent-decoding: a '%' followed by two hexadecimal digits stands for
      that byte; every other character stands for its own UTF-8 bytes. */
  function PercentDecode(t: string): seq<Utf8.byte>
  {
    if t == [] then []
    else if |t| >= 3 && t[0] == '%' && IsHexChar(t[1]) && IsHexChar(t[2]) then
      [HexValue(t[1]) * 16 + HexValue(t[2])] + PercentDecode(t[3..])
    else
      Utf8.EncodeChar(t[0]) + PercentDecode(t[1..])
  }

  /** A path segment as the request handlers receive it: percent-decoded and
      read as UTF-8; None when the bytes are not UTF-8. */
  function DecodeSegment(t: string): Option<string> {
    Utf8.Decode(PercentDecode(t))
  }

  lemma {:induction false} EncodeBytesAppend(a: seq<Utf8.byte>, b: seq<Utf8.byte>)
    ensures EncodeBytes(a + b) == EncodeBytes(a) + EncodeBytes(b)
  {
    if a == [] {
      assert a + b == b;
    } else {
      assert (a + b)[1..] == a[1..] + b;
      EncodeBytesAppend(a[1..], b);
    }
  }

  /** Encoding distributes over concatenation, so a suffix appended after
      encoding (such as ".bin") is the encoding of that suffix. */
  lemma EncodeAppend(a: string, b: string)
    ensures Encode(a + b) == Encode(a) + Encode(b)
  {
    Utf8.EncodeAppend(a, b);
    EncodeBytesAppend(Utf8.Encode(a), Utf8.Encode(b));
  }

  /** A string of unreserved characters is its own encoding; in particular
      "." and ".bin" are left unchanged. */
  lemma {:induction false} EncodeUnreserved(s: string)
    requires forall i :: 0 <= i < |s| ==> IsUnreservedChar(s[i])
    ensures Encode(s) == s
  {
    if s != [] {
      EncodeUnreserved(s[1..]);
      assert Utf8.Encode(s) == Utf8.EncodeChar(s[0]) + Utf8.Encode(s[1..]);
      assert Utf8.EncodeChar(s[0]) == [s[0] as int];
      assert EncodeBytes(Utf8.Encode(s)) == EncodeByte(s[0] as int) + EncodeBytes(Utf8.Encode(s[1..])) by {
        assert Utf8.Encode(s)[0] == s[0] as int;
        assert Utf8.Encode(s)[1..] == Utf8.Encode(s[1..]);
      }
      assert [s[0]] + s[1..] == s;
    }
  }

  lemma EncodeEmpty(s: string)
    ensures Encode(s) == [] <==> s == []
  {
    if s != [] {
      assert |Utf8.Encode(s)| >= 1;
    }
  }

  lemma HexRoundTrip(d: int)
    requires 0 <= d < 16
    ensures IsHexChar(HexDigit(d)) && HexValue(HexDigit(d)) == d
  {
  }

  /** Percent-decoding inverts the byte encoder. */
  lemma {:induction false} PercentDecodeEncodeBytes(bs: seq<Utf8.byte>)
    ensures PercentDecode(EncodeBytes(bs)) == bs
  {
    if bs != [] {
      var b := bs[0];
      var head := EncodeByte(b);
      var tail := EncodeBytes(bs[1..]);
      PercentDecodeEncodeBytes(bs[1..]);
      var t := head + tail;
      if IsUnreservedByte(b) {
        assert t[0] == b as char && t[0] != '%';
        assert t[1..] == tail;
        assert Utf8.EncodeChar(b as char) == [b];
      } else {
        HexRoundTrip(b / 16);
        HexRoundTrip(b % 16);
        assert t[0] == '%' && t[1] == HexDigit(b / 16) && t[2] == HexDigit(b % 16);
        assert t[3..] == tail;
      }
      assert [b] + bs[1..] == bs;
    }
  }

  /** Decoding a segment produced by the encoder gives back the original
      string. */
  lemma DecodeEncode(s: string)
    ensures DecodeSegment(Encode(s)) == Some(s)
  {
    PercentDecodeEncodeBytes(Utf8.Encode(s));
    Utf8.DecodeEncode(s);
  }
}
