/**
 * The text form of a message digest, as Python's `hexdigest()` writes it: two
 * lower-case hexadecimal characters per byte, high nibble first.
 */
module Hex {
  import opened Wrappers

  newtype byte = x: int | 0 <= x < 256

  const Digits := "0123456789abcdef"

  predicate IsHexChar(c: char)
  {
    '0' <= c <= '9' || 'a' <= c <= 'f'
  }

  /** Value of one lower-case hexadecimal character, if it is one. */
  function DigitValue(c: char): (v: Option<int>)
    ensures v.Some? <==> IsHexChar(c)
    ensures v.Some? ==> 0 <= v.value < 16 && Digits[v.value] == c
  {
    if '0' <= c <= '9' then Some(c as int - '0' as int)
    else if 'a' <= c <= 'f' then Some(c as int - 'a' as int + 10)
    else None
  }

  /** `hexdigest()`: twice as many characters as bytes, every one a lower-case hex digit. */
  function HexEncode(d: seq<byte>): (s: string)
    ensures |s| == 2 * |d|
    ensures forall i :: 0 <= i < |s| ==> IsHexChar(s[i])
  {
    if d == [] then ""
    else [Digits[d[0] as int / 16], Digits[d[0] as int % 16]] + HexEncode(d[1..])
  }

  /** The inverse of HexEncode: reads pairs of lower-case hex digits back into bytes. */
  function HexDecode(s: string): Option<seq<byte>>
  {
    if s == [] then Some([])
    else if |s| == 1 then None
    else
      match (DigitValue(s[0]), DigitValue(s[1]), HexDecode(s[2..]))
      case (Some(hi), Some(lo), Some(rest)) => Some([(hi * 16 + lo) as byte] + rest)
      case _ => None
  }

  /** Each hex digit reads back as its own value. */
  lemma DigitRoundTrip(n: int)
    requires 0 <= n < 16
    ensures DigitValue(Digits[n]) == Some(n)
  {
  }

  /** A byte is its high nibble times sixteen plus its low nibble, and back. */
  lemma Nibbles(hi: int, lo: int, b: byte)
    requires 0 <= hi < 16 && 0 <= lo < 16
    ensures b as int == hi * 16 + lo <==> (b as int / 16 == hi && b as int % 16 == lo)
  {
  }

  /** Decoding an encoded digest gives the digest back. */
  lemma {:induction false} DecodeEncode(d: seq<byte>)
    ensures HexDecode(HexEncode(d)) == Some(d)
  {
    if d != [] {
      DecodeEncode(d[1..]);
      var s := HexEncode(d);
      var hi, lo := d[0] as int / 16, d[0] as int % 16;
      assert s == [Digits[hi], Digits[lo]] + HexEncode(d[1..]);
      assert s[2..] == HexEncode(d[1..]);
      DigitRoundTrip(hi);
      DigitRoundTrip(lo);
      Nibbles(hi, lo, d[0]);
      assert (hi * 16 + lo) as byte == d[0];
      assert [d[0]] + d[1..] == d;
    }
  }

  /** A string that decodes is exactly the encoding of what it decodes to. */
  lemma {:induction false} EncodeDecode(s: string, d: seq<byte>)
    requires HexDecode(s) == Some(d)
    ensures HexEncode(d) == s
  {
    if s != [] {
      var hi, lo := DigitValue(s[0]).value, DigitValue(s[1]).value;
      var rest := HexDecode(s[2..]).value;
      var b := (hi * 16 + lo) as byte;
      assert d == [b] + rest;
      EncodeDecode(s[2..], rest);
      Nibbles(hi, lo, b);
      assert HexEncode(d) == [Digits[hi], Digits[lo]] + HexEncode(rest);
      assert s == [s[0], s[1]] + s[2..];
    }
  }

  /** Distinct digests have distinct hex forms. */
  lemma EncodeInjective(a: seq<byte>, b: seq<byte>)
    requires HexEncode(a) == HexEncode(b)
    ensures a == b
  {
    DecodeEncode(a);
    DecodeEncode(b);
  }
}
