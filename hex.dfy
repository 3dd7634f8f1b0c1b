/** Go's `encoding/hex` as the scanner uses it: `EncodeToString` for digests, `DecodeString` for the ELF magic. */
module Hex {
  import opened Base

  predicate IsLowerHexDigit(c: char) {
    '0' <= c <= '9' || 'a' <= c <= 'f'
  }

  /** The lowercase hexadecimal digit of a value below 16. */
  function DigitChar(d: int): (c: char)
    requires 0 <= d < 16
    ensures IsLowerHexDigit(c)
  {
    if d < 10 then ('0' as int + d) as char else ('a' as int + d - 10) as char
  }

  /** The value of a hexadecimal digit of either case; None for any other character. */
  function DigitValue(c: char): (r: Option<int>)
    ensures r.Some? ==> 0 <= r.value < 16
    ensures r.Some? <==> IsLowerHexDigit(c) || 'A' <= c <= 'F'
  {
    if '0' <= c <= '9' then Some(c as int - '0' as int)
    else if 'a' <= c <= 'f' then Some(c as int - 'a' as int + 10)
    else if 'A' <= c <= 'F' then Some(c as int - 'A' as int + 10)
    else None
  }

  /** `hex.EncodeToString`: two lowercase digits per byte, high nibble first. */
  function Encode(b: seq<byte>): (s: string)
    ensures |s| == 2 * |b|
    ensures forall i :: 0 <= i < |s| ==> IsLowerHexDigit(s[i])
  {
    if b == [] then []
    else [DigitChar(b[0] as int / 16), DigitChar(b[0] as int % 16)] + Encode(b[1..])
  }

  /** `hex.DecodeString`: fails on an odd length or on a character that is not a hex digit. */
  function Decode(s: string): (r: Result<seq<byte>>)
    ensures r.Ok? <==> |s| % 2 == 0 && forall i :: 0 <= i < |s| ==> DigitValue(s[i]).Some?
    ensures r.Ok? ==> 2 * |r.value| == |s|
    ensures r.Err? ==> r.error == BadHex
    decreases |s|
  {
    if |s| % 2 == 1 then Err(BadHex)
    else if s == [] then Ok([])
    else
      match (DigitValue(s[0]), DigitValue(s[1]), Decode(s[2..]))
      case (Some(hi), Some(lo), Ok(rest)) => Ok([(hi * 16 + lo) as byte] + rest)
      case _ => Err(BadHex)
  }

  lemma DigitValueOfDigitChar(d: int)
    requires 0 <= d < 16
    ensures DigitValue(DigitChar(d)) == Some(d)
  {
  }

  /** Decoding undoes encoding: a digest string always decodes back to the digest bytes. */
  lemma {:induction false} DecodeEncode(b: seq<byte>)
    ensures Decode(Encode(b)) == Ok(b)
  {
    if b != [] {
      var hi, lo := b[0] as int / 16, b[0] as int % 16;
      var s := Encode(b);
      assert s == [DigitChar(hi), DigitChar(lo)] + Encode(b[1..]);
      assert s[2..] == Encode(b[1..]);
      DigitValueOfDigitChar(hi);
      DigitValueOfDigitChar(lo);
      DecodeEncode(b[1..]);
      assert (hi * 16 + lo) as byte == b[0];
      assert [b[0]] + b[1..] == b;
    }
  }
}
