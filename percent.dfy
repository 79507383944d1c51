/** Byte-level percent coding as the `url` crate does it: `percent_decode` (section 2.1
    of RFC 3986) and `percent_encode` with `DEFAULT_ENCODE_SET`. */
module PercentCoding {
  import opened Text

  const Percent: byte := 0x25

  /** An ASCII hexadecimal digit of either case. */
  predicate IsHexDigit(b: byte)
  {
    (0x30 <= b <= 0x39) || (0x41 <= b <= 0x46) || (0x61 <= b <= 0x66)
  }

  function HexValue(b: byte): (v: nat)
    requires IsHexDigit(b)
    ensures v < 16
  {
    if b <= 0x39 then b - 0x30
    else if b <= 0x46 then b - 0x41 + 10
    else b - 0x61 + 10
  }

  /** The upper-case hexadecimal digit for `v`, as the encoder writes it. */
  function UpperHexDigit(v: nat): (b: byte)
    requires v < 16
    ensures IsHexDigit(b) && HexValue(b) == v
  {
    if v < 10 then 0x30 + v else 0x41 + (v - 10)
  }

  /** `%` followed by two hexadecimal digits becomes the byte they denote; every other
      byte, including a `%` that is not followed by two hexadecimal digits, is kept. */
  function PercentDecode(bs: seq<byte>): (r: seq<byte>)
    ensures |r| <= |bs|
    decreases |bs|
  {
    if |bs| == 0 then []
    else if bs[0] == Percent && |bs| >= 3 && IsHexDigit(bs[1]) && IsHexDigit(bs[2]) then
      [HexValue(bs[1]) * 16 + HexValue(bs[2])] + PercentDecode(bs[3..])
    else [bs[0]] + PercentDecode(bs[1..])
  }

  /** The bytes `DEFAULT_ENCODE_SET` escapes: C0 controls, DEL and every non-ASCII byte,
      space, `"`, `#`, `<`, `>`, `?`, backquote, `{` and `}`. */
  predicate InDefaultEncodeSet(b: byte)
    ensures b < 0x20 || b >= 0x7F ==> InDefaultEncodeSet(b)
    ensures 0x30 <= b <= 0x39 || 0x41 <= b <= 0x5A || 0x61 <= b <= 0x7A ==> !InDefaultEncodeSet(b)
    ensures b == 0x25 || b == 0x2F || b == 0x2D || b == 0x2E || b == 0x5F || b == 0x7E ==> !InDefaultEncodeSet(b)
  {
    b < 0x20 || b > 0x7E || b == 0x20 || b == 0x22 || b == 0x23 || b == 0x3C
    || b == 0x3E || b == 0x3F || b == 0x60 || b == 0x7B || b == 0x7D
  }

  /** One byte as the encoder writes it: `%HH` with upper-case digits, or the byte itself. */
  function EncodeByte(b: byte): (r: seq<byte>)
    ensures InDefaultEncodeSet(b) ==>
              |r| == 3 && r[0] == Percent && IsHexDigit(r[1]) && IsHexDigit(r[2])
              && HexValue(r[1]) * 16 + HexValue(r[2]) == b
    ensures !InDefaultEncodeSet(b) ==> r == [b]
  {
    if InDefaultEncodeSet(b) then [Percent, UpperHexDigit(b / 16), UpperHexDigit(b % 16)]
    else [b]
  }

  /** `percent_encode(bytes, DEFAULT_ENCODE_SET)`, rendered to text. */
  function PercentEncode(bs: seq<byte>): (r: seq<byte>)
    ensures |r| >= |bs|
    ensures forall k | 0 <= k < |r| :: !InDefaultEncodeSet(r[k])
    decreases |bs|
  {
    if bs == [] then [] else EncodeByte(bs[0]) + PercentEncode(bs[1..])
  }

  /** Decoding undoes encoding for input without `%` (the encoder leaves `%` alone, so a
      `%` in the input could be read back as the start of an escape). */
  lemma {:induction false} DecodeEncode(bs: seq<byte>)
    requires Percent !in bs
    ensures PercentDecode(PercentEncode(bs)) == bs
    decreases |bs|
  {
    if bs != [] {
      var head := EncodeByte(bs[0]);
      var tail := PercentEncode(bs[1..]);
      assert Percent !in bs[1..] by {
        assert forall k | 0 <= k < |bs[1..]| :: bs[1..][k] == bs[k + 1];
      }
      DecodeEncode(bs[1..]);
      var e := head + tail;
      if InDefaultEncodeSet(bs[0]) {
        assert e[3..] == tail;
      } else {
        assert e[1..] == tail;
      }
    }
  }

  /** Without `%` there is nothing to decode. */
  lemma {:induction false} DecodeWithoutPercent(bs: seq<byte>)
    requires Percent !in bs
    ensures PercentDecode(bs) == bs
    decreases |bs|
  {
    if bs != [] {
      assert Percent !in bs[1..] by {
        assert forall k | 0 <= k < |bs[1..]| :: bs[1..][k] == bs[k + 1];
      }
      DecodeWithoutPercent(bs[1..]);
      assert bs == [bs[0]] + bs[1..];
    }
  }

  /** Bytes outside the encode set pass through the encoder unchanged. */
  lemma {:induction false} EncodeSafeBytes(bs: seq<byte>)
    requires forall k | 0 <= k < |bs| :: !InDefaultEncodeSet(bs[k])
    ensures PercentEncode(bs) == bs
    decreases |bs|
  {
    if bs != [] {
      EncodeSafeBytes(bs[1..]);
      assert bs == [bs[0]] + bs[1..];
    }
  }

  /** Encoding distributes over concatenation. */
  lemma {:induction false} EncodeConcat(a: seq<byte>, b: seq<byte>)
    ensures PercentEncode(a + b) == PercentEncode(a) + PercentEncode(b)
    decreases |a|
  {
    if a != [] {
      assert (a + b)[0] == a[0];
      assert (a + b)[1..] == a[1..] + b;
      EncodeConcat(a[1..], b);
    } else {
      assert a + b == b;
    }
  }
}
