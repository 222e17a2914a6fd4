/** Byte-level text: Rust's `&str` is a UTF-8 byte sequence, and slicing it
    at a byte index panics unless the index is in range and on a character
    boundary. This module holds the two slicing helpers of the binding and
    the lowercase hexadecimal encoding of the `hex` crate. */
module Text {

  import opened Results

  newtype byte = x: int | 0 <= x < 256

  /** ASCII "0x". */
  const HexPrefix: seq<byte> := [0x30, 0x78]

  /** Rust's `str::is_char_boundary`: index 0, the end, or a byte that is
      not a UTF-8 continuation byte (0x80..0xBF). */
  predicate IsCharBoundary(s: seq<byte>, i: nat)
  {
    i == 0 || i == |s| || (i < |s| && !(0x80 <= s[i] < 0xC0))
  }

  /** `&s[..i]` and `&s[i..]` do not panic. */
  predicate CanSliceAt(s: seq<byte>, i: nat)
  {
    i <= |s| && IsCharBoundary(s, i)
  }

  /** `remove_hex_prefix`: drops a leading "0x" and leaves any other text
      alone. The source slices `[..2]` unconditionally, so it panics on
      text shorter than two bytes or when byte 2 is inside a character. */
  function RemoveHexPrefix(s: seq<byte>): (r: seq<byte>)
    requires CanSliceAt(s, 2)
    ensures (r == s[2..]) <==> (s[..2] == HexPrefix)
    ensures s[..2] != HexPrefix ==> r == s
    ensures s == s[..|s| - |r|] + r
  {
    if s[..2] == HexPrefix then s[2..] else s
  }

  /** `remove_bytes4`: drops the optional "0x" and then the 8 hex digits of
      a 4-byte function selector. */
  function RemoveBytes4(s: seq<byte>): (r: seq<byte>)
    requires CanSliceAt(s, 2) && CanSliceAt(RemoveHexPrefix(s), 8)
    ensures |r| == |RemoveHexPrefix(s)| - 8
    ensures r == s[|s| - |r|..]
    ensures |s| - |r| == (if s[..2] == HexPrefix then 10 else 8)
  {
    var t := RemoveHexPrefix(s);
    t[8..]
  }

  predicate IsLowerHexDigit(c: byte)
  {
    0x30 <= c <= 0x39 || 0x61 <= c <= 0x66
  }

  /** The lowercase hex digit of a nibble. */
  function HexDigit(n: nat): (c: byte)
    requires n < 16
    ensures IsLowerHexDigit(c)
  {
    if n < 10 then (0x30 + n) as byte else (0x61 + n - 10) as byte
  }

  /** The value of a hex digit of either case, as `hex::decode` reads it. */
  function HexValue(c: byte): (r: Option<nat>)
    ensures r.Some? ==> r.value < 16
    ensures IsLowerHexDigit(c) ==> r.Some? && HexDigit(r.value) == c
  {
    if 0x30 <= c <= 0x39 then Some((c - 0x30) as nat)
    else if 0x61 <= c <= 0x66 then Some((c - 0x61) as nat + 10)
    else if 0x41 <= c <= 0x46 then Some((c - 0x41) as nat + 10)
    else None
  }

  /** `hex::encode`: two lowercase digits per byte, high nibble first. */
  function HexEncode(bs: seq<byte>): (r: seq<byte>)
    ensures |r| == 2 * |bs|
    ensures forall k :: 0 <= k < |r| ==> IsLowerHexDigit(r[k])
  {
    if bs == [] then []
    else [HexDigit(bs[0] as nat / 16), HexDigit(bs[0] as nat % 16)] + HexEncode(bs[1..])
  }

  /** `hex::decode`: pairs of digits of either case; odd length or a
      non-digit is an error. */
  function HexDecode(s: seq<byte>): (r: Option<seq<byte>>)
    ensures r.Some? ==> |s| == 2 * |r.value|
  {
    if s == [] then Some([])
    else if |s| == 1 then None
    else match (HexValue(s[0]), HexValue(s[1]), HexDecode(s[2..]))
      case (Some(hi), Some(lo), Some(rest)) => Some([(hi * 16 + lo) as byte] + rest)
      case _ => None
  }

  /** Decoding undoes encoding. */
  lemma {:induction false} HexDecodeEncode(bs: seq<byte>)
    ensures HexDecode(HexEncode(bs)) == Some(bs)
  {
    if bs != [] {
      var s := HexEncode(bs);
      var hi, lo := bs[0] as nat / 16, bs[0] as nat % 16;
      assert s[..2] == [HexDigit(hi), HexDigit(lo)] && s[2..] == HexEncode(bs[1..]);
      HexDecodeEncode(bs[1..]);
      assert HexValue(HexDigit(hi)) == Some(hi);
      assert HexValue(HexDigit(lo)) == Some(lo);
      assert (hi * 16 + lo) as byte == bs[0];
      assert [bs[0]] + bs[1..] == bs;
    }
  }

  /** Encoding undoes decoding of lowercase text: on lowercase input the two
      are inverse, so `hex::encode` is the unique lowercase rendering. */
  lemma {:induction false} HexEncodeDecode(s: seq<byte>, bs: seq<byte>)
    requires forall k :: 0 <= k < |s| ==> IsLowerHexDigit(s[k])
    requires HexDecode(s) == Some(bs)
    ensures HexEncode(bs) == s
  {
    if s != [] {
      var hi, lo := HexValue(s[0]).value, HexValue(s[1]).value;
      var rest := HexDecode(s[2..]).value;
      assert bs == [(hi * 16 + lo) as byte] + rest;
      HexEncodeDecode(s[2..], rest);
      assert bs[0] as nat / 16 == hi && bs[0] as nat % 16 == lo;
      assert bs[1..] == rest;
      assert s == [s[0], s[1]] + s[2..];
    }
  }

  /** Hex digits are ASCII, so "0x" followed by them can be sliced at 2. */
  lemma PrefixedHexSlices(bs: seq<byte>)
    ensures CanSliceAt(HexPrefix + HexEncode(bs), 2)
    ensures (HexPrefix + HexEncode(bs))[..2] == HexPrefix
  {
    var s := HexPrefix + HexEncode(bs);
    if |s| > 2 {
      assert s[2] == HexEncode(bs)[0];
    }
  }
}
