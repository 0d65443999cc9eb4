/** Go's `encoding/hex`: two lower-case hexadecimal characters per byte, high nibble first. */
module Hex {
  import opened Wrappers

  newtype byte = x: int | 0 <= x < 256

  const HexTable: string := "0123456789abcdef"

  predicate IsLowerHex(c: char) {
    '0' <= c <= '9' || 'a' <= c <= 'f'
  }

  /** `hex.EncodeToString`. */
  function HexEncode(bs: seq<byte>): (s: string)
    ensures |s| == 2 * |bs|
    ensures forall k :: 0 <= k < |s| ==> IsLowerHex(s[k])
    ensures forall k :: 0 <= k < |bs| ==>
      s[2 * k] == HexTable[bs[k] as int / 16] && s[2 * k + 1] == HexTable[bs[k] as int % 16]
  {
    if bs == [] then []
    else
      var rest := HexEncode(bs[1..]);
      assert forall k :: 1 <= k < |bs| ==> bs[k] == bs[1..][k - 1];
      [HexTable[bs[0] as int / 16], HexTable[bs[0] as int % 16]] + rest
  }

  /** The value of one hexadecimal character of either case, as `hex.DecodeString` reads it. */
  function FromHexChar(c: char): Option<int> {
    if '0' <= c <= '9' then Some(c as int - '0' as int)
    else if 'a' <= c <= 'f' then Some(c as int - 'a' as int + 10)
    else if 'A' <= c <= 'F' then Some(c as int - 'A' as int + 10)
    else None
  }

  /** `hex.DecodeString`: None for an odd length or a non-hexadecimal character. */
  function HexDecode(s: string): Option<seq<byte>>
    decreases |s|
  {
    if s == [] then Some([])
    else if |s| == 1 then None
    else
      match (FromHexChar(s[0]), FromHexChar(s[1]), HexDecode(s[2..]))
      case (Some(hi), Some(lo), Some(rest)) =>
        if 0 <= hi < 16 && 0 <= lo < 16 then Some([(hi * 16 + lo) as byte] + rest) else None
      case _ => None
  }

  lemma TableDigit(v: int)
    requires 0 <= v < 16
    ensures FromHexChar(HexTable[v]) == Some(v)
  {
    if v < 10 {
      assert HexTable[v] == ('0' as int + v) as char;
    } else {
      assert HexTable[v] == ('a' as int + v - 10) as char;
    }
  }

  /** The high and the low nibble of a byte, as `HexEncode` splits it. */
  lemma Nibbles(b: byte) returns (hi: int, lo: int)
    ensures hi == b as int / 16 && lo == b as int % 16
    ensures 0 <= hi < 16 && 0 <= lo < 16 && (hi * 16 + lo) as byte == b
  {
    hi, lo := b as int / 16, b as int % 16;
  }

  /** Two digits followed by a decodable rest decode to their byte followed by the rest. */
  lemma DecodePair(s: string, hi: int, lo: int, rest: seq<byte>)
    requires |s| >= 2 && FromHexChar(s[0]) == Some(hi) && FromHexChar(s[1]) == Some(lo)
    requires 0 <= hi < 16 && 0 <= lo < 16 && HexDecode(s[2..]) == Some(rest)
    ensures HexDecode(s) == Some([(hi * 16 + lo) as byte] + rest)
  {
  }

  /** Decoding undoes encoding, so the encoding loses nothing. */
  lemma {:induction false} DecodeEncode(bs: seq<byte>)
    ensures HexDecode(HexEncode(bs)) == Some(bs)
    decreases |bs|
  {
    if bs != [] {
      DecodeEncode(bs[1..]);
      var s := HexEncode(bs);
      var hi, lo := Nibbles(bs[0]);
      TableDigit(hi);
      TableDigit(lo);
      assert s[0] == HexTable[hi] && s[1] == HexTable[lo] && s[2..] == HexEncode(bs[1..]);
      DecodePair(s, hi, lo, bs[1..]);
      assert [bs[0]] + bs[1..] == bs;
    }
  }

  /** Two byte strings with the same encoding are equal. */
  lemma EncodeInjective(a: seq<byte>, b: seq<byte>)
    requires HexEncode(a) == HexEncode(b)
    ensures a == b
  {
    DecodeEncode(a);
    DecodeEncode(b);
  }
}
