/** Hexadecimal text as libsodium's sodium_bin2hex writes it and
    sodium_hex2bin reads it (src/shared/utils.cpp binToHex, and every sealed
    payload on the wire). */
module Hex {
  import opened Wrappers
  import opened Text

  type byte = x: int | 0 <= x < 256

  const LOWER_DIGITS: string := "0123456789abcdef"

  /** The characters sodium_bin2hex emits. */
  predicate IsHexChar(c: char) {
    ('0' <= c <= '9') || ('a' <= c <= 'f')
  }

  predicate AllHex(s: string) {
    forall i :: 0 <= i < |s| ==> IsHexChar(s[i])
  }

  /** The value of a digit sodium_hex2bin accepts (either case), if any. */
  function NibbleValue(c: char): (r: Option<nat>)
    ensures r.Some? ==> r.value < 16
  {
    if '0' <= c <= '9' then Some(c as int - '0' as int)
    else if 'a' <= c <= 'f' then Some(c as int - 'a' as int + 10)
    else if 'A' <= c <= 'F' then Some(c as int - 'A' as int + 10)
    else None
  }

  function NibbleChar(v: nat): (c: char)
    requires v < 16
    ensures IsHexChar(c)
    ensures NibbleValue(c) == Some(v)
  {
    LOWER_DIGITS[v]
  }

  /** sodium_bin2hex: two lower-case digits per byte, high nibble first. */
  function BinToHex(b: seq<byte>): (h: string)
    ensures |h| == 2 * |b|
    ensures AllHex(h)
  {
    if |b| == 0 then ""
    else [NibbleChar(b[0] / 16), NibbleChar(b[0] % 16)] + BinToHex(b[1..])
  }

  /** sodium_hex2bin with no ignore set and no hex_end output: fails on an odd
      number of digits and on any character that is not a digit. */
  function HexToBin(h: string): (r: Option<seq<byte>>)
    ensures r.Some? ==> 2 * |r.value| == |h|
    ensures |h| % 2 == 1 ==> r.None?
  {
    if |h| == 0 then Some([])
    else if |h| == 1 then None
    else match (NibbleValue(h[0]), NibbleValue(h[1]))
      case (Some(hi), Some(lo)) =>
        (match HexToBin(h[2..])
          case None => None
          case Some(rest) => Some([(hi * 16 + lo) as byte] + rest))
      case _ => None
  }

  /** Decoding what sodium_bin2hex wrote gives the bytes back. */
  lemma {:induction false} HexRoundTrip(b: seq<byte>)
    ensures HexToBin(BinToHex(b)) == Some(b)
  {
    if |b| > 0 {
      var h := BinToHex(b);
      assert h[2..] == BinToHex(b[1..]);
      HexRoundTrip(b[1..]);
      assert [b[0]] + b[1..] == b;
    }
  }

  /** A text made only of hex digits never holds a pattern that has a
      character outside the hex alphabet. */
  lemma HexAvoids(h: string, p: string, k: nat)
    requires AllHex(h)
    requires k < |p| && !IsHexChar(p[k])
    ensures !Contains(h, p)
  {
  }
}
