/**
 * Bytes and the lowercase hexadecimal text form of a byte string.
 *
 * A UUID's "simple" string (section 3 of RFC 4122 without the hyphens) writes each
 * of its 16 octets, in order, as two lowercase hexadecimal digits, high nibble first.
 * HexString is that encoding for any byte string; ParseHex is its exact inverse.
 */
module Hex {
  import opened Wrappers

  newtype byte = x: int | 0 <= x < 256

  /** The characters HexString emits: '0'..'9' and 'a'..'f'. */
  predicate IsLowerHexDigit(c: char) {
    '0' <= c <= '9' || 'a' <= c <= 'f'
  }

  /** The lowercase hexadecimal digit for a nibble. */
  function HexDigit(n: int): (c: char)
    requires 0 <= n < 16
    ensures IsLowerHexDigit(c)
  {
    if n < 10 then (48 + n) as char else (87 + n) as char
  }

  /** The nibble a lowercase hexadecimal digit stands for; None for any other character. */
  function DigitValue(c: char): (r: Option<int>)
    ensures r.Some? <==> IsLowerHexDigit(c)
    ensures r.Some? ==> 0 <= r.value < 16 && HexDigit(r.value) == c
  {
    if '0' <= c <= '9' then Some(c as int - 48)
    else if 'a' <= c <= 'f' then Some(c as int - 87)
    else None
  }

  lemma DigitValueOfHexDigit(n: int)
    requires 0 <= n < 16
    ensures DigitValue(HexDigit(n)) == Some(n)
  {
  }

  /** The two digits of one byte, high nibble first. */
  function ByteHex(b: byte): string {
    [HexDigit(b as int / 16), HexDigit(b as int % 16)]
  }

  /** The lowercase hexadecimal string of a byte string: two digits per byte, in byte order. */
  function HexString(bs: seq<byte>): (s: string)
    ensures |s| == 2 * |bs|
    ensures forall i :: 0 <= i < |s| ==> IsLowerHexDigit(s[i])
  {
    if bs == [] then "" else ByteHex(bs[0]) + HexString(bs[1..])
  }

  /** Digits 2k and 2k+1 of HexString(bs) are the high and low nibble of byte k. */
  lemma {:induction false} HexStringAt(bs: seq<byte>, k: int)
    requires 0 <= k < |bs|
    ensures HexString(bs)[2 * k] == HexDigit(bs[k] as int / 16)
    ensures HexString(bs)[2 * k + 1] == HexDigit(bs[k] as int % 16)
  {
    if k > 0 {
      HexStringAt(bs[1..], k - 1);
    }
  }

  /** Reads a string of lowercase hex digit pairs back into bytes. */
  function ParseHex(s: string): (r: Option<seq<byte>>)
    ensures r.Some? ==> 2 * |r.value| == |s|
  {
    if s == [] then Some([])
    else if |s| < 2 then None
    else
      match (DigitValue(s[0]), DigitValue(s[1]), ParseHex(s[2..]))
      case (Some(hi), Some(lo), Some(rest)) => Some([(hi * 16 + lo) as byte] + rest)
      case _ => None
  }

  /** ParseHex undoes HexString. */
  lemma {:induction false} ParseHexString(bs: seq<byte>)
    ensures ParseHex(HexString(bs)) == Some(bs)
  {
    if bs != [] {
      var b := bs[0] as int;
      DigitValueOfHexDigit(b / 16);
      DigitValueOfHexDigit(b % 16);
      ParseHexString(bs[1..]);
      var s := HexString(bs);
      assert s[2..] == HexString(bs[1..]);
      assert [bs[0]] + bs[1..] == bs;
    }
  }

  /** HexString undoes ParseHex: the only text ParseHex accepts is HexString's output. */
  lemma {:induction false} HexStringOfParse(s: string, bs: seq<byte>)
    requires ParseHex(s) == Some(bs)
    ensures HexString(bs) == s
  {
    if s != [] {
      var hi, lo := DigitValue(s[0]).value, DigitValue(s[1]).value;
      var rest := ParseHex(s[2..]).value;
      HexStringOfParse(s[2..], rest);
      assert bs == [(hi * 16 + lo) as byte] + rest;
      assert bs[1..] == rest;
      assert ((hi * 16 + lo) as byte) as int / 16 == hi;
      assert s == [s[0], s[1]] + s[2..];
    }
  }

  /** Different byte strings have different hex strings. */
  lemma HexStringInjective(a: seq<byte>, b: seq<byte>)
    requires HexString(a) == HexString(b)
    ensures a == b
  {
    ParseHexString(a);
    ParseHexString(b);
  }
}
