/**
 * Bytes and their hexadecimal text form, as produced by Node's
 * `buf.toString('hex')` (lower-case digits) and accepted by the
 * ObjectId constructor (either case).
 */
module Hex {
  import opened Wrappers

  type Byte = x: int | 0 <= x < 256

  /** The digit `toString('hex')` writes for a nibble: 0-9, then a-f. */
  function HexChar(n: nat): (c: char)
    requires n < 16
    ensures '0' <= c <= '9' || 'a' <= c <= 'f'
  {
    if n < 10 then ('0' as int + n) as char else ('a' as int + n - 10) as char
  }

  predicate IsLowerHexDigit(c: char) {
    '0' <= c <= '9' || 'a' <= c <= 'f'
  }

  predicate IsLowerHex(s: string) {
    forall i :: 0 <= i < |s| ==> IsLowerHexDigit(s[i])
  }

  /** The value of one hex digit, accepting both cases. */
  function DigitValue(c: char): (r: Option<nat>)
    ensures r.Some? ==> r.value < 16
  {
    if '0' <= c <= '9' then Some(c as int - '0' as int)
    else if 'a' <= c <= 'f' then Some(c as int - 'a' as int + 10)
    else if 'A' <= c <= 'F' then Some(c as int - 'A' as int + 10)
    else None
  }

  predicate IsHexDigit(c: char) {
    DigitValue(c).Some?
  }

  lemma DigitRoundTrip(n: nat)
    requires n < 16
    ensures DigitValue(HexChar(n)) == Some(n)
  {
  }

  /** Two lower-case digits per byte, high nibble first. */
  function ToHex(bytes: seq<Byte>): (r: string)
    ensures |r| == 2 * |bytes|
    ensures IsLowerHex(r)
  {
    if bytes == [] then ""
    else [HexChar(bytes[0] / 16), HexChar(bytes[0] % 16)] + ToHex(bytes[1..])
  }

  /** Parses an even-length string of hex digits of either case; anything else is None. */
  function FromHex(s: string): (r: Option<seq<Byte>>)
    ensures r.Some? ==> |s| == 2 * |r.value|
    decreases |s|
  {
    if |s| == 0 then Some([])
    else if |s| == 1 then None
    else
      var hi, lo, rest := DigitValue(s[0]), DigitValue(s[1]), FromHex(s[2..]);
      if hi.Some? && lo.Some? && rest.Some? then Some([(hi.value * 16 + lo.value) as Byte] + rest.value)
      else None
  }

  /** One step of the round trip: a byte's two digits in front of well-formed hex. */
  lemma FromHexCons(b: Byte, rest: seq<Byte>)
    requires FromHex(ToHex(rest)) == Some(rest)
    ensures FromHex([HexChar(b / 16), HexChar(b % 16)] + ToHex(rest)) == Some([b] + rest)
  {
    var s := [HexChar(b / 16), HexChar(b % 16)] + ToHex(rest);
    assert s[2..] == ToHex(rest);
    DigitRoundTrip(b / 16);
    DigitRoundTrip(b % 16);
    var hi, lo := b / 16, b % 16;
    assert DigitValue(s[0]) == Some(hi);
    assert DigitValue(s[1]) == Some(lo);
    assert hi * 16 + lo == b;
    assert FromHex(s) == Some([(hi * 16 + lo) as Byte] + rest);
  }

  /** Hex text written for any bytes reads back as exactly those bytes. */
  lemma {:induction false} FromHexToHex(bytes: seq<Byte>)
    ensures FromHex(ToHex(bytes)) == Some(bytes)
  {
    if bytes != [] {
      FromHexToHex(bytes[1..]);
      FromHexCons(bytes[0], bytes[1..]);
      assert [bytes[0]] + bytes[1..] == bytes;
    }
  }

  /** FromHex accepts exactly the even-length strings of hex digits. */
  lemma {:induction false} FromHexAccepts(s: string)
    ensures FromHex(s).Some? <==> |s| % 2 == 0 && forall i :: 0 <= i < |s| ==> IsHexDigit(s[i])
    decreases |s|
  {
    if |s| >= 2 {
      FromHexAccepts(s[2..]);
      assert forall i :: 2 <= i < |s| ==> s[i] == s[2..][i - 2];
    }
  }
}
