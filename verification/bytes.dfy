/** Bytes and their lowercase hexadecimal rendering, as produced by
    Python's `"%02x"` formatting and by `binascii.hexlify`. */
module Bytes {

  /** One octet: the element type of a `bytearray` and of the integer lists
      the reader driver exchanges. */
  type byte = b: int | 0 <= b < 256

  /** `n` zero bytes: `bytearray([0x00] * n)`. */
  function Zeros(n: nat): (r: seq<byte>)
    ensures |r| == n
    ensures forall i :: 0 <= i < n ==> r[i] == 0
  {
    seq(n, _ => 0)
  }

  /** The digits `%02x` emits: `0`-`9` and lowercase `a`-`f`. */
  predicate IsHexDigit(c: char) {
    '0' <= c <= '9' || 'a' <= c <= 'f'
  }

  /** The digit for a nibble. */
  function Digit(n: int): (c: char)
    requires 0 <= n < 16
    ensures IsHexDigit(c)
  {
    if n < 10 then ('0' as int + n) as char else ('a' as int + n - 10) as char
  }

  /** The value of one lowercase hex digit; inverse of `Digit`. */
  function DigitValue(c: char): (v: int)
    requires IsHexDigit(c)
    ensures 0 <= v < 16 && Digit(v) == c
  {
    if '0' <= c <= '9' then c as int - '0' as int else c as int - 'a' as int + 10
  }

  /** `"%02x" % b`: exactly two digits, high nibble first. */
  function HexByte(b: byte): (r: string)
    ensures |r| == 2 && IsHexDigit(r[0]) && IsHexDigit(r[1])
    ensures DigitValue(r[0]) * 16 + DigitValue(r[1]) == b
  {
    [Digit(b / 16), Digit(b % 16)]
  }

  /** `binascii.hexlify(bs)`: the bytes rendered two digits each, in order. */
  function Hexlify(bs: seq<byte>): (r: string)
    ensures |r| == 2 * |bs|
    ensures forall i :: 0 <= i < |r| ==> IsHexDigit(r[i])
  {
    if bs == [] then "" else HexByte(bs[0]) + Hexlify(bs[1..])
  }

  /** The inverse of `Hexlify`: pairs of digits back to bytes. */
  function Unhexlify(s: string): (r: seq<byte>)
    requires |s| % 2 == 0
    requires forall i :: 0 <= i < |s| ==> IsHexDigit(s[i])
    ensures |r| == |s| / 2
  {
    if s == [] then [] else [DigitValue(s[0]) * 16 + DigitValue(s[1])] + Unhexlify(s[2..])
  }

  /** The rendering loses nothing: reading the digits back gives the bytes. */
  lemma {:induction false} UnhexlifyHexlify(bs: seq<byte>)
    ensures Unhexlify(Hexlify(bs)) == bs
  {
    if bs != [] {
      var h := Hexlify(bs);
      assert h[..2] == HexByte(bs[0]);
      assert h[2..] == Hexlify(bs[1..]);
      UnhexlifyHexlify(bs[1..]);
    }
  }

  /** Distinct byte strings render to distinct text. */
  lemma HexlifyInjective(a: seq<byte>, b: seq<byte>)
    requires Hexlify(a) == Hexlify(b)
    ensures a == b
  {
    UnhexlifyHexlify(a);
    UnhexlifyHexlify(b);
  }
}
