/** UTF-8 encoding of text, as `str.encode('utf-8')` performs it before the
    payload is shaped, with a strict decoder as its inverse. */
module Utf8 {
  import opened Bytes

  datatype Option<T> = None | Some(value: T)

  /** A byte of the form 10xxxxxx, which continues a multi-byte sequence. */
  predicate IsContinuation(b: byte) {
    0x80 <= b < 0xC0
  }

  /** How many bytes the sequence led by `b` has; 0 when `b` cannot lead one:
      a continuation byte, 0xC0 and 0xC1 (which could only start an overlong
      form of an ASCII character), and 0xF5 and above (which could only start
      a value beyond U+10FFFF). */
  function LeadLength(b: byte): (n: nat)
    ensures n <= 4
    ensures n == 0 <==> (IsContinuation(b) || b == 0xC0 || b == 0xC1 || b >= 0xF5)
    ensures n == 1 <==> b < 0x80
  {
    if b < 0x80 then 1
    else if b < 0xC2 then 0
    else if b < 0xE0 then 2
    else if b < 0xF0 then 3
    else if b < 0xF5 then 4
    else 0
  }

  /** A well-formed sequence for one character: the lead byte announces the
      length and every other byte is a continuation. */
  predicate WellFormedChar(bs: seq<byte>) {
    1 <= |bs| && LeadLength(bs[0]) == |bs| &&
    forall i :: 1 <= i < |bs| ==> IsContinuation(bs[i])
  }

  /** The UTF-8 bytes of one Unicode scalar value. */
  function EncodeChar(c: char): (r: seq<byte>)
    ensures WellFormedChar(r)
    ensures |r| == 1 <==> c as int < 0x80
    ensures |r| == 1 ==> r[0] == c as int
  {
    var cp := c as int;
    if cp < 0x80 then [cp]
    else if cp < 0x800 then [0xC0 + cp / 64, 0x80 + cp % 64]
    else if cp < 0x10000 then [0xE0 + cp / 4096, 0x80 + (cp / 64) % 64, 0x80 + cp % 64]
    else [0xF0 + cp / 262144, 0x80 + (cp / 4096) % 64, 0x80 + (cp / 64) % 64, 0x80 + cp % 64]
  }

  /** The scalar value carried by one well-formed sequence. */
  function DecodeChar(bs: seq<byte>): int
    requires WellFormedChar(bs)
  {
    var b: seq<int> := bs;
    if |b| == 1 then b[0]
    else if |b| == 2 then (b[0] - 0xC0) * 64 + (b[1] - 0x80)
    else if |b| == 3 then (b[0] - 0xE0) * 4096 + (b[1] - 0x80) * 64 + (b[2] - 0x80)
    else (b[0] - 0xF0) * 262144 + (b[1] - 0x80) * 4096 + (b[2] - 0x80) * 64 + (b[3] - 0x80)
  }

  lemma DecodeEncodeChar(c: char)
    ensures DecodeChar(EncodeChar(c)) == c as int
  {
    var cp := c as int;
    if 0x10000 <= cp {
      assert cp / 64 == (cp / 4096) * 64 + (cp / 64) % 64;
      assert cp / 4096 == (cp / 262144) * 64 + (cp / 4096) % 64;
    } else if 0x800 <= cp {
      assert cp / 64 == (cp / 4096) * 64 + (cp / 64) % 64;
    }
  }

  /** `s.encode('utf-8')`. */
  function Encode(s: string): (r: seq<byte>)
    ensures |s| <= |r| <= 4 * |s|
  {
    if s == [] then [] else EncodeChar(s[0]) + Encode(s[1..])
  }

  /** The scalar values of a string, in order. */
  function CodePoints(s: string): (r: seq<int>)
    ensures |r| == |s| && forall i :: 0 <= i < |s| ==> r[i] == s[i] as int
  {
    seq(|s|, i requires 0 <= i < |s| => s[i] as int)
  }

  /** Strict decoding: fails on any byte sequence that is not a concatenation
      of well-formed characters. */
  function Decode(bs: seq<byte>): Option<seq<int>>
    decreases |bs|
  {
    if bs == [] then Some([])
    else
      var n := LeadLength(bs[0]);
      if n == 0 || |bs| < n || !WellFormedChar(bs[..n]) then None
      else match Decode(bs[n..])
        case None => None
        case Some(rest) => Some([DecodeChar(bs[..n])] + rest)
  }

  /** Encoding loses nothing: decoding the bytes gives back every character. */
  lemma {:induction false} DecodeEncode(s: string)
    ensures Decode(Encode(s)) == Some(CodePoints(s))
  {
    if s != [] {
      var head := EncodeChar(s[0]);
      var bs := Encode(s);
      assert bs == head + Encode(s[1..]);
      assert bs[..|head|] == head;
      assert bs[|head|..] == Encode(s[1..]);
      DecodeEncodeChar(s[0]);
      DecodeEncode(s[1..]);
      assert CodePoints(s) == [s[0] as int] + CodePoints(s[1..]);
    }
  }

  /** Text made of ASCII characters encodes one byte per character, each byte
      being the character's code. */
  lemma {:induction false} EncodeAscii(s: string)
    requires forall i :: 0 <= i < |s| ==> s[i] as int < 0x80
    ensures Encode(s) == CodePoints(s)
  {
    if s != [] {
      EncodeAscii(s[1..]);
      assert CodePoints(s) == [s[0] as int] + CodePoints(s[1..]);
    }
  }

  /** Encoding is one byte per character exactly when the text is ASCII. */
  lemma {:induction false} EncodeLengthAscii(s: string)
    ensures |Encode(s)| == |s| <==> forall i :: 0 <= i < |s| ==> s[i] as int < 0x80
  {
    if s != [] {
      EncodeLengthAscii(s[1..]);
      assert forall i :: 1 <= i < |s| ==> s[i] == s[1..][i - 1];
    }
  }
}
