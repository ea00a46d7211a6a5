/**
  UTF-8, the encoding that URLSearchParams applies to every name and value before
  percent-encoding them. Dafny's `char` is a Unicode scalar value, which is exactly what
  a URLSearchParams list holds (its strings are scalar value strings).
 */
module Utf8 {
  import opened Wrappers

  /** A byte of an encoded string. */
  type Byte = b: int | 0 <= b < 256

  /** The bytes a continuation byte may take: 10xxxxxx. */
  predicate IsContinuation(b: Byte) {
    0x80 <= b < 0xC0
  }

  /** True for the code points Dafny's `char` (a Unicode scalar value) can hold. */
  predicate IsScalar(n: int) {
    (0 <= n < 0xD800) || (0xE000 <= n < 0x11_0000)
  }

  /** The UTF-8 encoding of one scalar value: one to four bytes. */
  function EncodeChar(c: char): (r: seq<Byte>)
    ensures 1 <= |r| <= 4
    ensures (c as int < 0x80) <==> |r| == 1
    ensures c as int < 0x80 ==> r == [c as int]
  {
    var n := c as int;
    if n < 0x80 then [n]
    else if n < 0x800 then [0xC0 + n / 64, 0x80 + n % 64]
    else if n < 0x1_0000 then [0xE0 + n / 4096, 0x80 + (n / 64) % 64, 0x80 + n % 64]
    else [0xF0 + n / 262144, 0x80 + (n / 4096) % 64, 0x80 + (n / 64) % 64, 0x80 + n % 64]
  }

  /** The UTF-8 encoding of a string. */
  function Encode(s: string): seq<Byte> {
    if s == [] then [] else EncodeChar(s[0]) + Encode(s[1..])
  }

  /** How many bytes a sequence starting with lead byte `b` has; 0 when `b` cannot lead. */
  function SequenceLength(b: Byte): nat {
    if b < 0x80 then 1
    else if 0xC0 <= b < 0xE0 then 2
    else if 0xE0 <= b < 0xF0 then 3
    else if 0xF0 <= b < 0xF8 then 4
    else 0
  }

  /**
    The scalar value a complete byte sequence stands for, or None when the sequence is
    malformed: a bad continuation byte, an overlong form, a surrogate or a value past U+10FFFF.
   */
  function DecodeSequence(bs: seq<Byte>): Option<char>
    requires 1 <= |bs| <= 4 && SequenceLength(bs[0]) == |bs|
  {
    var b0: int := bs[0];
    if |bs| == 1 then
      Some(b0 as char)
    else if |bs| == 2 then
      var b1: int := bs[1];
      if !IsContinuation(bs[1]) then None
      else
        var n := (b0 - 0xC0) * 64 + (b1 - 0x80);
        if n < 0x80 then None else Some(n as char)
    else if |bs| == 3 then
      var b1: int, b2: int := bs[1], bs[2];
      if !IsContinuation(bs[1]) || !IsContinuation(bs[2]) then None
      else
        var n := (b0 - 0xE0) * 4096 + (b1 - 0x80) * 64 + (b2 - 0x80);
        if n < 0x800 || !IsScalar(n) then None else Some(n as char)
    else
      var b1: int, b2: int, b3: int := bs[1], bs[2], bs[3];
      if !IsContinuation(bs[1]) || !IsContinuation(bs[2]) || !IsContinuation(bs[3]) then None
      else
        var n := (b0 - 0xF0) * 262144 + (b1 - 0x80) * 4096 + (b2 - 0x80) * 64 + (b3 - 0x80);
        if n < 0x1_0000 || !IsScalar(n) then None else Some(n as char)
  }

  /** UTF-8 decoding; None when the bytes are not well-formed UTF-8. */
  function Decode(bs: seq<Byte>): Option<string>
    decreases |bs|
  {
    if bs == [] then Some([])
    else
      var k := SequenceLength(bs[0]);
      if k == 0 || |bs| < k then None
      else match DecodeSequence(bs[..k])
        case None => None
        case Some(c) =>
          match Decode(bs[k..])
          case None => None
          case Some(rest) => Some([c] + rest)
  }

  /** Splitting a code point into 6-bit groups and joining them again gives it back. */
  lemma SplitTwo(n: int)
    requires 0 <= n
    ensures n / 64 * 64 + n % 64 == n
  {
  }

  lemma SplitThree(n: int)
    requires 0 <= n
    ensures n / 4096 * 4096 + (n / 64) % 64 * 64 + n % 64 == n
  {
    assert n / 64 == (n / 4096) * 64 + (n / 64) % 64;
  }

  lemma SplitFour(n: int)
    requires 0 <= n
    ensures n / 262144 * 262144 + (n / 4096) % 64 * 4096 + (n / 64) % 64 * 64 + n % 64 == n
  {
    SplitThree(n % 262144);
    assert n / 4096 == (n / 262144) * 64 + (n / 4096) % 64;
    assert (n % 262144) / 4096 == (n / 4096) % 64;
    assert (n % 262144) / 64 % 64 == (n / 64) % 64;
    assert (n % 262144) % 64 == n % 64;
  }

  /** The bytes of one character decode back to that character. */
  lemma DecodeEncodeChar(c: char)
    ensures SequenceLength(EncodeChar(c)[0]) == |EncodeChar(c)|
    ensures DecodeSequence(EncodeChar(c)) == Some(c)
  {
    var n := c as int;
    if n < 0x80 {
    } else if n < 0x800 {
      SplitTwo(n);
    } else if n < 0x1_0000 {
      SplitThree(n);
    } else {
      SplitFour(n);
    }
  }

  /** Decoding undoes encoding: UTF-8 loses nothing. */
  lemma {:induction false} DecodeEncode(s: string)
    ensures Decode(Encode(s)) == Some(s)
  {
    if s != [] {
      var head := EncodeChar(s[0]);
      var bs := Encode(s);
      DecodeEncodeChar(s[0]);
      assert bs[..|head|] == head;
      assert bs[|head|..] == Encode(s[1..]);
      assert bs[0] == head[0];
      DecodeEncode(s[1..]);
      assert [s[0]] + s[1..] == s;
    }
  }

  /** Encoding is injective, as a consequence of the round trip. */
  lemma EncodeInjective(s: string, t: string)
    requires Encode(s) == Encode(t)
    ensures s == t
  {
    DecodeEncode(s);
    DecodeEncode(t);
  }
}
