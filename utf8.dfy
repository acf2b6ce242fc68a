/** UTF-8, the charset of the connection's reader and writer and of
  * `URLDecoder`: encoding of Unicode scalar values (`String.getBytes`) and
  * decoding of byte runs (`new String(bytes, UTF_8)`). */
module Utf8 {

  type Byte = x: int | 0 <= x < 256

  predicate IsContinuation(b: Byte)
  {
    0x80 <= b <= 0xBF
  }

  /** The bytes of one scalar value, shortest form. */
  function EncodeScalar(c: char): (bs: seq<Byte>)
    ensures 1 <= |bs| <= 4
    ensures |bs| == 1 <==> c as int < 0x80
  {
    var x := c as int;
    var q1 := x / 64;
    var q2 := q1 / 64;
    var q3 := q2 / 64;
    if x < 0x80 then [x]
    else if x < 0x800 then [0xC0 + q1, 0x80 + x % 64]
    else if x < 0x1_0000 then [0xE0 + q2, 0x80 + q1 % 64, 0x80 + x % 64]
    else [0xF0 + q3, 0x80 + q2 % 64, 0x80 + q1 % 64, 0x80 + x % 64]
  }

  /** `s.getBytes(UTF_8)`. */
  function Encode(s: string): (bs: seq<Byte>)
    ensures |s| <= |bs| <= 4 * |s|
  {
    if s == [] then [] else EncodeScalar(s[0]) + Encode(s[1..])
  }

  /** Encoding distributes over concatenation, so the byte length of a
    * concatenation is the sum of the byte lengths. */
  lemma {:induction false} EncodeAppend(a: string, b: string)
    ensures Encode(a + b) == Encode(a) + Encode(b)
  {
    if a == [] {
      assert a + b == b;
    } else {
      assert (a + b)[1..] == a[1..] + b;
      EncodeAppend(a[1..], b);
    }
  }

  predicate IsAscii(s: string)
  {
    forall i :: 0 <= i < |s| ==> s[i] as int < 0x80
  }

  /** An ASCII string has exactly one byte per char. */
  lemma {:induction false} EncodeAscii(s: string)
    requires IsAscii(s)
    ensures |Encode(s)| == |s|
  {
    if s != [] {
      EncodeAscii(s[1..]);
    }
  }

  /** A char outside ASCII makes the byte count exceed the char count. */
  lemma {:induction false} EncodeNonAscii(s: string, i: nat)
    requires i < |s| && s[i] as int >= 0x80
    ensures |Encode(s)| > |s|
  {
    if i == 0 {
      assert |Encode(s[1..])| >= |s| - 1;
    } else {
      EncodeNonAscii(s[1..], i - 1);
    }
  }

  /** The well-formed sequence that starts a byte run, as (scalar, length);
    * a byte that starts no well-formed sequence decodes to U+FFFD on its own. */
  function DecodeFirst(bs: seq<Byte>): (r: (char, nat))
    requires bs != []
    ensures 1 <= r.1 <= |bs|
  {
    var b0: int := bs[0];
    var b1: int := if |bs| >= 2 then bs[1] else 0;
    var b2: int := if |bs| >= 3 then bs[2] else 0;
    var b3: int := if |bs| >= 4 then bs[3] else 0;
    if b0 < 0x80 then (b0 as char, 1)
    else if 0xC2 <= b0 <= 0xDF && |bs| >= 2 && IsContinuation(b1) then
      (((b0 - 0xC0) * 64 + (b1 - 0x80)) as char, 2)
    else if 0xE0 <= b0 <= 0xEF && |bs| >= 3 && IsContinuation(b1) && IsContinuation(b2)
         && (b0 != 0xE0 || b1 >= 0xA0) && (b0 != 0xED || b1 <= 0x9F) then
      (((b0 - 0xE0) * 4096 + (b1 - 0x80) * 64 + (b2 - 0x80)) as char, 3)
    else if 0xF0 <= b0 <= 0xF4 && |bs| >= 4 && IsContinuation(b1) && IsContinuation(b2)
         && IsContinuation(b3) && (b0 != 0xF0 || b1 >= 0x90) && (b0 != 0xF4 || b1 <= 0x8F) then
      (((b0 - 0xF0) * 0x4_0000 + (b1 - 0x80) * 4096 + (b2 - 0x80) * 64 + (b3 - 0x80)) as char, 4)
    else ('\U{FFFD}', 1)
  }

  /** `new String(bytes, UTF_8)`. */
  function Decode(bs: seq<Byte>): (s: string)
    ensures |s| <= |bs|
    decreases |bs|
  {
    if bs == [] then "" else
      var (c, n) := DecodeFirst(bs);
      [c] + Decode(bs[n..])
  }

  lemma DecodeFirstTwo(c: char, rest: seq<Byte>)
    requires 0x80 <= c as int < 0x800
    ensures DecodeFirst(EncodeScalar(c) + rest) == (c, 2)
  {
    var x := c as int;
    var bs := EncodeScalar(c) + rest;
    assert bs[0] == 0xC0 + x / 64 && bs[1] == 0x80 + x % 64;
  }

  lemma DecodeFirstThree(c: char, rest: seq<Byte>)
    requires 0x800 <= c as int < 0x1_0000
    ensures DecodeFirst(EncodeScalar(c) + rest) == (c, 3)
  {
    var x := c as int;
    var bs := EncodeScalar(c) + rest;
    var q1 := x / 64;
    var q2 := q1 / 64;
    assert x == q1 * 64 + x % 64 && q1 == q2 * 64 + q1 % 64;
    assert bs[0] == 0xE0 + q2 && bs[1] == 0x80 + q1 % 64 && bs[2] == 0x80 + x % 64;
  }

  lemma DecodeFirstFour(c: char, rest: seq<Byte>)
    requires 0x1_0000 <= c as int
    ensures DecodeFirst(EncodeScalar(c) + rest) == (c, 4)
  {
    var x := c as int;
    var bs := EncodeScalar(c) + rest;
    var q1 := x / 64;
    var q2 := q1 / 64;
    var q3 := q2 / 64;
    assert x == q1 * 64 + x % 64 && q1 == q2 * 64 + q1 % 64 && q2 == q3 * 64 + q2 % 64;
    assert 16 <= q2 < 0x110;
    assert bs[0] == 0xF0 + q3 && bs[1] == 0x80 + q2 % 64 && bs[2] == 0x80 + q1 % 64 && bs[3] == 0x80 + x % 64;
  }

  /** The bytes of a scalar value decode back to it, whatever follows. */
  lemma DecodeFirstEncodeScalar(c: char, rest: seq<Byte>)
    ensures DecodeFirst(EncodeScalar(c) + rest) == (c, |EncodeScalar(c)|)
  {
    var x := c as int;
    if x < 0x80 {
    } else if x < 0x800 {
      DecodeFirstTwo(c, rest);
    } else if x < 0x1_0000 {
      DecodeFirstThree(c, rest);
    } else {
      DecodeFirstFour(c, rest);
    }
  }

  /** Decoding undoes encoding. */
  lemma {:induction false} DecodeEncode(s: string)
    ensures Decode(Encode(s)) == s
  {
    if s != [] {
      var e := EncodeScalar(s[0]);
      var bs := Encode(s);
      assert bs == e + Encode(s[1..]);
      DecodeFirstEncodeScalar(s[0], Encode(s[1..]));
      assert bs[|e|..] == Encode(s[1..]);
      DecodeEncode(s[1..]);
      assert s == [s[0]] + s[1..];
    }
  }
}
