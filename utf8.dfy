/** UTF-8 as `str.encode('utf-8')` produces it (RFC 3629, section 3). A
    Dafny `char` is a Unicode scalar value, so encoding never fails. */
module Utf8 {

  type Byte = b: int | 0 <= b < 256

  /** The number of bytes UTF-8 spends on `c`. */
  function Width(c: char): nat {
    if c < '\U{80}' then 1
    else if c < '\U{800}' then 2
    else if c < '\U{10000}' then 3
    else 4
  }

  /** The UTF-8 bytes of one scalar value: a lead byte that announces the
      width, then 6-bit continuation bytes, most significant bits first. */
  function EncodeChar(c: char): (r: seq<Byte>)
    ensures |r| == Width(c)
  {
    var n := c as int;
    if n < 0x80 then [n]
    else if n < 0x800 then [0xC0 + n / 64, 0x80 + n % 64]
    else if n < 0x10000 then [0xE0 + n / 4096, 0x80 + (n / 64) % 64, 0x80 + n % 64]
    else [0xF0 + n / 262144, 0x80 + (n / 4096) % 64, 0x80 + (n / 64) % 64, 0x80 + n % 64]
  }

  /** `s.encode('utf-8')`. */
  function Encode(s: string): seq<Byte> {
    if s == [] then [] else EncodeChar(s[0]) + Encode(s[1..])
  }

  /** `len(s.encode('utf-8'))`, counted character by character. */
  function Length(s: string): nat {
    if s == [] then 0 else Width(s[0]) + Length(s[1..])
  }

  predicate IsAscii(s: string) {
    forall i :: 0 <= i < |s| ==> s[i] < '\U{80}'
  }

  /** The per-character count is the length of the encoding. */
  lemma {:induction false} EncodeLength(s: string)
    ensures |Encode(s)| == Length(s)
    decreases |s|
  {
    if s != [] {
      EncodeLength(s[1..]);
    }
  }

  /** The byte length of a concatenation is the sum of the byte lengths. */
  lemma {:induction false} LengthConcat(a: string, b: string)
    ensures Length(a + b) == Length(a) + Length(b)
    decreases |a|
  {
    if a == [] {
      assert a + b == b;
    } else {
      assert (a + b)[1..] == a[1..] + b;
      LengthConcat(a[1..], b);
    }
  }

  /** Each character takes one to four bytes. */
  lemma {:induction false} LengthBounds(s: string)
    ensures |s| <= Length(s) <= 4 * |s|
    decreases |s|
  {
    if s != [] {
      LengthBounds(s[1..]);
    }
  }

  /** ASCII text takes one byte per character. */
  lemma {:induction false} LengthOfAscii(s: string)
    requires IsAscii(s)
    ensures Length(s) == |s|
    decreases |s|
  {
    if s != [] {
      LengthOfAscii(s[1..]);
    }
  }
}
