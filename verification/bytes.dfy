/** Rust's `u8`, its cast to `char`, ASCII character classes and the UTF-8
    encoding that a Rust `String` applies to the characters it holds. */
module Bytes {

  /** An unsigned 8-bit value (Rust's `u8`). */
  newtype byte = x: int | 0 <= x < 256

  /** Rust's `b as char` on a `u8`: the character whose code point is `b`
      (U+0000 to U+00FF). */
  function ToChar(b: byte): (c: char)
  {
    b as int as char
  }

  predicate IsAsciiUpper(c: char) { 'A' <= c <= 'Z' }

  predicate IsAsciiLower(c: char) { 'a' <= c <= 'z' }

  predicate IsAsciiDigit(c: char) { '0' <= c <= '9' }

  /** Rust's `char::is_ascii_alphanumeric`. */
  predicate IsAsciiAlphanumeric(c: char)
  {
    IsAsciiUpper(c) || IsAsciiLower(c) || IsAsciiDigit(c)
  }

  /** Every character of `s` has a code point below U+0100, as every character
      obtained by `b as char` from a byte has. */
  predicate IsLatin1(s: string)
  {
    forall i :: 0 <= i < |s| ==> s[i] as int < 0x100
  }

  predicate IsAscii(s: string)
  {
    forall i :: 0 <= i < |s| ==> s[i] as int < 0x80
  }

  /** The UTF-8 encoding (section 3 of RFC 3629) of one character below
      U+0100: a single byte below U+0080, otherwise a lead byte 0xC2 or 0xC3
      followed by one continuation byte, which together give back the code
      point. */
  function Utf8Char(c: char): (r: seq<byte>)
    requires c as int < 0x100
    ensures |r| == (if c as int < 0x80 then 1 else 2)
    ensures |r| == 1 ==> r[0] as int == c as int
    ensures |r| == 2 ==>
              0xC2 <= r[0] <= 0xC3 && 0x80 <= r[1] <= 0xBF &&
              (r[0] as int - 0xC0) * 64 + (r[1] as int - 0x80) == c as int
  {
    if c as int < 0x80 then [c as int as byte]
    else [(0xC0 + c as int / 64) as byte, (0x80 + c as int % 64) as byte]
  }

  /** The bytes a Rust `String` holding the characters of `s` consists of. */
  function Utf8(s: string): (r: seq<byte>)
    requires IsLatin1(s)
    decreases |s|
  {
    if s == [] then [] else Utf8Char(s[0]) + Utf8(s[1..])
  }

  /** Encoding a concatenation encodes each part in turn. */
  lemma {:induction false} Utf8Append(a: string, b: string)
    requires IsLatin1(a) && IsLatin1(b)
    ensures IsLatin1(a + b)
    ensures Utf8(a + b) == Utf8(a) + Utf8(b)
    decreases |a|
  {
    if a == [] {
      assert a + b == b;
    } else {
      assert (a + b)[1..] == a[1..] + b;
      Utf8Append(a[1..], b);
    }
  }

  /** An ASCII string encodes to one byte per character, each equal to its
      code point. */
  lemma {:induction false} Utf8OfAscii(s: string)
    requires IsAscii(s)
    ensures IsLatin1(s)
    ensures |Utf8(s)| == |s|
    ensures forall i :: 0 <= i < |s| ==> Utf8(s)[i] as int == s[i] as int
    decreases |s|
  {
    if s != [] {
      Utf8OfAscii(s[1..]);
      assert Utf8(s) == Utf8Char(s[0]) + Utf8(s[1..]);
      forall i | 0 <= i < |s|
        ensures Utf8(s)[i] as int == s[i] as int
      {
        if i > 0 {
          assert Utf8(s)[i] == Utf8(s[1..])[i - 1];
        }
      }
    }
  }
}
