/** Well-formed UTF-8 as defined by the byte-sequence grammar of section 4
    of RFC 3629: this is the test `String::from_utf8` applies, and every
    Rust `String` is a byte sequence that passes it. */
module Utf8 {
  import opened Base

  /** UTF8-tail = %x80-BF */
  predicate IsTail(b: byte) {
    0x80 <= b <= 0xBF
  }

  /** The bounds the second byte of a multi-byte character must respect,
      given its lead byte (they exclude overlong forms, the surrogates
      U+D800..U+DFFF and code points above U+10FFFF). */
  function SecondLow(lead: byte): byte {
    if lead == 0xE0 then 0xA0 else if lead == 0xF0 then 0x90 else 0x80
  }

  function SecondHigh(lead: byte): byte {
    if lead == 0xED then 0x9F else if lead == 0xF4 then 0x8F else 0xBF
  }

  /** Number of bytes of the well-formed character that starts `s`, or 0
      when `s` does not start with one. */
  function CharWidth(s: seq<byte>): (w: nat)
    ensures w <= |s| && w <= 4
  {
    if |s| == 0 then 0
    else if s[0] <= 0x7F then 1
    else if 0xC2 <= s[0] <= 0xDF then
      if 2 <= |s| && IsTail(s[1]) then 2 else 0
    else if 0xE0 <= s[0] <= 0xEF then
      if 3 <= |s| && SecondLow(s[0]) <= s[1] <= SecondHigh(s[0]) && IsTail(s[2]) then 3 else 0
    else if 0xF0 <= s[0] <= 0xF4 then
      if 4 <= |s| && SecondLow(s[0]) <= s[1] <= SecondHigh(s[0]) && IsTail(s[2]) && IsTail(s[3])
      then 4 else 0
    else 0
  }

  /** UTF8-octets = *( UTF8-char ) */
  predicate ValidUtf8(s: seq<byte>)
    decreases |s|
  {
    s == [] || (CharWidth(s) > 0 && ValidUtf8(s[CharWidth(s)..]))
  }

  /** A Rust `String`: its UTF-8 bytes. */
  type Str = s: seq<byte> | ValidUtf8(s) witness []

  /** The byte of the line separator "\n". */
  const Newline: byte := 0x0A

  /** A character is recognised from its own bytes: what follows does not matter. */
  lemma CharWidthOfPrefix(s: seq<byte>, t: seq<byte>)
    requires CharWidth(s) > 0
    ensures CharWidth(s + t) == CharWidth(s)
  {
    assert (s + t)[..CharWidth(s)] == s[..CharWidth(s)];
    assert forall k :: 0 <= k < |s| ==> (s + t)[k] == s[k];
  }

  /** Well-formed text followed by well-formed text is well-formed. */
  lemma {:induction false} ConcatValid(a: seq<byte>, b: seq<byte>)
    requires ValidUtf8(a) && ValidUtf8(b)
    ensures ValidUtf8(a + b)
    decreases |a|
  {
    if a == [] {
      assert a + b == b;
    } else {
      var w := CharWidth(a);
      CharWidthOfPrefix(a, b);
      assert (a + b)[w..] == a[w..] + b;
      ConcatValid(a[w..], b);
    }
  }

  /** Bytes below 0x80 are one-byte characters, so ASCII text is well-formed. */
  lemma {:induction false} AsciiValid(s: seq<byte>)
    requires forall i :: 0 <= i < |s| ==> s[i] < 0x80
    ensures ValidUtf8(s)
    decreases |s|
  {
    if s != [] {
      assert CharWidth(s) == 1;
      AsciiValid(s[1..]);
    }
  }
}
