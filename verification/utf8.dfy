/** The UTF-8 form of a string (RFC 3629, section 3). Rust's `String::len` is the length
    of this form, which is what the `Content-Length` header carries. */
module Utf8 {

  type byte = x: int | 0 <= x < 256

  /** The number of bytes UTF-8 spends on one character. */
  function Width(c: char): (w: nat)
    ensures 1 <= w <= 4
    ensures w == 1 <==> c as int < 0x80
  {
    if c as int < 0x80 then 1
    else if c as int < 0x800 then 2
    else if c as int < 0x1_0000 then 3
    else 4
  }

  predicate IsContinuation(b: byte) { 0x80 <= b < 0xC0 }

  /** The UTF-8 bytes of one character: a lead byte announcing the width, then
      continuation bytes of six payload bits each. */
  function EncodeChar(c: char): (bs: seq<byte>)
    ensures |bs| == Width(c)
    ensures |bs| == 1 ==> bs[0] < 0x80
    ensures |bs| == 2 ==> 0xC0 <= bs[0] < 0xE0
    ensures |bs| == 3 ==> 0xE0 <= bs[0] < 0xF0
    ensures |bs| == 4 ==> 0xF0 <= bs[0] < 0xF8
    ensures forall i :: 1 <= i < |bs| ==> IsContinuation(bs[i])
  {
    var cp := c as int;
    if cp < 0x80 then [cp]
    else if cp < 0x800 then [0xC0 + cp / 0x40, 0x80 + cp % 0x40]
    else if cp < 0x1_0000 then [0xE0 + cp / 0x1000, 0x80 + (cp / 0x40) % 0x40, 0x80 + cp % 0x40]
    else [0xF0 + cp / 0x4_0000, 0x80 + (cp / 0x1000) % 0x40, 0x80 + (cp / 0x40) % 0x40, 0x80 + cp % 0x40]
  }

  /** The code point a well-formed one-character sequence stands for. */
  function DecodeChar(bs: seq<byte>): int
    requires 1 <= |bs| <= 4
  {
    if |bs| == 1 then bs[0] as int
    else if |bs| == 2 then (bs[0] as int - 0xC0) * 0x40 + (bs[1] as int - 0x80)
    else if |bs| == 3 then (bs[0] as int - 0xE0) * 0x1000 + (bs[1] as int - 0x80) * 0x40 + (bs[2] as int - 0x80)
    else (bs[0] as int - 0xF0) * 0x4_0000 + (bs[1] as int - 0x80) * 0x1000
         + (bs[2] as int - 0x80) * 0x40 + (bs[3] as int - 0x80)
  }

  /** Splitting off six bits at a time. */
  lemma SixBits(x: nat)
    ensures x == (x / 0x40) * 0x40 + x % 0x40
    ensures x / 0x1000 == (x / 0x40) / 0x40
    ensures x / 0x4_0000 == (x / 0x1000) / 0x40
  {
  }

  /** The encoding of a character loses nothing: decoding gives its code point back. */
  lemma DecodeEncodeChar(c: char)
    ensures DecodeChar(EncodeChar(c)) == c as int
  {
    var cp := c as int;
    SixBits(cp);
    SixBits(cp / 0x40);
    SixBits(cp / 0x1000);
  }

  /** `String::len`: the number of bytes of the UTF-8 form. */
  function Len(s: string): (n: nat)
    ensures |s| <= n <= 4 * |s|
    decreases |s|
  {
    if s == [] then 0 else Width(s[0]) + Len(s[1..])
  }

  /** The UTF-8 form of a string: its characters' encodings, one after the other. */
  function Encode(s: string): (r: seq<byte>)
    ensures |s| <= |r| <= 4 * |s|
    decreases |s|
  {
    if s == [] then [] else EncodeChar(s[0]) + Encode(s[1..])
  }

  /** `Len` counts exactly the bytes that `Encode` produces. */
  lemma {:induction false} EncodeLen(s: string)
    ensures |Encode(s)| == Len(s)
    decreases |s|
  {
    if s != [] {
      EncodeLen(s[1..]);
    }
  }

  /** Encoding distributes over concatenation. */
  lemma {:induction false} EncodeAppend(a: string, b: string)
    ensures Encode(a + b) == Encode(a) + Encode(b)
    decreases |a|
  {
    if a == [] {
      assert a + b == b;
    } else {
      assert (a + b)[1..] == a[1..] + b;
      EncodeAppend(a[1..], b);
    }
  }

  /** The byte length is the character count exactly when every character is ASCII. */
  lemma {:induction false} LenAscii(s: string)
    ensures Len(s) == |s| <==> forall i :: 0 <= i < |s| ==> s[i] as int < 0x80
    decreases |s|
  {
    if s != [] {
      LenAscii(s[1..]);
      assert forall i :: 1 <= i < |s| ==> s[1..][i - 1] == s[i];
    }
  }
}
