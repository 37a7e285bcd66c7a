/**
 * UTF-8 as defined by section 4 of RFC 3629, which is exactly what Rust's
 * `String::from_utf8` accepts: no overlong forms, no surrogates (U+D800..U+DFFF),
 * nothing above U+10FFFF. A Dafny `char` is a Unicode scalar value, so a
 * decoded `string` is what a Rust `String` holds.
 */
module Utf8 {

  import opened Wrappers

  newtype byte = x: int | 0 <= x < 0x100

  /** UTF8-tail = %x80-BF */
  predicate IsTail(b: byte) {
    0x80 <= b <= 0xBF
  }

  /** The range the grammar allows for the byte after a multi-byte lead byte. */
  predicate SecondInRange(lead: byte, b: byte) {
    if lead == 0xE0 then 0xA0 <= b <= 0xBF
    else if lead == 0xED then 0x80 <= b <= 0x9F
    else if lead == 0xF0 then 0x90 <= b <= 0xBF
    else if lead == 0xF4 then 0x80 <= b <= 0x8F
    else IsTail(b)
  }

  /**
   * Length of the UTF8-char at the head of `s`, or 0 when `s` does not start
   * with one (empty, a stray tail byte, a forbidden lead byte, a truncated or
   * out-of-range sequence).
   */
  function CharWidth(s: seq<byte>): (n: nat)
    ensures n <= 4 && n <= |s|
  {
    if |s| == 0 then 0
    else if s[0] <= 0x7F then 1
    else if 0xC2 <= s[0] <= 0xDF then
      if 2 <= |s| && IsTail(s[1]) then 2 else 0
    else if 0xE0 <= s[0] <= 0xEF then
      if 3 <= |s| && SecondInRange(s[0], s[1]) && IsTail(s[2]) then 3 else 0
    else if 0xF0 <= s[0] <= 0xF4 then
      if 4 <= |s| && SecondInRange(s[0], s[1]) && IsTail(s[2]) && IsTail(s[3]) then 4 else 0
    else 0
  }

  /**
   * UTF8-octets = *( UTF8-char ). ASCII text is valid, and the octets C0, C1
   * and F5 to FF never appear in valid UTF-8 (section 1 of RFC 3629).
   */
  predicate Valid(s: seq<byte>)
    ensures (forall i :: 0 <= i < |s| ==> s[i] < 0x80) ==> Valid(s)
    ensures Valid(s) ==> forall i :: 0 <= i < |s| ==> s[i] != 0xC0 && s[i] != 0xC1 && s[i] < 0xF5
    decreases |s|
  {
    |s| == 0 || (CharWidth(s) != 0 && Valid(s[CharWidth(s)..]))
  }

  predicate IsScalar(cp: int) {
    0 <= cp < 0xD800 || 0xE000 <= cp < 0x11_0000
  }

  /** The code point carried by the UTF8-char at the head of `s`. */
  function DecodeChar(s: seq<byte>): (c: char)
    requires CharWidth(s) != 0
  {
    var n := CharWidth(s);
    var cp :=
      if n == 1 then s[0] as int
      else if n == 2 then (s[0] as int - 0xC0) * 0x40 + (s[1] as int - 0x80)
      else if n == 3 then ((s[0] as int - 0xE0) * 0x40 + (s[1] as int - 0x80)) * 0x40 + (s[2] as int - 0x80)
      else (((s[0] as int - 0xF0) * 0x40 + (s[1] as int - 0x80)) * 0x40 + (s[2] as int - 0x80)) * 0x40 + (s[3] as int - 0x80);
    assert IsScalar(cp);
    cp as char
  }

  /** The shortest UTF-8 form of one scalar value. */
  function EncodeChar(c: char): (b: seq<byte>)
    ensures 1 <= |b| <= 4
  {
    var cp := c as int;
    if cp < 0x80 then
      [cp as byte]
    else if cp < 0x800 then
      [(0xC0 + cp / 0x40) as byte, (0x80 + cp % 0x40) as byte]
    else if cp < 0x1_0000 then
      [(0xE0 + cp / 0x40 / 0x40) as byte, (0x80 + cp / 0x40 % 0x40) as byte, (0x80 + cp % 0x40) as byte]
    else
      [(0xF0 + cp / 0x40 / 0x40 / 0x40) as byte, (0x80 + cp / 0x40 / 0x40 % 0x40) as byte,
       (0x80 + cp / 0x40 % 0x40) as byte, (0x80 + cp % 0x40) as byte]
  }

  /** Decoding of a valid byte sequence. */
  function Decode(s: seq<byte>): (r: string)
    requires Valid(s)
    decreases |s|
  {
    if |s| == 0 then [] else [DecodeChar(s)] + Decode(s[CharWidth(s)..])
  }

  /** Encoding of a string, character by character. */
  function Encode(s: string): (b: seq<byte>)
  {
    if |s| == 0 then [] else EncodeChar(s[0]) + Encode(s[1..])
  }

  /**
   * `String::from_utf8(b).ok()`: the string whose encoding is `b` when `b` is
   * valid UTF-8, and nothing otherwise.
   */
  function FromUtf8(b: seq<byte>): (r: Option<string>)
    ensures r.Some? <==> Valid(b)
    ensures r.Some? ==> Encode(r.value) == b
  {
    if Valid(b) then
      EncodeDecode(b);
      Some(Decode(b))
    else None
  }

  /** Encoding one character yields exactly one well-formed UTF8-char that decodes back to it. */
  lemma EncodeCharRoundTrip(c: char, rest: seq<byte>)
    ensures CharWidth(EncodeChar(c) + rest) == |EncodeChar(c)|
    ensures DecodeChar(EncodeChar(c) + rest) == c
  {
    var cp := c as int;
    if cp < 0x80 {
    } else if cp < 0x800 {
      EncodeTwo(c, rest);
    } else if cp < 0x1_0000 {
      EncodeThree(c, rest);
    } else {
      EncodeFour(c, rest);
    }
  }

  lemma EncodeTwo(c: char, rest: seq<byte>)
    requires 0x80 <= c as int < 0x800
    ensures CharWidth(EncodeChar(c) + rest) == 2
    ensures DecodeChar(EncodeChar(c) + rest) == c
  {
    var cp := c as int;
    var s := EncodeChar(c) + rest;
    assert s[0] as int == 0xC0 + cp / 0x40 && s[1] as int == 0x80 + cp % 0x40;
  }

  lemma EncodeThree(c: char, rest: seq<byte>)
    requires 0x800 <= c as int < 0x1_0000
    ensures CharWidth(EncodeChar(c) + rest) == 3
    ensures DecodeChar(EncodeChar(c) + rest) == c
  {
    var cp := c as int;
    var s := EncodeChar(c) + rest;
    var hi := cp / 0x40;
    assert s[0] as int == 0xE0 + hi / 0x40 && s[1] as int == 0x80 + hi % 0x40 && s[2] as int == 0x80 + cp % 0x40;
    assert SecondInRange(s[0], s[1]);
  }

  lemma EncodeFour(c: char, rest: seq<byte>)
    requires 0x1_0000 <= c as int
    ensures CharWidth(EncodeChar(c) + rest) == 4
    ensures DecodeChar(EncodeChar(c) + rest) == c
  {
    var cp := c as int;
    var s := EncodeChar(c) + rest;
    var hi := cp / 0x40;
    var top := hi / 0x40;
    assert s[0] as int == 0xF0 + top / 0x40 && s[1] as int == 0x80 + top % 0x40;
    assert s[2] as int == 0x80 + hi % 0x40 && s[3] as int == 0x80 + cp % 0x40;
    assert SecondInRange(s[0], s[1]);
  }

  /** Re-encoding the decoded head character gives back the bytes it was read from. */
  lemma DecodeCharRoundTrip(s: seq<byte>)
    requires CharWidth(s) != 0
    ensures EncodeChar(DecodeChar(s)) == s[..CharWidth(s)]
  {
    var n := CharWidth(s);
    if n == 2 {
      DecodeTwo(s);
    } else if n == 3 {
      DecodeThree(s);
    } else if n == 4 {
      DecodeFour(s);
    }
  }

  lemma DecodeTwo(s: seq<byte>)
    requires CharWidth(s) == 2
    ensures EncodeChar(DecodeChar(s)) == s[..2]
  {
    var cp := DecodeChar(s) as int;
    assert cp == (s[0] as int - 0xC0) * 0x40 + (s[1] as int - 0x80);
    Digits(cp, s[0] as int - 0xC0, s[1] as int - 0x80);
  }

  lemma DecodeThree(s: seq<byte>)
    requires CharWidth(s) == 3
    ensures EncodeChar(DecodeChar(s)) == s[..3]
  {
    var cp := DecodeChar(s) as int;
    var hi := (s[0] as int - 0xE0) * 0x40 + (s[1] as int - 0x80);
    assert cp == hi * 0x40 + (s[2] as int - 0x80);
    Digits(cp, hi, s[2] as int - 0x80);
    Digits(hi, s[0] as int - 0xE0, s[1] as int - 0x80);
  }

  lemma DecodeFour(s: seq<byte>)
    requires CharWidth(s) == 4
    ensures EncodeChar(DecodeChar(s)) == s[..4]
  {
    var cp := DecodeChar(s) as int;
    var hi := (s[0] as int - 0xF0) * 0x40 + (s[1] as int - 0x80);
    var mid := hi * 0x40 + (s[2] as int - 0x80);
    assert cp == mid * 0x40 + (s[3] as int - 0x80);
    Digits(cp, mid, s[3] as int - 0x80);
    Digits(mid, hi, s[2] as int - 0x80);
    Digits(hi, s[0] as int - 0xF0, s[1] as int - 0x80);
  }

  /** Splitting a number into its last base-64 digit and the rest. */
  lemma Digits(x: int, q: int, r: int)
    requires 0 <= r < 0x40 && x == q * 0x40 + r
    ensures x / 0x40 == q && x % 0x40 == r
  {
  }

  lemma {:induction false} DecodeEncode(s: string)
    ensures Valid(Encode(s))
    ensures Decode(Encode(s)) == s
    decreases |s|
  {
    if |s| != 0 {
      var e, rest := EncodeChar(s[0]), Encode(s[1..]);
      EncodeCharRoundTrip(s[0], rest);
      assert (e + rest)[|e|..] == rest;
      DecodeEncode(s[1..]);
    }
  }

  lemma {:induction false} EncodeDecode(b: seq<byte>)
    requires Valid(b)
    ensures Encode(Decode(b)) == b
    decreases |b|
  {
    if |b| != 0 {
      var n := CharWidth(b);
      var rest := b[n..];
      assert Valid(rest);
      assert Decode(b) == [DecodeChar(b)] + Decode(rest);
      EncodeDecode(rest);
      DecodeCharRoundTrip(b);
      EncodeCons(DecodeChar(b), Decode(rest));
      assert b[..n] + rest == b;
    }
  }

  lemma EncodeCons(c: char, s: string)
    ensures Encode([c] + s) == EncodeChar(c) + Encode(s)
  {
    assert ([c] + s)[1..] == s;
  }

}
