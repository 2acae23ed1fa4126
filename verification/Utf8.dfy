/** Validity of UTF-8, as the grammar in section 4 of RFC 3629 states it. The parse loops reject a
    string field that is not valid (`VerifyUTF8`); the serializer only reports it. */
module Utf8 {
  import opened Wire

  predicate Tail(b: byte) {
    0x80 <= b <= 0xBF
  }

  /** The length of the character at the front of `s`, or 0 when no valid character is there. */
  function CharLength(s: Bytes): (n: nat)
    ensures n <= |s| && n <= 4
  {
    if |s| >= 1 && s[0] <= 0x7F then 1
    else if |s| >= 2 && 0xC2 <= s[0] <= 0xDF && Tail(s[1]) then 2
    else if |s| >= 3 && ThreeByteLead(s[0], s[1]) && Tail(s[2]) then 3
    else if |s| >= 4 && FourByteLead(s[0], s[1]) && Tail(s[2]) && Tail(s[3]) then 4
    else 0
  }

  predicate ThreeByteLead(a: byte, b: byte) {
    || (a == 0xE0 && 0xA0 <= b <= 0xBF)
    || (0xE1 <= a <= 0xEC && Tail(b))
    || (a == 0xED && 0x80 <= b <= 0x9F)
    || (0xEE <= a <= 0xEF && Tail(b))
  }

  predicate FourByteLead(a: byte, b: byte) {
    || (a == 0xF0 && 0x90 <= b <= 0xBF)
    || (0xF1 <= a <= 0xF3 && Tail(b))
    || (a == 0xF4 && 0x80 <= b <= 0x8F)
  }

  predicate Valid(s: Bytes) {
    s == [] || (CharLength(s) > 0 && Valid(s[CharLength(s)..]))
  }

  // ---------------------------------------------------------------- what the valid strings are

  /** A Unicode scalar value: a code point that is not a surrogate. */
  type Scalar = c: int | 0 <= c < 0xD800 || 0xE000 <= c <= 0x10FFFF

  /** The bits of a code point laid out in one to four bytes, as the table in section 3 of RFC 3629 has it. */
  function EncodeScalar(c: Scalar): (r: Bytes)
    ensures 1 <= |r| <= 4
  {
    if c < 0x80 then [c]
    else if c < 0x800 then [0xC0 + c / 0x40, 0x80 + c % 0x40]
    else if c < 0x1_0000 then [0xE0 + c / 0x1000, 0x80 + c / 0x40 % 0x40, 0x80 + c % 0x40]
    else [0xF0 + c / 0x4_0000, 0x80 + c / 0x1000 % 0x40, 0x80 + c / 0x40 % 0x40, 0x80 + c % 0x40]
  }

  function EncodeAll(cs: seq<Scalar>): Bytes {
    if cs == [] then [] else EncodeScalar(cs[0]) + EncodeAll(cs[1..])
  }

  /** The encoding of a code point is taken as one character. */
  lemma ScalarIsCharacter(c: Scalar, rest: Bytes)
    ensures CharLength(EncodeScalar(c) + rest) == |EncodeScalar(c)|
  {
    var s := EncodeScalar(c) + rest;
    if c < 0x80 {
      assert s[0] == c;
    } else if c < 0x800 {
      assert s[0] == 0xC0 + c / 0x40 && s[1] == 0x80 + c % 0x40;
    } else if c < 0x1_0000 {
      assert s[0] == 0xE0 + c / 0x1000 && s[1] == 0x80 + c / 0x40 % 0x40 && s[2] == 0x80 + c % 0x40;
    } else {
      assert s[0] == 0xF0 + c / 0x4_0000 && s[1] == 0x80 + c / 0x1000 % 0x40;
      assert s[2] == 0x80 + c / 0x40 % 0x40 && s[3] == 0x80 + c % 0x40;
    }
  }

  /** Six more bits behind a number. */
  function SixMore(high: nat, low: byte): (c: nat)
    requires 0x80 <= low <= 0xBF
    ensures c / 0x40 == high && 0x80 + c % 0x40 == low
  {
    high * 0x40 + (low as int - 0x80)
  }

  lemma Shifts(c: nat)
    ensures c / 0x40 / 0x40 == c / 0x1000 && c / 0x1000 / 0x40 == c / 0x4_0000
  {
  }

  /** A character is the encoding of a code point. */
  lemma CharacterIsScalar(s: Bytes) returns (c: Scalar)
    requires CharLength(s) > 0
    ensures s[..CharLength(s)] == EncodeScalar(c)
  {
    var n := CharLength(s);
    if n == 1 {
      c := s[0];
    } else if n == 2 {
      c := TwoBytes(s[0], s[1]);
    } else if n == 3 {
      c := ThreeBytes(s[0], s[1], s[2]);
    } else {
      c := FourBytes(s[0], s[1], s[2], s[3]);
    }
  }

  lemma TwoBytes(a: byte, b: byte) returns (c: Scalar)
    requires 0xC2 <= a <= 0xDF && Tail(b)
    ensures EncodeScalar(c) == [a, b]
  {
    c := SixMore(a as int - 0xC0, b);
    hide SixMore;
  }

  lemma ThreeBytes(a: byte, b: byte, d: byte) returns (c: Scalar)
    requires ThreeByteLead(a, b) && Tail(d)
    ensures EncodeScalar(c) == [a, b, d]
  {
    var high := SixMore(a as int - 0xE0, b);
    var all := SixMore(high, d);
    Shifts(all);
    hide SixMore;
    assert 0x20 <= high <= 0x3FF && !(0x360 <= high < 0x380);
    c := all;
  }

  lemma FourBytes(a: byte, b: byte, d: byte, e: byte) returns (c: Scalar)
    requires FourByteLead(a, b) && Tail(d) && Tail(e)
    ensures EncodeScalar(c) == [a, b, d, e]
  {
    var higher := SixMore(a as int - 0xF0, b);
    var high := SixMore(higher, d);
    var all := SixMore(high, e);
    Shifts(all);
    hide SixMore;
    assert 0x10 <= higher <= 0x10F;
    c := all;
  }

  lemma {:induction false} EncodedIsValid(cs: seq<Scalar>)
    ensures Valid(EncodeAll(cs))
  {
    if cs == [] {
    } else {
      var front, rest := EncodeScalar(cs[0]), EncodeAll(cs[1..]);
      EncodedIsValid(cs[1..]);
      ScalarIsCharacter(cs[0], rest);
      assert (front + rest)[|front|..] == rest;
    }
  }

  lemma {:induction false} ValidIsEncoded(s: Bytes) returns (cs: seq<Scalar>)
    requires Valid(s)
    ensures s == EncodeAll(cs)
    decreases |s|
  {
    if s == [] {
      cs := [];
    } else {
      var c := CharacterIsScalar(s);
      cs := ValidIsEncoded(s[CharLength(s)..]);
      cs := [c] + cs;
      assert s == s[..CharLength(s)] + s[CharLength(s)..];
    }
  }

  /** A string is valid exactly when it is the encoding of some sequence of code points. */
  lemma ValidIffEncoded(s: Bytes)
    ensures Valid(s) <==> exists cs: seq<Scalar> :: s == EncodeAll(cs)
  {
    if Valid(s) {
      var cs := ValidIsEncoded(s);
    }
    forall cs: seq<Scalar> | s == EncodeAll(cs) ensures Valid(s) {
      EncodedIsValid(cs);
    }
  }
}
