// Well-formed UTF-8, as section 4 of RFC 3629 defines it. A string is represented by its bytes.

module Utf8 {
  import opened Common

  predicate Tail(b: byte) {
    0x80 <= b <= 0xBF
  }

  /** The length of the character that begins here, or 0 if none does. */
  function CharLength(s: seq<byte>): (n: nat)
    ensures n <= |s|
  {
    if |s| >= 1 && s[0] <= 0x7F then 1
    else if |s| >= 2 && 0xC2 <= s[0] <= 0xDF && Tail(s[1]) then 2
    else if |s| >= 3 && SecondOfThree(s[0], s[1]) && Tail(s[2]) then 3
    else if |s| >= 4 && SecondOfFour(s[0], s[1]) && Tail(s[2]) && Tail(s[3]) then 4
    else 0
  }

  predicate SecondOfThree(a: byte, b: byte) {
    || (a == 0xE0 && 0xA0 <= b <= 0xBF)
    || (0xE1 <= a <= 0xEC && Tail(b))
    || (a == 0xED && 0x80 <= b <= 0x9F)
    || (0xEE <= a <= 0xEF && Tail(b))
  }

  predicate SecondOfFour(a: byte, b: byte) {
    || (a == 0xF0 && 0x90 <= b <= 0xBF)
    || (0xF1 <= a <= 0xF3 && Tail(b))
    || (a == 0xF4 && 0x80 <= b <= 0x8F)
  }

  predicate ValidUtf8(s: seq<byte>) {
    s == [] || (CharLength(s) > 0 && ValidUtf8(s[CharLength(s)..]))
  }

  // ---- valid strings are the spellings of texts ----

  /** A Unicode scalar value: any code point but the surrogates. */
  predicate CodePoint(c: nat) {
    c <= 0x10_FFFF && !(0xD800 <= c <= 0xDFFF)
  }

  /** The bytes of a character, by the table in section 3 of RFC 3629. */
  function CharBytes(c: nat): seq<byte>
    requires CodePoint(c)
  {
    if c < 0x80 then [c]
    else if c < 0x800 then [0xC0 + c / 0x40, 0x80 + c % 0x40]
    else if c < 0x1_0000 then [0xE0 + c / 0x1000, 0x80 + c / 0x40 % 0x40, 0x80 + c % 0x40]
    else [0xF0 + c / 0x4_0000, 0x80 + c / 0x1000 % 0x40, 0x80 + c / 0x40 % 0x40, 0x80 + c % 0x40]
  }

  predicate AllCodePoints(cs: seq<nat>) {
    forall i :: 0 <= i < |cs| ==> CodePoint(cs[i])
  }

  function Spelling(cs: seq<nat>): seq<byte>
    requires AllCodePoints(cs)
  {
    if cs == [] then [] else CharBytes(cs[0]) + Spelling(cs[1..])
  }

  lemma CharIsValid(c: nat, rest: seq<byte>)
    requires CodePoint(c)
    ensures CharLength(CharBytes(c) + rest) == |CharBytes(c)| > 0
  {
  }

  /** The character that begins here. */
  lemma CharOfBytes(s: seq<byte>) returns (c: nat)
    requires CharLength(s) > 0
    ensures CodePoint(c) && CharBytes(c) == s[..CharLength(s)]
  {
    hide CharBytes;
    var n := CharLength(s);
    if n == 1 {
      c := s[0];
      assert CharBytes(c) == [s[0]] by { OneByte(c); }
    } else if n == 2 {
      c := TwoBytes(s[0], s[1]);
    } else if n == 3 {
      c := ThreeBytes(s[0], s[1], s[2]);
    } else {
      c := FourBytes(s[0], s[1], s[2], s[3]);
    }
  }

  lemma OneByte(c: nat)
    requires c < 0x80
    ensures CharBytes(c) == [c]
  {
  }

  lemma TwoBytes(a: byte, b: byte) returns (c: nat)
    requires 0xC2 <= a <= 0xDF && Tail(b)
    ensures CodePoint(c) && CharBytes(c) == [a, b]
  {
    c := 0x40 * (a - 0xC0) + (b - 0x80);
    Sextet(a - 0xC0, b - 0x80);
  }

  lemma ThreeBytes(a: byte, b: byte, d: byte) returns (c: nat)
    requires SecondOfThree(a, b) && Tail(d)
    ensures CodePoint(c) && CharBytes(c) == [a, b, d]
  {
    var high: nat := 0x40 * (a - 0xE0) + (b - 0x80);
    c := 0x40 * high + (d - 0x80);
    Sextet(high, d - 0x80);
    Sextet(a - 0xE0, b - 0x80);
    assert c / 0x1000 == a - 0xE0;
  }

  lemma FourBytes(a: byte, b: byte, d: byte, e: byte) returns (c: nat)
    requires SecondOfFour(a, b) && Tail(d) && Tail(e)
    ensures CodePoint(c) && CharBytes(c) == [a, b, d, e]
  {
    var top: nat := 0x40 * (a - 0xF0) + (b - 0x80);
    var high: nat := 0x40 * top + (d - 0x80);
    c := 0x40 * high + (e - 0x80);
    Sextet(high, e - 0x80);
    Sextet(top, d - 0x80);
    Sextet(a - 0xF0, b - 0x80);
    assert c / 0x1000 == top;
    assert c / 0x4_0000 == a - 0xF0;
  }

  lemma Sextet(high: nat, low: nat)
    requires low < 0x40
    ensures (0x40 * high + low) / 0x40 == high && (0x40 * high + low) % 0x40 == low
  {
  }

  lemma {:induction false} TextIsValid(cs: seq<nat>)
    requires AllCodePoints(cs)
    ensures ValidUtf8(Spelling(cs))
    decreases |cs|
  {
    hide CharLength, CharBytes;
    if cs != [] {
      assert CodePoint(cs[0]);
      var rest := Spelling(cs[1..]);
      TextIsValid(cs[1..]);
      CharIsValid(cs[0], rest);
      assert (CharBytes(cs[0]) + rest)[|CharBytes(cs[0])|..] == rest;
    }
  }

  lemma {:induction false} TextOfBytes(s: seq<byte>) returns (cs: seq<nat>)
    requires ValidUtf8(s)
    ensures AllCodePoints(cs) && Spelling(cs) == s
    decreases |s|
  {
    hide CharLength, CharBytes;
    if s == [] {
      cs := [];
    } else {
      var n := CharLength(s);
      var c := CharOfBytes(s);
      var more := TextOfBytes(s[n..]);
      cs := [c] + more;
      assert cs[1..] == more && s == s[..n] + s[n..];
    }
  }

  /** Exactly the spellings of texts are valid. */
  lemma ValidExactly(s: seq<byte>)
    ensures ValidUtf8(s) <==> exists cs :: AllCodePoints(cs) && Spelling(cs) == s
  {
    hide ValidUtf8, Spelling;
    if ValidUtf8(s) {
      var cs := TextOfBytes(s);
    }
    if cs :| AllCodePoints(cs) && Spelling(cs) == s { TextIsValid(cs); }
  }

  /** The bytes of an ASCII string. */
  function Ascii(s: string): (t: seq<byte>)
    requires forall i :: 0 <= i < |s| ==> s[i] < 128 as char
  {
    seq(|s|, i requires 0 <= i < |s| => s[i] as int)
  }

  lemma {:induction false} AsciiIsValid(s: seq<byte>)
    requires forall i :: 0 <= i < |s| ==> s[i] < 128
    ensures ValidUtf8(s)
    decreases |s|
  {
    if s != [] {
      AsciiIsValid(s[1..]);
    }
  }
}
