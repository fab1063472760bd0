/** Well-formed UTF-8, following the byte-sequence syntax of section 4 of RFC 3629. */
module Utf8 {
  import opened Bytes

  predicate Tail(b: byte) {
    0x80 <= b <= 0xBF
  }

  /** The length of the character a byte string starts with, or 0 when it does not start with one. */
  function CharLength(s: seq<byte>): (n: nat)
    ensures n <= |s|
  {
    if |s| >= 1 && s[0] <= 0x7F then 1
    else if |s| >= 2 && 0xC2 <= s[0] <= 0xDF && Tail(s[1]) then 2
    else if |s| >= 3 && Lead3(s[0], s[1]) && Tail(s[2]) then 3
    else if |s| >= 4 && Lead4(s[0], s[1]) && Tail(s[2]) && Tail(s[3]) then 4
    else 0
  }

  predicate Lead3(a: byte, b: byte) {
    || (a == 0xE0 && 0xA0 <= b <= 0xBF)
    || (0xE1 <= a <= 0xEC && Tail(b))
    || (a == 0xED && 0x80 <= b <= 0x9F)
    || (0xEE <= a <= 0xEF && Tail(b))
  }

  predicate Lead4(a: byte, b: byte) {
    || (a == 0xF0 && 0x90 <= b <= 0xBF)
    || (0xF1 <= a <= 0xF3 && Tail(b))
    || (a == 0xF4 && 0x80 <= b <= 0x8F)
  }

  predicate IsUtf8(s: seq<byte>) {
    s == [] || (CharLength(s) > 0 && IsUtf8(s[CharLength(s)..]))
  }

  /** A Rust `String`: its bytes. */
  type Text = s: seq<byte> | IsUtf8(s)

  // ----- What the syntax amounts to: the encodings of section 3 of RFC 3629 -----

  /** A Unicode scalar value: a code point that is no surrogate. */
  type Scalar = c: int | 0 <= c < 0xD800 || 0xE000 <= c < 0x11_0000

  /** The code point's bits in as few bytes as hold them, six in each byte behind the first. */
  function Encoded(c: Scalar): (s: seq<byte>)
    ensures 1 <= |s| <= 4
  {
    if c < 0x80 then [c]
    else if c < 0x800 then [0xC0 + c / 0x40, 0x80 + c % 0x40]
    else if c < 0x1_0000 then [0xE0 + c / 0x1000, 0x80 + c / 0x40 % 0x40, 0x80 + c % 0x40]
    else [0xF0 + c / 0x4_0000, 0x80 + c / 0x1000 % 0x40, 0x80 + c / 0x40 % 0x40, 0x80 + c % 0x40]
  }

  function EncodedText(cs: seq<Scalar>): seq<byte> {
    if cs == [] then [] else Encoded(cs[0]) + EncodedText(cs[1..])
  }

  lemma EncodedIsOneCharacter(c: Scalar, rest: seq<byte>)
    ensures CharLength(Encoded(c) + rest) == |Encoded(c)|
  {
  }

  lemma {:induction false} EncodedTextIsUtf8(cs: seq<Scalar>)
    ensures IsUtf8(EncodedText(cs))
  {
    hide CharLength;
    if cs != [] {
      EncodedTextIsUtf8(cs[1..]);
      EncodedIsOneCharacter(cs[0], EncodedText(cs[1..]));
      assert EncodedText(cs)[|Encoded(cs[0])|..] == EncodedText(cs[1..]);
    }
  }

  // The digits of a number to base 64.
  lemma Digits64(x: nat, y: nat, z: nat)
    requires y < 0x40 && z < 0x40
    ensures (0x1000 * x + 0x40 * y + z) / 0x1000 == x
    ensures (0x1000 * x + 0x40 * y + z) / 0x40 == 0x40 * x + y
    ensures (0x40 * x + y) % 0x40 == y
    ensures (0x1000 * x + 0x40 * y + z) % 0x40 == z
  {
  }

  lemma FirstOfTwo(s: seq<byte>) returns (c: Scalar)
    requires CharLength(s) == 2
    ensures s[..2] == Encoded(c)
  {
    var high, low := s[0] as int - 0xC0, s[1] as int - 0x80;
    Digits64(0, high, low);
    c := 0x40 * high + low;
  }

  lemma FirstOfThree(s: seq<byte>) returns (c: Scalar)
    requires CharLength(s) == 3
    ensures s[..3] == Encoded(c)
  {
    var high, middle, low := s[0] as int - 0xE0, s[1] as int - 0x80, s[2] as int - 0x80;
    Digits64(high, middle, low);
    c := 0x1000 * high + 0x40 * middle + low;
  }

  lemma FirstOfFour(s: seq<byte>) returns (c: Scalar)
    requires CharLength(s) == 4
    ensures s[..4] == Encoded(c)
  {
    var high, upper := s[0] as int - 0xF0, s[1] as int - 0x80;
    var lower, low := s[2] as int - 0x80, s[3] as int - 0x80;
    Digits64(0x40 * high + upper, lower, low);
    Digits64(0, high, upper);
    c := 0x4_0000 * high + 0x1000 * upper + 0x40 * lower + low;
    assert c == 0x1000 * (0x40 * high + upper) + 0x40 * lower + low;
    assert c / 0x4_0000 == high;
  }

  lemma FirstScalar(s: seq<byte>) returns (c: Scalar)
    requires CharLength(s) > 0
    ensures s[..CharLength(s)] == Encoded(c)
  {
    var n := CharLength(s);
    if n == 1 {
      c := s[0];
    } else if n == 2 {
      c := FirstOfTwo(s);
    } else if n == 3 {
      c := FirstOfThree(s);
    } else {
      c := FirstOfFour(s);
    }
  }

  lemma {:induction false} Scalars(s: seq<byte>) returns (cs: seq<Scalar>)
    requires IsUtf8(s)
    ensures s == EncodedText(cs)
  {
    hide CharLength, Encoded;
    if s == [] {
      cs := [];
    } else {
      var c := FirstScalar(s);
      cs := Scalars(s[CharLength(s)..]);
      assert s == s[..CharLength(s)] + s[CharLength(s)..];
      cs := [c] + cs;
    }
  }

  /** Exactly the texts: the byte strings that encode some sequence of scalar values. */
  lemma IsUtf8Exactly(s: seq<byte>)
    ensures IsUtf8(s) <==> exists cs :: s == EncodedText(cs)
  {
    hide IsUtf8;
    if IsUtf8(s) {
      var cs := Scalars(s);
    }
    forall cs | s == EncodedText(cs) ensures IsUtf8(s) {
      EncodedTextIsUtf8(cs);
    }
  }
}
