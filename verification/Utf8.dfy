/**
 `String::from_utf8`: which octet sequences are well-formed UTF-8
 (table 3-7 of the Unicode Standard, also section 4 of RFC 3629).
 */
module Utf8 {
  import opened Bytes

  predicate Continuation(b: Byte) {
    0x80 <= b < 0xC0
  }

  /** Length of the well-formed character at the front of `s`; 0 when there is none. */
  function CharLength(s: seq<Byte>): (n: nat)
    ensures n <= |s|
  {
    if s == [] then 0
    else if s[0] < 0x80 then 1
    else if 0xC2 <= s[0] < 0xE0 then
      if |s| >= 2 && Continuation(s[1]) then 2 else 0
    else if 0xE0 <= s[0] < 0xF0 then
      if |s| >= 3 && Continuation(s[1]) && Continuation(s[2])
         && (s[0] == 0xE0 ==> s[1] >= 0xA0) && (s[0] == 0xED ==> s[1] < 0xA0) then 3 else 0
    else if 0xF0 <= s[0] < 0xF5 then
      if |s| >= 4 && Continuation(s[1]) && Continuation(s[2]) && Continuation(s[3])
         && (s[0] == 0xF0 ==> s[1] >= 0x90) && (s[0] == 0xF4 ==> s[1] < 0x90) then 4 else 0
    else 0
  }

  predicate Valid(s: seq<Byte>)
    decreases |s|
  {
    s == [] || (CharLength(s) > 0 && Valid(s[CharLength(s)..]))
  }

  /** Only ASCII bytes. */
  predicate Plain(s: seq<Byte>) {
    forall i :: 0 <= i < |s| ==> s[i] < 0x80
  }

  lemma {:induction false} PlainIsValid(s: seq<Byte>)
    requires Plain(s)
    ensures Valid(s)
    decreases |s|
  {
    if s != [] {
      PlainIsValid(s[1..]);
    }
  }

  /** Concatenating text after well-formed text changes nothing in front of the seam. */
  lemma {:induction false} AppendIsValid(a: seq<Byte>, b: seq<Byte>)
    requires Valid(a)
    ensures Valid(a + b) <==> Valid(b)
    decreases |a|
  {
    if a == [] {
      assert a + b == b;
    } else {
      var n := CharLength(a);
      assert CharLength(a + b) == n;
      assert (a + b)[n..] == a[n..] + b;
      AppendIsValid(a[n..], b);
    }
  }

  // ------------------------------------------------------------- code points

  /** Unicode scalar values: the code points that are not surrogates. */
  type Scalar = x: int | 0 <= x < 0xD800 || 0xE000 <= x < 0x11_0000

  /** The encoding of section 3 of RFC 3629. */
  function Encoded(x: Scalar): (s: seq<Byte>)
    ensures 1 <= |s| <= 4
  {
    if x < 0x80 then [x]
    else if x < 0x800 then [0xC0 + x / 0x40, 0x80 + x % 0x40]
    else if x < 0x1_0000 then [0xE0 + x / 0x1000, 0x80 + x / 0x40 % 0x40, 0x80 + x % 0x40]
    else [0xF0 + x / 0x4_0000, 0x80 + x / 0x1000 % 0x40, 0x80 + x / 0x40 % 0x40, 0x80 + x % 0x40]
  }

  function EncodedText(text: seq<Scalar>): seq<Byte> {
    if text == [] then [] else Encoded(text[0]) + EncodedText(text[1..])
  }

  lemma EncodedIsChar(x: Scalar, tail: seq<Byte>)
    ensures CharLength(Encoded(x) + tail) == |Encoded(x)|
  {
  }

  /** Six-bit digits are read back from the number they make up. */
  lemma SixBits(a: nat, b: nat)
    requires b < 0x40
    ensures (a * 0x40 + b) / 0x40 == a && (a * 0x40 + b) % 0x40 == b
  {
  }

  lemma ThreeBytes(a: nat, b: nat, c: nat)
    requires b < 0x40 && c < 0x40
    ensures var x := (a * 0x40 + b) * 0x40 + c; x / 0x1000 == a && x / 0x40 % 0x40 == b && x % 0x40 == c
  {
    SixBits(a * 0x40 + b, c);
    SixBits(a, b);
  }

  lemma FourBytes(a: nat, b: nat, c: nat, d: nat)
    requires b < 0x40 && c < 0x40 && d < 0x40
    ensures var x := ((a * 0x40 + b) * 0x40 + c) * 0x40 + d;
      x / 0x4_0000 == a && x / 0x1000 % 0x40 == b && x / 0x40 % 0x40 == c && x % 0x40 == d
  {
    SixBits((a * 0x40 + b) * 0x40 + c, d);
    ThreeBytes(a, b, c);
  }

  lemma CharIsEncoded(s: seq<Byte>) returns (x: Scalar)
    requires CharLength(s) > 0
    ensures Encoded(x) == s[..CharLength(s)]
  {
    var n := CharLength(s);
    if n == 1 {
      x := s[0];
    } else if n == 2 {
      x := TwoByteChar(s);
    } else if n == 3 {
      x := ThreeByteChar(s);
    } else {
      x := FourByteChar(s);
    }
  }

  lemma TwoByteChar(s: seq<Byte>) returns (x: Scalar)
    requires CharLength(s) == 2
    ensures Encoded(x) == s[..2]
  {
    var a: nat, b: nat := s[0] - 0xC0, s[1] - 0x80;
    x := a * 0x40 + b;
    SixBits(a, b);
  }

  lemma ThreeByteChar(s: seq<Byte>) returns (x: Scalar)
    requires CharLength(s) == 3
    ensures Encoded(x) == s[..3]
  {
    var a: nat, b: nat, c: nat := s[0] - 0xE0, s[1] - 0x80, s[2] - 0x80;
    x := (a * 0x40 + b) * 0x40 + c;
    ThreeBytes(a, b, c);
    hide CharLength;
    assert Encoded(x) == [0xE0 + a, 0x80 + b, 0x80 + c];
  }

  lemma FourByteChar(s: seq<Byte>) returns (x: Scalar)
    requires CharLength(s) == 4
    ensures Encoded(x) == s[..4]
  {
    var a: nat, b: nat, c: nat, d: nat := s[0] - 0xF0, s[1] - 0x80, s[2] - 0x80, s[3] - 0x80;
    x := ((a * 0x40 + b) * 0x40 + c) * 0x40 + d;
    FourBytes(a, b, c, d);
    hide CharLength;
    assert Encoded(x) == [0xF0 + a, 0x80 + b, 0x80 + c, 0x80 + d];
  }

  lemma {:induction false} EncodedTextIsValid(text: seq<Scalar>)
    ensures Valid(EncodedText(text))
  {
    hide Encoded, CharLength;
    if text != [] {
      var first, rest := Encoded(text[0]), EncodedText(text[1..]);
      EncodedTextIsValid(text[1..]);
      EncodedIsChar(text[0], rest);
      SplitAt(first, rest);
    }
  }

  lemma {:induction false} ValidIsEncodedText(s: seq<Byte>) returns (text: seq<Scalar>)
    requires Valid(s)
    ensures s == EncodedText(text)
    decreases |s|
  {
    hide Encoded, CharLength;
    text := [];
    if s != [] {
      var n := CharLength(s);
      var x := CharIsEncoded(s);
      var rest := ValidIsEncodedText(s[n..]);
      text := [x] + rest;
      assert s == s[..n] + s[n..];
    }
  }

  /** Well-formed means: the encoding of some scalar values. */
  lemma ValidExactly(s: seq<Byte>)
    ensures Valid(s) <==> exists text :: s == EncodedText(text)
  {
    hide Valid, EncodedText;
    if Valid(s) {
      var text := ValidIsEncodedText(s);
    }
    forall text | s == EncodedText(text) ensures Valid(s) {
      EncodedTextIsValid(text);
    }
  }
}
