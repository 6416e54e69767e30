/**
 The text operations pinned to independent descriptions: numerals by position, white space by code point, words and
 trimmed text by how they stand in the line.
 */
module Lexical {
  import opened Bytes
  import opened Text
  import Utf8

  // ---------------------------------------------------------------- literals

  /** The characters of an ASCII text. */
  function Chars(b: seq<Byte>): (s: string)
    ensures |s| == |b|
  {
    seq(|b|, i requires 0 <= i < |b| => b[i] as char)
  }

  predicate IsAscii(s: string) {
    forall i :: 0 <= i < |s| ==> s[i] as int < 0x80
  }

  lemma AsciiRoundTrip(s: string)
    requires IsAscii(s)
    ensures Chars(Ascii(s)) == s && Utf8.Plain(Ascii(s))
  {
  }

  function LowerChar(c: char): char {
    if 'A' <= c <= 'Z' then c - 'A' + 'a' else c
  }

  /** ASCII lower case. */
  function LowerCase(s: string): (t: string)
    ensures |t| == |s|
  {
    seq(|s|, i requires 0 <= i < |s| => LowerChar(s[i]))
  }

  // ---------------------------------------------------------------- numerals

  function Power10(n: nat): nat {
    if n == 0 then 1 else 10 * Power10(n - 1)
  }

  /** The first digit counts for the most. */
  lemma {:induction false} LeadingDigit(d: Byte, s: seq<Byte>)
    requires Digit(d) && Digits(s)
    ensures Digits([d] + s) && DigitsValue([d] + s) == (d - 0x30) * Power10(|s|) + DigitsValue(s)
    decreases |s|
  {
    if s == [] {
      assert [d] + s == [d];
      assert DigitsValue([d]) == DigitsValue([d][..0]) * 10 + (d - 0x30);
    } else {
      var n := |s| - 1;
      LeadingDigit(d, s[..n]);
      assert ([d] + s)[..|s|] == [d] + s[..n] && ([d] + s)[|s|] == s[n];
      assert Power10(|s|) == 10 * Power10(n);
      Shift(d - 0x30, Power10(n), DigitsValue(s[..n]), s[n] - 0x30);
      hide Power10;
    }
  }

  lemma Shift(a: int, p: int, v: int, e: int)
    ensures (a * p + v) * 10 + e == a * (10 * p) + (v * 10 + e)
  {
  }

  predicate Zeros(s: seq<Byte>) {
    forall i :: 0 <= i < |s| ==> s[i] == 0x30
  }

  lemma {:induction false} LeadingZeros(zeros: seq<Byte>, s: seq<Byte>)
    requires Zeros(zeros) && Digits(s)
    ensures Digits(zeros + s) && DigitsValue(zeros + s) == DigitsValue(s)
    decreases |zeros|
  {
    if zeros == [] {
      assert zeros + s == s;
    } else {
      LeadingZeros(zeros[1..], s);
      LeadingDigit(0x30, zeros[1..] + s);
      assert zeros + s == [0x30] + (zeros[1..] + s);
    }
  }

  /** A numeral without a leading zero is the decimal form of its value. */
  lemma {:induction false} CanonicalIsDecimal(s: seq<Byte>)
    requires s != [] && Digits(s) && (s[0] == 0x30 ==> |s| == 1)
    ensures s == Decimal(DigitsValue(s))
    ensures s[0] != 0x30 ==> DigitsValue(s) > 0
    decreases |s|
  {
    var n := |s| - 1;
    var front := s[..n];
    assert s == front + [s[n]];
    if n == 0 {
      assert DigitsValue(front) == 0;
    } else {
      CanonicalIsDecimal(front);
      assert DigitsValue(s) == DigitsValue(front) * 10 + (s[n] - 0x30);
    }
  }

  lemma {:induction false} WithoutLeadingZeros(s: seq<Byte>) returns (zeros: seq<Byte>)
    requires s != [] && Digits(s)
    ensures Zeros(zeros) && s == zeros + Decimal(DigitsValue(s))
    decreases |s|
  {
    if s[0] == 0x30 && |s| > 1 {
      var rest := s[1..];
      var more := WithoutLeadingZeros(rest);
      assert s == [0x30] + rest;
      LeadingDigit(0x30, rest);
      zeros := [0x30] + more;
    } else {
      zeros := [];
      CanonicalIsDecimal(s);
    }
  }

  /** `parse::<u16>` accepts exactly an optional plus sign, any leading zeros and the decimal form of a `u16`. */
  lemma ParseU16Exactly(s: seq<Byte>, p: U16)
    ensures ParseU16(s) == Some(p)
       <==> exists sign, zeros :: (sign == [] || sign == [PLUS]) && Zeros(zeros) && s == sign + (zeros + Decimal(p))
  {
    hide Decimal, DigitsValue;
    var sign := if s != [] && s[0] == PLUS then s[..1] else [];
    var body := s[|sign|..];
    assert s == sign + body;
    if ParseU16(s) == Some(p) {
      var zeros := WithoutLeadingZeros(body);
      assert s == sign + (zeros + Decimal(p));
    }
    forall sign, zeros | (sign == [] || sign == [PLUS]) && Zeros(zeros) && s == sign + (zeros + Decimal(p))
      ensures ParseU16(s) == Some(p)
    {
      NumeralParses(sign, zeros, p);
    }
  }

  lemma NumeralParses(sign: seq<Byte>, zeros: seq<Byte>, p: U16)
    requires (sign == [] || sign == [PLUS]) && Zeros(zeros)
    ensures ParseU16(sign + (zeros + Decimal(p))) == Some(p)
  {
    hide Decimal, DigitsValue;
    var body := zeros + Decimal(p);
    DecimalValue(p);
    LeadingZeros(zeros, Decimal(p));
    assert Digit(body[0]);
    SplitAt(sign, body);
    if sign == [] {
      assert sign + body == body;
    }
  }

  // -------------------------------------------------------------- white space

  /** The code points with the Unicode property White_Space. */
  predicate WhiteSpace(x: Utf8.Scalar) {
    || 0x09 <= x <= 0x0D || x == 0x20 || x == 0x85 || x == 0xA0 || x == 0x1680 || 0x2000 <= x <= 0x200A
    || x == 0x2028 || x == 0x2029 || x == 0x202F || x == 0x205F || x == 0x3000
  }

  lemma WhiteIsSkipped(x: Utf8.Scalar, tail: seq<Byte>)
    ensures WhiteLength(Utf8.Encoded(x) + tail) == if WhiteSpace(x) then |Utf8.Encoded(x)| else 0
  {
    var s := Utf8.Encoded(x) + tail;
    assert s[0] == Utf8.Encoded(x)[0];
  }

  lemma SkippedIsWhite(s: seq<Byte>) returns (x: Utf8.Scalar)
    requires WhiteLength(s) > 0
    ensures WhiteSpace(x) && Utf8.Encoded(x) == s[..WhiteLength(s)]
  {
    var n := WhiteLength(s);
    assert Utf8.CharLength(s) == n;
    x := Utf8.CharIsEncoded(s);
    hide Utf8.CharLength;
    assert s == Utf8.Encoded(x) + s[n..];
    WhiteIsSkipped(x, s[n..]);
  }

  /** A run of white-space characters. */
  predicate Gap(s: seq<Byte>)
    decreases |s|
  {
    s == [] || (WhiteLength(s) > 0 && Gap(s[WhiteLength(s)..]))
  }

  /** Where a word ends: at white space or with the text. */
  predicate Ends(t: seq<Byte>) {
    t == [] || WhiteLength(t) > 0
  }

  predicate IsWord(s: seq<Byte>) {
    s != [] && NoWhite(s)
  }

  /** A white-space character is recognised by its own bytes. */
  lemma WhiteIsLocal(a: seq<Byte>, t: seq<Byte>)
    ensures WhiteLength(a) > 0 ==> WhiteLength(a + t) == WhiteLength(a)
    ensures a != [] && WhiteLength(a) == 0 && Ends(t) ==> WhiteLength(a + t) == 0
  {
  }

  lemma {:induction false} SkipGap(gap: seq<Byte>, t: seq<Byte>)
    requires Gap(gap) && WhiteLength(t) == 0
    ensures SkipWhite(gap + t) == t
    decreases |gap|
  {
    hide WhiteLength;
    if gap == [] {
      assert gap + t == t;
    } else {
      var n := WhiteLength(gap);
      SkipGap(gap[n..], t);
      WhiteIsLocal(gap, t);
      assert (gap + t)[n..] == gap[n..] + t;
    }
  }

  lemma {:induction false} WordLength(word: seq<Byte>, t: seq<Byte>)
    requires NoWhite(word) && Ends(t)
    ensures FieldLength(word + t) == |word|
    decreases |word|
  {
    hide WhiteLength;
    if word == [] {
      assert word + t == t;
    } else {
      assert word[0..] == word;
      WhiteIsLocal(word, t);
      NoWhiteFrom(word, 1);
      WordLength(word[1..], t);
      assert (word + t)[1..] == word[1..] + t;
    }
  }

  lemma NoWhiteFrom(word: seq<Byte>, k: nat)
    requires NoWhite(word) && k <= |word|
    ensures NoWhite(word[k..])
  {
    hide WhiteLength;
    forall i | 0 <= i < |word[k..]| ensures WhiteLength(word[k..][i..]) == 0 {
      assert word[k..][i..] == word[k + i..];
    }
  }

  /** `split_whitespace`: behind any gap, the next word is the next field... */
  lemma FieldsStep(gap: seq<Byte>, word: seq<Byte>, t: seq<Byte>)
    requires Gap(gap) && IsWord(word) && Ends(t)
    ensures Fields(gap + (word + t)) == [word] + Fields(t)
  {
    hide WhiteLength;
    assert word[0..] == word;
    WhiteIsLocal(word, t);
    SkipGap(gap, word + t);
    WordLength(word, t);
    SplitAt(word, t);
  }

  /** ...and behind the last word there is none. */
  lemma FieldsEnd(gap: seq<Byte>)
    requires Gap(gap)
    ensures Fields(gap) == []
  {
    hide Gap;
    SkipGap(gap, []);
    assert gap + [] == gap;
  }

  /** A text that is not one gap has a next word. */
  lemma NextWord(s: seq<Byte>) returns (gap: seq<Byte>, word: seq<Byte>, t: seq<Byte>)
    requires !Gap(s)
    ensures Gap(gap) && IsWord(word) && Ends(t) && s == gap + (word + t)
  {
    hide WhiteLength, Gap;
    gap := SkippedGap(s);
    var rest := SkipWhite(s);
    assert gap + [] == gap;
    word, t := WordAtFront(rest);
  }

  lemma {:induction false} SkippedGap(s: seq<Byte>) returns (gap: seq<Byte>)
    ensures Gap(gap) && s == gap + SkipWhite(s)
    decreases |s|
  {
    hide WhiteLength;
    gap := [];
    if WhiteLength(s) > 0 {
      var n := WhiteLength(s);
      var more := SkippedGap(s[n..]);
      gap := s[..n] + more;
      GapCons(s, more);
      assert s == s[..n] + s[n..];
      Associate(s[..n], more, SkipWhite(s));
    }
  }

  lemma GapCons(s: seq<Byte>, more: seq<Byte>)
    requires WhiteLength(s) > 0 && Gap(more)
    ensures Gap(s[..WhiteLength(s)] + more)
  {
    var first := s[..WhiteLength(s)];
    assert WhiteLength(first + more) == |first|;
    hide WhiteLength;
    SplitAt(first, more);
  }

  lemma {:induction false} WordAtFront(s: seq<Byte>) returns (word: seq<Byte>, t: seq<Byte>)
    requires s != [] && WhiteLength(s) == 0
    ensures IsWord(word) && Ends(t) && s == word + t
    decreases |s|
  {
    if |s| == 1 || WhiteLength(s[1..]) > 0 {
      word, t := s[..1], s[1..];
      FrontIsNotWhite(s, 1);
      assert word[0..] == word;
    } else {
      var more;
      more, t := WordAtFront(s[1..]);
      word := [s[0]] + more;
      assert s == word + t;
      hide WhiteLength;
      FrontIsNotWhite(s, |word|);
      NoWhiteCons(word);
    }
  }

  /** Cutting a text behind its front does not make the front white. */
  lemma FrontIsNotWhite(s: seq<Byte>, k: nat)
    requires WhiteLength(s) == 0 && k <= |s|
    ensures WhiteLength(s[..k]) == 0
  {
  }

  lemma NoWhiteCons(word: seq<Byte>)
    requires word != [] && WhiteLength(word) == 0 && NoWhite(word[1..])
    ensures NoWhite(word)
  {
    hide WhiteLength;
    assert word[0..] == word;
    forall i | 0 < i < |word| ensures WhiteLength(word[i..]) == 0 {
      assert word[1..][i - 1..] == word[i..];
    }
  }

  // ----------------------------------------------------------------- trimming

  /** No white-space character stands at the end of `t`. */
  predicate EndsInWord(t: seq<Byte>) {
    forall i :: 0 <= i < |t| ==> WhiteLength(t[i..]) < |t| - i
  }

  lemma {:induction false} GapAppend(a: seq<Byte>, b: seq<Byte>)
    requires Gap(a) && Gap(b)
    ensures Gap(a + b)
    decreases |a|
  {
    hide WhiteLength;
    if a == [] {
      assert a + b == b;
    } else {
      var n := WhiteLength(a);
      GapAppend(a[n..], b);
      GapCons(a, a[n..] + b);
      assert a + b == a[..n] + (a[n..] + b);
    }
  }

  lemma {:induction false} TrimmedEnd(s: seq<Byte>) returns (back: seq<Byte>)
    ensures s == TrimEnd(s) + back && Gap(back) && EndsInWord(TrimEnd(s))
    decreases |s|
  {
    hide WhiteLength, TrailingWhite, EndsInWord, Gap;
    var n := TrailingWhite(s);
    if n == 0 {
      back := [];
      EmptyGap();
      NoTrailingWhite(s);
    } else {
      var k := |s| - n;
      var more := TrimmedEnd(s[..k]);
      TrailingIsGap(s);
      GapAppend(more, s[k..]);
      back := more + s[k..];
      assert s == s[..k] + s[k..];
      Associate(TrimEnd(s), more, s[k..]);
    }
  }

  lemma EmptyGap()
    ensures Gap([])
  {
  }

  lemma NoTrailingWhite(s: seq<Byte>)
    requires TrailingWhite(s) == 0
    ensures EndsInWord(s)
  {
    forall i | 0 <= i < |s| ensures WhiteLength(s[i..]) < |s| - i {
      AtMostThree(s[i..]);
      hide WhiteLength;
      assert i == |s| - 1 || i == |s| - 2 || i == |s| - 3 || i < |s| - 3;
    }
  }

  lemma AtMostThree(s: seq<Byte>)
    ensures WhiteLength(s) <= 3
  {
  }

  lemma TrailingIsGap(s: seq<Byte>)
    requires TrailingWhite(s) > 0
    ensures Gap(s[|s| - TrailingWhite(s)..])
  {
    hide WhiteLength;
    var t := s[|s| - TrailingWhite(s)..];
    assert WhiteLength(t) == |t|;
    assert t[|t|..] == [];
  }

  /** `trim` removes a gap from each end and leaves no white space at either. */
  lemma TrimExactly(s: seq<Byte>) returns (front: seq<Byte>, back: seq<Byte>)
    ensures s == front + Trim(s) + back && Gap(front) && Gap(back)
    ensures WhiteLength(Trim(s)) == 0 && EndsInWord(Trim(s))
  {
    hide WhiteLength, Gap, EndsInWord;
    front := SkippedGap(s);
    var t := SkipWhite(s);
    back := TrimmedEnd(t);
    assert t[..|Trim(s)|] == Trim(s);
    FrontIsNotWhite(t, |Trim(s)|);
    Associate(front, Trim(s), back);
  }
}
