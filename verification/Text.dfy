/**
 The standard-library text operations the parsers lean on: `split`, `split_whitespace`,
 decimal printing, `parse::<u16>` and the dotted form of an IPv4 address.
 */
module Text {
  import opened Bytes
  import Utf8

  const COLON: Byte := 0x3A
  const SLASH: Byte := 0x2F
  const DOT: Byte := 0x2E
  const SPACE: Byte := 0x20
  const PLUS: Byte := 0x2B
  const NEWLINE: Byte := 0x0A
  const CR: Byte := 0x0D

  /** The bytes of an ASCII literal. */
  function Ascii(s: string): (b: seq<Byte>)
    ensures |b| == |s|
  {
    seq(|s|, i requires 0 <= i < |s| => if s[i] as int < 0x80 then s[i] as int else 0x3F)
  }

  // ---------------------------------------------------------------- decimal

  predicate Digit(b: Byte) {
    0x30 <= b < 0x3A
  }

  predicate Digits(s: seq<Byte>) {
    forall i :: 0 <= i < |s| ==> Digit(s[i])
  }

  /** `to_string` of an unsigned number. */
  function Decimal(n: nat): (s: seq<Byte>)
    ensures |s| >= 1 && Digits(s)
  {
    if n < 10 then [0x30 + n] else Decimal(n / 10) + [0x30 + n % 10]
  }

  function DigitsValue(s: seq<Byte>): nat
    requires Digits(s)
  {
    if s == [] then 0 else DigitsValue(s[..|s| - 1]) * 10 + (s[|s| - 1] - 0x30)
  }

  /** `str::parse::<u16>`: an optional plus sign, at least one digit, any leading zeros, at most 65535. */
  function ParseU16(s: seq<Byte>): Option<U16> {
    var body := if s != [] && s[0] == PLUS then s[1..] else s;
    if body == [] || !Digits(body) || DigitsValue(body) > 0xFFFF then None
    else Some(DigitsValue(body))
  }

  lemma {:induction false} DecimalValue(n: nat)
    ensures DigitsValue(Decimal(n)) == n
  {
    if n >= 10 {
      DecimalValue(n / 10);
      assert Decimal(n)[..|Decimal(n)| - 1] == Decimal(n / 10);
    }
  }

  /** Printing a port and parsing it back are inverse. */
  lemma ParseDecimal(p: U16)
    ensures ParseU16(Decimal(p)) == Some(p)
  {
    DecimalValue(p);
    assert Digit(Decimal(p)[0]);
  }

  lemma DecimalIsPlain(n: nat)
    ensures Utf8.Plain(Decimal(n))
    ensures forall b :: b in Decimal(n) ==> Digit(b)
  {
    assert Digits(Decimal(n));
  }

  // ------------------------------------------------------------------ split

  /** Position of the first `sep` in `s`. */
  function IndexOf(s: seq<Byte>, sep: Byte): (i: nat)
    requires sep in s
    ensures i < |s| && s[i] == sep && sep !in s[..i]
  {
    if s[0] == sep then 0 else 1 + IndexOf(s[1..], sep)
  }

  /** `s.split(sep).collect()`; the empty string gives one empty piece. */
  function Split(s: seq<Byte>, sep: Byte): (parts: seq<seq<Byte>>)
    ensures |parts| >= 1
    decreases |s|
  {
    if sep !in s then [s]
    else var i := IndexOf(s, sep); [s[..i]] + Split(s[i + 1..], sep)
  }

  function Join(parts: seq<seq<Byte>>, sep: Byte): seq<Byte>
    requires |parts| >= 1
  {
    if |parts| == 1 then parts[0] else parts[0] + [sep] + Join(parts[1..], sep)
  }

  /** `Split` is inverted by `Join`, and no piece holds the separator. */
  lemma {:induction false} JoinSplit(s: seq<Byte>, sep: Byte)
    ensures Join(Split(s, sep), sep) == s
    ensures forall k :: 0 <= k < |Split(s, sep)| ==> sep !in Split(s, sep)[k]
    decreases |s|
  {
    if sep in s {
      var i := IndexOf(s, sep);
      JoinSplit(s[i + 1..], sep);
      assert Split(s, sep)[1..] == Split(s[i + 1..], sep);
      assert s == s[..i] + [sep] + s[i + 1..];
    }
  }

  lemma {:induction false} IndexOfAppend(a: seq<Byte>, b: seq<Byte>, sep: Byte)
    requires sep !in a
    ensures IndexOf(a + [sep] + b, sep) == |a|
  {
    var s := a + [sep] + b;
    assert s[|a|] == sep;
    assert IndexOf(s, sep) <= |a|;
    assert a == s[..|a|];
  }

  lemma SplitWhole(s: seq<Byte>, sep: Byte)
    requires sep !in s
    ensures Split(s, sep) == [s]
  {
  }

  /** Splitting at a separator that the first piece does not hold. */
  lemma SplitFirst(a: seq<Byte>, b: seq<Byte>, sep: Byte)
    requires sep !in a
    ensures Split(a + [sep] + b, sep) == [a] + Split(b, sep)
  {
    var s := a + [sep] + b;
    IndexOfAppend(a, b, sep);
    assert s[|a|] == sep;
    assert s[..|a|] == a && s[|a| + 1..] == b;
  }

  /** A text splits into one piece more than it has separators. */
  lemma {:induction false} SplitCount(s: seq<Byte>, sep: Byte)
    ensures |Split(s, sep)| == multiset(s)[sep] + 1
    decreases |s|
  {
    hide IndexOf;
    if sep in s {
      var i := IndexOf(s, sep);
      SplitCount(s[i + 1..], sep);
      assert s == s[..i] + [sep] + s[i + 1..];
      CountOne(s[..i], s[i + 1..], sep);
    } else {
      assert multiset(s)[sep] == 0;
    }
  }

  lemma CountOne(a: seq<Byte>, b: seq<Byte>, sep: Byte)
    requires sep !in a
    ensures multiset(a + [sep] + b)[sep] == multiset(b)[sep] + 1
  {
    assert multiset(a)[sep] == 0;
    assert multiset(a + [sep] + b) == multiset(a) + multiset{sep} + multiset(b);
  }

  // ------------------------------------------------------ split_whitespace

  /** Length of the Unicode white-space character at the front of `s`; 0 when there is none. */
  function WhiteLength(s: seq<Byte>): (n: nat)
    ensures n <= |s|
  {
    if s == [] then 0
    else if 0x09 <= s[0] <= 0x0D || s[0] == SPACE then 1
    else if |s| >= 2 && s[0] == 0xC2 && (s[1] == 0x85 || s[1] == 0xA0) then 2
    else if |s| >= 3 && s[0] == 0xE1 && s[1] == 0x9A && s[2] == 0x80 then 3
    else if |s| >= 3 && s[0] == 0xE2 && s[1] == 0x80
            && (0x80 <= s[2] <= 0x8A || s[2] == 0xA8 || s[2] == 0xA9 || s[2] == 0xAF) then 3
    else if |s| >= 3 && s[0] == 0xE2 && s[1] == 0x81 && s[2] == 0x9F then 3
    else if |s| >= 3 && s[0] == 0xE3 && s[1] == 0x80 && s[2] == 0x80 then 3
    else 0
  }

  function SkipWhite(s: seq<Byte>): (t: seq<Byte>)
    ensures |t| <= |s| && WhiteLength(t) == 0
    decreases |s|
  {
    if WhiteLength(s) == 0 then s else SkipWhite(s[WhiteLength(s)..])
  }

  function FieldLength(s: seq<Byte>): (n: nat)
    ensures n <= |s|
    ensures s != [] && WhiteLength(s) == 0 ==> n > 0
  {
    if s == [] || WhiteLength(s) > 0 then 0 else 1 + FieldLength(s[1..])
  }

  /** `s.split_whitespace().collect()`. */
  function Fields(s: seq<Byte>): seq<seq<Byte>>
    decreases |s|
  {
    var t := SkipWhite(s);
    if t == [] then [] else [t[..FieldLength(t)]] + Fields(t[FieldLength(t)..])
  }

  predicate NoWhite(s: seq<Byte>) {
    forall i :: 0 <= i < |s| ==> WhiteLength(s[i..]) == 0
  }

  lemma {:induction false} FieldLengthAppend(a: seq<Byte>, b: seq<Byte>)
    requires NoWhite(a) && b != [] && b[0] == SPACE
    ensures FieldLength(a + b) == |a|
    decreases |a|
  {
    if a == [] {
      assert a + b == b;
    } else {
      assert a[0..] == a;
      assert WhiteLength(a + b) == 0;
      forall i | 0 <= i < |a[1..]| ensures WhiteLength(a[1..][i..]) == 0 {
        assert a[1..][i..] == a[i + 1..];
      }
      FieldLengthAppend(a[1..], b);
      assert (a + b)[1..] == a[1..] + b;
    }
  }

  /** The first two fields of a request line. */
  lemma FirstTwoFields(a: seq<Byte>, b: seq<Byte>, c: seq<Byte>)
    requires a != [] && NoWhite(a) && b != [] && NoWhite(b)
    ensures |Fields(a + [SPACE] + b + [SPACE] + c)| >= 2
    ensures Fields(a + [SPACE] + b + [SPACE] + c)[..2] == [a, b]
  {
    var tail := [SPACE] + c;
    var u := b + tail;
    var t := [SPACE] + u;
    hide Fields, NoWhite;
    FirstField(a, t);
    FirstField(b, tail);
    SpaceIsSkipped(u);
    assert a + [SPACE] + b + [SPACE] + c == a + t;
  }

  lemma SpaceIsSkipped(u: seq<Byte>)
    ensures Fields([SPACE] + u) == Fields(u)
  {
    assert ([SPACE] + u)[1..] == u;
    assert SkipWhite([SPACE] + u) == SkipWhite(u);
  }

  lemma FirstField(a: seq<Byte>, t: seq<Byte>)
    requires a != [] && NoWhite(a) && t != [] && t[0] == SPACE
    ensures Fields(a + t) == [a] + Fields(t)
  {
    assert a[0..] == a;
    assert WhiteLength(a + t) == 0;
    FieldLengthAppend(a, t);
    assert (a + t)[..|a|] == a && (a + t)[|a|..] == t;
  }

  /** White space is never ended by an ASCII byte, so plain ASCII may follow a white-free text. */
  lemma {:induction false} NoWhiteAppend(a: seq<Byte>, b: seq<Byte>)
    requires NoWhite(a) && NoWhite(b) && Utf8.Plain(b)
    ensures NoWhite(a + b)
  {
    forall i | 0 <= i < |a + b| ensures WhiteLength((a + b)[i..]) == 0 {
      if i < |a| {
        assert (a + b)[i..] == a[i..] + b;
        assert WhiteLength(a[i..]) == 0;
      } else {
        assert (a + b)[i..] == b[i - |a|..];
      }
    }
  }

  lemma PlainHasNoWhite(s: seq<Byte>)
    requires forall i :: 0 <= i < |s| ==> SPACE < s[i] < 0x80
    ensures NoWhite(s) && Utf8.Plain(s)
  {
  }

  /** Length of the white-space character at the end of `s`; 0 when there is none. */
  function TrailingWhite(s: seq<Byte>): (n: nat)
    ensures n <= |s|
  {
    if |s| >= 1 && WhiteLength(s[|s| - 1..]) == 1 then 1
    else if |s| >= 2 && WhiteLength(s[|s| - 2..]) == 2 then 2
    else if |s| >= 3 && WhiteLength(s[|s| - 3..]) == 3 then 3
    else 0
  }

  function TrimEnd(s: seq<Byte>): seq<Byte>
    decreases |s|
  {
    if TrailingWhite(s) == 0 then s else TrimEnd(s[..|s| - TrailingWhite(s)])
  }

  /** `s.trim()`. */
  function Trim(s: seq<Byte>): seq<Byte> {
    TrimEnd(SkipWhite(s))
  }

  lemma PlainStart(s: seq<Byte>)
    requires s != [] && SPACE < s[0] < 0x80
    ensures WhiteLength(s) == 0
  {
  }

  lemma WhiteLastByte(t: seq<Byte>)
    requires t != [] && WhiteLength(t) == |t|
    ensures t[|t| - 1] <= SPACE || t[|t| - 1] >= 0x80
  {
  }

  lemma PlainEnd(s: seq<Byte>)
    requires s != [] && SPACE < s[|s| - 1] < 0x80
    ensures TrailingWhite(s) == 0
  {
    hide WhiteLength;
    var n := TrailingWhite(s);
    if n > 0 {
      WhiteLastByte(s[|s| - n..]);
    }
  }

  /** Trimming at the end keeps the first byte of a text that does not start with white space. */
  lemma {:induction false} TrimEndKeepsFirst(s: seq<Byte>)
    requires s != [] && SPACE < s[0] < 0x80
    ensures TrimEnd(s) != [] && TrimEnd(s)[0] == s[0]
    decreases |s|
  {
    var n := TrailingWhite(s);
    PlainStart(s);
    hide WhiteLength;
    if n > 0 {
      assert s[0..] == s;
      assert n < |s|;
      TrimEndKeepsFirst(s[..|s| - n]);
    }
  }

  /** `s.lines()`: pieces ended by a newline lose it and a carriage return before it. */
  function Lines(s: seq<Byte>): seq<seq<Byte>>
    decreases |s|
  {
    if s == [] then []
    else if NEWLINE !in s then [s]
    else
      var i := IndexOf(s, NEWLINE);
      [StripReturn(s[..i])] + Lines(s[i + 1..])
  }

  function StripReturn(s: seq<Byte>): seq<Byte> {
    if s != [] && s[|s| - 1] == CR then s[..|s| - 1] else s
  }

  lemma LinesCons(x: seq<Byte>, rest: seq<Byte>)
    requires NEWLINE !in x
    ensures Lines(x + [NEWLINE] + rest) == [StripReturn(x)] + Lines(rest)
  {
    var s := x + [NEWLINE] + rest;
    IndexOfAppend(x, rest, NEWLINE);
    assert s[|x|] == NEWLINE && s[..|x|] == x && s[|x| + 1..] == rest;
  }

  /** Lines split where a newline ends. */
  lemma {:induction false} LinesAppend(a: seq<Byte>, b: seq<Byte>)
    requires a == [] || a[|a| - 1] == NEWLINE
    ensures Lines(a + b) == Lines(a) + Lines(b)
    decreases |a|
  {
    if a == [] {
      assert a + b == b;
    } else {
      hide Lines;
      var x, y := FirstLine(a);
      LinesAppend(y, b);
      LinesAppendStep(x, y, b);
    }
  }

  /** The first line of a text that ends in a newline, and the lines behind it. */
  lemma FirstLine(a: seq<Byte>) returns (x: seq<Byte>, y: seq<Byte>)
    requires a != [] && a[|a| - 1] == NEWLINE
    ensures NEWLINE !in x && a == x + [NEWLINE] + y
    ensures y == [] || y[|y| - 1] == NEWLINE
  {
    hide IndexOf;
    assert a[|a| - 1] in a;
    var i := IndexOf(a, NEWLINE);
    x, y := a[..i], a[i + 1..];
    assert a == x + [a[i]] + y;
  }

  lemma LinesAppendStep(x: seq<Byte>, y: seq<Byte>, b: seq<Byte>)
    requires NEWLINE !in x && Lines(y + b) == Lines(y) + Lines(b)
    ensures Lines(x + [NEWLINE] + y + b) == Lines(x + [NEWLINE] + y) + Lines(b)
  {
    hide Lines;
    LinesCons(x, y);
    LinesCons(x, y + b);
    Associate(x + [NEWLINE], y, b);
    Associate([StripReturn(x)], Lines(y), Lines(b));
  }

  // -------------------------------------------------------------- host:port

  /** The text `{host}:{port}` that is dialled, framed and put on a CONNECT line. */
  function HostPort(host: seq<Byte>, port: nat): seq<Byte> {
    host + [COLON] + Decimal(port)
  }

  /** The last `sep` in `s`. */
  function LastIndexOf(s: seq<Byte>, sep: Byte): (i: nat)
    requires sep in s
    ensures i < |s| && s[i] == sep && sep !in s[i + 1..]
  {
    var n := |s| - 1;
    if s[n] == sep then n
    else
      assert s == s[..n] + [s[n]];
      var i := LastIndexOf(s[..n], sep);
      assert s[i + 1..] == s[..n][i + 1..] + [s[n]];
      i
  }

  /** Reading the dialled text back: everything before the last colon, and the number after it. */
  function SplitDialled(s: seq<Byte>): Option<(seq<Byte>, U16)> {
    if COLON !in s then None
    else
      var i := LastIndexOf(s, COLON);
      match ParseU16(s[i + 1..])
      case None => None
      case Some(p) => Some((s[..i], p))
  }

  lemma {:induction false} LastIndexOfAppend(a: seq<Byte>, b: seq<Byte>, sep: Byte)
    requires sep !in b
    ensures LastIndexOf(a + [sep] + b, sep) == |a|
    decreases |b|
  {
    var s := a + [sep] + b;
    assert s[|a|] == sep;
    if b != [] {
      var n := |b| - 1;
      assert s[..|s| - 1] == a + [sep] + b[..n];
      LastIndexOfAppend(a, b[..n], sep);
    }
  }

  /** The dialled text determines host and port for every host, colons included. */
  lemma DialledIsDecodable(host: seq<Byte>, port: U16)
    ensures SplitDialled(HostPort(host, port)) == Some((host, port))
  {
    var s := HostPort(host, port);
    DecimalIsPlain(port);
    LastIndexOfAppend(host, Decimal(port), COLON);
    assert s[|host|] == COLON;
    assert s[..|host|] == host && s[|host| + 1..] == Decimal(port);
    ParseDecimal(port);
  }

  /** Splitting `{host}:{port}` at its only colon. */
  lemma SplitHostPort(host: seq<Byte>, port: U16)
    requires COLON !in host
    ensures Split(HostPort(host, port), COLON) == [host, Decimal(port)]
  {
    DecimalIsPlain(port);
    SplitFirst(host, Decimal(port), COLON);
  }

  lemma HostPortIsValid(host: seq<Byte>, port: U16)
    requires Utf8.Valid(host)
    ensures Utf8.Valid(HostPort(host, port))
  {
    DecimalIsPlain(port);
    assert HostPort(host, port) == host + ([COLON] + Decimal(port));
    Utf8.PlainIsValid([COLON] + Decimal(port));
    Utf8.AppendIsValid(host, [COLON] + Decimal(port));
  }

  /** `Ipv4Addr::to_string`. */
  function Dotted(a: Byte, b: Byte, c: Byte, d: Byte): seq<Byte> {
    Decimal(a) + [DOT] + Decimal(b) + [DOT] + Decimal(c) + [DOT] + Decimal(d)
  }

  /** The four octets stand between the dots, in order, each in decimal. */
  lemma DottedSplits(a: Byte, b: Byte, c: Byte, d: Byte)
    ensures Split(Dotted(a, b, c, d), DOT) == [Decimal(a), Decimal(b), Decimal(c), Decimal(d)]
    ensures Dotted(a, b, c, d) == Join([Decimal(a), Decimal(b), Decimal(c), Decimal(d)], DOT)
    ensures ParseU16(Decimal(a)) == Some(a) && ParseU16(Decimal(b)) == Some(b)
    ensures ParseU16(Decimal(c)) == Some(c) && ParseU16(Decimal(d)) == Some(d)
  {
    NoDot(a);
    NoDot(b);
    NoDot(c);
    NoDot(d);
    hide Decimal, Split, ParseU16;
    var tail := Decimal(c) + [DOT] + Decimal(d);
    SplitWhole(Decimal(d), DOT);
    SplitFirst(Decimal(c), Decimal(d), DOT);
    SplitFirst(Decimal(b), tail, DOT);
    SplitFirst(Decimal(a), Decimal(b) + [DOT] + tail, DOT);
    assert Dotted(a, b, c, d) == Decimal(a) + [DOT] + (Decimal(b) + [DOT] + tail);
    JoinSplit(Dotted(a, b, c, d), DOT);
  }

  lemma NoDot(n: Byte)
    ensures DOT !in Decimal(n) && ParseU16(Decimal(n)) == Some(n)
  {
    DecimalIsPlain(n);
    ParseDecimal(n);
  }
}
