/** Proxy-Authorization over HTTP: header lookup and the 407 answer. */
module HttpAuth {
  import opened Bytes
  import opened Wire
  import opened Text
  import opened Auth
  import Utf8
  import Lexical

  const PEEK_LIMIT: nat := 4096

  /** "Proxy-Authorization:" */
  const HEADER: seq<Byte> := [
    0x50, 0x72, 0x6F, 0x78, 0x79, 0x2D, 0x41, 0x75, 0x74, 0x68,
    0x6F, 0x72, 0x69, 0x7A, 0x61, 0x74, 0x69, 0x6F, 0x6E, 0x3A]

  function AuthRequired(): seq<Byte> {
    Ascii("HTTP/1.1 407 Proxy ") + Ascii("Authentication Required\r\n")
    + Ascii("Proxy-Authenticate: ") + Ascii("Basic realm=\"Proxy\"\r\n")
    + Ascii("Content-Length: 0\r\n") + Ascii("Connection: close\r\n\r\n")
  }

  function Lower(b: Byte): Byte {
    if 0x41 <= b <= 0x5A then b + 0x20 else b
  }

  /** `line.to_lowercase().starts_with("proxy-authorization:")`. */
  predicate NamesHeader(line: seq<Byte>) {
    |line| >= |HEADER| && forall i :: 0 <= i < |HEADER| ==> Lower(line[i]) == Lower(HEADER[i])
  }

  /** `trim_start_matches`: the name is removed as often as it is repeated, in this exact spelling. */
  function StripHeader(s: seq<Byte>): seq<Byte>
    decreases |s|
  {
    if HEADER <= s then StripHeader(s[|HEADER|..]) else s
  }

  function FindIn(lines: seq<seq<Byte>>): Option<seq<Byte>> {
    if lines == [] then None
    else if NamesHeader(lines[0]) then Some(Trim(StripHeader(lines[0])))
    else FindIn(lines[1..])
  }

  /** `extract_proxy_auth_header`. */
  function FindHeader(text: seq<Byte>): Option<seq<Byte>> {
    FindIn(Lines(text))
  }

  predicate Admits(text: seq<Byte>, cfg: Config, lib: Library) {
    var h := FindHeader(text);
    h.Some? && ValidHeader(h.value, cfg, lib)
  }

  /** `authenticate_http_or_https` on a plain stream. */
  function HttpAuth(c: Conn, cfg: Config, lib: Library, visible: nat): (Verdict, Conn) {
    var seen := Peeked(c, PEEK_LIMIT, visible);
    if |seen| == 0 then (Refused, c)
    else if Admits(lib.lossy(seen), cfg, lib) then (Accepted, c)
    else (Refused, Send(c, AuthRequired()).1)
  }

  lemma {:induction false} FindSkips(lines: seq<seq<Byte>>, more: seq<seq<Byte>>)
    requires forall i :: 0 <= i < |lines| ==> !NamesHeader(lines[i])
    ensures FindIn(lines + more) == FindIn(more)
  {
    if lines == [] {
      assert lines + more == more;
    } else {
      assert (lines + more)[1..] == lines[1..] + more;
      FindSkips(lines[1..], more);
    }
  }

  // ------------------------------------------------------------- header lines

  predicate Blank(s: seq<Byte>) {
    forall i :: 0 <= i < |s| ==> s[i] == SPACE || s[i] == 0x09
  }

  /** A token of visible ASCII characters, as base64 gives. */
  predicate Token(s: seq<Byte>) {
    s != [] && forall i :: 0 <= i < |s| ==> SPACE < s[i] < 0x80
  }

  /** A header line in the accepted spelling, with any blanks around its value. */
  function HeaderLine(pad: seq<Byte>, token: seq<Byte>, trail: seq<Byte>): seq<Byte> {
    Ascii("Proxy-Authorization:") + (pad + (Ascii("Basic ") + token) + trail)
  }

  lemma HeaderText()
    ensures HEADER == Ascii("Proxy-Authorization:") && BASIC == Ascii("Basic ")
  {
  }

  // --------------------------------------------------------- which line it is

  lemma LowerIsLowerCase(b: Byte)
    ensures Lower(b) as char == Lexical.LowerChar(b as char)
  {
  }

  lemma HeaderLowers()
    ensures Lexical.LowerCase(Lexical.Chars(HEADER)) == "proxy-authorization:"
  {
  }

  /** A line names the header exactly when it starts with it in lower case. */
  lemma NamesHeaderExactly(line: seq<Byte>)
    ensures NamesHeader(line) <==> "proxy-authorization:" <= Lexical.LowerCase(Lexical.Chars(line))
  {
    HeaderLowers();
    hide Lower, Lexical.LowerChar;
    var low, name := Lexical.LowerCase(Lexical.Chars(line)), Lexical.LowerCase(Lexical.Chars(HEADER));
    hide HEADER;
    forall i | 0 <= i < |HEADER| && i < |line|
      ensures Lower(line[i]) == Lower(HEADER[i]) <==> low[i] == name[i]
    {
      LowerIsLowerCase(line[i]);
      LowerIsLowerCase(HEADER[i]);
    }
  }

  /** The first line that names the header is line `i`. */
  ghost predicate FirstNamed(lines: seq<seq<Byte>>, i: int) {
    0 <= i < |lines| && NamesHeader(lines[i]) && forall j :: 0 <= j < i ==> !NamesHeader(lines[j])
  }

  lemma {:induction false} FindExactly(lines: seq<seq<Byte>>)
    ensures forall i :: FirstNamed(lines, i) ==> FindIn(lines) == Some(Trim(StripHeader(lines[i])))
    ensures FindIn(lines).Some? ==> exists i :: FirstNamed(lines, i)
  {
    hide NamesHeader, Trim, StripHeader;
    if lines != [] && !NamesHeader(lines[0]) {
      FindExactly(lines[1..]);
      forall i | FirstNamed(lines, i) ensures FirstNamed(lines[1..], i - 1) {
        forall j | 0 <= j < i - 1 ensures !NamesHeader(lines[1..][j]) {
          assert lines[1..][j] == lines[j + 1];
        }
      }
      if FindIn(lines).Some? {
        var i :| FirstNamed(lines[1..], i);
        NamedLater(lines, i);
      }
    } else if lines != [] {
      assert FirstNamed(lines, 0) && forall i :: FirstNamed(lines, i) ==> i == 0;
    }
  }

  lemma NamedLater(lines: seq<seq<Byte>>, i: int)
    requires lines != [] && !NamesHeader(lines[0]) && FirstNamed(lines[1..], i)
    ensures FirstNamed(lines, i + 1)
  {
    hide NamesHeader;
    forall j | 0 <= j < i + 1 ensures !NamesHeader(lines[j]) {
      assert j > 0 ==> lines[1..][j - 1] == lines[j];
    }
  }

  function Times(s: seq<Byte>, k: nat): seq<Byte> {
    if k == 0 then [] else s + Times(s, k - 1)
  }

  /** `trim_start_matches` removes the name as often as it stands there. */
  lemma {:induction false} StripExactly(s: seq<Byte>) returns (k: nat)
    ensures s == Times(HEADER, k) + StripHeader(s) && !(HEADER <= StripHeader(s))
    decreases |s|
  {
    k := 0;
    if HEADER <= s {
      var n := StripExactly(s[|HEADER|..]);
      k := n + 1;
      hide HEADER;
      assert s == HEADER + s[|HEADER|..];
      Associate(HEADER, Times(HEADER, n), StripHeader(s));
    }
  }

  /**
   A request is admitted exactly when the first line that names the header, without the name and trimmed, is `Basic`
   and a token that decodes to the configured pair, and the configured user has no colon.
   */
  lemma AdmitsExactly(text: seq<Byte>, cfg: Config, lib: Library)
    requires WellFormed(cfg)
    ensures Admits(text, cfg, lib)
       <==> exists i, token :: FirstNamed(Lines(text), i)
              && Trim(StripHeader(Lines(text)[i])) == Ascii("Basic ") + token && Decodes(token, cfg, lib)
  {
    hide FindIn, Lines, Trim, StripHeader, NamesHeader, Ascii, ValidBasic, Decodes;
    HeaderText();
    FindExactly(Lines(text));
    forall i, token | FirstNamed(Lines(text), i) && Trim(StripHeader(Lines(text)[i])) == Ascii("Basic ") + token
      ensures Admits(text, cfg, lib) <==> Decodes(token, cfg, lib)
    {
      TokenDecides(token, cfg, lib);
    }
    if Admits(text, cfg, lib) {
      var i :| FirstNamed(Lines(text), i);
      var value := Trim(StripHeader(Lines(text)[i]));
      var token := value[|BASIC|..];
      assert value == BASIC + token;
      TokenDecides(token, cfg, lib);
      assert FirstNamed(Lines(text), i) && value == Ascii("Basic ") + token && Decodes(token, cfg, lib);
    }
  }

  /** The token is the base64 form of `user:pass`, and the user has no colon. */
  ghost predicate Decodes(token: seq<Byte>, cfg: Config, lib: Library) {
    && cfg.username.Some? && cfg.password.Some? && COLON !in cfg.username.value
    && lib.base64(token) == Some(cfg.username.value + [COLON] + cfg.password.value)
  }

  lemma TokenDecides(token: seq<Byte>, cfg: Config, lib: Library)
    requires WellFormed(cfg)
    ensures ValidHeader(BASIC + token, cfg, lib) <==> Decodes(token, cfg, lib)
  {
    hide ValidBasic, Utf8.Valid;
    SplitAt(BASIC, token);
    if lib.base64(token).Some? {
      BasicAccepted(lib.base64(token).value, cfg);
    }
  }

  // ------------------------------------------------------ one line of a request

  /** How a line may end: by a newline, by carriage return and newline, or with the text. */
  predicate LineEnd(eol: seq<Byte>, after: seq<Byte>) {
    eol == [NEWLINE] || eol == [CR, NEWLINE] || (eol == [] && after == [])
  }

  lemma StripOnce(value: seq<Byte>)
    requires value != [] && value[0] != HEADER[0]
    ensures StripHeader(HEADER + value) == value
  {
    SplitAt(HEADER, value);
  }

  lemma {:induction false} SkipBlank(pad: seq<Byte>, t: seq<Byte>)
    requires Blank(pad) && WhiteLength(t) == 0
    ensures SkipWhite(pad + t) == t
    decreases |pad|
  {
    if pad == [] {
      assert pad + t == t;
    } else {
      hide SkipWhite;
      SkipBlank(pad[1..], t);
      assert (pad + t)[1..] == pad[1..] + t;
      SkipFirst(pad + t);
    }
  }

  lemma SkipFirst(s: seq<Byte>)
    requires s != [] && (s[0] == SPACE || s[0] == 0x09)
    ensures SkipWhite(s) == SkipWhite(s[1..])
  {
  }

  lemma {:induction false} TrimBlank(t: seq<Byte>, trail: seq<Byte>)
    requires t != [] && SPACE < t[|t| - 1] < 0x80 && Blank(trail)
    ensures TrimEnd(t + trail) == t
    decreases |trail|
  {
    hide TrailingWhite;
    if trail == [] {
      assert t + trail == t;
      PlainEnd(t);
    } else {
      var n := |trail| - 1;
      TrimBlank(t, trail[..n]);
      var s := t + trail;
      assert s[..|s| - 1] == t + trail[..n];
      BlankEnd(s);
    }
  }

  lemma BlankEnd(s: seq<Byte>)
    requires s != [] && (s[|s| - 1] == SPACE || s[|s| - 1] == 0x09)
    ensures TrailingWhite(s) == 1
  {
    assert s[|s| - 1..][0] == s[|s| - 1];
  }

  lemma HeaderValue(pad: seq<Byte>, token: seq<Byte>, trail: seq<Byte>)
    requires Blank(pad) && Token(token) && Blank(trail)
    ensures Trim(StripHeader(HeaderLine(pad, token, trail))) == BASIC + token
  {
    hide StripHeader, SkipWhite, TrimEnd, Ascii;
    HeaderText();
    var t := BASIC + token;
    var value := pad + t + trail;
    assert value[0] != HEADER[0];
    StripOnce(value);
    Associate(pad, t, trail);
    assert (t + trail)[0] == 0x42;
    PlainStart(t + trail);
    SkipBlank(pad, t + trail);
    assert t[|t| - 1] == token[|token| - 1];
    TrimBlank(t, trail);
  }

  lemma HeaderLinePlain(pad: seq<Byte>, token: seq<Byte>, trail: seq<Byte>)
    requires Blank(pad) && Token(token) && Blank(trail)
    ensures var line := HeaderLine(pad, token, trail);
      line != [] && NamesHeader(line) && NEWLINE !in line && line[|line| - 1] != CR
  {
    hide Ascii;
    HeaderText();
    var line := HeaderLine(pad, token, trail);
    var last := if trail == [] then token[|token| - 1] else trail[|trail| - 1];
    assert line[|line| - 1] == last;
    forall i | 0 <= i < |line| ensures line[i] != NEWLINE {
    }
  }

  /** `lines`: a line ends at a newline, at a carriage return and newline, or with the text, and loses that end. */
  lemma LineEnds(line: seq<Byte>, eol: seq<Byte>, after: seq<Byte>)
    requires NEWLINE !in line && (line != [] ==> line[|line| - 1] != CR)
    requires LineEnd(eol, after) && (eol == [] ==> line != [])
    ensures Lines(line + (eol + after)) == [line] + Lines(after)
  {
    if eol == [CR, NEWLINE] {
      assert line + (eol + after) == line + [CR] + [NEWLINE] + after;
      LineSplits(line, after);
    } else if eol == [NEWLINE] {
      Associate(line, [NEWLINE], after);
      LinesCons(line, after);
    } else {
      assert line + (eol + after) == line;
    }
  }

  /** The header `Proxy-Authorization: Basic token` is found behind any lines that do not name it. */
  lemma HeaderFound(before: seq<Byte>, pad: seq<Byte>, token: seq<Byte>, trail: seq<Byte>, eol: seq<Byte>,
                    after: seq<Byte>)
    requires before == [] || before[|before| - 1] == NEWLINE
    requires forall i :: 0 <= i < |Lines(before)| ==> !NamesHeader(Lines(before)[i])
    requires Blank(pad) && Token(token) && Blank(trail) && LineEnd(eol, after)
    ensures FindHeader(before + (HeaderLine(pad, token, trail) + (eol + after))) == Some(BASIC + token)
  {
    hide Lines, Trim, StripHeader, HeaderLine, NamesHeader, Blank, Token, LineEnd;
    var line := HeaderLine(pad, token, trail);
    HeaderLinePlain(pad, token, trail);
    LinesAppend(before, line + (eol + after));
    LineEnds(line, eol, after);
    FindSkips(Lines(before), [line] + Lines(after));
    HeaderValue(pad, token, trail);
  }

  lemma LineSplits(line: seq<Byte>, after: seq<Byte>)
    requires NEWLINE !in line
    ensures Lines(line + [CR] + [NEWLINE] + after) == [line] + Lines(after)
  {
    LinesCons(line + [CR], after);
    assert StripReturn(line + [CR]) == line;
  }

  /**
   The lookup ignores case but the removal of the name does not: a first matching line in any other
   spelling is never admitted, whatever the configuration and the credentials in it.
   */
  lemma {:induction false} OtherSpellingRefused(lines: seq<seq<Byte>>, i: nat, cfg: Config, lib: Library)
    requires i < |lines| && NamesHeader(lines[i]) && !(HEADER <= lines[i])
    requires forall j :: 0 <= j < i ==> !NamesHeader(lines[j])
    ensures FindIn(lines).Some? && !ValidHeader(FindIn(lines).value, cfg, lib)
  {
    if i > 0 {
      OtherSpellingRefused(lines[1..], i - 1, cfg, lib);
    } else {
      var line := lines[0];
      assert Lower(line[0]) == Lower(HEADER[0]);
      assert WhiteLength(line) == 0;
      TrimEndKeepsFirst(line);
    }
  }

  lemma OtherSpellingNotAdmitted(text: seq<Byte>, i: nat, cfg: Config, lib: Library)
    requires i < |Lines(text)| && NamesHeader(Lines(text)[i]) && !(HEADER <= Lines(text)[i])
    requires forall j :: 0 <= j < i ==> !NamesHeader(Lines(text)[j])
    ensures !Admits(text, cfg, lib)
  {
    hide NamesHeader;
    OtherSpellingRefused(Lines(text), i, cfg, lib);
  }

  /** With the exact spelling, and any blanks and line end around the value, HTTP admits exactly the configured pair. */
  lemma HeaderAdmits(before: seq<Byte>, pad: seq<Byte>, token: seq<Byte>, trail: seq<Byte>, eol: seq<Byte>,
                     after: seq<Byte>, cfg: Config, lib: Library)
    requires WellFormed(cfg)
    requires before == [] || before[|before| - 1] == NEWLINE
    requires forall i :: 0 <= i < |Lines(before)| ==> !NamesHeader(Lines(before)[i])
    requires Blank(pad) && Token(token) && Blank(trail) && LineEnd(eol, after)
    ensures Admits(before + (HeaderLine(pad, token, trail) + (eol + after)), cfg, lib)
       <==> Decodes(token, cfg, lib)
  {
    hide FindHeader, HeaderLine, Lines, NamesHeader, ValidHeader, Utf8.Valid, Decodes;
    HeaderFound(before, pad, token, trail, eol, after);
    TokenDecides(token, cfg, lib);
  }

  method AuthenticateHttp(stream: ClientStream, cfg: Config, lib: Library, visible: nat) returns (v: Verdict)
    requires stream.Valid()
    modifies stream`output, stream`room
    ensures stream.Valid() && (v, stream.View()) == HttpAuth(old(stream.View()), cfg, lib, visible)
  {
    hide AuthRequired;
    var seen := stream.Peek(PEEK_LIMIT, visible);
    if |seen| == 0 { return Refused; }
    var header := FindHeader(lib.lossy(seen));
    if header.Some? && ValidHeader(header.value, cfg, lib) { return Accepted; }
    var _ := stream.WriteAll(AuthRequired());
    v := Refused;
  }
}
