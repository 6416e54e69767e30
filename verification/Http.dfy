/** HTTP proxy requests: the request line, CONNECT targets and absolute-form URLs. */
module Http {
  import opened Bytes
  import opened Wire
  import opened Protocol
  import opened Text
  import Utf8
  import Lexical

  /** "CONNECT" */
  const CONNECT: seq<Byte> := [0x43, 0x4F, 0x4E, 0x4E, 0x45, 0x43, 0x54]
  /** "http://" */
  const SCHEME: seq<Byte> := [0x68, 0x74, 0x74, 0x70, 0x3A, 0x2F, 0x2F]
  const DEFAULT_PORT: U16 := 80
  /** Capacity of the buffered reader. */
  const BUFFER: nat := 8192

  // ---------------------------------------------------------- specification

  /** What `read_line` returns: up to and including the first newline, or everything. */
  function LineOf(s: seq<Byte>): (line: seq<Byte>)
    ensures line <= s
  {
    if NEWLINE in s then s[..IndexOf(s, NEWLINE) + 1] else s
  }

  function ParseConnectTarget(url: seq<Byte>): Result<Target, Fault> {
    var parts := Split(url, COLON);
    if |parts| != 2 then Err(InvalidConnectTarget)
    else match ParseU16(parts[1])
      case None => Err(InvalidPort)
      case Some(port) => Ok(Target(Name(parts[0]), port))
  }

  /** `parse::<u16>().unwrap_or(80)`. */
  function PortOrDefault(piece: seq<Byte>): U16 {
    match ParseU16(piece)
    case Some(p) => p
    case None => DEFAULT_PORT
  }

  function ParseHttpTarget(url: seq<Byte>): Result<Target, Fault> {
    if SCHEME <= url then
      var parts := Split(Split(url[7..], SLASH)[0], COLON);
      Ok(Target(Name(parts[0]), if |parts| > 1 then PortOrDefault(parts[1]) else DEFAULT_PORT))
    else Err(InvalidUrl)
  }

  function ParseLine(line: seq<Byte>): Result<Target, Fault> {
    if !Utf8.Valid(line) then Err(ReadFailed)
    else
      var parts := Fields(line);
      if |parts| < 2 then Err(InvalidHttpRequest)
      else if parts[0] == CONNECT then ParseConnectTarget(parts[1])
      else ParseHttpTarget(parts[1])
  }

  /** `ahead` bytes behind the line were taken into the buffered reader, which is then dropped. */
  function Parse(c: Conn, ahead: nat): Parsed {
    var line := LineOf(c.rest);
    (ParseLine(line), c.(rest := c.rest[Min(|line| + ahead, |c.rest|)..]))
  }

  // --------------------------------------------------------------- theorems

  lemma LineOfAppend(a: seq<Byte>, b: seq<Byte>)
    requires NEWLINE !in a
    ensures LineOf(a + [NEWLINE] + b) == a + [NEWLINE]
  {
    var s := a + [NEWLINE] + b;
    IndexOfAppend(a, b, NEWLINE);
    assert s[|a|] == NEWLINE;
    assert s[..|a| + 1] == a + [NEWLINE];
  }

  lemma LineOfWhole(s: seq<Byte>)
    requires NEWLINE !in s
    ensures LineOf(s) == s
  {
  }

  /** A CONNECT target is accepted exactly when it is `host:digits` with one colon. */
  lemma ConnectAccepted(url: seq<Byte>, host: seq<Byte>, port: U16)
    ensures ParseConnectTarget(url) == Ok(Target(Name(host), port))
       <==> exists digits :: url == host + [COLON] + digits && COLON !in host && COLON !in digits
                             && ParseU16(digits) == Some(port)
  {
    var parts := Split(url, COLON);
    JoinSplit(url, COLON);
    if |parts| == 2 {
      assert Join(parts, COLON) == parts[0] + [COLON] + parts[1];
    }
    forall digits | url == host + [COLON] + digits && COLON !in host && COLON !in digits
      ensures parts == [host, digits]
    {
      SplitFirst(host, digits, COLON);
    }
  }

  /** Which fault a refused CONNECT target has: its number of colons or its port. */
  lemma ConnectFault(url: seq<Byte>)
    ensures ParseConnectTarget(url).Err? ==>
      ParseConnectTarget(url).error == if multiset(url)[COLON] != 1 then InvalidConnectTarget else InvalidPort
    ensures ParseConnectTarget(url).Ok? ==> multiset(url)[COLON] == 1
  {
    hide ParseU16;
    SplitCount(url, COLON);
  }

  lemma ConnectRoundTrip(host: seq<Byte>, port: U16)
    requires COLON !in host
    ensures ParseConnectTarget(HostPort(host, port)) == Ok(Target(Name(host), port))
  {
    SplitHostPort(host, port);
    ParseDecimal(port);
  }

  /** `http://host[:port]path`, where `path` is empty or starts with a slash. */
  function AbsoluteForm(host: seq<Byte>, port: Option<U16>, path: seq<Byte>): seq<Byte> {
    Ascii("http://") + Authority(host, port) + path
  }

  function Authority(host: seq<Byte>, port: Option<U16>): seq<Byte> {
    if port.Some? then HostPort(host, port.value) else host
  }

  lemma AbsoluteRoundTrip(host: seq<Byte>, port: Option<U16>, path: seq<Byte>)
    requires COLON !in host && SLASH !in host
    requires path != [] ==> path[0] == SLASH
    ensures ParseHttpTarget(AbsoluteForm(host, port, path))
         == Ok(Target(Name(host), if port.Some? then port.value else 80))
  {
    hide Authority, ParseU16, Split, Ascii;
    SchemeText();
    var url := AbsoluteForm(host, port, path);
    var auth := Authority(host, port);
    Associate(SCHEME, auth, path);
    SplitAt(SCHEME, auth + path);
    AuthorityParts(host, port);
    AuthorityEnds(auth, path);
  }

  lemma SchemeText()
    ensures SCHEME == Ascii("http://")
  {
  }

  lemma AuthorityEnds(auth: seq<Byte>, path: seq<Byte>)
    requires SLASH !in auth && (path != [] ==> path[0] == SLASH)
    ensures Split(auth + path, SLASH)[0] == auth
  {
    if path == [] {
      assert auth + path == auth;
    } else {
      assert path == [SLASH] + path[1..];
      Associate(auth, [SLASH], path[1..]);
      SplitFirst(auth, path[1..], SLASH);
    }
  }

  lemma AuthorityParts(host: seq<Byte>, port: Option<U16>)
    requires COLON !in host && SLASH !in host
    ensures SLASH !in Authority(host, port)
    ensures Split(Authority(host, port), COLON) == if port.Some? then [host, Decimal(port.value)] else [host]
    ensures port.Some? ==> ParseU16(Decimal(port.value)) == port
  {
    hide Decimal, Split, ParseU16;
    if port.Some? {
      DecimalIsPlain(port.value);
      SplitHostPort(host, port.value);
      ParseDecimal(port.value);
    } else {
      assert Split(host, COLON) == [host] by { SplitWhole(host, COLON); }
    }
  }

  /** `tail` is empty or starts with `sep`. */
  predicate StopsAt(tail: seq<Byte>, sep: Byte) {
    tail != [] ==> tail[0] == sep
  }

  /**
   The URL names host and port: the authority ends at the first slash, the host at its first colon, and the port is
   what stands between the first colon and the second, if there is one.
   */
  ghost predicate Names(url: seq<Byte>, host: seq<Byte>, port: U16) {
    exists authority, path ::
      && url == Ascii("http://") + (authority + path) && SLASH !in authority && StopsAt(path, SLASH)
      && NamesIn(authority, host, port)
  }

  ghost predicate NamesIn(authority: seq<Byte>, host: seq<Byte>, port: U16) {
    && COLON !in host
    && ((authority == host && port == 80)
        || exists piece, more ::
             authority == host + [COLON] + (piece + more) && COLON !in piece && StopsAt(more, COLON)
             && (ParseU16(piece) == Some(port) || (ParseU16(piece).None? && port == 80)))
  }

  lemma FirstPiece(s: seq<Byte>, sep: Byte)
    ensures sep !in Split(s, sep)[0] && Split(s, sep)[0] <= s
    ensures StopsAt(s[|Split(s, sep)[0]|..], sep)
    ensures |Split(s, sep)| > 1 ==>
      var n := |Split(s, sep)[0]|; n < |s| && s[n] == sep && Split(s, sep)[1..] == Split(s[n + 1..], sep)
    ensures |Split(s, sep)| == 1 ==> Split(s, sep)[0] == s
  {
  }

  lemma FirstPieceOf(a: seq<Byte>, tail: seq<Byte>, sep: Byte)
    requires sep !in a && StopsAt(tail, sep)
    ensures Split(a + tail, sep)[0] == a
    ensures tail == [] ==> Split(a + tail, sep) == [a]
    ensures tail != [] ==> Split(a + tail, sep) == [a] + Split(tail[1..], sep)
  {
    if tail == [] {
      assert a + tail == a;
    } else {
      assert tail == [sep] + tail[1..];
      Associate(a, [sep], tail[1..]);
      SplitFirst(a, tail[1..], sep);
    }
  }

  /** An authority names exactly the host and port the pieces between its colons give. */
  lemma AuthorityNames(authority: seq<Byte>, host: seq<Byte>, port: U16)
    ensures NamesIn(authority, host, port)
       <==> var parts := Split(authority, COLON);
            host == parts[0] && port == if |parts| > 1 then PortOrDefault(parts[1]) else DEFAULT_PORT
  {
    hide PortOrDefault, Split, NamesIn;
    PiecesAreNamed(authority);
    if NamesIn(authority, host, port) {
      NamedPieces(authority, host, port);
    }
  }

  lemma PiecesAreNamed(authority: seq<Byte>)
    ensures var parts := Split(authority, COLON);
      NamesIn(authority, parts[0], if |parts| > 1 then PortOrDefault(parts[1]) else DEFAULT_PORT)
  {
    hide ParseU16, Split, StopsAt, NamesIn;
    var parts := Split(authority, COLON);
    FirstPiece(authority, COLON);
    if |parts| > 1 {
      var n := |parts[0]|;
      var back := authority[n + 1..];
      FirstPiece(back, COLON);
      var piece := Split(back, COLON)[0];
      assert parts[1] == parts[1..][0] == piece;
      var more := back[|piece|..];
      assert back == piece + more;
      assert authority == parts[0] + [COLON] + back;
      PieceIsNamed(parts[0], piece, more);
    } else {
      HostIsNamed(authority);
    }
  }

  lemma PieceIsNamed(host: seq<Byte>, piece: seq<Byte>, more: seq<Byte>)
    requires COLON !in host && COLON !in piece && StopsAt(more, COLON)
    ensures NamesIn(host + [COLON] + (piece + more), host, PortOrDefault(piece))
  {
    hide ParseU16, StopsAt;
  }

  lemma HostIsNamed(host: seq<Byte>)
    requires COLON !in host
    ensures NamesIn(host, host, DEFAULT_PORT)
  {
  }

  lemma NamedPieces(authority: seq<Byte>, host: seq<Byte>, port: U16)
    requires NamesIn(authority, host, port)
    ensures var parts := Split(authority, COLON);
      host == parts[0] && port == if |parts| > 1 then PortOrDefault(parts[1]) else DEFAULT_PORT
  {
    hide ParseU16, Split;
    if authority == host && port == 80 {
      SplitWhole(host, COLON);
    } else {
      var piece, more :| authority == host + [COLON] + (piece + more) && COLON !in piece && StopsAt(more, COLON)
                         && (ParseU16(piece) == Some(port) || (ParseU16(piece).None? && port == 80));
      SplitFirst(host, piece + more, COLON);
      FirstPieceOf(piece, more, COLON);
    }
  }

  /**
   For every URL: it is refused exactly when it does not start with "http://", and otherwise the target is the host
   and port it names.
   */
  lemma HttpTargetExact(url: seq<Byte>, host: seq<Byte>, port: U16)
    ensures ParseHttpTarget(url) == Ok(Target(Name(host), port)) <==> Names(url, host, port)
    ensures ParseHttpTarget(url).Err? <==> !(Ascii("http://") <= url)
    ensures ParseHttpTarget(url).Err? ==> ParseHttpTarget(url).error == InvalidUrl
  {
    hide PortOrDefault, Split, NamesIn, Ascii;
    SchemeText();
    if SCHEME <= url {
      var rest := url[7..];
      assert url == SCHEME + rest;
      FirstPiece(rest, SLASH);
      var authority := Split(rest, SLASH)[0];
      var path := rest[|authority|..];
      assert rest == authority + path;
      AuthorityNames(authority, host, port);
    }
    if authority, path :| url == Ascii("http://") + (authority + path) && SLASH !in authority && StopsAt(path, SLASH)
                          && NamesIn(authority, host, port) {
      SplitAt(SCHEME, authority + path);
      FirstPieceOf(authority, path, SLASH);
      AuthorityNames(authority, host, port);
    }
  }

  const AT: Byte := 0x40

  /** A URL with user information dials the user, on port 80: the host behind the at sign is never looked at. */
  lemma UserInfoIsDialled(user: seq<Byte>, pass: seq<Byte>, host: seq<Byte>, path: seq<Byte>)
    requires COLON !in user && SLASH !in user && COLON !in pass && SLASH !in pass && COLON !in host && SLASH !in host
    requires StopsAt(path, SLASH)
    ensures ParseHttpTarget(Ascii("http://") + (user + [COLON] + (pass + [AT] + host) + path))
         == Ok(Target(Name(user), 80))
  {
    hide Split, Ascii;
    var piece := pass + [AT] + host;
    var authority := user + [COLON] + piece;
    var url := Ascii("http://") + (authority + path);
    NotANumber(pass, host);
    assert piece + [] == piece;
    assert NamesIn(authority, user, 80);
    assert Names(url, user, 80);
    HttpTargetExact(url, user, 80);
  }

  lemma NotANumber(pass: seq<Byte>, host: seq<Byte>)
    ensures ParseU16(pass + [AT] + host) == None
  {
    var s := pass + [AT] + host;
    assert s[|pass|] == AT;
    if s[0] == PLUS {
      assert |pass| >= 1 && s[1..][|pass| - 1] == AT;
    }
  }

  /** A request line `verb SP url SP tail LF`, with anything behind it. */
  function RequestLine(verb: seq<Byte>, url: seq<Byte>, tail: seq<Byte>): seq<Byte> {
    verb + [SPACE] + url + [SPACE] + tail + [NEWLINE]
  }

  predicate Word(s: seq<Byte>) {
    s != [] && NoWhite(s) && Utf8.Valid(s)
  }

  lemma WordHasNoNewline(s: seq<Byte>)
    requires NoWhite(s)
    ensures NEWLINE !in s
  {
    forall i | 0 <= i < |s| ensures s[i] != NEWLINE {
      assert WhiteLength(s[i..]) == 0;
      assert s[i..][0] == s[i];
    }
  }

  lemma LineIsValid(verb: seq<Byte>, url: seq<Byte>, tail: seq<Byte>)
    requires Utf8.Valid(verb) && Utf8.Valid(url) && Utf8.Valid(tail)
    ensures Utf8.Valid(RequestLine(verb, url, tail))
  {
    Utf8.PlainIsValid([SPACE]);
    Utf8.PlainIsValid([NEWLINE]);
    Utf8.AppendIsValid(verb, [SPACE]);
    Utf8.AppendIsValid(verb + [SPACE], url);
    Utf8.AppendIsValid(verb + [SPACE] + url, [SPACE]);
    Utf8.AppendIsValid(verb + [SPACE] + url + [SPACE], tail);
    Utf8.AppendIsValid(verb + [SPACE] + url + [SPACE] + tail, [NEWLINE]);
  }

  /** The target of a request comes from the second word of its first line, whatever follows. */
  lemma LineTarget(verb: seq<Byte>, url: seq<Byte>, tail: seq<Byte>, more: seq<Byte>, c: Conn, ahead: nat)
    requires Word(verb) && Word(url) && Utf8.Valid(tail) && NEWLINE !in tail
    requires c.rest == RequestLine(verb, url, tail) + more
    ensures LineOf(c.rest) == RequestLine(verb, url, tail)
    ensures Parse(c, ahead).0 == if verb == Ascii("CONNECT") then ParseConnectTarget(url) else ParseHttpTarget(url)
  {
    hide ParseConnectTarget, ParseHttpTarget, Ascii;
    ConnectText();
    var front := verb + [SPACE] + url + [SPACE] + tail;
    WordHasNoNewline(verb);
    WordHasNoNewline(url);
    LineOfAppend(front, more);
    LineIsValid(verb, url, tail);
    FirstTwoFields(verb, url, tail + [NEWLINE]);
    assert verb + [SPACE] + url + [SPACE] + (tail + [NEWLINE]) == RequestLine(verb, url, tail);
    var parts := Fields(RequestLine(verb, url, tail));
    assert parts[0] == parts[..2][0] && parts[1] == parts[..2][1];
  }

  /** The line starts with the words `verb` and `url`, with any white space in front of and between them. */
  ghost predicate Requests(line: seq<Byte>, verb: seq<Byte>, url: seq<Byte>) {
    exists gap, space, tail ::
      && Lexical.Gap(gap) && Lexical.Gap(space) && space != [] && Lexical.Ends(tail)
      && Lexical.IsWord(verb) && Lexical.IsWord(url) && line == gap + (verb + (space + (url + tail)))
  }

  lemma RequestFields(line: seq<Byte>, verb: seq<Byte>, url: seq<Byte>)
    requires Requests(line, verb, url)
    ensures |Fields(line)| >= 2 && Fields(line)[0] == verb && Fields(line)[1] == url
  {
    hide Fields, Lexical.IsWord;
    var gap, space, tail :|
      && Lexical.Gap(gap) && Lexical.Gap(space) && space != [] && Lexical.Ends(tail)
      && Lexical.IsWord(verb) && Lexical.IsWord(url) && line == gap + (verb + (space + (url + tail)));
    Lexical.WhiteIsLocal(space, url + tail);
    hide WhiteLength;
    Lexical.FieldsStep(gap, verb, space + (url + tail));
    Lexical.FieldsStep(space, url, tail);
  }

  lemma NoRequestFields(line: seq<Byte>) returns (verb: seq<Byte>, url: seq<Byte>)
    ensures Requests(line, verb, url) || |Fields(line)| < 2
  {
    hide Fields, WhiteLength, Lexical.IsWord, Lexical.Gap;
    verb, url := [], [];
    if Lexical.Gap(line) {
      Lexical.FieldsEnd(line);
    } else {
      var gap, first, t := Lexical.NextWord(line);
      Lexical.FieldsStep(gap, first, t);
      if Lexical.Gap(t) {
        Lexical.FieldsEnd(t);
      } else {
        var space, second, tail := Lexical.NextWord(t);
        verb, url := first, second;
        WordAfterGap(t, space, second, tail);
      }
    }
  }

  lemma WordAfterGap(t: seq<Byte>, space: seq<Byte>, word: seq<Byte>, tail: seq<Byte>)
    requires Lexical.Ends(t) && Lexical.IsWord(word) && Lexical.Ends(tail) && t == space + (word + tail)
    ensures space != []
  {
    assert word[0..] == word;
    Lexical.WhiteIsLocal(word, tail);
    hide WhiteLength;
    assert space == [] ==> t == word + tail;
  }

  /** What a request line comes to, for every line: by its first two words, or the fault. */
  lemma LineExactly(line: seq<Byte>, verb: seq<Byte>, url: seq<Byte>)
    ensures !Utf8.Valid(line) ==> ParseLine(line) == Err(ReadFailed)
    ensures Utf8.Valid(line) && Requests(line, verb, url) ==>
      ParseLine(line) == if verb == Ascii("CONNECT") then ParseConnectTarget(url) else ParseHttpTarget(url)
    ensures Utf8.Valid(line) && (forall v, u :: !Requests(line, v, u)) ==> ParseLine(line) == Err(InvalidHttpRequest)
  {
    hide Utf8.Valid, Fields, Requests, ParseConnectTarget, ParseHttpTarget, Ascii;
    ConnectText();
    if Requests(line, verb, url) {
      RequestFields(line, verb, url);
    }
    var v, u := NoRequestFields(line);
  }

  lemma ConnectText()
    ensures CONNECT == Ascii("CONNECT")
  {
  }

  // --------------------------------------------------------- implementation

  /** The newline is at `i` of the chunk just read, behind the newline-free `line`. */
  lemma LineFound(line: seq<Byte>, chunk: seq<Byte>, rest: seq<Byte>, i: nat)
    requires NEWLINE !in line && i < |chunk| && chunk[i] == NEWLINE && NEWLINE !in chunk[..i]
    ensures LineOf(line + (chunk + rest)) == line + chunk[..i] + [NEWLINE]
    ensures (line + (chunk + rest))[|line| + |chunk|..] == rest
  {
    LineOfAppend(line + chunk[..i], chunk[i + 1..] + rest);
    assert chunk == chunk[..i] + [NEWLINE] + chunk[i + 1..];
    assert line + (chunk + rest) == line + chunk[..i] + [NEWLINE] + (chunk[i + 1..] + rest);
  }

  /** `BufReader::read_line`, refilling its buffer with whatever has arrived. */
  method ReadLine(stream: ClientStream) returns (line: seq<Byte>, ghost ahead: nat)
    requires stream.Valid()
    modifies stream`pos
    ensures stream.Valid() && ahead < 8192
    ensures line == LineOf(old(stream.View().rest))
    ensures |line| + ahead <= |old(stream.View().rest)|
    ensures stream.View().rest == old(stream.View().rest)[|line| + ahead..]
  {
    hide LineOf, IndexOf;
    ghost var start := stream.View().rest;
    line := [];
    while true
      invariant stream.Valid() && NEWLINE !in line
      invariant start == line + stream.View().rest
      decreases |stream.input| - stream.pos
    {
      var chunk := stream.Read(BUFFER);
      ghost var rest := stream.View().rest;
      assert start == line + (chunk + rest);
      if chunk == [] {
        ahead := 0;
        assert start == line;
        LineOfWhole(start);
        return;
      }
      if NEWLINE in chunk {
        var i := IndexOf(chunk, NEWLINE);
        LineFound(line, chunk, rest, i);
        line := line + chunk[..i] + [NEWLINE];
        ahead := |chunk| - i - 1;
        return;
      }
      Associate(line, chunk, rest);
      line := line + chunk;
    }
  }

  method ParseTarget(stream: ClientStream) returns (r: Result<Target, Fault>, ghost ahead: nat)
    requires stream.Valid()
    modifies stream
    ensures stream.Valid() && ahead < BUFFER
    ensures (r, stream.View()) == Parse(old(stream.View()), ahead)
  {
    var line: seq<Byte>;
    line, ahead := ReadLine(stream);
    r := ParseLine(line);
  }
}
