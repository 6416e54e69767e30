/**
 Dispatch agrees with parsing: which requests reach which parser, and what an environment that shows too
 few bytes does to them.  Stated for a plain stream without credentials.
 */
module Dispatch {
  import opened Bytes
  import opened Wire
  import opened Protocol
  import opened Session
  import Auth
  import Text
  import Utf8
  import Lexical
  import Socks4
  import Socks5
  import Framed
  import Http
  import Sni

  // ---------------------------------------------------------- what is peeked

  lemma FirstByte(c: Conn, visible: nat)
    ensures PeekBuffer(c, visible)[0] == if c.rest != [] then c.rest[0] else 0
  {
  }

  lemma FourBytes(c: Conn, visible: nat)
    requires visible >= 4 && |c.rest| >= 4
    ensures PeekBuffer(c, visible) == c.rest[..4]
  {
  }

  lemma LastByte(c: Conn, visible: nat)
    requires visible < 4 || |c.rest| < 4
    ensures PeekBuffer(c, visible)[3] == 0
  {
  }

  lemma VerbEnds(b: seq<Byte>)
    requires HttpVerb(b)
    ensures |b| == 4 && b[0] >= 0x43 && b[0] != 0x16 && b[3] != 0
  {
  }

  /** At least `n` bytes were visible; a peek that returned shows one if any are to come. */
  predicate Sees(peek: Peek, n: nat) {
    peek.Saw? && (n <= 1 || peek.visible >= n)
  }

  /** The four characters by which a request of a recognised verb starts. */
  predicate VerbStart(s: string) {
    s in {"GET ", "POST", "PUT ", "HEAD", "DELE", "CONN"}
  }

  lemma VerbText(b: seq<Byte>)
    requires |b| == 4
    ensures HttpVerb(b) <==> VerbStart(Lexical.Chars(b))
  {
    var s := Lexical.Chars(b);
    assert s == [s[0], s[1], s[2], s[3]] && b == [b[0], b[1], b[2], b[3]];
  }

  /**
   Detection on every input: HTTP exactly when the peek returned, at least four bytes were visible and the first four
   start a verb; otherwise the first byte decides, and a peek that saw nothing gives TCP.
   */
  lemma DetectedExactly(c: Conn, peek: Peek)
    ensures Detected(c, peek) ==
      if Sees(peek, 4) && |c.rest| >= 4 && VerbStart(Lexical.Chars(c.rest[..4])) then HTTP
      else if !peek.Saw? || c.rest == [] then TCP
      else if c.rest[0] == 0x16 then HTTPS
      else if c.rest[0] == 0x05 then SOCKS5
      else if c.rest[0] == 0x04 then SOCKS4
      else TCP
  {
    hide PeekBuffer, HttpVerb, VerbStart, Lexical.Chars;
    if |c.rest| >= 4 {
      VerbText(c.rest[..4]);
    }
    if peek.Saw? {
      FirstByte(c, peek.visible);
      if peek.visible >= 4 && |c.rest| >= 4 {
        FourBytes(c, peek.visible);
      } else {
        LastByte(c, peek.visible);
        if HttpVerb(PeekBuffer(c, peek.visible)) {
          VerbEnds(PeekBuffer(c, peek.visible));
        }
      }
    }
  }

  /** For first bytes below every verb, one visible byte decides. */
  lemma DetectedByFirstByte(c: Conn, peek: Peek)
    requires c.rest != [] && c.rest[0] < 0x43
    ensures Detected(c, peek) ==
      if !Sees(peek, 1) then TCP
      else if c.rest[0] == 0x16 then HTTPS
      else if c.rest[0] == 0x05 then SOCKS5
      else if c.rest[0] == 0x04 then SOCKS4
      else TCP
  {
    hide Detected, HttpVerb, VerbStart, Lexical.Chars;
    DetectedExactly(c, peek);
    if |c.rest| >= 4 {
      VerbText(c.rest[..4]);
      if HttpVerb(c.rest[..4]) {
        VerbEnds(c.rest[..4]);
      }
    }
  }

  /** HTTP verbs need all four bytes; with fewer the client counts as TCP. */
  lemma DetectedHttp(c: Conn, peek: Peek)
    requires |c.rest| >= 4 && HttpVerb(c.rest[..4])
    ensures Detected(c, peek) == if Sees(peek, 4) then HTTP else TCP
  {
    hide Detected, HttpVerb, VerbStart, Lexical.Chars;
    DetectedExactly(c, peek);
    VerbText(c.rest[..4]);
    VerbEnds(c.rest[..4]);
  }

  // ------------------------------------------------------ opened connections

  /** Without credentials and TLS, the handler is the parser of the second detection and one reply. */
  lemma WithoutCredentials(c: Conn, cfg: Auth.Config, lib: Auth.Library, ch: Choices)
    requires !cfg.requireCreds && !ch.firstPeek.PeekFailed? && !Detected(c, ch.firstPeek).HTTPS?
    ensures HandleClient(c, cfg, lib, ch) == Conclude(Handle(c, ch))
  {
  }

  /** A parsed target, dialled, is answered with the success reply and becomes a tunnel. */
  lemma ParsedOpens(c: Conn, cfg: Auth.Config, lib: Auth.Library, ch: Choices, p: Protocol, t: Target, c1: Conn)
    requires !cfg.requireCreds && !ch.firstPeek.PeekFailed? && !Detected(c, ch.firstPeek).HTTPS?
    requires Detected(c, ch.secondPeek) == p && ParseTarget(c, p, ch) == (Ok(t), c1)
    requires ch.dial.Connected? && |SuccessReply(p)| <= c1.room
    ensures HandleClient(c, cfg, lib, ch)
         == Opened(Conn(c1.rest, c1.output + SuccessReply(p), c1.room - |SuccessReply(p)|), p, t)
  {
    hide Detected, ParseTarget, SuccessReply;
    WithoutCredentials(c, cfg, lib, ch);
    SendFits(c1, SuccessReply(p));
  }

  lemma Socks5Opens(methods: seq<Byte>, reserved: Byte, addr: Socks5.Address, port: U16, payload: seq<Byte>,
                    c: Conn, cfg: Auth.Config, lib: Auth.Library, ch: Choices)
    requires !cfg.requireCreds && !ch.firstPeek.PeekFailed? && Sees(ch.secondPeek, 1) && ch.dial.Connected?
    requires |methods| <= 255 && Socks5.Encodable(addr) && c.room >= 12
    requires c.rest == Socks5.Encode(methods, reserved, addr, port) + payload
    ensures HandleClient(c, cfg, lib, ch)
         == Opened(Conn(payload, c.output + [0x05, 0x00]
                                 + [0x05, 0x00, 0x00, 0x01, 0x00, 0x00, 0x00, 0x00, 0x00, 0x00], c.room - 12),
                   SOCKS5, Socks5.TargetOf(addr, port))
  {
    hide Socks5.Encode, Socks5.Greeting, Socks5.Request, Socks5.Parse, HandleClient, Detected, Socks5.TargetOf,
         Socks5.Encodable;
    Socks5.FirstByte(methods, Socks5.Request(reserved, addr, port) + payload);
    Socks5.GreetingFirst(methods, reserved, addr, port, payload);
    DetectedByFirstByte(c, ch.firstPeek);
    DetectedByFirstByte(c, ch.secondPeek);
    Socks5.RoundTrip(methods, reserved, addr, port, payload, c);
    ParsedOpens(c, cfg, lib, ch, SOCKS5, Socks5.TargetOf(addr, port),
                Conn(payload, c.output + Socks5.METHOD_REPLY, c.room - 2));
  }

  lemma Socks4Opens(r: Socks4.Request, payload: seq<Byte>, c: Conn, cfg: Auth.Config, lib: Auth.Library, ch: Choices)
    requires !cfg.requireCreds && !ch.firstPeek.PeekFailed? && Sees(ch.secondPeek, 1) && ch.dial.Connected?
    requires Socks4.Encodable(r) && c.room >= 8
    requires c.rest == Socks4.Encode(0x01, r) + payload
    ensures HandleClient(c, cfg, lib, ch)
         == Opened(Conn(payload, c.output + [0x00, 0x5A, 0x00, 0x00, 0x00, 0x00, 0x00, 0x00], c.room - 8),
                   SOCKS4, Socks4.TargetOf(r))
  {
    hide Socks4.Encode, Socks4.Parse, HandleClient, Detected, Socks4.TargetOf;
    Socks4.FirstByte(0x01, r, payload);
    DetectedByFirstByte(c, ch.firstPeek);
    DetectedByFirstByte(c, ch.secondPeek);
    Socks4.RoundTrip(r, payload, c);
    ParsedOpens(c, cfg, lib, ch, SOCKS4, Socks4.TargetOf(r), c.(rest := payload));
  }

  // ----------------------------------------------------------------------- TLS

  /**
   A TLS client is upgraded when its first byte was visible at the first peek; when it became visible only at the
   second, it is tunnelled on the plain stream to the server its hello names, hello included.
   */
  lemma TlsClient(c: Conn, cfg: Auth.Config, lib: Auth.Library, ch: Choices)
    requires c.rest != [] && c.rest[0] == 0x16 && !ch.firstPeek.PeekFailed?
    ensures Sees(ch.firstPeek, 1) ==> HandleClient(c, cfg, lib, ch) == TlsUpgrade(c)
    ensures !Sees(ch.firstPeek, 1) && Sees(ch.secondPeek, 1) && !cfg.requireCreds && ch.dial.Connected? ==>
      HandleClient(c, cfg, lib, ch) == Opened(c, HTTPS, TlsTarget(Sni.Sni(Peeked(c, 512, ch.sniVisible))))
  {
    hide Detected, Sni.Sni, HandleClient, Text.Ascii, Peeked;
    UnknownHostText();
    DetectedByFirstByte(c, ch.firstPeek);
    DetectedByFirstByte(c, ch.secondPeek);
    if Sees(ch.firstPeek, 1) {
      Upgraded(c, cfg, lib, ch);
    } else if Sees(ch.secondPeek, 1) && !cfg.requireCreds && ch.dial.Connected? {
      ParsedOpens(c, cfg, lib, ch, HTTPS, Sni.Parse(c, ch.sniVisible).0.value, c);
      assert c.output + [] == c.output;
    }
  }

  /** The named server, or a fixed name for want of one, on port 443. */
  function TlsTarget(sni: Option<seq<Byte>>): Target {
    Target(Name(match sni case Some(name) => name case None => Text.Ascii("unknown.host")), 443)
  }

  lemma UnknownHostText()
    ensures Sni.UNKNOWN_HOST == Text.Ascii("unknown.host")
  {
  }

  lemma Upgraded(c: Conn, cfg: Auth.Config, lib: Auth.Library, ch: Choices)
    requires !ch.firstPeek.PeekFailed? && Detected(c, ch.firstPeek) == HTTPS
    ensures HandleClient(c, cfg, lib, ch) == TlsUpgrade(c)
  {
    hide Detected, Handle, Authenticate;
  }

  // ------------------------------------------------------------ framed targets

  lemma FrameFirstByte(body: seq<Byte>, payload: seq<Byte>, c: Conn)
    requires 1 <= |body| <= Framed.MAX_LENGTH && c.rest == Framed.Frame(body) + payload
    ensures c.rest != [] && c.rest[0] == |body| / 256
    ensures |body| == Framed.MAX_LENGTH <==> c.rest[0] == 0x04
    ensures c.rest[0] <= 0x04
  {
    assert c.rest[0] == BE16(|body|)[0];
  }

  /** Frames of 1 to 1023 bytes reach `parse_target` whatever has arrived, and round-trip. */
  lemma FramedOpens(host: seq<Byte>, port: U16, payload: seq<Byte>, c: Conn,
                    cfg: Auth.Config, lib: Auth.Library, ch: Choices)
    requires !cfg.requireCreds && !ch.firstPeek.PeekFailed? && ch.dial.Connected? && ch.giveUp.None?
    requires Utf8.Valid(host) && Text.COLON !in host
    requires |Text.HostPort(host, port)| < 1024
    requires c.rest == Framed.Frame(Text.HostPort(host, port)) + payload
    ensures HandleClient(c, cfg, lib, ch) == Opened(c.(rest := payload), TCP, Target(Name(host), port))
  {
    FrameFirstByte(Text.HostPort(host, port), payload, c);
    hide Framed.Frame, Framed.Parse, Text.HostPort;
    DetectedByFirstByte(c, ch.firstPeek);
    DetectedByFirstByte(c, ch.secondPeek);
    Framed.RoundTrip(host, port, payload, c);
    ParsedOpens(c, cfg, lib, ch, TCP, Target(Name(host), port), c.(rest := payload));
    assert c.output + [] == c.output;
  }

  /** When the five seconds run out, a framed client is dropped without an answer, whatever it sent. */
  lemma FrameTimesOut(c: Conn, ch: Choices)
    requires Detected(c, ch.secondPeek) == TCP && ch.giveUp.Some?
    ensures Conclude(Handle(c, ch)).Ended? && Conclude(Handle(c, ch)).c.output == c.output
  {
    hide Detected;
    assert c.output + [] == c.output;
  }

  lemma MaxFrameIsNotSocks4(body: seq<Byte>, payload: seq<Byte>, c: Conn)
    requires |body| == Framed.MAX_LENGTH && c.rest == Framed.Frame(body) + payload
    ensures Socks4.Parse(c).0 == Err(OnlyConnect)
    ensures Socks4.Parse(c).1.output == c.output && Socks4.Parse(c).1.room == c.room
  {
    assert BE16(|body|) == [0x04, 0x00];
    assert c.rest[..8][0] == 0x04 && c.rest[..8][1] == 0x00;
  }

  /** A frame of 1024 bytes, which `parse_target` accepts, is a rejected SOCKS4 request once a byte is visible... */
  lemma MaxFrameSeen(host: seq<Byte>, port: U16, payload: seq<Byte>, c: Conn,
                     cfg: Auth.Config, lib: Auth.Library, ch: Choices)
    requires !cfg.requireCreds && !ch.firstPeek.PeekFailed? && Sees(ch.secondPeek, 1) && c.room >= 8
    requires |Text.HostPort(host, port)| == 1024
    requires c.rest == Framed.Frame(Text.HostPort(host, port)) + payload
    ensures HandleClient(c, cfg, lib, ch).Ended?
    ensures HandleClient(c, cfg, lib, ch).c.output == c.output + [0x00, 0x5B, 0x00, 0x00, 0x00, 0x00, 0x00, 0x00]
  {
    hide Framed.Frame, Socks4.Parse, Text.HostPort, Detected, HandleClient;
    var body := Text.HostPort(host, port);
    FrameFirstByte(body, payload, c);
    DetectedByFirstByte(c, ch.firstPeek);
    DetectedByFirstByte(c, ch.secondPeek);
    MaxFrameIsNotSocks4(body, payload, c);
    WithoutCredentials(c, cfg, lib, ch);
    SendFits(Socks4.Parse(c).1, SOCKS4_FAIL);
  }

  /** ...and opens exactly in the remaining case, when the second peek saw none. */
  lemma MaxFrameUnseen(host: seq<Byte>, port: U16, payload: seq<Byte>, c: Conn,
                       cfg: Auth.Config, lib: Auth.Library, ch: Choices)
    requires !cfg.requireCreds && !ch.firstPeek.PeekFailed? && !Sees(ch.secondPeek, 1)
    requires ch.dial.Connected? && ch.giveUp.None?
    requires Utf8.Valid(host) && Text.COLON !in host
    requires |Text.HostPort(host, port)| == 1024
    requires c.rest == Framed.Frame(Text.HostPort(host, port)) + payload
    ensures HandleClient(c, cfg, lib, ch) == Opened(c.(rest := payload), TCP, Target(Name(host), port))
  {
    hide Framed.Frame, Framed.Parse, Text.HostPort, Detected, HandleClient, Utf8.Valid;
    FrameFirstByte(Text.HostPort(host, port), payload, c);
    DetectedByFirstByte(c, ch.firstPeek);
    DetectedByFirstByte(c, ch.secondPeek);
    Framed.RoundTrip(host, port, payload, c);
    ParsedOpens(c, cfg, lib, ch, TCP, Target(Name(host), port), c.(rest := payload));
    assert c.output + [] == c.output;
  }

  // ---------------------------------------------------------------------- HTTP

  /** An HTTP request taken for a frame has an impossible length, so it is dropped without an answer. */
  lemma HttpIsNotFrame(c: Conn)
    requires |c.rest| >= 4 && HttpVerb(c.rest[..4])
    ensures Framed.Parse(c).0 == Err(InvalidLength)
    ensures Framed.Parse(c).1.output == c.output
  {
    assert c.rest[0] == c.rest[..4][0];
    assert c.rest[..2][0] == c.rest[0];
  }

  predicate Verb(verb: seq<Byte>) {
    || verb == Text.Ascii("GET")
    || verb == Text.Ascii("POST")
    || verb == Text.Ascii("PUT")
    || verb == Text.Ascii("HEAD")
    || verb == Text.Ascii("DELETE")
    || verb == Text.Ascii("CONNECT")
  }

  lemma VerbIsWord(verb: seq<Byte>)
    requires Verb(verb)
    ensures Http.Word(verb)
  {
    Text.PlainHasNoWhite(verb);
    Utf8.PlainIsValid(verb);
  }

  lemma VerbFront(verb: seq<Byte>)
    requires Verb(verb)
    ensures |verb| >= 3 && HttpVerb((verb + [Text.SPACE])[..4])
  {
    var front := (verb + [Text.SPACE])[..4];
    assert front == [front[0], front[1], front[2], front[3]];
  }

  lemma VerbIsSeen(verb: seq<Byte>, more: seq<Byte>, c: Conn)
    requires Verb(verb) && c.rest == verb + [Text.SPACE] + more
    ensures |c.rest| >= 4 && HttpVerb(c.rest[..4])
  {
    hide Verb, HttpVerb;
    VerbFront(verb);
    assert c.rest[..4] == (verb + [Text.SPACE])[..4];
  }

  /** The target a request line of a recognised verb asks for. */
  function Asked(verb: seq<Byte>, url: seq<Byte>): Result<Target, Fault> {
    if verb == Text.Ascii("CONNECT") then Http.ParseConnectTarget(url) else Http.ParseHttpTarget(url)
  }

  /**
   A well-formed request of a recognised verb opens exactly when four bytes were visible at the second peek;
   the target is the one its URL names, and the tunnel starts at or behind the end of the request line.
   */
  lemma HttpOpens(verb: seq<Byte>, url: seq<Byte>, tail: seq<Byte>, more: seq<Byte>,
                  c: Conn, cfg: Auth.Config, lib: Auth.Library, ch: Choices)
    requires !cfg.requireCreds && !ch.firstPeek.PeekFailed? && ch.dial.Connected? && c.room >= 19
    requires Verb(verb) && Http.Word(url) && Utf8.Valid(tail) && Text.NEWLINE !in tail && Asked(verb, url).Ok?
    requires c.rest == Http.RequestLine(verb, url, tail) + more
    ensures HandleClient(c, cfg, lib, ch).Opened? <==> Sees(ch.secondPeek, 4)
    ensures Sees(ch.secondPeek, 4) ==>
      HandleClient(c, cfg, lib, ch)
      == Opened(Conn(more[Min(ch.ahead, |more|)..], c.output + Text.Ascii("HTTP/1.1 200 OK\r\n\r\n"), c.room - 19),
                HTTP, Asked(verb, url).value)
    ensures !Sees(ch.secondPeek, 4) ==> HandleClient(c, cfg, lib, ch).c.output == c.output
  {
    if Sees(ch.secondPeek, 4) {
      HttpSeen(verb, url, tail, more, c, cfg, lib, ch);
    } else {
      HttpUnseen(verb, url, tail, more, c, cfg, lib, ch);
    }
    hide *;
  }

  /**
   A CONNECT tunnel starts behind the request line, not behind the header section (section 9.3.6 of RFC 9110): the
   target receives the payload alone exactly when the dropped reader had taken precisely the headers.
   */
  lemma ConnectTunnelStart(url: seq<Byte>, tail: seq<Byte>, headers: seq<Byte>, payload: seq<Byte>,
                           c: Conn, cfg: Auth.Config, lib: Auth.Library, ch: Choices)
    requires !cfg.requireCreds && !ch.firstPeek.PeekFailed? && Sees(ch.secondPeek, 4) && ch.dial.Connected?
    requires c.room >= 19
    requires Http.Word(url) && Utf8.Valid(tail) && Text.NEWLINE !in tail && Http.ParseConnectTarget(url).Ok?
    requires c.rest == Http.RequestLine(Http.CONNECT, url, tail) + (headers + payload)
    ensures HandleClient(c, cfg, lib, ch).Opened?
    ensures HandleClient(c, cfg, lib, ch).c.rest == payload
       <==> Min(ch.ahead, |headers + payload|) == |headers|
    ensures ch.ahead == 0 ==> HandleClient(c, cfg, lib, ch).c.rest == headers + payload
  {
    hide HandleClient, Http.ParseConnectTarget, Http.RequestLine, Http.Word, Utf8.Valid, HTTP_OK, Text.Ascii;
    Http.ConnectText();
    var more := headers + payload;
    HttpSeen(Http.CONNECT, url, tail, more, c, cfg, lib, ch);
    SplitAt(headers, payload);
  }

  lemma LineIsSeen(verb: seq<Byte>, url: seq<Byte>, tail: seq<Byte>, more: seq<Byte>, c: Conn)
    requires Verb(verb) && c.rest == Http.RequestLine(verb, url, tail) + more
    ensures |c.rest| >= 4 && HttpVerb(c.rest[..4])
  {
    hide Verb, HttpVerb;
    var back := url + [Text.SPACE] + tail + [Text.NEWLINE] + more;
    assert c.rest == verb + [Text.SPACE] + back;
    VerbIsSeen(verb, back, c);
  }

  lemma HttpSeen(verb: seq<Byte>, url: seq<Byte>, tail: seq<Byte>, more: seq<Byte>,
                 c: Conn, cfg: Auth.Config, lib: Auth.Library, ch: Choices)
    requires !cfg.requireCreds && !ch.firstPeek.PeekFailed? && ch.dial.Connected? && Sees(ch.secondPeek, 4)
    requires c.room >= 19
    requires Verb(verb) && Http.Word(url) && Utf8.Valid(tail) && Text.NEWLINE !in tail && Asked(verb, url).Ok?
    requires c.rest == Http.RequestLine(verb, url, tail) + more
    ensures HandleClient(c, cfg, lib, ch)
      == Opened(Conn(more[Min(ch.ahead, |more|)..], c.output + Text.Ascii("HTTP/1.1 200 OK\r\n\r\n"), c.room - 19),
                HTTP, Asked(verb, url).value)
  {
    HttpOkText();
    hide Detected, HTTP_OK, HttpVerb, Verb, Http.Parse, Asked, HandleClient, Text.Ascii;
    LineIsSeen(verb, url, tail, more, c);
    DetectedHttp(c, ch.firstPeek);
    DetectedHttp(c, ch.secondPeek);
    HttpParsed(verb, url, tail, more, c, ch.ahead);
    ParsedOpens(c, cfg, lib, ch, HTTP, Asked(verb, url).value, c.(rest := more[Min(ch.ahead, |more|)..]));
  }

  lemma HttpOkText()
    ensures HTTP_OK == Text.Ascii("HTTP/1.1 200 OK\r\n\r\n") && |HTTP_OK| == 19
  {
  }

  lemma HttpUnseen(verb: seq<Byte>, url: seq<Byte>, tail: seq<Byte>, more: seq<Byte>,
                   c: Conn, cfg: Auth.Config, lib: Auth.Library, ch: Choices)
    requires !cfg.requireCreds && !ch.firstPeek.PeekFailed? && !Sees(ch.secondPeek, 4)
    requires Verb(verb) && c.rest == Http.RequestLine(verb, url, tail) + more
    ensures HandleClient(c, cfg, lib, ch).Ended? && HandleClient(c, cfg, lib, ch).c.output == c.output
  {
    hide Detected, HttpVerb, Verb, Http.RequestLine, Framed.Parse, HandleClient;
    LineIsSeen(verb, url, tail, more, c);
    DetectedHttp(c, ch.firstPeek);
    DetectedHttp(c, ch.secondPeek);
    HttpIsNotFrame(c);
    WithoutCredentials(c, cfg, lib, ch);
    assert c.output + [] == c.output;
  }

  lemma HttpParsed(verb: seq<Byte>, url: seq<Byte>, tail: seq<Byte>, more: seq<Byte>, c: Conn, ahead: nat)
    requires Verb(verb) && Http.Word(url) && Utf8.Valid(tail) && Text.NEWLINE !in tail
    requires c.rest == Http.RequestLine(verb, url, tail) + more
    ensures Http.Parse(c, ahead) == (Asked(verb, url), c.(rest := more[Min(ahead, |more|)..]))
  {
    hide Http.LineOf, Http.ParseLine, Http.RequestLine, Verb, Http.Word, Utf8.Valid, Http.ParseConnectTarget,
         Http.ParseHttpTarget;
    VerbIsWord(verb);
    Http.LineTarget(verb, url, tail, more, c, ahead);
    DropPast(Http.RequestLine(verb, url, tail), more, Min(ahead, |more|));
  }

  /** CONNECT requests for any colon-free host, and absolute-form requests, ask for what they encode. */
  lemma AskedRoundTrip(host: seq<Byte>, port: U16, verb: seq<Byte>, optional: Option<U16>, path: seq<Byte>)
    requires Text.COLON !in host && Text.SLASH !in host && verb != Text.Ascii("CONNECT")
    requires path != [] ==> path[0] == Text.SLASH
    ensures Asked(Text.Ascii("CONNECT"), Text.HostPort(host, port)) == Ok(Target(Name(host), port))
    ensures Asked(verb, Http.AbsoluteForm(host, optional, path))
         == Ok(Target(Name(host), if optional.Some? then optional.value else 80))
  {
    hide Text.Ascii, Http.AbsoluteForm, Http.ParseHttpTarget, Http.ParseConnectTarget, Text.HostPort;
    Http.ConnectRoundTrip(host, port);
    Http.AbsoluteRoundTrip(host, optional, path);
  }
}
