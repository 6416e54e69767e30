/**
 Conservation from the client's first byte to the target's last, and what authentication does to the
 bytes the target parser sees afterwards.
 */
module EndToEnd {
  import opened Bytes
  import opened Wire
  import opened Protocol
  import opened Session
  import opened Auth
  import HttpAuth
  import Socks4
  import Socks5
  import Framed
  import Http
  import Sni
  import Text
  import Utf8
  import Relay
  import Dispatch
  import Transcript

  // ----------------------------------------------------------------- handshakes

  /** `h` is a complete handshake of the protocol, asking for `t`. */
  ghost predicate IsHandshake(p: Protocol, h: seq<Byte>, t: Target) {
    match p
    case SOCKS5 =>
      exists methods, reserved, addr, port ::
        |methods| <= 255 && Socks5.Encodable(addr)
        && h == Socks5.Encode(methods, reserved, addr, port) && t == Socks5.TargetOf(addr, port)
    case SOCKS4 =>
      exists r :: Socks4.Encodable(r) && h == Socks4.Encode(0x01, r) && t == Socks4.TargetOf(r)
    case TCP =>
      exists body :: 1 <= |body| <= Framed.MAX_LENGTH && h == Framed.Frame(body) && Framed.ParseBody(body) == Ok(t)
    case _ => false
  }

  predicate Delimited(p: Protocol) {
    p.SOCKS4? || p.SOCKS5? || p.TCP?
  }

  /** Three parsers without the environment's choices. */
  function ParseDelimited(p: Protocol, c: Conn): Parsed
    requires Delimited(p)
  {
    match p
    case SOCKS5 => Socks5.Parse(c)
    case SOCKS4 => Socks4.Parse(c)
    case TCP => Framed.Parse(c)
  }

  /** Behind a handshake, the parser returns its target and leaves exactly the payload. */
  lemma HandshakeParses(p: Protocol, h: seq<Byte>, t: Target, payload: seq<Byte>, c: Conn)
    requires IsHandshake(p, h, t) && c.rest == h + payload && c.room >= 2
    ensures Delimited(p)
    ensures ParseDelimited(p, c).0 == Ok(t) && ParseDelimited(p, c).1.rest == payload
  {
    match p {
      case SOCKS5 =>
        var methods, reserved, addr, port :|
          |methods| <= 255 && Socks5.Encodable(addr)
          && h == Socks5.Encode(methods, reserved, addr, port) && t == Socks5.TargetOf(addr, port);
        hide Socks5.Parse, Socks5.Encode;
        Socks5.RoundTrip(methods, reserved, addr, port, payload, c);
      case SOCKS4 =>
        var r :| Socks4.Encodable(r) && h == Socks4.Encode(0x01, r) && t == Socks4.TargetOf(r);
        hide Socks4.Parse, Socks4.Encode;
        Socks4.RoundTrip(r, payload, c);
      case TCP =>
        var body :|
          1 <= |body| <= Framed.MAX_LENGTH && h == Framed.Frame(body) && Framed.ParseBody(body) == Ok(t);
        hide Framed.Parse, Framed.Frame, Framed.ParseBody;
        Framed.FrameRoundTrip(body, payload, c);
    }
  }

  /** What a parser accepts is a handshake followed by what it leaves. */
  lemma ParsedIsHandshake(p: Protocol, c: Conn) returns (h: seq<Byte>)
    requires Delimited(p) && ParseDelimited(p, c).0.Ok?
    ensures IsHandshake(p, h, ParseDelimited(p, c).0.value)
    ensures c.rest == h + ParseDelimited(p, c).1.rest
  {
    match p {
      case SOCKS5 =>
        hide Socks5.Parse, Socks5.Encode;
        var methods, reserved, addr, port := Socks5.AcceptedIsEncoding(c);
        h := Socks5.Encode(methods, reserved, addr, port);
      case SOCKS4 =>
        hide Socks4.Parse, Socks4.Encode;
        var r := Socks4.AcceptedIsEncoding(c);
        h := Socks4.Encode(0x01, r);
      case TCP =>
        hide Framed.Parse, Framed.Frame, Framed.ParseBody;
        var body := Framed.AcceptedIsFrame(c);
        h := Framed.Frame(body);
    }
  }

  /** A byte sequence splits into a handshake and a payload in at most one way. */
  lemma SplitIsUnique(p: Protocol, h: seq<Byte>, t: Target, payload: seq<Byte>,
                      h': seq<Byte>, t': Target, payload': seq<Byte>)
    ensures IsHandshake(p, h, t) && IsHandshake(p, h', t') && h + payload == h' + payload'
            ==> h == h' && t == t' && payload == payload'
  {
    hide IsHandshake, ParseDelimited;
    if IsHandshake(p, h, t) && IsHandshake(p, h', t') && h + payload == h' + payload' {
      var c := Conn(h + payload, [], 2);
      HandshakeParses(p, h, t, payload, c);
      HandshakeParses(p, h', t', payload', c);
      assert h == c.rest[..|c.rest| - |payload|] && h' == c.rest[..|c.rest| - |payload'|];
    }
  }

  // --------------------------------------------------------------- conservation

  /** An opened connection parsed its target from the second detection and left the parser's rest. */
  lemma OpenedParsed(c: Conn, ch: Choices)
    requires Conclude(Handle(c, ch)).Opened?
    ensures var s := Conclude(Handle(c, ch)); var r := ParseTarget(c, s.protocol, ch);
      s.protocol == Detected(c, ch.secondPeek) && r.0 == Ok(s.target) && s.c.rest == r.1.rest
  {
    hide ParseTarget, Detected, SuccessReply, ErrorReply;
  }

  lemma OpenedHandled(c: Conn, cfg: Config, lib: Library, ch: Choices)
    requires !cfg.requireCreds && HandleClient(c, cfg, lib, ch).Opened?
    ensures HandleClient(c, cfg, lib, ch) == Conclude(Handle(c, ch))
  {
    hide Handle, Detected, Authenticate, Conclude;
  }

  /**
   SOCKS4, SOCKS5 and framed clients without credentials: the client's bytes are one handshake, asking for the
   dialled target, and a payload, in exactly one way; at every step of the tunnel the target has received a
   prefix of the payload, and all of it when the tunnel finishes.
   */
  lemma Conservation(input: seq<Byte>, room: nat, cfg: Config, lib: Library, ch: Choices, s: Stage,
                     fromTarget: seq<Byte>, steps: seq<Relay.Step>)
    returns (handshake: seq<Byte>, payload: seq<Byte>)
    requires !cfg.requireCreds && s == HandleClient(Conn(input, [], room), cfg, lib, ch)
    requires s.Opened? && Delimited(s.protocol)
    requires Relay.Schedule(Relay.Open(s.c.rest, fromTarget), steps)
    ensures input == handshake + payload && IsHandshake(s.protocol, handshake, s.target)
    ensures forall h, q, u :: IsHandshake(s.protocol, h, u) && input == h + q
                              ==> h == handshake && q == payload && u == s.target
    ensures var t := Relay.Run(Relay.Open(s.c.rest, fromTarget), steps);
      t.toTarget.sink <= payload && (Relay.Outcome(t).Finished? ==> t.toTarget.sink == payload)
  {
    hide HandleClient, Handle, IsHandshake, Relay.Schedule, Relay.Run, Conclude;
    var c := Conn(input, [], room);
    OpenedHandled(c, cfg, lib, ch);
    handshake := OpenedHandshake(c, ch);
    payload := s.c.rest;
    Relay.EverySchedule(payload, fromTarget, steps);
    forall h, q, u | IsHandshake(s.protocol, h, u) && input == h + q
      ensures h == handshake && q == payload && u == s.target
    {
      SplitIsUnique(s.protocol, h, u, q, handshake, s.target, payload);
    }
  }

  lemma OpenedHandshake(c: Conn, ch: Choices) returns (h: seq<Byte>)
    requires Conclude(Handle(c, ch)).Opened? && Delimited(Conclude(Handle(c, ch)).protocol)
    ensures var s := Conclude(Handle(c, ch)); IsHandshake(s.protocol, h, s.target) && c.rest == h + s.c.rest
  {
    hide Handle, Conclude, IsHandshake, Socks5.Parse, Socks4.Parse, Framed.Parse, Recv;
    OpenedParsed(c, ch);
    var p := Conclude(Handle(c, ch)).protocol;
    assert ParseDelimited(p, c) == ParseTarget(c, p, ch);
    h := ParsedIsHandshake(p, c);
  }

  /**
   HTTP clients: what the target receives is a suffix of the client's bytes that starts at or behind the end of
   the request line, by as much as the dropped reader had taken ahead.  TLS clients on a plain stream lose nothing.
   */
  lemma UndelimitedConservation(input: seq<Byte>, room: nat, cfg: Config, lib: Library, ch: Choices, s: Stage,
                                fromTarget: seq<Byte>, steps: seq<Relay.Step>)
    returns (start: nat)
    requires !cfg.requireCreds && s == HandleClient(Conn(input, [], room), cfg, lib, ch)
    requires s.Opened? && !Delimited(s.protocol)
    requires Relay.Schedule(Relay.Open(s.c.rest, fromTarget), steps)
    ensures start <= |input|
    ensures s.protocol.HTTP? ==> |Http.LineOf(input)| <= start <= |Http.LineOf(input)| + ch.ahead
    ensures s.protocol.HTTPS? ==> start == 0
    ensures var t := Relay.Run(Relay.Open(s.c.rest, fromTarget), steps);
      t.toTarget.sink <= input[start..] && (Relay.Outcome(t).Finished? ==> t.toTarget.sink == input[start..])
  {
    hide HandleClient, Handle, Relay.Schedule, Relay.Run, Conclude, Http.ParseLine, Sni.Sni, Peeked, Http.LineOf;
    var c := Conn(input, [], room);
    OpenedHandled(c, cfg, lib, ch);
    OpenedParsed(c, ch);
    start := if s.protocol.HTTP? then Min(|Http.LineOf(input)| + ch.ahead, |input|) else 0;
    assert s.c.rest == input[start..];
    Relay.EverySchedule(s.c.rest, fromTarget, steps);
  }

  // ----------------------------------------------- authentication, then parsing

  /** With credentials, an accepted client is handled on the bytes authentication left. */
  lemma AcceptedThenHandled(c: Conn, cfg: Config, lib: Library, ch: Choices)
    requires cfg.requireCreds && !ch.firstPeek.PeekFailed? && !Detected(c, ch.firstPeek).HTTPS?
    requires Authenticate(c, Detected(c, ch.firstPeek), cfg, lib, ch.authVisible).0 == Accepted
    ensures HandleClient(c, cfg, lib, ch)
         == Conclude(Handle(Authenticate(c, Detected(c, ch.firstPeek), cfg, lib, ch.authVisible).1, ch))
  {
    hide Handle, Detected, Authenticate, Conclude;
  }

  /** HTTP authentication reads nothing: an accepted client ends exactly as it would without credentials. */
  lemma HttpAuthIsTransparent(c: Conn, cfg: Config, lib: Library, ch: Choices)
    requires cfg.requireCreds && !ch.firstPeek.PeekFailed? && Detected(c, ch.firstPeek) == HTTP
    requires HttpAuth.HttpAuth(c, cfg, lib, ch.authVisible).0 == Accepted
    ensures HandleClient(c, cfg, lib, ch) == HandleClient(c, cfg.(requireCreds := false), lib, ch)
  {
    hide Handle, Detected, Conclude, HttpAuth.Admits, HttpAuth.AuthRequired, Socks4Auth, Socks5Auth;
    AcceptedThenHandled(c, cfg, lib, ch);
  }

  /** An HTTP client that is not admitted is answered 407 and nothing of it is read. */
  lemma HttpAuthRefusal(c: Conn, cfg: Config, lib: Library, ch: Choices)
    requires cfg.requireCreds && !ch.firstPeek.PeekFailed? && Detected(c, ch.firstPeek) == HTTP
    requires c.rest != [] && c.room >= |HttpAuth.AuthRequired()|
    requires !HttpAuth.Admits(lib.lossy(Peeked(c, HttpAuth.PEEK_LIMIT, ch.authVisible)), cfg, lib)
    ensures HandleClient(c, cfg, lib, ch)
         == Ended(Conn(c.rest, c.output + HttpAuth.AuthRequired(), c.room - |HttpAuth.AuthRequired()|))
  {
    hide Handle, Detected, Conclude, HttpAuth.Admits, HttpAuth.AuthRequired, Socks4Auth, Socks5Auth;
    SendFits(c, HttpAuth.AuthRequired());
  }

  /** In particular every request whose first matching header line is spelled in any other case. */
  lemma OtherSpellingAnswered407(c: Conn, cfg: Config, lib: Library, ch: Choices, i: nat)
    requires cfg.requireCreds && !ch.firstPeek.PeekFailed? && Detected(c, ch.firstPeek) == HTTP
    requires c.rest != [] && c.room >= |Transcript.Challenge()|
    requires var lines := Text.Lines(lib.lossy(Peeked(c, 4096, ch.authVisible)));
      && i < |lines| && HttpAuth.NamesHeader(lines[i]) && !(HttpAuth.HEADER <= lines[i])
      && forall j :: 0 <= j < i ==> !HttpAuth.NamesHeader(lines[j])
    ensures HandleClient(c, cfg, lib, ch)
         == Ended(Conn(c.rest, c.output + Transcript.Challenge(), c.room - |Transcript.Challenge()|))
  {
    hide HandleClient, Detected, HttpAuth.Admits, HttpAuth.AuthRequired, Transcript.Challenge, Text.Lines;
    Transcript.ChallengeIsSent();
    HttpAuth.OtherSpellingNotAdmitted(lib.lossy(Peeked(c, HttpAuth.PEEK_LIMIT, ch.authVisible)), i, cfg, lib);
    HttpAuthRefusal(c, cfg, lib, ch);
  }

  /**
   An admitted client opens exactly when the bytes authentication left start with a complete handshake of the
   protocol detected in them.  That protocol need not be the authenticated one: it is detected again.
   */
  lemma AdmittedOpens(c: Conn, c1: Conn, cfg: Config, lib: Library, ch: Choices)
    requires Admit(c, cfg, lib, ch) == Admitted(c1)
    requires Delimited(Detected(c1, ch.secondPeek)) && ch.dial.Connected? && ch.giveUp.None? && c1.room >= 12
    ensures HandleClient(c, cfg, lib, ch).Opened?
       <==> exists h, t, payload :: IsHandshake(Detected(c1, ch.secondPeek), h, t) && c1.rest == h + payload
  {
    hide Admit, Handle, Conclude, IsHandshake, Detected;
    var p := Detected(c1, ch.secondPeek);
    if Conclude(Handle(c1, ch)).Opened? {
      OpenedParsed(c1, ch);
      var h := OpenedHandshake(c1, ch);
      assert c1.rest == h + Conclude(Handle(c1, ch)).c.rest;
    }
    if h, t, payload :| IsHandshake(p, h, t) && c1.rest == h + payload {
      HandshakeOpens(p, h, t, payload, c1, ch);
    }
  }

  lemma HandshakeOpens(p: Protocol, h: seq<Byte>, t: Target, payload: seq<Byte>, c: Conn, ch: Choices)
    requires p == Detected(c, ch.secondPeek) && IsHandshake(p, h, t) && c.rest == h + payload
    requires ch.dial.Connected? && ch.giveUp.None? && c.room >= 12
    ensures Conclude(Handle(c, ch)).Opened?
  {
    hide Detected, IsHandshake, Socks5.Parse, Socks4.Parse, Framed.Parse;
    HandshakeParses(p, h, t, payload, c);
    var w := Transcript.ParseWrites(c, p, ch);
  }

  /** The input is a greeting that offers passwords, the configured pair, and `rest`. */
  ghost predicate AuthenticatesSocks5(input: seq<Byte>, cfg: Config, methods: seq<Byte>, rest: seq<Byte>) {
    && cfg.username.Some? && |cfg.username.value| <= 255 && cfg.password.Some? && |cfg.password.value| <= 255
    && |methods| <= 255 && 0x02 in methods
    && input == Socks5.Greeting(methods) + (Credentials(cfg.username.value, cfg.password.value) + rest)
  }

  /**
   The input is a request, of any command, with the configured user id, and `rest`; a user id that is no text passes for
   the empty one.
   */
  ghost predicate AuthenticatesSocks4(input: seq<Byte>, cfg: Config, command: Byte, r: Socks4.Request, rest: seq<Byte>)
  {
    && Socks4.Encodable(r) && input == Socks4.Encode(command, r) + rest
    && (cfg.username == Some(r.user) || (cfg.username == Some([]) && !Utf8.Valid(r.user)))
  }

  /** A client with these bytes passes the authentication of protocol `p` and has `rest` left. */
  ghost predicate Authenticates(c: Conn, p: Protocol, cfg: Config, lib: Library, visible: nat, rest: seq<Byte>) {
    match p
    case SOCKS5 => c.room >= 4 && exists methods :: AuthenticatesSocks5(c.rest, cfg, methods, rest)
    case SOCKS4 => exists command, r :: AuthenticatesSocks4(c.rest, cfg, command, r, rest)
    case TCP => false
    case _ => rest == c.rest != [] && HttpAuth.Admits(lib.lossy(Peeked(c, 4096, visible)), cfg, lib)
  }

  /** The connection behind a passed authentication. */
  function Passed(c: Conn, p: Protocol, rest: seq<Byte>): Conn {
    if p == SOCKS5 && c.room >= 4 then Conn(rest, c.output + [0x05, 0x02] + [0x01, 0x00], c.room - 4)
    else c.(rest := rest)
  }

  lemma Socks5Passes(c: Conn, cfg: Config, rest: seq<Byte>)
    requires cfg.requireCreds && WellFormed(cfg)
    ensures c.room >= 4 && (exists methods :: AuthenticatesSocks5(c.rest, cfg, methods, rest))
       <==> Socks5Auth(c, cfg).0 == Accepted && Socks5Auth(c, cfg).1.rest == rest
    ensures Socks5Auth(c, cfg).0 == Accepted ==> Socks5Auth(c, cfg).1 == Passed(c, SOCKS5, Socks5Auth(c, cfg).1.rest)
  {
    hide Socks5Auth, Credentials, Socks5.Greeting, Utf8.Valid;
    if Socks5Auth(c, cfg).0 == Accepted {
      var methods := Socks5AuthAccepted(c, cfg);
      assert AuthenticatesSocks5(c.rest, cfg, methods, Socks5Auth(c, cfg).1.rest);
    }
    if c.room >= 4 {
      forall methods | AuthenticatesSocks5(c.rest, cfg, methods, rest)
        ensures Socks5Auth(c, cfg).0 == Accepted && Socks5Auth(c, cfg).1.rest == rest
      {
        Socks5AuthRoundTrip(methods, cfg.username.value, cfg.password.value, rest, c, cfg);
      }
    }
  }

  lemma Socks4Passes(c: Conn, cfg: Config, rest: seq<Byte>)
    requires cfg.requireCreds && WellFormed(cfg)
    ensures (exists command, r :: AuthenticatesSocks4(c.rest, cfg, command, r, rest))
       <==> Socks4Auth(c, cfg).0 == Accepted && Socks4Auth(c, cfg).1.rest == rest
    ensures Socks4Auth(c, cfg).0 == Accepted ==> Socks4Auth(c, cfg).1 == Passed(c, SOCKS4, Socks4Auth(c, cfg).1.rest)
  {
    hide Socks4Auth, Socks4.Encode, Socks4.Encodable, Utf8.Valid;
    if Socks4Auth(c, cfg).0 == Accepted {
      var command, r := Socks4AuthAccepted(c, cfg);
      assert AuthenticatesSocks4(c.rest, cfg, command, r, Socks4Auth(c, cfg).1.rest);
    }
    forall command, r | AuthenticatesSocks4(c.rest, cfg, command, r, rest)
      ensures Socks4Auth(c, cfg).0 == Accepted && Socks4Auth(c, cfg).1.rest == rest
    {
      Socks4AuthExact(command, r, rest, c, cfg);
    }
  }

  /** Authentication by each protocol accepts exactly the clients that authenticate, and leaves what is behind that. */
  lemma Passes(c: Conn, p: Protocol, cfg: Config, lib: Library, visible: nat, rest: seq<Byte>)
    requires cfg.requireCreds && WellFormed(cfg)
    ensures var r := Authenticate(c, p, cfg, lib, visible);
      && (Authenticates(c, p, cfg, lib, visible, rest) <==> r.0 == Accepted && r.1 == Passed(c, p, rest))
      && (r.0 != Accepted ==> r.0 == if p == TCP then NotAuthenticated else Refused)
  {
    hide Socks5Auth, Socks4Auth, HttpAuth.Admits, HttpAuth.AuthRequired, AuthenticatesSocks5, AuthenticatesSocks4,
         WellFormed;
    match p {
      case SOCKS5 =>
        Socks5Passes(c, cfg, rest);
        AcceptsOrRefuses(c, cfg);
      case SOCKS4 =>
        Socks4Passes(c, cfg, rest);
        AcceptsOrRefuses(c, cfg);
      case _ =>
    }
  }

  /**
   Who is admitted, exactly: the first peek did not fail and showed no TLS client, and, when credentials are required,
   the client's bytes start with what its protocol must authenticate with.  A framed client never does.
   */
  lemma AdmittedExactly(c: Conn, c1: Conn, cfg: Config, lib: Library, ch: Choices)
    requires WellFormed(cfg)
    ensures Admit(c, cfg, lib, ch) == Admitted(c1)
       <==> && !ch.firstPeek.PeekFailed? && Detected(c, ch.firstPeek) != HTTPS
            && if !cfg.requireCreds then c1 == c
               else exists rest :: Authenticates(c, Detected(c, ch.firstPeek), cfg, lib, ch.authVisible, rest)
                                   && c1 == Passed(c, Detected(c, ch.firstPeek), rest)
  {
    hide Detected, Authenticate, Authenticates, WellFormed;
    var p := Detected(c, ch.firstPeek);
    if cfg.requireCreds && p != HTTPS {
      var left := Authenticate(c, p, cfg, lib, ch.authVisible).1.rest;
      Passes(c, p, cfg, lib, ch.authVisible, left);
      AcceptedLeaves(c, p, cfg, lib, ch.authVisible);
      forall rest ensures
        Authenticates(c, p, cfg, lib, ch.authVisible, rest)
        <==> var r := Authenticate(c, p, cfg, lib, ch.authVisible); r.0 == Accepted && r.1 == Passed(c, p, rest)
      {
        Passes(c, p, cfg, lib, ch.authVisible, rest);
      }
    }
  }

  lemma AcceptsOrRefuses(c: Conn, cfg: Config)
    requires cfg.requireCreds
    ensures Socks5Auth(c, cfg).0 == Accepted || Socks5Auth(c, cfg).0 == Refused
    ensures Socks4Auth(c, cfg).0 == Accepted || Socks4Auth(c, cfg).0 == Refused
  {
    hide RecvPair, Utf8.Valid, ValidUserId;
  }

  lemma AcceptedLeaves(c: Conn, p: Protocol, cfg: Config, lib: Library, visible: nat)
    requires cfg.requireCreds && WellFormed(cfg)
    ensures var r := Authenticate(c, p, cfg, lib, visible); r.0 == Accepted ==> r.1 == Passed(c, p, r.1.rest)
  {
    hide Socks5Auth, Socks4Auth, HttpAuth.Admits, HttpAuth.AuthRequired, AuthenticatesSocks5, AuthenticatesSocks4,
         WellFormed;
    match p {
      case SOCKS5 => Socks5Passes(c, cfg, Socks5Auth(c, cfg).1.rest);
      case SOCKS4 => Socks4Passes(c, cfg, Socks4Auth(c, cfg).1.rest);
      case _ =>
    }
  }

  /** A client whose first peek failed, and a framed client when credentials are required, end unread and unanswered. */
  lemma NotAdmitted(c: Conn, cfg: Config, lib: Library, ch: Choices)
    requires ch.firstPeek.PeekFailed? || (cfg.requireCreds && Detected(c, ch.firstPeek) == TCP)
    ensures HandleClient(c, cfg, lib, ch) == Ended(c)
  {
    hide Detected, Handle;
  }

  /**
   An HTTP client whose whole request is visible and whose header is the first to name it: admitted, and then handled
   as it stands, exactly when its token decodes to the configured pair.
   */
  lemma HttpClientAdmitted(before: seq<Byte>, pad: seq<Byte>, token: seq<Byte>, trail: seq<Byte>, eol: seq<Byte>,
                           after: seq<Byte>, c: Conn, cfg: Config, lib: Library, ch: Choices)
    requires WellFormed(cfg) && cfg.requireCreds
    requires !ch.firstPeek.PeekFailed? && Detected(c, ch.firstPeek) == HTTP
    requires before == [] || before[|before| - 1] == Text.NEWLINE
    requires forall i :: 0 <= i < |Text.Lines(before)| ==> !HttpAuth.NamesHeader(Text.Lines(before)[i])
    requires HttpAuth.Blank(pad) && HttpAuth.Token(token) && HttpAuth.Blank(trail) && HttpAuth.LineEnd(eol, after)
    requires c.rest == before + (HttpAuth.HeaderLine(pad, token, trail) + (eol + after))
    requires |c.rest| <= 4096 && |c.rest| <= ch.authVisible && lib.lossy(c.rest) == c.rest
    ensures Admit(c, cfg, lib, ch) == Admitted(c) <==> HttpAuth.Decodes(token, cfg, lib)
  {
    hide Detected, HttpAuth.Admits, HttpAuth.Decodes, HttpAuth.HeaderLine, HttpAuth.AuthRequired, Text.Lines,
         HttpAuth.NamesHeader, HttpAuth.Blank, HttpAuth.Token, HttpAuth.LineEnd, Socks5Auth, Socks4Auth, WellFormed;
    HttpAuth.HeaderAdmits(before, pad, token, trail, eol, after, cfg, lib);
    assert Peeked(c, 4096, ch.authVisible) == c.rest;
    HttpAuth.HeaderLinePlain(pad, token, trail);
  }

  /** The opened connection `s` asks for its target with `handshake`, and its tunnel delivers `payload`. */
  ghost predicate Delivers(s: Stage, handshake: seq<Byte>, payload: seq<Byte>, t: Relay.Tunnel)
    requires s.Opened?
  {
    && IsHandshake(s.protocol, handshake, s.target)
    && t.toTarget.sink <= payload && (Relay.Outcome(t).Finished? ==> t.toTarget.sink == payload)
  }

  /**
   SOCKS5 clients with credentials: the bytes of an opened connection are a greeting that offers passwords, the
   configured pair, and then a handshake for the dialled target and a payload, of which the target receives a prefix,
   and all when the tunnel finishes.
   */
  lemma Socks5AuthConservation(c: Conn, cfg: Config, lib: Library, ch: Choices,
                               fromTarget: seq<Byte>, steps: seq<Relay.Step>)
    returns (methods: seq<Byte>, handshake: seq<Byte>, payload: seq<Byte>)
    requires cfg.requireCreds
    ensures var s := HandleClient(c, cfg, lib, ch);
      Detected(c, ch.firstPeek) == SOCKS5 && s.Opened? && Delimited(s.protocol)
      && Relay.Schedule(Relay.Open(s.c.rest, fromTarget), steps) ==>
        && AuthenticatesSocks5(c.rest, cfg, methods, handshake + payload)
        && Delivers(s, handshake, payload, Relay.Run(Relay.Open(s.c.rest, fromTarget), steps))
  {
    hide HandleClient, Handle, IsHandshake, Relay.Schedule, Relay.Run, Conclude, Detected, Socks5Auth, Socks4Auth,
         HttpAuth.HttpAuth, Socks5.Greeting, Credentials;
    methods, handshake, payload := [], [], [];
    var s := HandleClient(c, cfg, lib, ch);
    if Detected(c, ch.firstPeek) == SOCKS5 && s.Opened? && Delimited(s.protocol)
       && Relay.Schedule(Relay.Open(s.c.rest, fromTarget), steps) {
      OpenedAdmitted(c, cfg, lib, ch);
      methods := Socks5AuthAccepted(c, cfg);
      handshake := OpenedHandshake(Socks5Auth(c, cfg).1, ch);
      payload := s.c.rest;
      Relay.EverySchedule(payload, fromTarget, steps);
    }
  }

  /** The same for SOCKS4, whose first request, of any command, carries the configured user id. */
  lemma Socks4AuthConservation(c: Conn, cfg: Config, lib: Library, ch: Choices,
                               fromTarget: seq<Byte>, steps: seq<Relay.Step>)
    returns (command: Byte, first: Socks4.Request, handshake: seq<Byte>, payload: seq<Byte>)
    requires cfg.requireCreds
    ensures var s := HandleClient(c, cfg, lib, ch);
      Detected(c, ch.firstPeek) == SOCKS4 && s.Opened? && Delimited(s.protocol)
      && Relay.Schedule(Relay.Open(s.c.rest, fromTarget), steps) ==>
        && AuthenticatesSocks4(c.rest, cfg, command, first, handshake + payload)
        && Delivers(s, handshake, payload, Relay.Run(Relay.Open(s.c.rest, fromTarget), steps))
  {
    hide HandleClient, Handle, IsHandshake, Relay.Schedule, Relay.Run, Conclude, Detected, Socks5Auth, Socks4Auth,
         HttpAuth.HttpAuth, Socks4.Encode, Socks4.Encodable, Utf8.Valid;
    command, first, handshake, payload := 0x01, Socks4.Request(0, 0, 0, 0, 0, []), [], [];
    var s := HandleClient(c, cfg, lib, ch);
    if Detected(c, ch.firstPeek) == SOCKS4 && s.Opened? && Delimited(s.protocol)
       && Relay.Schedule(Relay.Open(s.c.rest, fromTarget), steps) {
      OpenedAdmitted(c, cfg, lib, ch);
      command, first := Socks4AuthAccepted(c, cfg);
      handshake := OpenedHandshake(Socks4Auth(c, cfg).1, ch);
      payload := s.c.rest;
      Relay.EverySchedule(payload, fromTarget, steps);
    }
  }

  /** An opened connection with credentials was accepted by the authenticator of its first detection. */
  lemma OpenedAdmitted(c: Conn, cfg: Config, lib: Library, ch: Choices)
    requires cfg.requireCreds
    ensures var r := Authenticate(c, Detected(c, ch.firstPeek), cfg, lib, ch.authVisible);
      HandleClient(c, cfg, lib, ch).Opened? ==>
        r.0 == Accepted && HandleClient(c, cfg, lib, ch) == Conclude(Handle(r.1, ch))
  {
    hide Handle, Detected, Authenticate, Conclude;
  }

  /**
   SOCKS4 authentication takes the whole first request, so the target of an accepted client comes from the
   bytes behind it; with a second request there, that request's target is the one dialled.
   */
  lemma Socks4AuthThenParse(command: Byte, first: Socks4.Request, second: Socks4.Request, payload: seq<Byte>,
                            c: Conn, cfg: Config, lib: Library, ch: Choices)
    requires cfg.requireCreds && !ch.firstPeek.PeekFailed? && Dispatch.Sees(ch.firstPeek, 1)
    requires Dispatch.Sees(ch.secondPeek, 1) && ch.dial.Connected? && c.room >= 8
    requires Socks4.Encodable(first) && ValidUserId(first.user, cfg) && Socks4.Encodable(second)
    requires c.rest == Socks4.Encode(command, first) + (Socks4.Encode(0x01, second) + payload)
    ensures HandleClient(c, cfg, lib, ch)
         == Opened(Conn(payload, c.output + [0x00, 0x5A, 0x00, 0x00, 0x00, 0x00, 0x00, 0x00], c.room - 8),
                   SOCKS4, Socks4.TargetOf(second))
  {
    hide Socks4.Encode, Socks4Auth, Detected, HandleClient, Socks4.TargetOf, ValidUserId;
    var tail := Socks4.Encode(0x01, second) + payload;
    Socks4.FirstByte(command, first, tail);
    Dispatch.DetectedByFirstByte(c, ch.firstPeek);
    Socks4AuthExact(command, first, tail, c, cfg);
    AcceptedThenHandled(c, cfg, lib, ch);
    var c1 := c.(rest := tail);
    var open := cfg.(requireCreds := false);
    Dispatch.Socks4Opens(second, payload, c1, open, lib, ch);
    Socks4.FirstByte(0x01, second, payload);
    Dispatch.DetectedByFirstByte(c1, ch.firstPeek);
    Dispatch.WithoutCredentials(c1, open, lib, ch);
  }

  /** The client that sends its one request and waits is dropped without an answer, in every environment. */
  lemma Socks4AuthThenNothing(command: Byte, r: Socks4.Request, c: Conn, cfg: Config, lib: Library, ch: Choices)
    requires cfg.requireCreds && Dispatch.Sees(ch.firstPeek, 1)
    requires Socks4.Encodable(r) && ValidUserId(r.user, cfg) && c.rest == Socks4.Encode(command, r)
    ensures HandleClient(c, cfg, lib, ch) == Ended(c.(rest := []))
  {
    hide Socks4.Encode, Socks4Auth, Detected, HandleClient, Handle, Conclude, ValidUserId;
    assert c.rest == Socks4.Encode(command, r) + [];
    Socks4.FirstByte(command, r, []);
    Dispatch.DetectedByFirstByte(c, ch.firstPeek);
    Socks4AuthExact(command, r, [], c, cfg);
    AcceptedThenHandled(c, cfg, lib, ch);
    NothingLeft(c.(rest := []), ch);
  }

  lemma NothingLeft(c: Conn, ch: Choices)
    requires c.rest == []
    ensures Conclude(Handle(c, ch)) == Ended(c)
  {
    assert Detected(c, ch.secondPeek) == TCP;
    assert c.output + [] == c.output;
  }

  /**
   A SOCKS5 client that authenticates and then sends the CONNECT request of section 4 of RFC 1928 is never
   tunnelled, in any environment and wherever it stops accepting bytes: the request is read again as a greeting, or,
   when no byte of it was visible, as a frame.
   */
  lemma Socks5RequestNeverTunnelled(methods: seq<Byte>, addr: Socks5.Address, port: U16, payload: seq<Byte>,
                                    c: Conn, cfg: Config, lib: Library, ch: Choices)
    requires cfg.requireCreds && WellFormed(cfg) && cfg.username.Some? && cfg.password.Some?
    requires |cfg.username.value| <= 255 && |cfg.password.value| <= 255
    requires |methods| <= 255 && 0x02 in methods && Socks5.Encodable(addr)
    requires c.rest == Socks5.Greeting(methods)
                       + (Credentials(cfg.username.value, cfg.password.value)
                          + (Socks5.Request(0x00, addr, port) + payload))
    ensures HandleClient(c, cfg, lib, ch).Ended?
  {
    hide Socks5Auth, Socks4Auth, HttpAuth.HttpAuth, Credentials, Detected, Handle, Conclude,
         Socks5.Request, Socks5.Greeting, Socks5.Encodable;
    var tail := Socks5.Request(0x00, addr, port) + payload;
    Socks5.FirstByte(methods, Credentials(cfg.username.value, cfg.password.value) + tail);
    Dispatch.DetectedByFirstByte(c, ch.firstPeek);
    if Socks5Auth(c, cfg).0 == Accepted {
      var _ := Socks5AuthAccepted(c, cfg);
      Socks5AuthRoundTrip(methods, cfg.username.value, cfg.password.value, tail, c, cfg);
      RequestNeverOpens(addr, port, payload, Socks5Auth(c, cfg).1, ch);
    }
  }

  lemma RequestNeverOpens(addr: Socks5.Address, port: U16, payload: seq<Byte>, c: Conn, ch: Choices)
    requires Socks5.Encodable(addr) && c.rest == Socks5.Request(0x00, addr, port) + payload
    ensures Conclude(Handle(c, ch)).Ended?
  {
    hide Detected, Socks5.Parse, Framed.Parse, Socks5.Encodable, Socks5.AddressBytes, BE16, ErrorReply;
    assert c.rest[0] == 0x05 && c.rest[1] == 0x01;
    Dispatch.DetectedByFirstByte(c, ch.secondPeek);
    if c.room >= 2 {
      Socks5.RequestIsNotGreeting(addr, port, payload, c);
    } else {
      NoRoomForMethod(c);
    }
    LongFrame(c);
  }

  lemma NoRoomForMethod(c: Conn)
    requires c.room < 2
    ensures Socks5.Parse(c).0.Err?
  {
    hide Socks5.ParseRequest;
  }

  lemma LongFrame(c: Conn)
    requires |c.rest| >= 2 && c.rest[0] == 0x05
    ensures Framed.Parse(c).0.Err?
  {
    assert c.rest[..2][0] == c.rest[0];
    hide Framed.ParseBody;
  }

  /**
   A SOCKS5 client that authenticates and then sends the CONNECT request of section 4 of RFC 1928, with its bytes
   visible and room for the answers, sees the two authentication replies, a second method reply and the failure reply.
   */
  lemma Socks5AuthThenRequest(methods: seq<Byte>, addr: Socks5.Address, port: U16, payload: seq<Byte>,
                              c: Conn, cfg: Config, lib: Library, ch: Choices)
    requires cfg.requireCreds && WellFormed(cfg) && cfg.username.Some? && cfg.password.Some?
    requires |cfg.username.value| <= 255 && |cfg.password.value| <= 255
    requires Dispatch.Sees(ch.firstPeek, 1) && Dispatch.Sees(ch.secondPeek, 1) && c.room >= 16
    requires |methods| <= 255 && 0x02 in methods && Socks5.Encodable(addr)
    requires c.rest == Socks5.Greeting(methods)
                       + (Credentials(cfg.username.value, cfg.password.value)
                          + (Socks5.Request(0x00, addr, port) + payload))
    ensures HandleClient(c, cfg, lib, ch).Ended?
    ensures HandleClient(c, cfg, lib, ch).c.output
         == c.output + [0x05, 0x02] + [0x01, 0x00] + [0x05, 0x00]
            + [0x05, 0x01, 0x00, 0x01, 0x00, 0x00, 0x00, 0x00, 0x00, 0x00]
  {
    hide Socks5Auth, Socks4Auth, HttpAuth.HttpAuth, Credentials, Detected, HandleClient, Handle, Conclude,
         Socks5.Request, Socks5.Greeting, Socks5.Parse, Socks5.Encodable;
    var tail := Socks5.Request(0x00, addr, port) + payload;
    Socks5.FirstByte(methods, Credentials(cfg.username.value, cfg.password.value) + tail);
    Dispatch.DetectedByFirstByte(c, ch.firstPeek);
    Socks5AuthRoundTrip(methods, cfg.username.value, cfg.password.value, tail, c, cfg);
    var c1 := Conn(tail, c.output + CHOOSE_PASSWORD + PASSWORD_OK, c.room - 4);
    AcceptedThenHandled(c, cfg, lib, ch);
    RequestFails(addr, port, payload, c1, ch);
  }

  /** It is tunnelled when it sends a second greeting in front of the request. */
  lemma Socks5AuthThenHandshake(methods: seq<Byte>, again: seq<Byte>, addr: Socks5.Address, port: U16,
                                payload: seq<Byte>, c: Conn, cfg: Config, lib: Library, ch: Choices)
    requires cfg.requireCreds && WellFormed(cfg) && cfg.username.Some? && cfg.password.Some?
    requires |cfg.username.value| <= 255 && |cfg.password.value| <= 255
    requires Dispatch.Sees(ch.firstPeek, 1) && Dispatch.Sees(ch.secondPeek, 1) && ch.dial.Connected? && c.room >= 16
    requires |methods| <= 255 && 0x02 in methods && |again| <= 255 && Socks5.Encodable(addr)
    requires c.rest == Socks5.Greeting(methods)
                       + (Credentials(cfg.username.value, cfg.password.value)
                          + (Socks5.Encode(again, 0x00, addr, port) + payload))
    ensures var s := HandleClient(c, cfg, lib, ch);
      s.Opened? && s.target == Socks5.TargetOf(addr, port) && s.c.rest == payload
  {
    hide Socks5Auth, Socks4Auth, HttpAuth.HttpAuth, Credentials, Detected, HandleClient, Handle, Conclude,
         Socks5.Encode, Socks5.Greeting, Socks5.Parse, Socks5.Encodable, Socks5.TargetOf;
    var tail := Socks5.Encode(again, 0x00, addr, port) + payload;
    Socks5.FirstByte(methods, Credentials(cfg.username.value, cfg.password.value) + tail);
    Dispatch.DetectedByFirstByte(c, ch.firstPeek);
    Socks5AuthRoundTrip(methods, cfg.username.value, cfg.password.value, tail, c, cfg);
    AcceptedThenHandled(c, cfg, lib, ch);
    var c1 := Conn(tail, c.output + CHOOSE_PASSWORD + PASSWORD_OK, c.room - 4);
    var open := cfg.(requireCreds := false);
    Dispatch.Socks5Opens(again, 0x00, addr, port, payload, c1, open, lib, ch);
    OpenedHandled(c1, open, lib, ch);
  }

  lemma RequestFails(addr: Socks5.Address, port: U16, payload: seq<Byte>, c: Conn, ch: Choices)
    requires Socks5.Encodable(addr) && Dispatch.Sees(ch.secondPeek, 1) && c.room >= 12
    requires c.rest == Socks5.Request(0x00, addr, port) + payload
    ensures Conclude(Handle(c, ch)).Ended?
    ensures Conclude(Handle(c, ch)).c.output == c.output + Socks5.METHOD_REPLY + SOCKS5_FAIL
  {
    hide Detected, Socks5.Parse, Socks5.Encodable, BE16;
    assert c.rest[0] == 0x05;
    Dispatch.DetectedByFirstByte(c, ch.secondPeek);
    Socks5.RequestIsNotGreeting(addr, port, payload, c);
    SendFits(Socks5.Parse(c).1, SOCKS5_FAIL);
  }
}
