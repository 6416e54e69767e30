/**
 What the client is sent over a whole connection.  `Wrote(a, b, bytes)` says that `bytes` were written
 between the two states, cut off where the client stopped accepting; such writes compose.
 */
module Transcript {
  import opened Bytes
  import opened Wire
  import opened Protocol
  import opened Session
  import opened Auth
  import HttpAuth
  import Socks4
  import Socks5
  import Framed
  import Http
  import Sni
  import Relay
  import Text

  predicate Wrote(a: Conn, b: Conn, bytes: seq<Byte>) {
    var n := Min(a.room, |bytes|);
    b.output == a.output + bytes[..n] && b.room == a.room - n
  }

  /** Two writes in a row are one write of both, also when the first was cut off. */
  lemma WritesCompose(a: Conn, b: Conn, c: Conn, x: seq<Byte>, y: seq<Byte>)
    requires Wrote(a, b, x) && Wrote(b, c, y)
    ensures Wrote(a, c, x + y)
  {
    var n := Min(a.room, |x + y|);
    if |x| <= a.room {
      assert x[..|x|] == x;
      assert (x + y)[..n] == x + y[..Min(b.room, |y|)];
    } else {
      assert (x + y)[..n] == x[..n];
      assert y[..0] == [];
    }
  }

  lemma SendWrites(c: Conn, bytes: seq<Byte>)
    ensures Wrote(c, Send(c, bytes).1, bytes) && Send(c, bytes).1.rest == c.rest
    ensures Send(c, bytes).0 <==> |bytes| <= c.room
  {
  }

  lemma NothingWritten(c: Conn, d: Conn)
    requires c.output == d.output && c.room == d.room
    ensures Wrote(c, d, [])
  {
    assert c.output + [] == c.output;
  }

  // ---------------------------------------------------------- bytes on the wire

  /** The success a protocol announces, byte for byte. */
  function Granting(p: Protocol): seq<Byte> {
    match p
    case HTTP => Text.Ascii("HTTP/1.1 200 OK\r\n\r\n")
    case SOCKS4 => [0x00, 0x5A, 0x00, 0x00, 0x00, 0x00, 0x00, 0x00]
    case SOCKS5 => [0x05, 0x00, 0x00, 0x01, 0x00, 0x00, 0x00, 0x00, 0x00, 0x00]
    case _ => []
  }

  lemma SuccessGrants(p: Protocol)
    ensures SuccessReply(p) == Granting(p)
  {
    hide Text.Ascii;
  }

  /** The failure a protocol announces, byte for byte. */
  predicate Refusal(p: Protocol, e: ErrorType, bytes: seq<Byte>) {
    match p
    case HTTP =>
      bytes == (match e
                case Handshake => Text.Ascii("HTTP/1.1 400 Bad Request\r\n\r\n")
                case Timeout => Text.Ascii("HTTP/1.1 504 Gateway Timeout\r\n\r\n")
                case Connection => Text.Ascii("HTTP/1.1 502 Bad Gateway\r\n\r\n")
                case _ => [])
    case SOCKS4 => bytes == [0x00, 0x5B, 0x00, 0x00, 0x00, 0x00, 0x00, 0x00]
    case SOCKS5 => bytes == [0x05, 0x01, 0x00, 0x01, 0x00, 0x00, 0x00, 0x00, 0x00, 0x00]
    case _ => bytes == []
  }

  lemma ErrorReplyRefuses(p: Protocol, e: ErrorType)
    ensures Refusal(p, e, ErrorReply(p, e))
  {
    hide Text.Ascii;
  }

  /** The answer to an HTTP client without credentials, line by line. */
  function Challenge(): seq<Byte> {
    Text.Ascii("HTTP/1.1 407 Proxy Authentication Required\r\n")
    + Text.Ascii("Proxy-Authenticate: Basic realm=\"Proxy\"\r\n")
    + Text.Ascii("Content-Length: 0\r\n")
    + Text.Ascii("Connection: close\r\n")
    + Text.Ascii("\r\n")
  }

  lemma AsciiAppend(a: string, b: string)
    ensures Text.Ascii(a) + Text.Ascii(b) == Text.Ascii(a + b)
  {
  }

  lemma StatusLine()
    ensures "HTTP/1.1 407 Proxy " + "Authentication Required\r\n" == "HTTP/1.1 407 Proxy Authentication Required\r\n"
  {
  }

  lemma ChallengeLine()
    ensures "Proxy-Authenticate: " + "Basic realm=\"Proxy\"\r\n" == "Proxy-Authenticate: Basic realm=\"Proxy\"\r\n"
  {
  }

  lemma LastLines()
    ensures "Connection: close\r\n" + "\r\n" == "Connection: close\r\n\r\n"
  {
  }

  lemma ChallengeIsSent()
    ensures HttpAuth.AuthRequired() == Challenge()
  {
    hide Text.Ascii;
    StatusLine();
    ChallengeLine();
    LastLines();
    AsciiAppend("HTTP/1.1 407 Proxy ", "Authentication Required\r\n");
    AsciiAppend("Proxy-Authenticate: ", "Basic realm=\"Proxy\"\r\n");
    AsciiAppend("Connection: close\r\n", "\r\n");
  }

  // ------------------------------------------------------ what each stage writes

  lemma NegotiateWrites(c: Conn) returns (w: seq<Byte>)
    ensures Wrote(c, Socks5.Negotiate(c).1, w)
    ensures w == [] || w == Socks5.METHOD_REPLY
    ensures Socks5.Negotiate(c).0.None? ==> w == Socks5.METHOD_REPLY && c.room >= 2
  {
    var (head, c1) := Recv(c, 2);
    w := [];
    NothingWritten(c, c1);
    if head.Some? && head.value[0] == 0x05 {
      var (methods, c2) := Recv(c1, head.value[1]);
      NothingWritten(c, c2);
      if methods.Some? {
        w := Socks5.METHOD_REPLY;
        SendWrites(c2, w);
      }
    }
  }

  lemma RequestWritesNothing(c: Conn)
    ensures Socks5.ParseRequest(c).1.output == c.output && Socks5.ParseRequest(c).1.room == c.room
  {
  }

  lemma Socks5Writes(c: Conn) returns (w: seq<Byte>)
    ensures Wrote(c, Socks5.Parse(c).1, w)
    ensures w == [] || w == Socks5.METHOD_REPLY
    ensures Socks5.Parse(c).0.Ok? ==> w == Socks5.METHOD_REPLY && c.room >= 2
  {
    hide Socks5.Negotiate, Socks5.ParseRequest;
    w := NegotiateWrites(c);
    RequestWritesNothing(Socks5.Negotiate(c).1);
  }

  /** Only SOCKS5 writes while the target is parsed. */
  lemma ParseWrites(c: Conn, p: Protocol, ch: Choices) returns (w: seq<Byte>)
    ensures Wrote(c, ParseTarget(c, p, ch).1, w)
    ensures w == [] || (p == SOCKS5 && w == Socks5.METHOD_REPLY)
    ensures ParseTarget(c, p, ch).0.Ok? && p == SOCKS5 ==> w == Socks5.METHOD_REPLY
    ensures ParseTarget(c, p, ch).0.Ok? ==> |w| <= c.room
  {
    if p == SOCKS5 {
      hide Socks5.Parse;
      w := Socks5Writes(c);
    } else {
      w := [];
      hide Http.ParseLine, Sni.Sni, Framed.ParseBody;
      NothingWritten(c, ParseTarget(c, p, ch).1);
    }
  }

  /** Why a connection that parsed or failed to parse was not opened. */
  function Cause(c: Conn, ch: Choices): ErrorType {
    if ParseTarget(c, Detected(c, ch.secondPeek), ch).0.Err? then Handshake
    else if ch.dial.DialTimedOut? then Timeout
    else Connection
  }

  /** Handling writes the parser's reply, then the success reply or the one error reply its cause asks for. */
  lemma HandleWrites(c: Conn, ch: Choices) returns (prelude: seq<Byte>, final: seq<Byte>)
    ensures Wrote(c, Conclude(Handle(c, ch)).c, prelude + final)
    ensures var p := Detected(c, ch.secondPeek);
      && (prelude == [] || (p == SOCKS5 && prelude == Socks5.METHOD_REPLY))
      && match Conclude(Handle(c, ch))
         case Opened(_, q, t) =>
           q == p && ch.dial.Connected? && ParseTarget(c, p, ch).0 == Ok(t) && final == Granting(p)
           && (p == SOCKS5 ==> prelude != []) && |prelude + final| <= c.room
         case Ended(_) =>
           Refusal(p, Cause(c, ch), final)
           || (final == Granting(p) && (p == SOCKS5 ==> prelude != []) && c.room < |prelude + final|)
         case _ => false
  {
    var p := Detected(c, ch.secondPeek);
    prelude := ParseWrites(c, p, ch);
    var (t, c1) := ParseTarget(c, p, ch);
    hide ParseTarget, Detected, SuccessReply, ErrorReply, Granting, Refusal;
    SuccessGrants(p);
    if t.Ok? && ch.dial.Connected? {
      final := SuccessReply(p);
      SendWrites(c1, final);
      var (sent, c2) := Send(c1, final);
      WritesCompose(c, c1, c2, prelude, final);
      if !sent {
        var last := ErrorReply(p, Response);
        SendWrites(c2, last);
        CutOff(c2, Send(c2, last).1, last);
      }
    } else {
      var e := if t.Err? then Handshake else if ch.dial.DialTimedOut? then Timeout else Connection;
      final := ErrorReply(p, e);
      ErrorReplyRefuses(p, e);
      SendWrites(c1, final);
      WritesCompose(c, c1, Send(c1, final).1, prelude, final);
    }
  }

  /** Once a write was cut off, nothing more is written. */
  lemma CutOff(a: Conn, b: Conn, bytes: seq<Byte>)
    requires Wrote(a, b, bytes) && a.room == 0
    ensures b.output == a.output && b.room == 0
  {
    assert a.output + [] == a.output;
  }

  /** SOCKS5 authentication: the answers that may precede the verdict, and the verdict. */
  lemma PasswordWrites(c: Conn, cfg: Config) returns (w: seq<Byte>)
    ensures Wrote(c, PasswordAuth(c, cfg).1, w)
    ensures w == [] || w == PASSWORD_OK || w == PASSWORD_BAD
    ensures PasswordAuth(c, cfg).0 == Accepted ==> w == PASSWORD_OK && c.room >= 2
  {
    var (pair, c1) := RecvPair(c);
    PairWritesNothing(c);
    hide RecvPair;
    w := [];
    NothingWritten(c, c1);
    if pair.Some? {
      w := if ValidCredentials(pair.value.0, pair.value.1, cfg) then PASSWORD_OK else PASSWORD_BAD;
      SendWrites(c1, w);
      if PasswordAuth(c, cfg).1 == c1 {
        w := [];
      }
    }
  }

  lemma PairWritesNothing(c: Conn)
    ensures RecvPair(c).1.output == c.output && RecvPair(c).1.room == c.room
  {
  }

  /** What authentication by a protocol may answer: a first reply and the verdict behind it. */
  ghost predicate AuthAnswer(p: Protocol, cfg: Config, prelude: seq<Byte>, final: seq<Byte>) {
    match p
    case SOCKS5 =>
      || (prelude == [] && (final == [] || final == if cfg.requireCreds then [0x05, 0xFF] else [0x05, 0x00]))
      || (cfg.requireCreds && prelude == [0x05, 0x02] && final in {[], [0x01, 0x00], [0x01, 0x01]})
    case SOCKS4 => prelude == [] && final in {[], [0x00, 0x5B, 0x00, 0x00, 0x00, 0x00, 0x00, 0x00]}
    case TCP => prelude == [] && final == []
    case _ => prelude == [] && (final == [] || final == Challenge())
  }

  lemma Socks5AuthWrites(c: Conn, cfg: Config) returns (prelude: seq<Byte>, final: seq<Byte>)
    ensures Wrote(c, Socks5Auth(c, cfg).1, prelude + final) && AuthAnswer(SOCKS5, cfg, prelude, final)
    ensures Socks5Auth(c, cfg).0 == Accepted ==>
      prelude == CHOOSE_PASSWORD && final == PASSWORD_OK && |prelude + final| <= c.room
  {
    hide PasswordAuth, Challenge;
    var (head, c1) := Recv(c, 2);
    prelude, final := [], [];
    NothingWritten(c, c1);
    if head.Some? && head.value[0] == 0x05 {
      var (methods, c2) := Recv(c1, head.value[1]);
      NothingWritten(c, c2);
      if methods.Some? {
        if cfg.requireCreds && 0x02 in methods.value {
          prelude := CHOOSE_PASSWORD;
          SendWrites(c2, prelude);
          var (sent, c3) := Send(c2, prelude);
          if sent {
            final := PasswordWrites(c3, cfg);
            WritesCompose(c, c3, PasswordAuth(c3, cfg).1, prelude, final);
          }
        } else {
          final := if cfg.requireCreds then NO_METHOD else Socks5.METHOD_REPLY;
          SendWrites(c2, final);
        }
      }
    }
    assert prelude + [] == prelude;
    assert [] + final == final;
  }

  lemma AuthWrites(c: Conn, p: Protocol, cfg: Config, lib: Library, visible: nat)
    returns (prelude: seq<Byte>, final: seq<Byte>)
    ensures Wrote(c, Authenticate(c, p, cfg, lib, visible).1, prelude + final) && AuthAnswer(p, cfg, prelude, final)
    ensures Authenticate(c, p, cfg, lib, visible).0 == Accepted ==>
      prelude + final == (if p == SOCKS5 then CHOOSE_PASSWORD + PASSWORD_OK else []) && |prelude + final| <= c.room
  {
    hide HttpAuth.AuthRequired, Challenge;
    if p == SOCKS5 {
      hide Socks5Auth;
      prelude, final := Socks5AuthWrites(c, cfg);
    } else {
      prelude := [];
      final := AuthAnswered(c, p, cfg, lib, visible);
      assert [] + final == final;
    }
  }

  lemma AuthAnswered(c: Conn, p: Protocol, cfg: Config, lib: Library, visible: nat) returns (final: seq<Byte>)
    requires p != SOCKS5
    ensures Wrote(c, Authenticate(c, p, cfg, lib, visible).1, final)
    ensures AuthAnswer(p, cfg, [], final)
    ensures Authenticate(c, p, cfg, lib, visible).0 == Accepted ==> final == []
  {
    hide Socks4Auth, Socks5Auth, HttpAuth.HttpAuth, HttpAuth.AuthRequired, Challenge;
    ChallengeIsSent();
    NothingWritten(c, c);
    final := [];
    if p == HTTP || p == HTTPS {
      final := HttpAuthWrites(c, cfg, lib, visible);
    } else if p == SOCKS4 {
      final := Socks4AuthWrites(c, cfg);
    }
  }

  lemma HttpAuthWrites(c: Conn, cfg: Config, lib: Library, visible: nat) returns (final: seq<Byte>)
    ensures Wrote(c, HttpAuth.HttpAuth(c, cfg, lib, visible).1, final)
    ensures final == [] || final == HttpAuth.AuthRequired()
    ensures HttpAuth.HttpAuth(c, cfg, lib, visible).0 == Accepted ==> final == []
  {
    hide HttpAuth.AuthRequired;
    var seen := Peeked(c, HttpAuth.PEEK_LIMIT, visible);
    hide Peeked;
    if HttpAuth.HttpAuth(c, cfg, lib, visible).1 == c {
      final := [];
      NothingWritten(c, c);
    } else {
      final := HttpAuth.AuthRequired();
      SendWrites(c, final);
    }
  }

  lemma Socks4AuthWrites(c: Conn, cfg: Config) returns (final: seq<Byte>)
    ensures Wrote(c, Socks4Auth(c, cfg).1, final)
    ensures final in {[], SOCKS4_REFUSED}
    ensures Socks4Auth(c, cfg).0 == Accepted ==> final == []
  {
    var (head, c1) := Recv(c, 8);
    NothingWritten(c, c1);
    final := [];
    if head.Some? && head.value[0] == 0x04 && cfg.requireCreds {
      var (user, c2) := Socks4.RecvUserId(c1);
      NothingWritten(c, c2);
      if user.Some? && !ValidUserId(user.value, cfg) {
        final := SOCKS4_REFUSED;
        SendWrites(c2, final);
      }
    }
  }

  // ------------------------------------------------------------ whole connections

  /** Bytes a connection may be sent before its one final reply. */
  ghost predicate Prelude(s: seq<Byte>) {
    s in {[], [0x05, 0x00], [0x05, 0x02], [0x05, 0x02] + [0x01, 0x00], [0x05, 0x02] + [0x01, 0x00] + [0x05, 0x00]}
  }

  ghost predicate FinalReply(s: seq<Byte>) {
    || s in {[], [0x05, 0xFF], [0x00, 0x5B, 0x00, 0x00, 0x00, 0x00, 0x00, 0x00], Challenge(), [0x01, 0x01]}
    || (exists p :: s == Granting(p))
    || (exists p, e :: Refusal(p, e, s))
  }

  /** What precedes the success reply of an opened connection, by the protocols of the two detections. */
  function OpenPrelude(cfg: Config, first: Protocol, second: Protocol): seq<Byte> {
    AuthPrelude(cfg, first) + if second == SOCKS5 then [0x05, 0x00] else []
  }

  /** The replies of an authentication that accepted the client. */
  function AuthPrelude(cfg: Config, first: Protocol): seq<Byte> {
    if cfg.requireCreds && first == SOCKS5 then [0x05, 0x02] + [0x01, 0x00] else []
  }

  /**
   Why a connection up to its tunnel was sent `prelude` and `final`.  Stopped before it was handled: nothing, or what
   its authentication answered.  Handled: the replies of the authentication that accepted it and perhaps the method
   reply, then the success reply if it opened; if it did not, the refusal of the protocol detected behind
   authentication for the cause, or a success reply that was cut off.
   */
  ghost predicate Explains(c: Conn, cfg: Config, lib: Library, ch: Choices, prelude: seq<Byte>, final: seq<Byte>) {
    var first := Detected(c, ch.firstPeek);
    match Admit(c, cfg, lib, ch)
    case Stopped(_) =>
      if ch.firstPeek.PeekFailed? || first == HTTPS then prelude == [] && final == []
      else cfg.requireCreds && StoppedWith(first, cfg, prelude, final)
    case Admitted(c1) =>
      var p := Detected(c1, ch.secondPeek);
      if HandleClient(c, cfg, lib, ch).Opened? then
        prelude == OpenPrelude(cfg, first, p) && final == Granting(p) && |prelude + final| <= c.room
      else
        || ((prelude == AuthPrelude(cfg, first) || prelude == OpenPrelude(cfg, first, p))
            && Refusal(p, Cause(c1, ch), final))
        || (prelude == OpenPrelude(cfg, first, p) && final == Granting(p) && c.room < |prelude + final|)
  }

  /** The answers of an authentication that did not accept; a complete acceptance was then cut off. */
  ghost predicate StoppedWith(p: Protocol, cfg: Config, prelude: seq<Byte>, final: seq<Byte>) {
    || (AuthAnswer(p, cfg, prelude, final) && final != [0x01, 0x00])
    || (p == SOCKS5 && prelude == [0x05, 0x02] + [0x01, 0x00] && final == [])
  }

  /**
   Over every connection, whatever the environment does and wherever the client stops accepting bytes: what
   it is sent is a prelude and at most one final reply, the ones its protocols and the cause of its end ask for, and
   a tunnel opens only after a complete success reply.
   */
  lemma OneFinalReply(c: Conn, cfg: Config, lib: Library, ch: Choices)
    returns (prelude: seq<Byte>, final: seq<Byte>)
    ensures Prelude(prelude) && FinalReply(final)
    ensures Wrote(c, HandleClient(c, cfg, lib, ch).c, prelude + final)
    ensures Explains(c, cfg, lib, ch, prelude, final)
  {
    hide Handle, Authenticate, Detected, Conclude, Granting, FinalReply, Challenge, Cause, Refusal;
    prelude, final := [], [];
    NothingWritten(c, c);
    NothingIsFinal();
    match Admit(c, cfg, lib, ch) {
      case Stopped(_) =>
        if !ch.firstPeek.PeekFailed? && Detected(c, ch.firstPeek) != HTTPS {
          prelude, final := StoppedWrites(c, cfg, lib, ch);
        }
      case Admitted(c1) =>
        prelude, final := AdmittedWrites(c, c1, cfg, lib, ch);
    }
  }

  lemma NothingIsFinal()
    ensures FinalReply([]) && FinalReply(NO_METHOD) && FinalReply(SOCKS4_REFUSED) && FinalReply(PASSWORD_BAD)
    ensures FinalReply(Challenge())
  {
    hide Challenge;
  }

  lemma ReplyIsFinal(p: Protocol, e: ErrorType, final: seq<Byte>)
    requires Refusal(p, e, final) || final == Granting(p)
    ensures FinalReply(final)
  {
    hide Granting, Refusal, Challenge;
  }

  /** A client that authentication did not accept. */
  lemma StoppedWrites(c: Conn, cfg: Config, lib: Library, ch: Choices)
    returns (prelude: seq<Byte>, final: seq<Byte>)
    requires !ch.firstPeek.PeekFailed? && Detected(c, ch.firstPeek) != HTTPS && Admit(c, cfg, lib, ch).Stopped?
    ensures Prelude(prelude) && FinalReply(final) && cfg.requireCreds
    ensures Wrote(c, Admit(c, cfg, lib, ch).stage.c, prelude + final)
    ensures StoppedWith(Detected(c, ch.firstPeek), cfg, prelude, final)
  {
    hide Authenticate, Detected, FinalReply, Challenge;
    var p := Detected(c, ch.firstPeek);
    prelude, final := AuthWrites(c, p, cfg, lib, ch.authVisible);
    NothingIsFinal();
    if p == SOCKS5 && final == PASSWORD_OK {
      prelude := prelude + final;
      assert prelude + [] == prelude;
      final := [];
    } else if p != SOCKS5 && final == PASSWORD_OK {
      NotThePasswordReply();
    }
  }

  lemma NotThePasswordReply()
    ensures Challenge() != PASSWORD_OK
  {
    assert |Challenge()| > 2;
  }

  /** A client that was handled. */
  lemma AdmittedWrites(c: Conn, c1: Conn, cfg: Config, lib: Library, ch: Choices)
    returns (prelude: seq<Byte>, final: seq<Byte>)
    requires Admit(c, cfg, lib, ch) == Admitted(c1)
    ensures Prelude(prelude) && FinalReply(final)
    ensures Wrote(c, HandleClient(c, cfg, lib, ch).c, prelude + final)
    ensures Explains(c, cfg, lib, ch, prelude, final)
  {
    hide Handle, Authenticate, Detected, Conclude, Granting, FinalReply, Challenge, Cause, Refusal;
    var before := AdmissionWrites(c, c1, cfg, lib, ch);
    var p := Detected(c1, ch.secondPeek);
    prelude, final := HandleWrites(c1, ch);
    ReplyIsFinal(p, Cause(c1, ch), final);
    WritesCompose(c, c1, Conclude(Handle(c1, ch)).c, before, prelude + final);
    Associate(before, prelude, final);
    PreludeAfterAuth(before, prelude);
    assert before + [] == before;
    prelude := before + prelude;
  }

  lemma AdmissionWrites(c: Conn, c1: Conn, cfg: Config, lib: Library, ch: Choices) returns (before: seq<Byte>)
    requires Admit(c, cfg, lib, ch) == Admitted(c1)
    ensures before == AuthPrelude(cfg, Detected(c, ch.firstPeek)) && |before| <= c.room
    ensures Wrote(c, c1, before)
  {
    hide Authenticate, Detected, AuthAnswer;
    before := [];
    if cfg.requireCreds {
      var prelude, final := AuthWrites(c, Detected(c, ch.firstPeek), cfg, lib, ch.authVisible);
      before := prelude + final;
    } else {
      NothingWritten(c, c);
    }
  }

  lemma PreludeAfterAuth(before: seq<Byte>, prelude: seq<Byte>)
    requires before == [] || before == CHOOSE_PASSWORD + PASSWORD_OK
    requires prelude == [] || prelude == Socks5.METHOD_REPLY
    ensures Prelude(before + prelude)
  {
    assert before + [] == before && [] + prelude == prelude;
  }

  /**
   Which admitted connections are tunnelled, exactly: a target was parsed and reached and the client had room for the
   replies.  The tunnel then starts behind the parsed bytes and behind these replies.
   */
  lemma OpensExactly(c: Conn, c1: Conn, cfg: Config, lib: Library, ch: Choices)
    requires Admit(c, cfg, lib, ch) == Admitted(c1)
    ensures var p := Detected(c1, ch.secondPeek);
      var (t, d) := ParseTarget(c1, p, ch);
      var replies := (if p == SOCKS5 then [0x05, 0x00] else []) + Granting(p);
      var s := HandleClient(c, cfg, lib, ch);
      && (s.Opened? <==> t.Ok? && ch.dial.Connected? && |replies| <= c1.room)
      && (s.Opened? ==> s == Opened(Conn(d.rest, c1.output + replies, c1.room - |replies|), p, t.value))
  {
    var p := Detected(c1, ch.secondPeek);
    hide Admit, Detected, ParseTarget, SuccessReply, ErrorReply, Granting;
    var w := ParseWrites(c1, p, ch);
    SuccessGrants(p);
    assert w[..|w|] == w && [] + Granting(p) == Granting(p);
    var d := ParseTarget(c1, p, ch).1;
    if |Granting(p)| <= d.room {
      SendFits(d, Granting(p));
      Associate(c1.output, w, Granting(p));
    }
  }

  // -------------------------------------------------------------- finished runs

  /** A tunnel's end is the connection's end: nothing is answered behind the relayed bytes. */
  lemma TunnelIsLast(c: Conn, cfg: Config, lib: Library, ch: Choices, t: Relay.Tunnel)
    ensures var s := HandleClient(c, cfg, lib, ch);
      Finish(c, cfg, lib, ch, t) == if s.Opened? then Ended(Carried(s.c, t)) else s
  {
    hide Authenticate, Detected, Handle, ErrorReply, Carried, Relay.Outcome;
  }

  lemma OpenedExplained(c: Conn, cfg: Config, lib: Library, ch: Choices, prelude: seq<Byte>, final: seq<Byte>)
    requires Explains(c, cfg, lib, ch, prelude, final)
    ensures var s := HandleClient(c, cfg, lib, ch);
      s.Opened? ==> prelude == OpenPrelude(cfg, Detected(c, ch.firstPeek), s.protocol)
                    && final == Granting(s.protocol) && |prelude + final| <= c.room
  {
    hide ParseTarget, Authenticate, Detected, SuccessReply, ErrorReply, Granting, OpenPrelude, AuthPrelude, Cause,
         Refusal;
  }

  /**
   Over every finished run of the handler, tunnel included: the client was sent a prelude, at most one final
   reply and then bytes of the target, cut off where it stopped accepting.  Target bytes come only behind a complete
   success reply and are a prefix of what the target sent, all of it when the tunnel finished; no reply byte
   follows them, also when the tunnel breaks.
   */
  lemma FinishedOutput(c: Conn, cfg: Config, lib: Library, ch: Choices,
                       fromTarget: seq<Byte>, steps: seq<Relay.Step>, t: Relay.Tunnel)
    returns (prelude: seq<Byte>, final: seq<Byte>, relayed: seq<Byte>)
    requires FinishedRun(c, cfg, lib, ch, fromTarget, steps, t)
    ensures !Finish(c, cfg, lib, ch, t).Opened?
    ensures Prelude(prelude) && FinalReply(final) && relayed <= fromTarget
    ensures Wrote(c, Finish(c, cfg, lib, ch, t).c, prelude + final + relayed)
    ensures Explains(c, cfg, lib, ch, prelude, final)
    ensures var s := HandleClient(c, cfg, lib, ch);
      if s.Opened? then
        && prelude == OpenPrelude(cfg, Detected(c, ch.firstPeek), s.protocol) && final == Granting(s.protocol)
        && |prelude + final + relayed| <= c.room
        && (Relay.Outcome(t).Finished? ==> relayed == fromTarget)
        && s.c.rest == t.toTarget.sink + t.toTarget.pending + Finish(c, cfg, lib, ch, t).c.rest
      else relayed == []
  {
    hide HandleClient, Finish, Relay.Schedule, Relay.Run, Relay.Outcome, Granting, Prelude, FinalReply, OpenPrelude,
         Detected, Explains;
    var s := HandleClient(c, cfg, lib, ch);
    prelude, final := OneFinalReply(c, cfg, lib, ch);
    OpenedExplained(c, cfg, lib, ch, prelude, final);
    relayed := [];
    TunnelIsLast(c, cfg, lib, ch, t);
    assert prelude + final + [] == prelude + final;
    if s.Opened? {
      Relay.EverySchedule(s.c.rest, fromTarget, steps);
      relayed := t.toClient.sink;
      assert relayed[..|relayed|] == relayed;
      TakenFromClient(s.c.rest, fromTarget, steps);
      WritesCompose(c, s.c, Carried(s.c, t), prelude + final, relayed);
    }
  }

  /** What a tunnel has taken from the client it has delivered or holds. */
  lemma TakenFromClient(fromClient: seq<Byte>, fromTarget: seq<Byte>, steps: seq<Relay.Step>)
    requires Relay.Schedule(Relay.Open(fromClient, fromTarget), steps)
    ensures var d := Relay.Run(Relay.Open(fromClient, fromTarget), steps).toTarget;
      d.read <= |fromClient| && fromClient == d.sink + d.pending + fromClient[d.read..]
  {
    hide Relay.Schedule, Relay.Run;
    Relay.RunKeepsInv(fromClient, fromTarget, steps);
    var d := Relay.Run(Relay.Open(fromClient, fromTarget), steps).toTarget;
    assert fromClient == fromClient[..d.read] + fromClient[d.read..];
  }

  /**
   A finished run without an I/O error, and with room at the client for everything the target sends, has delivered
   everything in both directions and counted it.
   */
  lemma CleanRunDelivers(c: Conn, cfg: Config, lib: Library, ch: Choices,
                         fromTarget: seq<Byte>, steps: seq<Relay.Step>, t: Relay.Tunnel)
    requires FinishedRun(c, cfg, lib, ch, fromTarget, steps, t)
    requires HandleClient(c, cfg, lib, ch).Opened? && !ch.ioError
    requires |fromTarget| <= HandleClient(c, cfg, lib, ch).c.room
    ensures var s := HandleClient(c, cfg, lib, ch);
      && t.toTarget.sink == s.c.rest && t.toClient.sink == fromTarget
      && Finish(c, cfg, lib, ch, t) == Ended(Conn([], s.c.output + fromTarget, s.c.room - |fromTarget|))
      && (|s.c.rest| < 0x1_0000_0000_0000_0000 && |fromTarget| < 0x1_0000_0000_0000_0000 ==>
            Tunnelled(Ready(s.c, s.protocol, s.target), t)
            == Served(Finish(c, cfg, lib, ch, t).c, |s.c.rest|, |fromTarget|))
  {
    hide HandleClient, Finish, Relay.Schedule, Relay.Run, Relay.Inv;
    var s := HandleClient(c, cfg, lib, ch);
    Relay.EverySchedule(s.c.rest, fromTarget, steps);
    Relay.RunKeepsInv(s.c.rest, fromTarget, steps);
    DrainedWhenDone(t.toTarget);
    TunnelIsLast(c, cfg, lib, ch, t);
  }

  lemma DrainedWhenDone(d: Relay.Direction)
    requires Relay.Inv(d)
    ensures d.phase.Done? ==> d.read == |d.source|
  {
  }

  /**
   The output of every finished run of a SOCKS5 client without credentials: nothing, the failure reply, the method
   reply and the failure reply, or the method reply, the success reply and a prefix of the target's bytes; or, if it
   stopped accepting bytes before a tunnel, one of these cut short.
   */
  lemma Socks5Client(c: Conn, cfg: Config, lib: Library, ch: Choices,
                     fromTarget: seq<Byte>, steps: seq<Relay.Step>, t: Relay.Tunnel) returns (relayed: seq<Byte>)
    requires FinishedRun(c, cfg, lib, ch, fromTarget, steps, t)
    requires !cfg.requireCreds && Detected(c, ch.secondPeek) == SOCKS5
    ensures relayed <= fromTarget
    ensures HandleClient(c, cfg, lib, ch).Opened? && Relay.Outcome(t).Finished? ==> relayed == fromTarget
    ensures var d := Finish(c, cfg, lib, ch, t).c;
      if HandleClient(c, cfg, lib, ch).Opened? then
        d.output == c.output + [0x05, 0x00] + [0x05, 0x00, 0x00, 0x01, 0x00, 0x00, 0x00, 0x00, 0x00, 0x00] + relayed
      else
        || d.output == c.output
        || Wrote(c, d, [0x05, 0x01, 0x00, 0x01, 0x00, 0x00, 0x00, 0x00, 0x00, 0x00])
        || Wrote(c, d, [0x05, 0x00] + [0x05, 0x01, 0x00, 0x01, 0x00, 0x00, 0x00, 0x00, 0x00, 0x00])
        || (c.room < 12 && Wrote(c, d, [0x05, 0x00] + [0x05, 0x00, 0x00, 0x01, 0x00, 0x00, 0x00, 0x00, 0x00, 0x00]))
  {
    hide Finish, Relay.Schedule, Relay.Run, Relay.Outcome, HandleClient, Detected;
    var s := HandleClient(c, cfg, lib, ch);
    relayed := if s.Opened? then t.toClient.sink else [];
    TunnelIsLast(c, cfg, lib, ch, t);
    Socks5Stage(c, cfg, lib, ch);
    if s.Opened? {
      Relay.EverySchedule(s.c.rest, fromTarget, steps);
    }
  }

  lemma Socks5Stage(c: Conn, cfg: Config, lib: Library, ch: Choices)
    requires !cfg.requireCreds && Detected(c, ch.secondPeek) == SOCKS5
    ensures match HandleClient(c, cfg, lib, ch)
      case Opened(d, _, _) => d.output == c.output + Socks5.METHOD_REPLY + SOCKS5_OK
      case TlsUpgrade(d) => d.output == c.output
      case Ended(d) =>
        || d.output == c.output
        || Wrote(c, d, SOCKS5_FAIL)
        || Wrote(c, d, Socks5.METHOD_REPLY + SOCKS5_FAIL)
        || (c.room < 12 && Wrote(c, d, Socks5.METHOD_REPLY + SOCKS5_OK))
  {
    hide Handle, Conclude, Detected, Cause;
    if !ch.firstPeek.PeekFailed? && !Detected(c, ch.firstPeek).HTTPS? {
      var prelude, final := HandleWrites(c, ch);
      var w := prelude + final;
      assert w[..|w|] == w;
      assert [] + final == final;
      Associate(c.output, prelude, final);
    }
  }
}
