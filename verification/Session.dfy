/**
 One client connection from the first peek to the moment it becomes a tunnel.  Everything the outside
 decides (what is visible when, timers, the outcome of dialling) is a choice of the environment.
 */
module Session {
  import opened Bytes
  import opened Wire
  import opened Protocol
  import opened Auth
  import HttpAuth
  import Text
  import Socks4
  import Socks5
  import Framed
  import Http
  import Sni
  import Relay

  // --------------------------------------------------------------- replies

  const SOCKS4_OK: seq<Byte> := [0x00, 0x5A, 0x00, 0x00, 0x00, 0x00, 0x00, 0x00]
  const SOCKS4_FAIL: seq<Byte> := [0x00, 0x5B, 0x00, 0x00, 0x00, 0x00, 0x00, 0x00]
  const SOCKS5_OK: seq<Byte> := [0x05, 0x00, 0x00, 0x01, 0x00, 0x00, 0x00, 0x00, 0x00, 0x00]
  const SOCKS5_FAIL: seq<Byte> := [0x05, 0x01, 0x00, 0x01, 0x00, 0x00, 0x00, 0x00, 0x00, 0x00]
  const HTTP_OK: seq<Byte> := Text.Ascii("HTTP/1.1 200 OK\r\n\r\n")
  const HTTP_400: seq<Byte> := Text.Ascii("HTTP/1.1 400 Bad Request\r\n\r\n")
  const HTTP_502: seq<Byte> := Text.Ascii("HTTP/1.1 502 Bad Gateway\r\n\r\n")
  const HTTP_504: seq<Byte> := Text.Ascii("HTTP/1.1 504 Gateway Timeout\r\n\r\n")

  datatype ErrorType = Handshake | Connection | Response | Timeout | Tunnel

  function SuccessReply(p: Protocol): seq<Byte> {
    match p
    case HTTP => HTTP_OK
    case SOCKS4 => SOCKS4_OK
    case SOCKS5 => SOCKS5_OK
    case _ => []
  }

  /** `send_error_response`. */
  function ErrorReply(p: Protocol, e: ErrorType): seq<Byte> {
    match (p, e)
    case (HTTP, Handshake) => HTTP_400
    case (HTTP, Connection) => HTTP_502
    case (HTTP, Timeout) => HTTP_504
    case (SOCKS4, _) => SOCKS4_FAIL
    case (SOCKS5, _) => SOCKS5_FAIL
    case _ => []
  }

  // -------------------------------------------------------------- detection

  datatype Peek = Saw(visible: nat) | PeekFailed | PeekTimedOut

  /** The four-byte peek buffer, zero where nothing has arrived. */
  function PeekBuffer(c: Conn, visible: nat): (b: seq<Byte>)
    ensures |b| == 4
  {
    Padded(Peeked(c, 4, visible))
  }

  function Padded(seen: seq<Byte>): (b: seq<Byte>)
    requires |seen| <= 4
    ensures |b| == 4
  {
    seen + [0, 0, 0, 0][|seen|..]
  }

  /** "GET ", "POST", "PUT ", "HEAD", "DELE", "CONN" */
  predicate HttpVerb(b: seq<Byte>) {
    || b == [0x47, 0x45, 0x54, 0x20]
    || b == [0x50, 0x4F, 0x53, 0x54]
    || b == [0x50, 0x55, 0x54, 0x20]
    || b == [0x48, 0x45, 0x41, 0x44]
    || b == [0x44, 0x45, 0x4C, 0x45]
    || b == [0x43, 0x4F, 0x4E, 0x4E]
  }

  function DetectProtocol(b: seq<Byte>): Protocol
    requires |b| == 4
  {
    if HttpVerb(b) then HTTP
    else if b[0] == 0x16 then HTTPS
    else if b[0] == 0x05 then SOCKS5
    else if b[0] == 0x04 then SOCKS4
    else TCP
  }

  function Detected(c: Conn, peek: Peek): Protocol {
    match peek
    case Saw(visible) => DetectProtocol(PeekBuffer(c, visible))
    case _ => TCP
  }

  // ------------------------------------------------------------ the session

  datatype Dial = Connected | Unreachable | DialTimedOut

  /** `ioError` is whether an I/O error other than a client that stops accepting bytes may end the tunnel. */
  datatype Choices = Choices(
    firstPeek: Peek, authVisible: nat, secondPeek: Peek, sniVisible: nat,
    ahead: nat, giveUp: Option<nat>, dial: Dial, ioError: bool)

  /** A connection whose tunnel is about to start, one that is over, or one handed to TLS. */
  datatype Stage =
    | Opened(c: Conn, protocol: Protocol, target: Target)
    | Ended(c: Conn)
    | TlsUpgrade(c: Conn)

  /** `Ready` before the tunnel; afterwards its two byte counts, or the error that ended the connection. */
  datatype Handled =
    | Ready(c: Conn, protocol: Protocol, target: Target)
    | Served(c: Conn, sent: nat, received: nat)
    | Failed(c: Conn, protocol: Protocol, error: ErrorType)

  /** `parse_target_by_protocol`. */
  function ParseTarget(c: Conn, p: Protocol, ch: Choices): Parsed {
    match p
    case HTTP => Http.Parse(c, ch.ahead)
    case HTTPS => Sni.Parse(c, ch.sniVisible)
    case SOCKS4 => Socks4.Parse(c)
    case SOCKS5 => Socks5.Parse(c)
    case TCP => Framed.ParseTimed(c, ch.giveUp)
  }

  /** `async_handle_client` up to the tunnel. */
  function Handle(c: Conn, ch: Choices): Handled {
    var p := Detected(c, ch.secondPeek);
    var (t, c1) := ParseTarget(c, p, ch);
    if t.Err? then Failed(c1, p, Handshake)
    else Dialled(c1, p, t.value, ch.dial)
  }

  function Dialled(c: Conn, p: Protocol, t: Target, dial: Dial): Handled {
    match dial
    case DialTimedOut => Failed(c, p, Timeout)
    case Unreachable => Failed(c, p, Connection)
    case Connected =>
      var (sent, c1) := Send(c, SuccessReply(p));
      if sent then Ready(c1, p, t) else Failed(c1, p, Response)
  }

  function Authenticate(c: Conn, p: Protocol, cfg: Config, lib: Library, visible: nat): (Verdict, Conn) {
    match p
    case HTTP => HttpAuth.HttpAuth(c, cfg, lib, visible)
    case HTTPS => HttpAuth.HttpAuth(c, cfg, lib, visible)
    case SOCKS5 => Socks5Auth(c, cfg)
    case SOCKS4 => Socks4Auth(c, cfg)
    case TCP => (NotAuthenticated, c)
  }

  /** An error is answered once, except when the tunnel was already open. */
  function AfterError(c: Conn, p: Protocol, e: ErrorType): Conn {
    if e.Tunnel? then c else Send(c, ErrorReply(p, e)).1
  }

  function Conclude(h: Handled): Stage {
    match h
    case Ready(c, p, t) => Opened(c, p, t)
    case Served(c, _, _) => Ended(c)
    case Failed(c, p, e) => Ended(AfterError(c, p, e))
  }

  /** The first peek, the TLS decision and authentication: a connection to handle, or how it stopped. */
  datatype Admission = Admitted(c: Conn) | Stopped(stage: Stage)

  function Admit(c: Conn, cfg: Config, lib: Library, ch: Choices): Admission {
    if ch.firstPeek.PeekFailed? then Stopped(Ended(c))
    else
      var p := Detected(c, ch.firstPeek);
      if p.HTTPS? then Stopped(TlsUpgrade(c))
      else if cfg.requireCreds then
        var (v, c1) := Authenticate(c, p, cfg, lib, ch.authVisible);
        if v != Accepted then Stopped(Ended(c1)) else Admitted(c1)
      else Admitted(c)
  }

  /** `handle_client` up to the tunnel. */
  function HandleClient(c: Conn, cfg: Config, lib: Library, ch: Choices): Stage {
    match Admit(c, cfg, lib, ch)
    case Stopped(s) => s
    case Admitted(c1) => Conclude(Handle(c1, ch))
  }

  // --------------------------------------------------------------- the tunnel

  /** The client's connection after a tunnel: what was taken from it and what was delivered to it. */
  function Carried(c: Conn, t: Relay.Tunnel): Conn {
    Conn(c.rest[Min(t.toTarget.read, |c.rest|)..], c.output + t.toClient.sink,
         c.room - Min(|t.toClient.sink|, c.room))
  }

  /** `async_handle_client` behind the success reply: the tunnel's own result decides. */
  function Tunnelled(h: Handled, t: Relay.Tunnel): Handled {
    match h
    case Ready(c, p, _) =>
      (match Relay.Outcome(t)
       case Finished(sent, received) => Served(Carried(c, t), sent, received)
       case _ => Failed(Carried(c, t), p, Tunnel))
    case _ => h
  }

  /** `handle_client`, tunnel included. */
  function Finish(c: Conn, cfg: Config, lib: Library, ch: Choices, t: Relay.Tunnel): Stage {
    match Admit(c, cfg, lib, ch)
    case Stopped(s) => s
    case Admitted(c1) => Conclude(Tunnelled(Handle(c1, ch), t))
  }

  /**
   `t` is where some schedule of a tunnel on `c` ended; the client never takes more than it has room for, and the tunnel
   breaks only by an I/O error or for want of room.
   */
  ghost predicate TunnelRun(c: Conn, fromTarget: seq<Byte>, steps: seq<Relay.Step>, t: Relay.Tunnel, ioError: bool) {
    && Relay.Schedule(Relay.Open(c.rest, fromTarget), steps)
    && t == Relay.Run(Relay.Open(c.rest, fromTarget), steps)
    && !Relay.Outcome(t).Running?
    && |t.toClient.sink| <= c.room
    && (Relay.Outcome(t).Broken? ==> ioError || c.room < |fromTarget|)
  }

  /** A finished run of the whole handler: its tunnel, if one was opened, ran to its end. */
  ghost predicate FinishedRun(c: Conn, cfg: Config, lib: Library, ch: Choices,
                              fromTarget: seq<Byte>, steps: seq<Relay.Step>, t: Relay.Tunnel) {
    var s := HandleClient(c, cfg, lib, ch);
    s.Opened? ==> TunnelRun(s.c, fromTarget, steps, t, ch.ioError)
  }

  /** What one step of the tunnel does to the client's connection. */
  lemma CarriedStep(c: Conn, t: Relay.Tunnel, s: Relay.Step)
    requires Relay.CanStep(t, s) && t.toTarget.source == c.rest && t.toTarget.read <= |c.rest|
    requires |t.toClient.sink| <= c.room
    requires s.side.ToClient? && s.event.Write? ==> s.event.n <= Carried(c, t).room
    ensures Carried(c, Relay.Advance(t, s)) ==
      if s.side.ToTarget? && s.event.Read? then Recv(Carried(c, t), s.event.n).1
      else if s.side.ToClient? && s.event.Write? then Send(Carried(c, t), t.toClient.pending[..s.event.n]).1
      else Carried(c, t)
    ensures |Relay.Advance(t, s).toClient.sink| <= c.room
    ensures Relay.Advance(t, s).toTarget.source == c.rest && Relay.Advance(t, s).toTarget.read <= |c.rest|
  {
    if s.side.ToTarget? && s.event.Read? {
      assert c.rest[t.toTarget.read..][s.event.n..] == c.rest[t.toTarget.read + s.event.n..];
    } else if s.side.ToClient? && s.event.Write? {
      SendFits(Carried(c, t), t.toClient.pending[..s.event.n]);
      Associate(c.output, t.toClient.sink, t.toClient.pending[..s.event.n]);
    }
  }

  // --------------------------------------------------------- implementation

  method ParseTargetByProtocol(stream: ClientStream, p: Protocol, ch: Choices)
    returns (r: Result<Target, Fault>, ghost ahead: nat)
    requires stream.Valid()
    modifies stream
    ensures stream.Valid() && ahead < Http.BUFFER
    ensures (r, stream.View()) == ParseTarget(old(stream.View()), p, ch.(ahead := ahead))
  {
    ahead := 0;
    match p {
      case HTTP => r, ahead := Http.ParseTarget(stream);
      case HTTPS => r := Sni.ParseTarget(stream, ch.sniVisible);
      case SOCKS4 => r := Socks4.ParseTarget(stream);
      case SOCKS5 => r := Socks5.ParseTarget(stream);
      case TCP => r := Framed.ParseTarget(stream, ch.giveUp);
    }
  }

  method Detect(stream: ClientStream, peek: Peek) returns (p: Protocol)
    requires stream.Valid()
    ensures p == Detected(stream.View(), peek)
  {
    hide DetectProtocol, Padded;
    if peek.Saw? {
      var seen := stream.Peek(4, peek.visible);
      p := DetectProtocol(Padded(seen));
    } else {
      p := TCP;
    }
  }

  method AuthenticateByProtocol(stream: ClientStream, p: Protocol, cfg: Config, lib: Library, visible: nat)
    returns (v: Verdict)
    requires stream.Valid()
    modifies stream
    ensures stream.Valid() && (v, stream.View()) == Authenticate(old(stream.View()), p, cfg, lib, visible)
  {
    match p {
      case HTTP => v := HttpAuth.AuthenticateHttp(stream, cfg, lib, visible);
      case HTTPS => v := HttpAuth.AuthenticateHttp(stream, cfg, lib, visible);
      case SOCKS5 => v := AuthenticateSocks5(stream, cfg);
      case SOCKS4 => v := AuthenticateSocks4(stream, cfg);
      case TCP => v := NotAuthenticated;
    }
  }

  /** Any step a tunnel can take when the client accepts `room` more bytes. */
  method ChooseStep(t: Relay.Tunnel, room: nat, ioError: bool) returns (s: Relay.Step)
    requires Relay.Outcome(t).Running? && Relay.Inv(t.toTarget) && Relay.Inv(t.toClient)
    ensures Relay.CanStep(t, s)
    ensures s.event.Fault? ==> ioError || (room == 0 && t.toClient.pending != [])
    ensures s.side.ToClient? && s.event.Write? ==> s.event.n <= room
  {
    var side := Relay.ToTarget;
    if t.toTarget.phase.Done? {
      side := Relay.ToClient;
    } else if !t.toClient.phase.Done? {
      if * { side := Relay.ToClient; }
    }
    var d := Relay.Half(t, side);
    var event := Relay.Fault;
    var fails := false;
    if ioError {
      if * { fails := true; }
    }
    if !fails {
      match d.phase {
        case Reading =>
          event := Relay.Eof;
          if d.read < |d.source| {
            var bound := Min(Relay.BUFFER, |d.source| - d.read);
            var n :| 1 <= n <= bound;
            event := Relay.Read(n);
          }
        case Writing =>
          var bound := if side.ToClient? then Min(|d.pending|, room) else |d.pending|;
          if bound > 0 {
            var n :| 1 <= n <= bound;
            event := Relay.Write(n);
          }
        case _ => event := Relay.Close;
      }
    }
    s := Relay.Step(side, event);
  }

  /** `create_bidirectional_tunnel` on the client's stream: the two loops interleave in any way until one ends it. */
  method CreateBidirectionalTunnel(stream: ClientStream, fromTarget: seq<Byte>, ioError: bool)
    returns (t: Relay.Tunnel, ghost steps: seq<Relay.Step>)
    requires stream.Valid()
    modifies stream
    ensures stream.Valid() && TunnelRun(old(stream.View()), fromTarget, steps, t, ioError)
    ensures stream.View() == Carried(old(stream.View()), t)
  {
    hide Relay.Schedule, Relay.Run, Relay.Inv, Relay.Work, Relay.Outcome, Relay.Apply, Relay.Enabled;
    ghost var c := stream.View();
    var fromClient := stream.input[stream.pos..];
    t := Relay.Open(fromClient, fromTarget);
    steps := [];
    NothingCarried(c, fromTarget);
    while Relay.Outcome(t).Running?
      invariant stream.Valid() && stream.View() == Carried(c, t)
      invariant Relay.Schedule(Relay.Open(c.rest, fromTarget), steps)
      invariant t == Relay.Run(Relay.Open(c.rest, fromTarget), steps)
      invariant t.toTarget.source == c.rest && t.toTarget.read <= |c.rest| && |t.toClient.sink| <= c.room
      invariant Relay.Outcome(t).Broken? ==> ioError || c.room < |fromTarget|
      decreases Relay.Work(t.toTarget) + Relay.Work(t.toClient)
    {
      Relay.RunKeepsInv(c.rest, fromTarget, steps);
      var s := ChooseStep(t, stream.room, ioError);
      Relay.BreaksOnFault(t, s);
      NoRoomLeft(c, t);
      CarriedStep(c, t, s);
      Relay.AdvanceWorks(t, s);
      Relay.RunStep(Relay.Open(c.rest, fromTarget), steps, s);
      if s.side.ToTarget? && s.event.Read? {
        var _ := stream.ReadExact(s.event.n);
      } else if s.side.ToClient? && s.event.Write? {
        WritePending(t, s);
        var _ := stream.WriteAll(t.toClient.pending[..s.event.n]);
      }
      t := Relay.Advance(t, s);
      steps := steps + [s];
    }
  }

  lemma NothingCarried(c: Conn, fromTarget: seq<Byte>)
    ensures Carried(c, Relay.Open(c.rest, fromTarget)) == c
    ensures Relay.Schedule(Relay.Open(c.rest, fromTarget), [])
    ensures Relay.Run(Relay.Open(c.rest, fromTarget), []) == Relay.Open(c.rest, fromTarget)
    ensures Relay.Outcome(Relay.Open(c.rest, fromTarget)).Running?
  {
    assert c.output + [] == c.output;
  }

  /** Bytes that wait for a client without room are more than it had room for. */
  lemma NoRoomLeft(c: Conn, t: Relay.Tunnel)
    requires Relay.Inv(t.toClient) && |t.toClient.sink| <= c.room
    ensures Carried(c, t).room == 0 && t.toClient.pending != [] ==> c.room < |t.toClient.source|
  {
    assert |t.toClient.sink + t.toClient.pending| <= |t.toClient.source|;
  }

  lemma WritePending(t: Relay.Tunnel, s: Relay.Step)
    requires Relay.CanStep(t, s) && s.side.ToClient? && s.event.Write?
    ensures s.event.n <= |t.toClient.pending|
  {
  }

  /** How `async_handle_client` returns. */
  datatype Exit = Completed(sent: nat, received: nat) | Faulted(protocol: Protocol, error: ErrorType)

  method AsyncHandleClient(stream: ClientStream, ch: Choices, fromTarget: seq<Byte>)
    returns (exit: Exit, ghost ahead: nat, ghost t: Relay.Tunnel, ghost steps: seq<Relay.Step>)
    requires stream.Valid()
    modifies stream
    ensures stream.Valid() && ahead < Http.BUFFER
    ensures var h := Handle(old(stream.View()), ch.(ahead := ahead));
      h.Ready? ==> TunnelRun(h.c, fromTarget, steps, t, ch.ioError)
    ensures match Tunnelled(Handle(old(stream.View()), ch.(ahead := ahead)), t)
      case Ready(_, _, _) => false
      case Served(c, sent, received) => stream.View() == c && exit == Completed(sent, received)
      case Failed(c, p, e) => stream.View() == c && exit == Faulted(p, e)
  {
    hide ParseTarget, DetectProtocol, TunnelRun, Carried, SuccessReply;
    t, steps := Relay.Open([], []), [];
    var p := Detect(stream, ch.secondPeek);
    var r;
    r, ahead := ParseTargetByProtocol(stream, p, ch);
    if r.Err? { return Faulted(p, Handshake), ahead, t, steps; }
    match ch.dial {
      case DialTimedOut => exit := Faulted(p, Timeout);
      case Unreachable => exit := Faulted(p, Connection);
      case Connected =>
        var sent := stream.WriteAll(SuccessReply(p));
        if !sent { return Faulted(p, Response), ahead, t, steps; }
        var tunnel;
        tunnel, steps := CreateBidirectionalTunnel(stream, fromTarget, ch.ioError);
        t := tunnel;
        match Relay.Outcome(tunnel) {
          case Finished(a, b) => exit := Completed(a, b);
          case _ => exit := Faulted(p, Tunnel);
        }
    }
  }

  /** Whether the connection was handled to its end or handed to TLS. */
  datatype Closing = Closed | Upgrading

  /** `handle_client` on the mutable stream, tunnel included. */
  method HandleStream(stream: ClientStream, cfg: Config, lib: Library, ch: Choices, fromTarget: seq<Byte>)
    returns (r: Closing, ghost ahead: nat, ghost t: Relay.Tunnel, ghost steps: seq<Relay.Step>)
    requires stream.Valid()
    modifies stream
    ensures stream.Valid() && ahead < Http.BUFFER
    ensures FinishedRun(old(stream.View()), cfg, lib, ch.(ahead := ahead), fromTarget, steps, t)
    ensures match Finish(old(stream.View()), cfg, lib, ch.(ahead := ahead), t)
      case Ended(c) => stream.View() == c && r == Closed
      case TlsUpgrade(c) => stream.View() == c && r == Upgrading
      case Opened(_, _, _) => false
  {
    hide Handle, Authenticate, DetectProtocol, TunnelRun, ErrorReply, Carried;
    ahead, t, steps := 0, Relay.Open([], []), [];
    r := Closed;
    if ch.firstPeek.PeekFailed? { return; }
    var protocol := Detect(stream, ch.firstPeek);
    if protocol == HTTPS { r := Upgrading; return; }
    if cfg.requireCreds {
      var v := AuthenticateByProtocol(stream, protocol, cfg, lib, ch.authVisible);
      if v != Accepted { return; }
    }
    var exit;
    exit, ahead, t, steps := AsyncHandleClient(stream, ch, fromTarget);
    if exit.Faulted? && exit.error != Tunnel {
      var _ := stream.WriteAll(ErrorReply(exit.protocol, exit.error));
    }
  }
}
