/** The length-framed `host:port` protocol read by `parse_target`. */
module Framed {
  import opened Bytes
  import opened Wire
  import opened Protocol
  import Text
  import Utf8

  const MAX_LENGTH: nat := 1024

  // ---------------------------------------------------------- specification

  function ParseBody(s: seq<Byte>): Result<Target, Fault> {
    if !Utf8.Valid(s) then Err(InvalidUtf8)
    else
      var parts := Text.Split(s, Text.COLON);
      if |parts| != 2 then Err(InvalidFormat)
      else match Text.ParseU16(parts[1])
        case None => Err(InvalidPort)
        case Some(port) => Ok(Target(Name(parts[0]), port))
  }

  function Parse(c: Conn): Parsed {
    var (head, c1) := Recv(c, 2);
    if head.None? then (Err(UnexpectedEof), c1)
    else
      var length := FromBE16(head.value[0], head.value[1]);
      if length == 0 || length > MAX_LENGTH then (Err(InvalidLength), c1)
      else
        var (body, c2) := Recv(c1, length);
        if body.None? then (Err(UnexpectedEof), c2) else (ParseBody(body.value), c2)
  }

  // --------------------------------------------------------------- encoding

  function Frame(body: seq<Byte>): seq<Byte>
    requires |body| < 0x1_0000
  {
    BE16(|body|) + body
  }

  // --------------------------------------------------------------- theorems

  lemma FrameRoundTrip(body: seq<Byte>, payload: seq<Byte>, c: Conn)
    requires 1 <= |body| <= MAX_LENGTH && c.rest == Frame(body) + payload
    ensures Parse(c) == (ParseBody(body), c.(rest := payload))
  {
    var head := BE16(|body|);
    hide ParseBody;
    assert c.rest == head + (body + payload);
    RecvAppend(head, body + payload, c.output, c.room);
    RecvAppend(body, payload, c.output, c.room);
  }

  /** A body is accepted exactly when it is valid text with one colon and a number after it. */
  lemma BodyAccepted(s: seq<Byte>, host: seq<Byte>, port: U16)
    ensures ParseBody(s) == Ok(Target(Name(host), port))
       <==> Utf8.Valid(s) && exists digits ::
              s == host + [Text.COLON] + digits && Text.COLON !in host && Text.COLON !in digits
              && Text.ParseU16(digits) == Some(port)
  {
    var parts := Text.Split(s, Text.COLON);
    Text.JoinSplit(s, Text.COLON);
    if |parts| == 2 {
      assert Text.Join(parts, Text.COLON) == parts[0] + [Text.COLON] + parts[1];
    }
    forall digits | s == host + [Text.COLON] + digits && Text.COLON !in host && Text.COLON !in digits
      ensures parts == [host, digits]
    {
      Text.SplitFirst(host, digits, Text.COLON);
    }
  }

  /** Which fault a body that is not accepted has: its encoding, its number of colons, or its port. */
  lemma BodyFault(s: seq<Byte>)
    ensures ParseBody(s).Err? ==>
      ParseBody(s).error == if !Utf8.Valid(s) then InvalidUtf8
                            else if multiset(s)[Text.COLON] != 1 then InvalidFormat
                            else InvalidPort
    ensures ParseBody(s).Ok? ==> Utf8.Valid(s) && multiset(s)[Text.COLON] == 1
  {
    hide Utf8.Valid, Text.ParseU16;
    Text.SplitCount(s, Text.COLON);
  }

  /** What a frame comes to, by the positions of its bytes. */
  function OutcomeOf(s: seq<Byte>): Result<Target, Fault> {
    if |s| < 2 then Err(UnexpectedEof)
    else
      var n: nat := FromBE16(s[0], s[1]);
      if !(1 <= n <= 1024) then Err(InvalidLength)
      else if |s| < 2 + n then Err(UnexpectedEof)
      else ParseBody(s[2..2 + n])
  }

  /** Every input is answered by its target or the exact fault, and nothing is replied. */
  lemma ParsedExactly(c: Conn)
    ensures Parse(c).0 == OutcomeOf(c.rest)
    ensures Parse(c).1.output == c.output && Parse(c).1.room == c.room
  {
    hide ParseBody, FromBE16;
    var s := c.rest;
    if |s| >= 2 {
      var n: nat := FromBE16(s[0], s[1]);
      if |s| >= 2 + n {
        assert s[2..][..n] == s[2..2 + n];
      }
    }
  }

  /** Framing `{host}:{port}` and parsing it gives the same host and port back. */
  lemma RoundTrip(host: seq<Byte>, port: U16, payload: seq<Byte>, c: Conn)
    requires Utf8.Valid(host) && Text.COLON !in host
    requires |Text.HostPort(host, port)| <= MAX_LENGTH
    requires c.rest == Frame(Text.HostPort(host, port)) + payload
    ensures Parse(c) == (Ok(Target(Name(host), port)), c.(rest := payload))
  {
    FrameRoundTrip(Text.HostPort(host, port), payload, c);
    Text.HostPortIsValid(host, port);
    Text.SplitHostPort(host, port);
    Text.ParseDecimal(port);
  }

  /** Every accepted input is a frame followed by what is left unread. */
  lemma AcceptedIsFrame(c: Conn) returns (body: seq<Byte>)
    requires Parse(c).0.Ok?
    ensures 1 <= |body| <= 1024 && ParseBody(body) == Parse(c).0
    ensures c.rest == Frame(body) + Parse(c).1.rest
    ensures Parse(c).1 == c.(rest := Parse(c).1.rest)
  {
    hide BE16, FromBE16, ParseBody;
    var (head, c1) := Recv(c, 2);
    var h := head.value;
    body := Recv(c1, FromBE16(h[0], h[1])).0.value;
    RecvSplits(c, 2);
    RecvSplits(c1, |body|);
    BE16Inverse(h[0], h[1]);
    assert h == [h[0], h[1]];
  }

  /** A successful parse does not depend on the bytes behind the handshake. */
  lemma IsLocal(c: Conn, more: seq<Byte>)
    requires Parse(c).0.Ok?
    ensures Parse(Extend(c, more)) == (Parse(c).0, Extend(Parse(c).1, more))
  {
    hide Parse, Frame;
    var body := AcceptedIsFrame(c);
    var left := Parse(c).1.rest;
    assert Extend(c, more).rest == Frame(body) + (left + more);
    FrameRoundTrip(body, left + more, Extend(c, more));
  }

  /** No strict prefix of a frame is accepted. */
  lemma StrictPrefixFails(body: seq<Byte>, n: nat, c: Conn)
    requires 1 <= |body| <= MAX_LENGTH && n < |Frame(body)| && c.rest == Frame(body)[..n]
    ensures Parse(c).0.Err?
  {
    hide Parse, Frame, ParseBody;
    if Parse(c).0.Ok? {
      var frame := Frame(body);
      IsLocal(c, frame[n..]);
      assert frame[..n] + frame[n..] == frame + [];
      FrameRoundTrip(body, [], Extend(c, frame[n..]));
    }
  }

  // --------------------------------------------------------- implementation

  /** `giveUp` is the five-second timer: it fires after that many further bytes were taken. */
  method ParseTarget(stream: ClientStream, giveUp: Option<nat>) returns (r: Result<Target, Fault>)
    requires stream.Valid()
    modifies stream
    ensures stream.Valid() && (r, stream.View()) == ParseTimed(old(stream.View()), giveUp)
  {
    if giveUp.Some? {
      var _ := stream.ReadExact(giveUp.value);
      return Err(TimedOut);
    }
    var head := stream.ReadExact(2);
    if head.None? { return Err(UnexpectedEof); }
    var length := FromBE16(head.value[0], head.value[1]);
    if length == 0 || length > MAX_LENGTH { return Err(InvalidLength); }
    var body := stream.ReadExact(length);
    if body.None? { return Err(UnexpectedEof); }
    r := ParseBody(body.value);
  }

  function ParseTimed(c: Conn, giveUp: Option<nat>): Parsed {
    if giveUp.Some? then (Err(TimedOut), Recv(c, giveUp.value).1) else Parse(c)
  }
}
