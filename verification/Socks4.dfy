/** SOCKS4 CONNECT requests as `parse_socks4_target` reads them. */
module Socks4 {
  import opened Bytes
  import opened Wire
  import opened Protocol
  import Text

  // ---------------------------------------------------------- specification

  /** The bytes before the first NUL; the NUL is consumed, and without one the stream is drained. */
  function RecvUserId(c: Conn): (Option<seq<Byte>>, Conn) {
    if 0 in c.rest then
      var i := Text.IndexOf(c.rest, 0);
      (Some(c.rest[..i]), c.(rest := c.rest[i + 1..]))
    else (None, c.(rest := []))
  }

  function Parse(c: Conn): Parsed {
    var (head, c1) := Recv(c, 8);
    if head.None? then (Err(UnexpectedEof), c1)
    else
      var h := head.value;
      if h[0] != 0x04 then (Err(InvalidVersion), c1)
      else if h[1] != 0x01 then (Err(OnlyConnect), c1)
      else
        var (user, c2) := RecvUserId(c1);
        if user.None? then (Err(UnexpectedEof), c2)
        else (Ok(Target(Name(Text.Dotted(h[4], h[5], h[6], h[7])), FromBE16(h[2], h[3]))), c2)
  }

  // --------------------------------------------------------------- encoding

  datatype Request = Request(port: U16, a: Byte, b: Byte, c: Byte, d: Byte, user: seq<Byte>)

  predicate Encodable(r: Request) {
    0 !in r.user
  }

  function Head(command: Byte, r: Request): (s: seq<Byte>)
    ensures |s| == 8
  {
    [0x04, command] + BE16(r.port) + [r.a, r.b, r.c, r.d]
  }

  function Encode(command: Byte, r: Request): seq<Byte> {
    Head(command, r) + r.user + [0]
  }

  /** The four octets in decimal with dots between them, and the port. */
  function TargetOf(r: Request): Target {
    Target(Name(Text.Join([Text.Decimal(r.a), Text.Decimal(r.b), Text.Decimal(r.c), Text.Decimal(r.d)], Text.DOT)),
           r.port)
  }

  lemma FirstByte(command: Byte, r: Request, tail: seq<Byte>)
    ensures |Encode(command, r) + tail| >= 1 && (Encode(command, r) + tail)[0] == 0x04
  {
    hide BE16;
  }

  // --------------------------------------------------------------- theorems

  lemma UserIdRoundTrip(user: seq<Byte>, payload: seq<Byte>, c: Conn)
    requires 0 !in user && c.rest == user + [0] + payload
    ensures RecvUserId(c) == (Some(user), c.(rest := payload))
  {
    assert c.rest[|user|] == 0;
    Text.IndexOfAppend(user, payload, 0);
    assert c.rest[..|user|] == user && c.rest[|user| + 1..] == payload;
  }

  lemma UserIdSplits(c: Conn)
    requires RecvUserId(c).0.Some?
    ensures 0 !in RecvUserId(c).0.value
    ensures c.rest == RecvUserId(c).0.value + [0] + RecvUserId(c).1.rest
  {
    var i := Text.IndexOf(c.rest, 0);
    assert c.rest == c.rest[..i] + [c.rest[i]] + c.rest[i + 1..];
  }

  /** Parsing an encoding returns its target, replies nothing and consumes exactly the encoding. */
  lemma RoundTrip(r: Request, payload: seq<Byte>, c: Conn)
    requires Encodable(r) && c.rest == Encode(0x01, r) + payload
    ensures Parse(c) == (Ok(TargetOf(r)), c.(rest := payload))
    ensures Text.Split(TargetOf(r).host.text, Text.DOT)
         == [Text.Decimal(r.a), Text.Decimal(r.b), Text.Decimal(r.c), Text.Decimal(r.d)]
  {
    hide Head, RecvUserId, FromBE16, Text.Dotted, Text.Join, Text.Split;
    Text.DottedSplits(r.a, r.b, r.c, r.d);
    var head, tail := Head(0x01, r), r.user + [0] + payload;
    assert c.rest == head + tail;
    RecvAppend(head, tail, c.output, c.room);
    UserIdRoundTrip(r.user, payload, c.(rest := tail));
    HeadFields(0x01, r);
  }

  lemma HeadFields(command: Byte, r: Request)
    ensures var h := Head(command, r);
      h[0] == 0x04 && h[1] == command && FromBE16(h[2], h[3]) == r.port
      && h[4] == r.a && h[5] == r.b && h[6] == r.c && h[7] == r.d
  {
    var p := BE16(r.port);
    hide BE16, FromBE16;
  }

  /** Every accepted input is an encoding followed by what is left unread. */
  lemma AcceptedIsEncoding(c: Conn) returns (r: Request)
    requires Parse(c).0.Ok?
    ensures Encodable(r) && c.rest == Encode(0x01, r) + Parse(c).1.rest
    ensures Parse(c) == (Ok(TargetOf(r)), c.(rest := Parse(c).1.rest))
  {
    hide Head, RecvUserId, FromBE16, Text.Dotted, Text.Join;
    var (head, c1) := Recv(c, 8);
    var h := head.value;
    RecvSplits(c, 8);
    UserIdSplits(c1);
    var (user, c2) := RecvUserId(c1);
    r := Request(FromBE16(h[2], h[3]), h[4], h[5], h[6], h[7], user.value);
    Text.DottedSplits(r.a, r.b, r.c, r.d);
    HeadOf(h, 0x01, r);
    Associate(h, user.value + [0], c2.rest);
    Associate(h, user.value, [0]);
    KeepsOutput(c1);
  }

  lemma HeadOf(h: seq<Byte>, command: Byte, r: Request)
    requires |h| == 8 && h[0] == 0x04 && h[1] == command && r.port == FromBE16(h[2], h[3])
    requires r.a == h[4] && r.b == h[5] && r.c == h[6] && r.d == h[7]
    ensures h == Head(command, r)
  {
    hide BE16, FromBE16;
    BE16Inverse(h[2], h[3]);
    assert h == [0x04, command] + [h[2], h[3]] + [h[4], h[5], h[6], h[7]];
  }

  lemma KeepsOutput(c: Conn)
    ensures RecvUserId(c).1 == c.(rest := RecvUserId(c).1.rest)
  {
  }

  /** A successful parse does not depend on the bytes behind the handshake. */
  lemma IsLocal(c: Conn, more: seq<Byte>)
    requires Parse(c).0.Ok?
    ensures Parse(Extend(c, more)) == (Parse(c).0, Extend(Parse(c).1, more))
  {
    hide Parse, Encode, TargetOf, Encodable, Text.Split, Text.Decimal;
    var r := AcceptedIsEncoding(c);
    var left := Parse(c).1.rest;
    RoundTrip(r, left, c);
    assert Extend(c, more).rest == Encode(0x01, r) + (left + more);
    RoundTrip(r, left + more, Extend(c, more));
  }

  /** No strict prefix of an encoding is accepted. */
  lemma StrictPrefixFails(r: Request, n: nat, c: Conn)
    requires Encodable(r) && n < |Encode(0x01, r)| && c.rest == Encode(0x01, r)[..n]
    ensures Parse(c).0.Err?
  {
    hide Parse, Encode;
    if Parse(c).0.Ok? {
      var enc := Encode(0x01, r);
      IsLocal(c, enc[n..]);
      assert enc[..n] + enc[n..] == enc + [];
      RoundTrip(r, [], Extend(c, enc[n..]));
    }
  }

  /** What a request comes to, by the positions of its bytes. */
  function OutcomeOf(s: seq<Byte>): Result<Target, Fault> {
    if |s| < 8 then Err(UnexpectedEof)
    else if s[0] != 0x04 then Err(InvalidVersion)
    else if s[1] != 0x01 then Err(OnlyConnect)
    else if 0x00 !in s[8..] then Err(UnexpectedEof)
    else Ok(TargetOf(Request(FromBE16(s[2], s[3]), s[4], s[5], s[6], s[7], [])))
  }

  /** Every input is answered by its target or the exact fault. */
  lemma ParsedExactly(c: Conn)
    ensures Parse(c).0 == OutcomeOf(c.rest)
    ensures Parse(c).1.output == c.output && Parse(c).1.room == c.room
  {
    hide Text.Dotted, Text.Join, Text.Decimal, FromBE16;
    if |c.rest| >= 8 {
      Text.DottedSplits(c.rest[4], c.rest[5], c.rest[6], c.rest[7]);
    }
  }

  // --------------------------------------------------------- implementation

  /** The byte-at-a-time loop that pushes onto `user_id` until a NUL. */
  method ReadUserId(stream: ClientStream) returns (user: Option<seq<Byte>>)
    requires stream.Valid()
    modifies stream
    ensures stream.Valid() && (user, stream.View()) == RecvUserId(old(stream.View()))
  {
    hide RecvUserId;
    ghost var start := stream.View();
    var id: seq<Byte> := [];
    while true
      invariant stream.Valid() && 0 !in id
      invariant start.rest == id + stream.View().rest
      invariant stream.View() == start.(rest := stream.View().rest)
      decreases |stream.input| - stream.pos
    {
      ghost var before := stream.View().rest;
      var byte := stream.ReadExact(1);
      if byte.None? {
        assert start.rest == id;
        NoUserId(start);
        return None;
      }
      ghost var rest := stream.View().rest;
      assert before == [byte.value[0]] + rest;
      Associate(id, [byte.value[0]], rest);
      if byte.value[0] == 0 {
        UserIdRoundTrip(id, rest, start);
        return Some(id);
      }
      id := id + [byte.value[0]];
    }
  }

  lemma NoUserId(c: Conn)
    requires 0 !in c.rest
    ensures RecvUserId(c) == (None, c.(rest := []))
  {
  }

  method ParseTarget(stream: ClientStream) returns (r: Result<Target, Fault>)
    requires stream.Valid()
    modifies stream
    ensures stream.Valid() && (r, stream.View()) == Parse(old(stream.View()))
  {
    var head := stream.ReadExact(8);
    if head.None? { return Err(UnexpectedEof); }
    var h := head.value;
    if h[0] != 0x04 { return Err(InvalidVersion); }
    if h[1] != 0x01 { return Err(OnlyConnect); }
    var user := ReadUserId(stream);
    if user.None? { return Err(UnexpectedEof); }
    r := Ok(Target(Name(Text.Dotted(h[4], h[5], h[6], h[7])), FromBE16(h[2], h[3])));
  }
}
