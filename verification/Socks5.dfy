/** SOCKS5 (sections 3 to 6 of RFC 1928) as `parse_socks5_target` reads it. */
module Socks5 {
  import opened Bytes
  import opened Wire
  import opened Protocol
  import Text
  import Utf8

  const METHOD_REPLY: seq<Byte> := [0x05, 0x00]

  // ---------------------------------------------------------- specification

  function Parse(c: Conn): Parsed {
    var (fault, c1) := Negotiate(c);
    if fault.Some? then (Err(fault.value), c1) else ParseRequest(c1)
  }

  /** The greeting and the reply to it. */
  function Negotiate(c: Conn): (Option<Fault>, Conn) {
    var (head, c1) := Recv(c, 2);
    if head.None? then (Some(UnexpectedEof), c1)
    else if head.value[0] != 0x05 then (Some(InvalidVersion), c1)
    else
      var (methods, c2) := Recv(c1, head.value[1]);
      if methods.None? then (Some(UnexpectedEof), c2)
      else
        var (sent, c3) := Send(c2, METHOD_REPLY);
        (if sent then None else Some(WriteFailed), c3)
  }

  function ParseRequest(c: Conn): Parsed {
    var (req, c1) := Recv(c, 4);
    if req.None? then (Err(UnexpectedEof), c1)
    else if req.value[0] != 0x05 || req.value[1] != 0x01 then (Err(InvalidRequest), c1)
    else ParseAddress(c1, req.value[3])
  }

  function ParseAddress(c: Conn, kind: Byte): Parsed {
    match kind
    case 0x01 => ParseIpv4(c)
    case 0x03 => ParseDomain(c)
    case 0x04 => ParseIpv6(c)
    case _ => (Err(UnsupportedAddress), c)
  }

  function ParseIpv4(c: Conn): Parsed {
    var (b, c1) := Recv(c, 6);
    if b.None? then (Err(UnexpectedEof), c1)
    else
      var s := b.value;
      (Ok(Target(Name(Text.Dotted(s[0], s[1], s[2], s[3])), FromBE16(s[4], s[5]))), c1)
  }

  function ParseDomain(c: Conn): Parsed {
    var (len, c1) := Recv(c, 1);
    if len.None? then (Err(UnexpectedEof), c1)
    else
      var (name, c2) := Recv(c1, len.value[0]);
      if name.None? then (Err(UnexpectedEof), c2)
      else if !Utf8.Valid(name.value) then (Err(InvalidDomain), c2)
      else
        var (port, c3) := Recv(c2, 2);
        if port.None? then (Err(UnexpectedEof), c3)
        else (Ok(Target(Name(name.value), FromBE16(port.value[0], port.value[1]))), c3)
  }

  function ParseIpv6(c: Conn): Parsed {
    var (b, c1) := Recv(c, 18);
    if b.None? then (Err(UnexpectedEof), c1)
    else (Ok(Target(Ipv6(b.value[..16]), FromBE16(b.value[16], b.value[17]))), c1)
  }

  // --------------------------------------------------------------- encoding

  datatype Address =
    | V4(a: Byte, b: Byte, c: Byte, d: Byte)
    | Domain(name: seq<Byte>)
    | V6(address: seq<Byte>)

  predicate Encodable(addr: Address) {
    match addr
    case V4(_, _, _, _) => true
    case Domain(name) => |name| <= 255 && Utf8.Valid(name)
    case V6(address) => |address| == 16
  }

  function AddressType(addr: Address): Byte {
    match addr
    case V4(_, _, _, _) => 0x01
    case Domain(_) => 0x03
    case V6(_) => 0x04
  }

  function AddressBytes(addr: Address): seq<Byte>
    requires Encodable(addr)
  {
    match addr
    case V4(a, b, c, d) => [a, b, c, d]
    case Domain(name) => [|name|] + name
    case V6(address) => address
  }

  /** The greeting of section 3 of RFC 1928. */
  function Greeting(methods: seq<Byte>): seq<Byte>
    requires |methods| <= 255
  {
    [0x05, |methods|] + methods
  }

  /** The CONNECT request of section 4 of RFC 1928. */
  function Request(reserved: Byte, addr: Address, port: U16): seq<Byte>
    requires Encodable(addr)
  {
    [0x05, 0x01, reserved, AddressType(addr)] + AddressBytes(addr) + BE16(port)
  }

  function Encode(methods: seq<Byte>, reserved: Byte, addr: Address, port: U16): seq<Byte>
    requires |methods| <= 255 && Encodable(addr)
  {
    Greeting(methods) + Request(reserved, addr, port)
  }

  function TargetOf(addr: Address, port: U16): Target {
    match addr
    case V4(a, b, c, d) =>
      Target(Name(Text.Join([Text.Decimal(a), Text.Decimal(b), Text.Decimal(c), Text.Decimal(d)], Text.DOT)), port)
    case Domain(name) => Target(Name(name), port)
    case V6(address) => Target(Ipv6(address), port)
  }

  lemma FirstByte(methods: seq<Byte>, tail: seq<Byte>)
    requires |methods| <= 255
    ensures |Greeting(methods) + tail| >= 1 && (Greeting(methods) + tail)[0] == 0x05
  {
  }

  lemma GreetingFirst(methods: seq<Byte>, reserved: Byte, addr: Address, port: U16, payload: seq<Byte>)
    requires |methods| <= 255 && Encodable(addr)
    ensures Encode(methods, reserved, addr, port) + payload
         == Greeting(methods) + (Request(reserved, addr, port) + payload)
  {
    hide Greeting, Request;
    Associate(Greeting(methods), Request(reserved, addr, port), payload);
  }

  // --------------------------------------------------------------- theorems

  lemma AddressRoundTrip(addr: Address, port: U16, payload: seq<Byte>, c: Conn)
    requires Encodable(addr)
    requires c.rest == AddressBytes(addr) + BE16(port) + payload
    ensures ParseAddress(c, AddressType(addr)) == (Ok(TargetOf(addr, port)), c.(rest := payload))
  {
    var p := BE16(port);
    match addr {
      case V4(a, b, c', d) =>
        Text.DottedSplits(a, b, c', d);
        RecvAppend(AddressBytes(addr) + p, payload, c.output, c.room);
      case V6(address) =>
        RecvAppend(address + p, payload, c.output, c.room);
        assert (address + p)[..16] == address;
      case Domain(name) =>
        DomainRoundTrip(name, port, payload, c);
    }
  }

  lemma DomainRoundTrip(name: seq<Byte>, port: U16, payload: seq<Byte>, c: Conn)
    requires Encodable(Domain(name))
    requires c.rest == AddressBytes(Domain(name)) + BE16(port) + payload
    ensures ParseDomain(c) == (Ok(Target(Name(name), port)), c.(rest := payload))
  {
    var p := BE16(port);
    hide BE16, FromBE16;
    Associate([|name|] + name, p, payload);
    Associate([|name|], name, p + payload);
    RecvAppend([|name|], name + (p + payload), c.output, c.room);
    RecvAppend(name, p + payload, c.output, c.room);
    RecvAppend(p, payload, c.output, c.room);
  }

  lemma RequestRoundTrip(reserved: Byte, addr: Address, port: U16, payload: seq<Byte>, c: Conn)
    requires Encodable(addr)
    requires c.rest == Request(reserved, addr, port) + payload
    ensures ParseRequest(c) == (Ok(TargetOf(addr, port)), c.(rest := payload))
  {
    hide BE16, ParseAddress, AddressBytes;
    var head := [0x05, 0x01, reserved, AddressType(addr)];
    var tail := AddressBytes(addr) + BE16(port) + payload;
    assert c.rest == head + tail;
    RecvAppend(head, tail, c.output, c.room);
    AddressRoundTrip(addr, port, payload, c.(rest := tail));
  }

  lemma NegotiateRoundTrip(methods: seq<Byte>, tail: seq<Byte>, c: Conn)
    requires |methods| <= 255 && c.room >= 2
    requires c.rest == Greeting(methods) + tail
    ensures Negotiate(c) == (None, Conn(tail, c.output + METHOD_REPLY, c.room - 2))
  {
    assert c.rest == [0x05, |methods|] + (methods + tail);
    RecvAppend([0x05, |methods|], methods + tail, c.output, c.room);
    RecvAppend(methods, tail, c.output, c.room);
    SendFits(Conn(tail, c.output, c.room), METHOD_REPLY);
  }

  lemma NegotiatedIsGreeting(c: Conn) returns (methods: seq<Byte>)
    requires Negotiate(c).0.None?
    ensures |methods| <= 255 && c.room >= 2
    ensures c.rest == Greeting(methods) + Negotiate(c).1.rest
    ensures Negotiate(c).1 == Conn(Negotiate(c).1.rest, c.output + METHOD_REPLY, c.room - 2)
  {
    var (head, c1) := Recv(c, 2);
    methods := Recv(c1, head.value[1]).0.value;
    RecvSplits(c, 2);
    RecvSplits(c1, head.value[1]);
    assert head.value == [0x05, |methods|];
  }

  /**
   Parsing an encoding returns its target, replies exactly 05 00 and consumes exactly the encoding,
   whatever payload follows.
   */
  lemma RoundTrip(methods: seq<Byte>, reserved: Byte, addr: Address, port: U16, payload: seq<Byte>, c: Conn)
    requires |methods| <= 255 && Encodable(addr) && c.room >= 2
    requires c.rest == Encode(methods, reserved, addr, port) + payload
    ensures Parse(c) == (Ok(TargetOf(addr, port)), Conn(payload, c.output + [0x05, 0x00], c.room - 2))
    ensures addr.V4? ==>
      Text.Split(TargetOf(addr, port).host.text, Text.DOT)
      == [Text.Decimal(addr.a), Text.Decimal(addr.b), Text.Decimal(addr.c), Text.Decimal(addr.d)]
  {
    hide Negotiate, ParseRequest, Text.Split, Text.Join;
    if addr.V4? {
      Text.DottedSplits(addr.a, addr.b, addr.c, addr.d);
    }
    var req := Request(reserved, addr, port) + payload;
    assert c.rest == Greeting(methods) + req;
    NegotiateRoundTrip(methods, req, c);
    RequestRoundTrip(reserved, addr, port, payload, Negotiate(c).1);
  }

  lemma RequestIsEncoding(c: Conn) returns (reserved: Byte, addr: Address, port: U16)
    requires ParseRequest(c).0.Ok?
    ensures Encodable(addr)
    ensures c.rest == Request(reserved, addr, port) + ParseRequest(c).1.rest
    ensures ParseRequest(c).0.value == TargetOf(addr, port)
  {
    hide BE16, AddressBytes, ParseAddress;
    var (req, c1) := Recv(c, 4);
    RecvSplits(c, 4);
    reserved := req.value[2];
    assert req.value == [0x05, 0x01, reserved, req.value[3]];
    addr, port := AddressIsEncoding(c1, req.value[3]);
  }

  lemma AddressIsEncoding(c: Conn, kind: Byte) returns (addr: Address, port: U16)
    requires ParseAddress(c, kind).0.Ok?
    ensures Encodable(addr) && AddressType(addr) == kind
    ensures c.rest == AddressBytes(addr) + BE16(port) + ParseAddress(c, kind).1.rest
    ensures ParseAddress(c, kind).0.value == TargetOf(addr, port)
  {
    hide ParseIpv4, ParseDomain, ParseIpv6;
    if kind == 0x01 {
      addr, port := Ipv4IsEncoding(c);
    } else if kind == 0x03 {
      addr, port := DomainIsEncoding(c);
    } else {
      addr, port := Ipv6IsEncoding(c);
    }
  }

  lemma Ipv4IsEncoding(c: Conn) returns (addr: Address, port: U16)
    requires ParseIpv4(c).0.Ok?
    ensures Encodable(addr) && addr.V4?
    ensures c.rest == AddressBytes(addr) + BE16(port) + ParseIpv4(c).1.rest
    ensures ParseIpv4(c).0.value == TargetOf(addr, port)
  {
    hide BE16, FromBE16, Text.Dotted, Text.Join, Text.Decimal;
    RecvSplits(c, 6);
    var s := Recv(c, 6).0.value;
    BE16Inverse(s[4], s[5]);
    addr, port := V4(s[0], s[1], s[2], s[3]), FromBE16(s[4], s[5]);
    Text.DottedSplits(s[0], s[1], s[2], s[3]);
    assert s == [s[0], s[1], s[2], s[3]] + [s[4], s[5]];
  }

  lemma Ipv6IsEncoding(c: Conn) returns (addr: Address, port: U16)
    requires ParseIpv6(c).0.Ok?
    ensures Encodable(addr) && addr.V6?
    ensures c.rest == AddressBytes(addr) + BE16(port) + ParseIpv6(c).1.rest
    ensures ParseIpv6(c).0.value == TargetOf(addr, port)
  {
    hide BE16, FromBE16;
    RecvSplits(c, 18);
    var s := Recv(c, 18).0.value;
    BE16Inverse(s[16], s[17]);
    addr, port := V6(s[..16]), FromBE16(s[16], s[17]);
    assert s == s[..16] + [s[16], s[17]];
  }

  lemma DomainIsEncoding(c: Conn) returns (addr: Address, port: U16)
    requires ParseDomain(c).0.Ok?
    ensures Encodable(addr) && addr.Domain?
    ensures c.rest == AddressBytes(addr) + BE16(port) + ParseDomain(c).1.rest
    ensures ParseDomain(c).0.value == TargetOf(addr, port)
  {
    hide BE16, FromBE16;
    var (len, c1) := Recv(c, 1);
    var (name, c2) := Recv(c1, len.value[0]);
    var (p, c3) := Recv(c2, 2);
    RecvSplits(c, 1);
    RecvSplits(c1, len.value[0]);
    RecvSplits(c2, 2);
    BE16Inverse(p.value[0], p.value[1]);
    addr, port := Domain(name.value), FromBE16(p.value[0], p.value[1]);
    assert len.value == [|name.value|] && p.value == BE16(port);
    Associate(len.value, name.value, p.value + c3.rest);
    Associate(len.value + name.value, p.value, c3.rest);
  }

  /** Every accepted input is an encoding (the reserved byte is free) followed by what is left unread. */
  lemma AcceptedIsEncoding(c: Conn)
    returns (methods: seq<Byte>, reserved: Byte, addr: Address, port: U16)
    requires Parse(c).0.Ok?
    ensures |methods| <= 255 && Encodable(addr)
    ensures c.rest == Encode(methods, reserved, addr, port) + Parse(c).1.rest
    ensures Parse(c).0.value == TargetOf(addr, port)
    ensures c.room >= 2 && Parse(c).1.output == c.output + METHOD_REPLY && Parse(c).1.room == c.room - 2
  {
    methods := NegotiatedIsGreeting(c);
    var c1 := Negotiate(c).1;
    reserved, addr, port := RequestIsEncoding(c1);
    var left := ParseRequest(c1).1.rest;
    RequestRoundTrip(reserved, addr, port, left, c1);
    assert c.rest == Greeting(methods) + Request(reserved, addr, port) + left;
  }

  /** A successful parse does not depend on the bytes behind the handshake. */
  lemma IsLocal(c: Conn, more: seq<Byte>)
    requires Parse(c).0.Ok?
    ensures Parse(Extend(c, more)) == (Parse(c).0, Extend(Parse(c).1, more))
  {
    hide Parse, Encode, TargetOf, Encodable, Text.Split, Text.Decimal;
    var methods, reserved, addr, port := AcceptedIsEncoding(c);
    var left := Parse(c).1.rest;
    RoundTrip(methods, reserved, addr, port, left, c);
    assert Extend(c, more).rest == Encode(methods, reserved, addr, port) + (left + more);
    RoundTrip(methods, reserved, addr, port, left + more, Extend(c, more));
  }

  /** No strict prefix of an encoding is accepted. */
  lemma StrictPrefixFails(methods: seq<Byte>, reserved: Byte, addr: Address, port: U16, n: nat, c: Conn)
    requires |methods| <= 255 && Encodable(addr)
    requires n < |Encode(methods, reserved, addr, port)|
    requires c.rest == Encode(methods, reserved, addr, port)[..n]
    ensures Parse(c).0.Err?
  {
    hide Parse, Encode;
    if Parse(c).0.Ok? {
      var enc := Encode(methods, reserved, addr, port);
      var _, _, _, _ := AcceptedIsEncoding(c);
      IsLocal(c, enc[n..]);
      assert enc[..n] + enc[n..] == enc + [];
      RoundTrip(methods, reserved, addr, port, [], Extend(c, enc[n..]));
    }
  }

  /**
   A bare CONNECT request is never accepted in place of a greeting: its command byte is taken for a
   method count of one and its address type for the request version.
   */
  lemma RequestIsNotGreeting(addr: Address, port: U16, payload: seq<Byte>, c: Conn)
    requires Encodable(addr) && c.room >= 2
    requires c.rest == Request(0x00, addr, port) + payload
    ensures Parse(c).0 == Err(InvalidRequest)
    ensures Parse(c).1.output == c.output + METHOD_REPLY && Parse(c).1.room == c.room - 2
  {
    hide BE16, Negotiate, Greeting, Request, ParseRequest, AddressBytes, Encodable;
    var tail := [AddressType(addr)] + (AddressBytes(addr) + BE16(port) + payload);
    RequestAsGreeting(addr, port, payload);
    NegotiateRoundTrip([0x00], tail, c);
    TypeIsNotVersion(addr, port, payload, Negotiate(c).1);
  }

  lemma RequestAsGreeting(addr: Address, port: U16, payload: seq<Byte>)
    requires Encodable(addr)
    ensures Request(0x00, addr, port) + payload
         == Greeting([0x00]) + ([AddressType(addr)] + (AddressBytes(addr) + BE16(port) + payload))
  {
    var kind, body, p := [AddressType(addr)], AddressBytes(addr), BE16(port);
    assert [0x05, 0x01, 0x00, AddressType(addr)] == Greeting([0x00]) + kind;
    hide BE16, AddressBytes, AddressType, Greeting, Encodable;
    Associate(Greeting([0x00]), kind, body + p + payload);
    Associate(Greeting([0x00]) + kind + body, p, payload);
    Associate(Greeting([0x00]) + kind, body, p + payload);
    Associate(body, p, payload);
  }

  lemma TypeIsNotVersion(addr: Address, port: U16, payload: seq<Byte>, c: Conn)
    requires Encodable(addr)
    requires c.rest == [AddressType(addr)] + (AddressBytes(addr) + BE16(port) + payload)
    ensures ParseRequest(c).0 == Err(InvalidRequest)
    ensures ParseRequest(c).1.output == c.output && ParseRequest(c).1.room == c.room
  {
    hide BE16, ParseAddress;
    assert |AddressBytes(addr)| >= 1;
    assert c.rest[..4][0] == AddressType(addr);
  }

  // ---------------------------------------------------- outcomes by position

  /** The greeting is complete: version, count and as many methods. */
  predicate Greets(s: seq<Byte>) {
    |s| >= 2 && s[0] == 0x05 && |s| - 2 >= s[1]
  }

  /** What a greeting and a request come to, for a client that accepts `room` more bytes. */
  function OutcomeOf(s: seq<Byte>, room: nat): Result<Target, Fault> {
    if |s| < 2 then Err(UnexpectedEof)
    else if s[0] != 0x05 then Err(InvalidVersion)
    else if |s| - 2 < s[1] then Err(UnexpectedEof)
    else if room < 2 then Err(WriteFailed)
    else RequestOutcome(s[2 + s[1]..])
  }

  function RequestOutcome(q: seq<Byte>): Result<Target, Fault> {
    if |q| < 4 then Err(UnexpectedEof)
    else if q[0] != 0x05 || q[1] != 0x01 then Err(InvalidRequest)
    else match q[3]
      case 0x01 =>
        if |q| < 10 then Err(UnexpectedEof)
        else Ok(TargetOf(V4(q[4], q[5], q[6], q[7]), FromBE16(q[8], q[9])))
      case 0x03 => DomainOutcome(q[4..])
      case 0x04 =>
        if |q| < 22 then Err(UnexpectedEof) else Ok(TargetOf(V6(q[4..20]), FromBE16(q[20], q[21])))
      case _ => Err(UnsupportedAddress)
  }

  function DomainOutcome(s: seq<Byte>): Result<Target, Fault> {
    if s == [] then Err(UnexpectedEof)
    else
      var n: nat := s[0];
      if |s| < 1 + n then Err(UnexpectedEof)
      else if !Utf8.Valid(s[1..1 + n]) then Err(InvalidDomain)
      else if |s| < 3 + n then Err(UnexpectedEof)
      else Ok(TargetOf(Domain(s[1..1 + n]), FromBE16(s[1 + n], s[2 + n])))
  }

  lemma RequestParsedExactly(c: Conn)
    ensures ParseRequest(c).0 == RequestOutcome(c.rest)
    ensures ParseRequest(c).1.output == c.output && ParseRequest(c).1.room == c.room
  {
    hide Text.Dotted, Text.Join, Text.Decimal, Utf8.Valid, FromBE16, ParseDomain, DomainOutcome;
    var q := c.rest;
    if |q| >= 4 && q[0] == 0x05 && q[1] == 0x01 {
      var c1 := c.(rest := q[4..]);
      if q[3] == 0x01 && |q| >= 10 {
        Text.DottedSplits(q[4], q[5], q[6], q[7]);
      } else if q[3] == 0x03 {
        DomainParsedExactly(c1);
      } else if q[3] == 0x04 && |q| >= 22 {
        assert q[4..][..18][..16] == q[4..20];
      }
    }
  }

  lemma DomainParsedExactly(c: Conn)
    ensures ParseDomain(c).0 == DomainOutcome(c.rest)
    ensures ParseDomain(c).1.output == c.output && ParseDomain(c).1.room == c.room
  {
    hide Utf8.Valid, FromBE16;
    var s := c.rest;
    if s != [] {
      var n: nat := s[0];
      if |s| >= 1 + n {
        assert s[1..][..n] == s[1..1 + n] && s[1..][n..] == s[1 + n..];
      }
    }
  }

  /** Every input is answered by its target or the exact fault, and 05 00 is sent exactly behind a complete greeting. */
  lemma ParsedExactly(c: Conn)
    ensures Parse(c).0 == OutcomeOf(c.rest, c.room)
    ensures Parse(c).1.output
         == c.output + if !Greets(c.rest) || c.room == 0 then [] else if c.room == 1 then [0x05] else [0x05, 0x00]
  {
    hide ParseRequest, RequestOutcome;
    var s := c.rest;
    if Greets(s) {
      assert s[2..][s[1]..] == s[2 + s[1]..];
      RequestParsedExactly(Negotiate(c).1);
      assert METHOD_REPLY[..2] == METHOD_REPLY && METHOD_REPLY[..1] == [0x05];
    }
    assert c.output + [] == c.output;
  }

  // --------------------------------------------------------- implementation

  method ParseTarget(stream: ClientStream) returns (r: Result<Target, Fault>)
    requires stream.Valid()
    modifies stream
    ensures stream.Valid() && (r, stream.View()) == Parse(old(stream.View()))
  {
    var fault := NegotiateMethods(stream);
    if fault.Some? { return Err(fault.value); }
    r := ReadRequest(stream);
  }

  method NegotiateMethods(stream: ClientStream) returns (fault: Option<Fault>)
    requires stream.Valid()
    modifies stream
    ensures stream.Valid() && (fault, stream.View()) == Negotiate(old(stream.View()))
  {
    var head := stream.ReadExact(2);
    if head.None? { return Some(UnexpectedEof); }
    if head.value[0] != 0x05 { return Some(InvalidVersion); }
    var methods := stream.ReadExact(head.value[1]);
    if methods.None? { return Some(UnexpectedEof); }
    var sent := stream.WriteAll(METHOD_REPLY);
    fault := if sent then None else Some(WriteFailed);
  }

  method ReadRequest(stream: ClientStream) returns (r: Result<Target, Fault>)
    requires stream.Valid()
    modifies stream
    ensures stream.Valid() && (r, stream.View()) == ParseRequest(old(stream.View()))
  {
    var req := stream.ReadExact(4);
    if req.None? { return Err(UnexpectedEof); }
    if req.value[0] != 0x05 || req.value[1] != 0x01 { return Err(InvalidRequest); }
    if req.value[3] == 0x01 {
      var b := stream.ReadExact(6);
      if b.None? { return Err(UnexpectedEof); }
      var s := b.value;
      r := Ok(Target(Name(Text.Dotted(s[0], s[1], s[2], s[3])), FromBE16(s[4], s[5])));
    } else if req.value[3] == 0x03 {
      var len := stream.ReadExact(1);
      if len.None? { return Err(UnexpectedEof); }
      var name := stream.ReadExact(len.value[0]);
      if name.None? { return Err(UnexpectedEof); }
      if !Utf8.Valid(name.value) { return Err(InvalidDomain); }
      var port := stream.ReadExact(2);
      if port.None? { return Err(UnexpectedEof); }
      r := Ok(Target(Name(name.value), FromBE16(port.value[0], port.value[1])));
    } else if req.value[3] == 0x04 {
      var b := stream.ReadExact(18);
      if b.None? { return Err(UnexpectedEof); }
      r := Ok(Target(Ipv6(b.value[..16]), FromBE16(b.value[16], b.value[17])));
    } else {
      r := Err(UnsupportedAddress);
    }
  }
}
