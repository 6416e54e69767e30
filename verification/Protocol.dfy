/** Protocols, targets and parse faults. */
module Protocol {
  import opened Bytes
  import opened Wire
  import Text

  datatype Protocol = TCP | HTTP | HTTPS | SOCKS4 | SOCKS5

  /** A host is text; an IPv6 address stands for the text the standard library prints for it. */
  datatype Host = Name(text: seq<Byte>) | Ipv6(address: seq<Byte>)

  datatype Target = Target(host: Host, port: U16)

  datatype Fault =
    | UnexpectedEof | WriteFailed | TimedOut | ReadFailed
    | InvalidVersion | OnlyConnect | InvalidRequest | UnsupportedAddress | InvalidDomain
    | InvalidLength | InvalidUtf8 | InvalidFormat | InvalidPort
    | InvalidHttpRequest | InvalidConnectTarget | InvalidUrl

  /** What a parser returns, and the connection it leaves. */
  type Parsed = (Result<Target, Fault>, Conn)

  /** The same connection with more bytes to come. */
  function Extend(c: Conn, more: seq<Byte>): Conn {
    c.(rest := c.rest + more)
  }

  /** The address string handed to `TcpStream::connect`. */
  function DialString(t: Target, ipv6Text: seq<Byte> -> seq<Byte>): seq<Byte> {
    Text.HostPort(HostText(t.host, ipv6Text), t.port)
  }

  function HostText(h: Host, ipv6Text: seq<Byte> -> seq<Byte>): seq<Byte> {
    match h
    case Name(s) => s
    case Ipv6(a) => ipv6Text(a)
  }

  /**
   The dialled string determines the target's host text and port at its last colon, IPv6 text and names with
   colons included; so two targets dialled alike differ at most in how they write the same host.
   */
  lemma DialStringDecodes(t: Target, u: Target, ipv6Text: seq<Byte> -> seq<Byte>)
    ensures DialString(t, ipv6Text) == HostText(t.host, ipv6Text) + [0x3A] + Text.Decimal(t.port)
    ensures Text.SplitDialled(DialString(t, ipv6Text)) == Some((HostText(t.host, ipv6Text), t.port))
    ensures DialString(t, ipv6Text) == DialString(u, ipv6Text)
       <==> HostText(t.host, ipv6Text) == HostText(u.host, ipv6Text) && t.port == u.port
  {
    Text.DialledIsDecodable(HostText(t.host, ipv6Text), t.port);
    Text.DialledIsDecodable(HostText(u.host, ipv6Text), u.port);
  }
}
