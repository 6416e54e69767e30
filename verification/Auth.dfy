/** The three authenticators, each run before the target is parsed. */
module Auth {
  import opened Bytes
  import opened Wire
  import opened Protocol
  import opened Text
  import Utf8
  import Socks4
  import Socks5

  datatype Config = Config(requireCreds: bool, username: Option<seq<Byte>>, password: Option<seq<Byte>>)

  /** Library decoders, left open: lossy UTF-8 decoding and standard base64. */
  datatype Library = Library(lossy: seq<Byte> -> seq<Byte>, base64: seq<Byte> -> Option<seq<Byte>>)

  datatype Verdict = Accepted | NotAuthenticated | Refused

  const CHOOSE_PASSWORD: seq<Byte> := [0x05, 0x02]
  const NO_METHOD: seq<Byte> := [0x05, 0xFF]
  const PASSWORD_OK: seq<Byte> := [0x01, 0x00]
  const PASSWORD_BAD: seq<Byte> := [0x01, 0x01]
  const SOCKS4_REFUSED: seq<Byte> := [0x00, 0x5B, 0x00, 0x00, 0x00, 0x00, 0x00, 0x00]

  /** The configured names are strings, hence well-formed text. */
  predicate WellFormed(cfg: Config) {
    (cfg.username.Some? ==> Utf8.Valid(cfg.username.value)) && (cfg.password.Some? ==> Utf8.Valid(cfg.password.value))
  }

  predicate ValidCredentials(user: seq<Byte>, pass: seq<Byte>, cfg: Config) {
    cfg.username.Some? && cfg.password.Some? && cfg.username.value == user && cfg.password.value == pass
  }

  // ----------------------------------------------------------------- SOCKS5

  function Socks5Auth(c: Conn, cfg: Config): (Verdict, Conn) {
    var (head, c1) := Recv(c, 2);
    if head.None? || head.value[0] != 0x05 then (Refused, c1)
    else
      var (methods, c2) := Recv(c1, head.value[1]);
      if methods.None? then (Refused, c2)
      else if cfg.requireCreds && 0x02 in methods.value then
        var (sent, c3) := Send(c2, CHOOSE_PASSWORD);
        if !sent then (Refused, c3) else PasswordAuth(c3, cfg)
      else if cfg.requireCreds then (Refused, Send(c2, NO_METHOD).1)
      else
        var (sent, c3) := Send(c2, Socks5.METHOD_REPLY);
        (if sent then NotAuthenticated else Refused, c3)
  }

  /** The exchange of section 2 of RFC 1929. */
  function PasswordAuth(c: Conn, cfg: Config): (Verdict, Conn) {
    var (pair, c1) := RecvPair(c);
    if pair.None? then (Refused, c1)
    else
      var (user, pass) := pair.value;
      if !Utf8.Valid(user) || !Utf8.Valid(pass) then (Refused, c1)
      else if ValidCredentials(user, pass, cfg) then
        var (sent, c2) := Send(c1, PASSWORD_OK);
        (if sent then Accepted else Refused, c2)
      else (Refused, Send(c1, PASSWORD_BAD).1)
  }

  function RecvPair(c: Conn): (Option<(seq<Byte>, seq<Byte>)>, Conn) {
    var (head, c1) := Recv(c, 2);
    if head.None? || head.value[0] != 0x01 then (None, c1)
    else
      var (user, c2) := Recv(c1, head.value[1]);
      if user.None? then (None, c2)
      else
        var (len, c3) := Recv(c2, 1);
        if len.None? then (None, c3)
        else
          var (pass, c4) := Recv(c3, len.value[0]);
          if pass.None? then (None, c4) else (Some((user.value, pass.value)), c4)
  }

  function Credentials(user: seq<Byte>, pass: seq<Byte>): seq<Byte>
    requires |user| <= 255 && |pass| <= 255
  {
    [0x01, |user|] + user + ([|pass|] + pass)
  }

  lemma PairRoundTrip(user: seq<Byte>, pass: seq<Byte>, tail: seq<Byte>, c: Conn)
    requires |user| <= 255 && |pass| <= 255 && c.rest == Credentials(user, pass) + tail
    ensures RecvPair(c) == (Some((user, pass)), c.(rest := tail))
  {
    var back := [|pass|] + (pass + tail);
    Associate([0x01, |user|] + user, [|pass|] + pass, tail);
    Associate([|pass|], pass, tail);
    Associate([0x01, |user|], user, back);
    assert c.rest == [0x01, |user|] + (user + back);
    RecvAppend([0x01, |user|], user + back, c.output, c.room);
    RecvAppend(user, back, c.output, c.room);
    RecvAppend([|pass|], pass + tail, c.output, c.room);
    RecvAppend(pass, tail, c.output, c.room);
  }

  lemma PairIsEncoding(c: Conn)
    requires RecvPair(c).0.Some?
    ensures var (user, pass) := RecvPair(c).0.value;
      |user| <= 255 && |pass| <= 255
      && c.rest == Credentials(user, pass) + RecvPair(c).1.rest
      && RecvPair(c).1 == c.(rest := RecvPair(c).1.rest)
  {
    var (head, c1) := Recv(c, 2);
    var (user, c2) := Recv(c1, head.value[1]);
    var (len, c3) := Recv(c2, 1);
    var (pass, c4) := Recv(c3, len.value[0]);
    RecvSplits(c, 2);
    RecvSplits(c1, |user.value|);
    RecvSplits(c2, 1);
    RecvSplits(c3, |pass.value|);
    assert head.value == [0x01, |user.value|] && len.value == [|pass.value|];
    Associate(head.value, user.value, len.value + (pass.value + c4.rest));
    Associate(len.value, pass.value, c4.rest);
    Associate(head.value + user.value, len.value + pass.value, c4.rest);
  }

  /** The greeting asks for a password when a method list offers one. */
  lemma OfferRoundTrip(methods: seq<Byte>, tail: seq<Byte>, c: Conn, cfg: Config)
    requires |methods| <= 255 && 0x02 in methods && cfg.requireCreds && c.room >= 2
    requires c.rest == Socks5.Greeting(methods) + tail
    ensures Socks5Auth(c, cfg) == PasswordAuth(Conn(tail, c.output + CHOOSE_PASSWORD, c.room - 2), cfg)
  {
    hide PasswordAuth;
    assert c.rest == [0x05, |methods|] + (methods + tail);
    RecvAppend([0x05, |methods|], methods + tail, c.output, c.room);
    RecvAppend(methods, tail, c.output, c.room);
    SendFits(Conn(tail, c.output, c.room), CHOOSE_PASSWORD);
  }

  /** The configured pair, offered by a client that supports passwords, is accepted. */
  lemma Socks5AuthRoundTrip(methods: seq<Byte>, user: seq<Byte>, pass: seq<Byte>, tail: seq<Byte>, c: Conn, cfg: Config)
    requires |methods| <= 255 && 0x02 in methods && |user| <= 255 && |pass| <= 255
    requires cfg.requireCreds && WellFormed(cfg) && c.room >= 4
    requires c.rest == Socks5.Greeting(methods) + (Credentials(user, pass) + tail)
    ensures ValidCredentials(user, pass, cfg) ==>
      Socks5Auth(c, cfg) == (Accepted, Conn(tail, c.output + [0x05, 0x02] + [0x01, 0x00], c.room - 4))
    ensures !ValidCredentials(user, pass, cfg) && Utf8.Valid(user) && Utf8.Valid(pass) ==>
      Socks5Auth(c, cfg) == (Refused, Conn(tail, c.output + [0x05, 0x02] + [0x01, 0x01], c.room - 4))
    ensures !Utf8.Valid(user) || !Utf8.Valid(pass) ==>
      Socks5Auth(c, cfg) == (Refused, Conn(tail, c.output + [0x05, 0x02], c.room - 2))
  {
    hide Credentials, Socks5Auth, RecvPair, Utf8.Valid;
    var c1 := Conn(Credentials(user, pass) + tail, c.output + CHOOSE_PASSWORD, c.room - 2);
    OfferRoundTrip(methods, Credentials(user, pass) + tail, c, cfg);
    PairRoundTrip(user, pass, tail, c1);
    SendFits(c1.(rest := tail), PASSWORD_OK);
    SendFits(c1.(rest := tail), PASSWORD_BAD);
  }

  /** Without a complete greeting nothing is answered. */
  lemma NotAGreeting(c: Conn, cfg: Config)
    requires !Socks5.Greets(c.rest)
    ensures Socks5Auth(c, cfg).0 == Refused
    ensures Socks5Auth(c, cfg).1.output == c.output && Socks5Auth(c, cfg).1.room == c.room
  {
    hide PasswordAuth;
  }

  /** When no complete pair follows the greeting, nothing is answered behind 05 02. */
  lemma NotAPair(methods: seq<Byte>, tail: seq<Byte>, c: Conn, cfg: Config)
    requires |methods| <= 255 && 0x02 in methods && cfg.requireCreds && c.room >= 2
    requires c.rest == Socks5.Greeting(methods) + tail
    requires forall user, pass, rest :: |user| <= 255 && |pass| <= 255 ==> tail != Credentials(user, pass) + rest
    ensures Socks5Auth(c, cfg).0 == Refused
    ensures Socks5Auth(c, cfg).1.output == c.output + [0x05, 0x02] && Socks5Auth(c, cfg).1.room == c.room - 2
  {
    hide Socks5Auth, RecvPair, Credentials;
    var c1 := Conn(tail, c.output + CHOOSE_PASSWORD, c.room - 2);
    OfferRoundTrip(methods, tail, c, cfg);
    PairKeepsOutput(c1);
    if RecvPair(c1).0.Some? {
      var (user, pass) := RecvPair(c1).0.value;
      PairIsEncoding(c1);
    }
  }

  lemma PairKeepsOutput(c: Conn)
    ensures RecvPair(c).1.output == c.output && RecvPair(c).1.room == c.room
  {
  }

  /** A client that does not offer passwords is told that no method is acceptable. */
  lemma NoPasswordOffered(methods: seq<Byte>, tail: seq<Byte>, c: Conn, cfg: Config)
    requires |methods| <= 255 && 0x02 !in methods && cfg.requireCreds && c.room >= 2
    requires c.rest == Socks5.Greeting(methods) + tail
    ensures Socks5Auth(c, cfg) == (Refused, Conn(tail, c.output + [0x05, 0xFF], c.room - 2))
  {
    assert c.rest == [0x05, |methods|] + (methods + tail);
    RecvAppend([0x05, |methods|], methods + tail, c.output, c.room);
    RecvAppend(methods, tail, c.output, c.room);
    SendFits(Conn(tail, c.output, c.room), NO_METHOD);
  }

  lemma PasswordAccepted(c: Conn, cfg: Config)
    requires PasswordAuth(c, cfg).0 == Accepted
    ensures cfg.username.Some? && cfg.password.Some?
    ensures var (user, pass) := (cfg.username.value, cfg.password.value);
      |user| <= 255 && |pass| <= 255 && c.room >= 2
      && c.rest == Credentials(user, pass) + PasswordAuth(c, cfg).1.rest
      && PasswordAuth(c, cfg).1 == Conn(PasswordAuth(c, cfg).1.rest, c.output + PASSWORD_OK, c.room - 2)
  {
    hide RecvPair, Credentials;
    PairIsEncoding(c);
    SendFits(RecvPair(c).1, PASSWORD_OK);
  }

  /** Everything SOCKS5 authentication accepts is a greeting offering passwords and the configured pair. */
  lemma Socks5AuthAccepted(c: Conn, cfg: Config) returns (methods: seq<Byte>)
    requires Socks5Auth(c, cfg).0 == Accepted
    ensures |methods| <= 255 && 0x02 in methods && cfg.requireCreds && c.room >= 4
    ensures cfg.username.Some? && cfg.password.Some?
    ensures |cfg.username.value| <= 255 && |cfg.password.value| <= 255
    ensures var left := Socks5Auth(c, cfg).1.rest;
      c.rest == Socks5.Greeting(methods) + (Credentials(cfg.username.value, cfg.password.value) + left)
      && Socks5Auth(c, cfg).1 == Conn(left, c.output + [0x05, 0x02] + [0x01, 0x00], c.room - 4)
  {
    hide PasswordAuth, Credentials;
    var (head, c1) := Recv(c, 2);
    var (ms, c2) := Recv(c1, head.value[1]);
    methods := ms.value;
    RecvSplits(c, 2);
    RecvSplits(c1, |methods|);
    assert head.value == [0x05, |methods|];
    Associate(head.value, methods, c2.rest);
    SendFits(c2, CHOOSE_PASSWORD);
    PasswordAccepted(Send(c2, CHOOSE_PASSWORD).1, cfg);
  }

  // ----------------------------------------------------------------- SOCKS4

  /** An ill-formed user id counts as the empty string. */
  predicate ValidUserId(user: seq<Byte>, cfg: Config) {
    cfg.username == Some(if Utf8.Valid(user) then user else [])
  }

  function Socks4Auth(c: Conn, cfg: Config): (Verdict, Conn) {
    var (head, c1) := Recv(c, 8);
    if head.None? || head.value[0] != 0x04 then (Refused, c1)
    else if !cfg.requireCreds then (NotAuthenticated, c1)
    else
      var (user, c2) := Socks4.RecvUserId(c1);
      if user.None? then (Refused, c2)
      else if ValidUserId(user.value, cfg) then (Accepted, c2)
      else (Refused, Send(c2, SOCKS4_REFUSED).1)
  }

  /** Authentication takes exactly the bytes that parsing the same request would take. */
  lemma Socks4AuthExtent(c: Conn, cfg: Config)
    requires Socks4Auth(c, cfg).0 == Accepted
    ensures Socks4Auth(c, cfg).1 == c.(rest := Socks4Auth(c, cfg).1.rest)
    ensures Socks4.Parse(c).0.Ok? ==> Socks4.Parse(c).1 == Socks4Auth(c, cfg).1
    ensures Socks4.Parse(c).0.Ok? <==> c.rest[1] == 0x01
  {
  }

  /** The authenticator reads a whole request, of any command, before it decides. */
  lemma RequestRead(c: Conn) returns (command: Byte, r: Socks4.Request)
    requires Recv(c, 8).0.Some? && c.rest[0] == 0x04 && Socks4.RecvUserId(Recv(c, 8).1).0.Some?
    ensures Socks4.Encodable(r) && r.user == Socks4.RecvUserId(Recv(c, 8).1).0.value
    ensures c.rest == Socks4.Encode(command, r) + Socks4.RecvUserId(Recv(c, 8).1).1.rest
    ensures Socks4.RecvUserId(Recv(c, 8).1).1 == c.(rest := Socks4.RecvUserId(Recv(c, 8).1).1.rest)
  {
    hide Socks4.Head, Socks4.RecvUserId, FromBE16;
    var (head, c1) := Recv(c, 8);
    var h := head.value;
    RecvSplits(c, 8);
    Socks4.UserIdSplits(c1);
    var (user, c2) := Socks4.RecvUserId(c1);
    command := h[1];
    r := Socks4.Request(FromBE16(h[2], h[3]), h[4], h[5], h[6], h[7], user.value);
    Socks4.HeadOf(h, command, r);
    Associate(h, user.value + [0], c2.rest);
    Associate(h, user.value, [0]);
    Socks4.KeepsOutput(c1);
  }

  /** Everything SOCKS4 authentication accepts is an encoding, of any command, that carries the configured user id. */
  lemma Socks4AuthAccepted(c: Conn, cfg: Config) returns (command: Byte, r: Socks4.Request)
    requires Socks4Auth(c, cfg).0 == Accepted
    ensures Socks4.Encodable(r) && ValidUserId(r.user, cfg) && cfg.requireCreds
    ensures c.rest == Socks4.Encode(command, r) + Socks4Auth(c, cfg).1.rest
    ensures Socks4Auth(c, cfg).1 == c.(rest := Socks4Auth(c, cfg).1.rest)
  {
    hide Socks4.Encode, Socks4.RecvUserId, ValidUserId, Socks4.Encodable;
    command, r := RequestRead(c);
  }

  /** Without a complete request nothing is answered. */
  lemma NotARequest(c: Conn, cfg: Config)
    requires cfg.requireCreds
    requires forall command, r, rest :: Socks4.Encodable(r) ==> c.rest != Socks4.Encode(command, r) + rest
    ensures Socks4Auth(c, cfg).0 == Refused
    ensures Socks4Auth(c, cfg).1.output == c.output && Socks4Auth(c, cfg).1.room == c.room
  {
    hide Socks4.Encode, Socks4.RecvUserId, ValidUserId, Socks4.Encodable;
    var (head, c1) := Recv(c, 8);
    Socks4.KeepsOutput(c1);
    if head.Some? && c.rest[0] == 0x04 && Socks4.RecvUserId(c1).0.Some? {
      var _, _ := RequestRead(c);
    }
  }

  /** And every such encoding is accepted; an encoding that carries another user id is answered and refused. */
  lemma Socks4AuthExact(command: Byte, r: Socks4.Request, tail: seq<Byte>, c: Conn, cfg: Config)
    requires Socks4.Encodable(r) && cfg.requireCreds
    requires c.rest == Socks4.Encode(command, r) + tail
    ensures Socks4Auth(c, cfg).0 == Accepted <==> ValidUserId(r.user, cfg)
    ensures ValidUserId(r.user, cfg) ==> Socks4Auth(c, cfg).1 == c.(rest := tail)
    ensures !ValidUserId(r.user, cfg) && c.room >= 8 ==>
      Socks4Auth(c, cfg)
      == (Refused, Conn(tail, c.output + [0x00, 0x5B, 0x00, 0x00, 0x00, 0x00, 0x00, 0x00], c.room - 8))
  {
    hide Socks4.Head, Socks4.RecvUserId, ValidUserId;
    var head, body := Socks4.Head(command, r), r.user + [0] + tail;
    assert c.rest == head + body;
    RecvAppend(head, body, c.output, c.room);
    Socks4.UserIdRoundTrip(r.user, tail, c.(rest := body));
    Socks4.HeadFields(command, r);
    if c.room >= 8 {
      SendFits(c.(rest := tail), SOCKS4_REFUSED);
    }
  }

  // ------------------------------------------------------------------- HTTP

  /** "Basic " */
  const BASIC: seq<Byte> := [0x42, 0x61, 0x73, 0x69, 0x63, 0x20]

  /** Decoded Basic text: the user is what precedes the first colon. */
  predicate ValidBasic(text: seq<Byte>, cfg: Config) {
    Utf8.Valid(text) && COLON in text
    && var i := IndexOf(text, COLON); ValidCredentials(text[..i], text[i + 1..], cfg)
  }

  /** `validate_auth_header`. */
  predicate ValidHeader(header: seq<Byte>, cfg: Config, lib: Library) {
    BASIC <= header
    && var text := lib.base64(header[|BASIC|..]);
       text.Some? && ValidBasic(text.value, cfg)
  }

  /**
   Basic text is accepted exactly when it is the configured `user:pass` and the configured user holds no
   colon (section 2 of RFC 7617).
   */
  lemma BasicAccepted(text: seq<Byte>, cfg: Config)
    requires WellFormed(cfg)
    ensures ValidBasic(text, cfg)
       <==> cfg.username.Some? && cfg.password.Some? && COLON !in cfg.username.value
            && text == cfg.username.value + [COLON] + cfg.password.value
  {
    if ValidBasic(text, cfg) {
      var i := IndexOf(text, COLON);
      assert text == text[..i] + [COLON] + text[i + 1..];
    }
    if cfg.username.Some? && cfg.password.Some? && COLON !in cfg.username.value
       && text == cfg.username.value + [COLON] + cfg.password.value {
      var user, pass := cfg.username.value, cfg.password.value;
      Utf8.PlainIsValid([COLON]);
      Utf8.AppendIsValid(user, [COLON]);
      Utf8.AppendIsValid(user + [COLON], pass);
      IndexOfAppend(user, pass, COLON);
      assert text[|user|] == COLON;
      assert text[..|user|] == user && text[|user| + 1..] == pass;
    }
  }

  /**
   For a configured user without a colon and fields of at most 255 bytes, HTTP and SOCKS5 accept the same
   pairs; with a colon in the user, HTTP accepts none.
   */
  lemma CredentialPathsAgree(methods: seq<Byte>, user: seq<Byte>, pass: seq<Byte>, tail: seq<Byte>,
                             c: Conn, cfg: Config)
    requires |methods| <= 255 && 0x02 in methods
    requires WellFormed(cfg) && cfg.requireCreds && c.room >= 4
    requires |user| <= 255 && |pass| <= 255 && COLON !in user
    requires c.rest == Socks5.Greeting(methods) + (Credentials(user, pass) + tail)
    ensures Socks5Auth(c, cfg).0 == Accepted <==> ValidBasic(user + [COLON] + pass, cfg)
  {
    hide Socks5Auth, Credentials, Socks5.Greeting;
    Socks5AuthRoundTrip(methods, user, pass, tail, c, cfg);
    BasicAccepted(user + [COLON] + pass, cfg);
    if ValidBasic(user + [COLON] + pass, cfg) {
      FirstColonSplits(user, pass, cfg.username.value, cfg.password.value);
    }
  }

  lemma FirstColonSplits(a: seq<Byte>, b: seq<Byte>, x: seq<Byte>, y: seq<Byte>)
    requires COLON !in a && COLON !in x && a + [COLON] + b == x + [COLON] + y
    ensures a == x && b == y
  {
    var s := a + [COLON] + b;
    IndexOfAppend(a, b, COLON);
    IndexOfAppend(x, y, COLON);
    assert a == s[..|a|] && b == s[|a| + 1..];
    assert x == s[..|x|] && y == s[|x| + 1..];
  }

  // --------------------------------------------------------- implementation

  method AuthenticateSocks5(stream: ClientStream, cfg: Config) returns (v: Verdict)
    requires stream.Valid()
    modifies stream
    ensures stream.Valid() && (v, stream.View()) == Socks5Auth(old(stream.View()), cfg)
  {
    var head := stream.ReadExact(2);
    if head.None? || head.value[0] != 0x05 { return Refused; }
    var methods := stream.ReadExact(head.value[1]);
    if methods.None? { return Refused; }
    if cfg.requireCreds && 0x02 in methods.value {
      var sent := stream.WriteAll(CHOOSE_PASSWORD);
      if !sent { return Refused; }
      v := CheckPassword(stream, cfg);
    } else if cfg.requireCreds {
      var _ := stream.WriteAll(NO_METHOD);
      v := Refused;
    } else {
      var sent := stream.WriteAll(Socks5.METHOD_REPLY);
      v := if sent then NotAuthenticated else Refused;
    }
  }

  method CheckPassword(stream: ClientStream, cfg: Config) returns (v: Verdict)
    requires stream.Valid()
    modifies stream
    ensures stream.Valid() && (v, stream.View()) == PasswordAuth(old(stream.View()), cfg)
  {
    var pair := ReadPair(stream);
    if pair.None? { return Refused; }
    var (user, pass) := pair.value;
    if !Utf8.Valid(user) || !Utf8.Valid(pass) { return Refused; }
    if ValidCredentials(user, pass, cfg) {
      var sent := stream.WriteAll(PASSWORD_OK);
      v := if sent then Accepted else Refused;
    } else {
      var _ := stream.WriteAll(PASSWORD_BAD);
      v := Refused;
    }
  }

  method ReadPair(stream: ClientStream) returns (pair: Option<(seq<Byte>, seq<Byte>)>)
    requires stream.Valid()
    modifies stream
    ensures stream.Valid() && (pair, stream.View()) == RecvPair(old(stream.View()))
  {
    var head := stream.ReadExact(2);
    if head.None? || head.value[0] != 0x01 { return None; }
    var user := stream.ReadExact(head.value[1]);
    if user.None? { return None; }
    var len := stream.ReadExact(1);
    if len.None? { return None; }
    var pass := stream.ReadExact(len.value[0]);
    if pass.None? { return None; }
    pair := Some((user.value, pass.value));
  }

  method AuthenticateSocks4(stream: ClientStream, cfg: Config) returns (v: Verdict)
    requires stream.Valid()
    modifies stream
    ensures stream.Valid() && (v, stream.View()) == Socks4Auth(old(stream.View()), cfg)
  {
    var head := stream.ReadExact(8);
    if head.None? || head.value[0] != 0x04 { return Refused; }
    if !cfg.requireCreds { return NotAuthenticated; }
    var user := Socks4.ReadUserId(stream);
    if user.None? { return Refused; }
    if ValidUserId(user.value, cfg) {
      v := Accepted;
    } else {
      var _ := stream.WriteAll(SOCKS4_REFUSED);
      v := Refused;
    }
  }
}
