/** The CONNECT handshake with an upstream proxy: the printed request and the chunked search for the reply's end. */
module Upstream {
  import opened Bytes
  import opened Wire
  import opened Protocol
  import opened Text
  import Utf8
  import Http
  import Dispatch
  import Session

  // -------------------------------------------------------------- the request

  /** "HTTP/1.1" followed by a carriage return. */
  const VERSION: seq<Byte> := [0x48, 0x54, 0x54, 0x50, 0x2F, 0x31, 0x2E, 0x31, 0x0D]

  function ConnectRequest(host: seq<Byte>, port: U16): seq<Byte> {
    Ascii("CONNECT ") + host + [COLON] + Decimal(port) + Ascii(" HTTP/1.1\r\n\r\n")
  }

  lemma RequestText()
    ensures Ascii("CONNECT ") == Http.CONNECT + [SPACE]
    ensures Ascii(" HTTP/1.1\r\n\r\n") == [SPACE] + VERSION + [NEWLINE, CR, NEWLINE]
  {
  }

  lemma RequestIsLine(host: seq<Byte>, port: U16)
    ensures ConnectRequest(host, port)
         == Http.RequestLine(Http.CONNECT, HostPort(host, port), VERSION) + [CR, NEWLINE]
  {
    hide Ascii, Decimal;
    RequestText();
    assert [NEWLINE, CR, NEWLINE] == [NEWLINE] + [CR, NEWLINE];
  }

  /** The appends of `handShake` onto its buffer. */
  method PrintRequest(buffer: seq<Byte>, host: seq<Byte>, port: U16) returns (out: seq<Byte>)
    ensures out == buffer + ConnectRequest(host, port)
  {
    hide Ascii, Decimal;
    RequestText();
    out := buffer + (Http.CONNECT + [SPACE]);
    out := out + host;
    out := out + [COLON];
    out := out + Decimal(port);
    out := out + ([SPACE] + VERSION + [NEWLINE, CR, NEWLINE]);
    assert out == buffer + ConnectRequest(host, port);
  }

  lemma HostPortIsWord(host: seq<Byte>, port: U16)
    requires Utf8.Valid(host) && NoWhite(host)
    ensures Http.Word(HostPort(host, port))
  {
    hide NoWhite, Utf8.Valid, Utf8.Plain, Decimal;
    HostPortIsValid(host, port);
    DecimalIsPlain(port);
    var tail := [COLON] + Decimal(port);
    forall i | 0 <= i < |tail| ensures SPACE < tail[i] < 0x80 {
      if i > 0 {
        assert tail[i] in Decimal(port);
      }
    }
    PlainHasNoWhite(tail);
    NoWhiteAppend(host, tail);
    assert HostPort(host, port) == host + tail;
  }

  /**
   The printed request, read by this proxy's own HTTP parser, gives the same host and port back, for every
   port and every host without a colon or white space, whatever follows the request.
   */
  lemma PrintedRequestParses(host: seq<Byte>, port: U16, payload: seq<Byte>, c: Conn, ahead: nat)
    requires Utf8.Valid(host) && NoWhite(host) && COLON !in host
    requires c.rest == ConnectRequest(host, port) + payload
    ensures Http.Parse(c, ahead).0 == Ok(Target(Name(host), port))
    ensures Session.Detected(c, Session.Saw(4)) == HTTP
  {
    hide Http.Parse, Http.RequestLine, HostPort, Http.ParseConnectTarget, Session.Detected, Session.HttpVerb,
         Utf8.Valid, Http.Word, NoWhite;
    HostPortIsWord(host, port);
    VersionIsPlain();
    RequestIsLine(host, port);
    hide ConnectRequest, Ascii;
    Http.ConnectText();
    assert c.rest == Http.RequestLine(Http.CONNECT, HostPort(host, port), VERSION) + ([CR, NEWLINE] + payload);
    Dispatch.HttpParsed(Http.CONNECT, HostPort(host, port), VERSION, [CR, NEWLINE] + payload, c, ahead);
    Http.ConnectRoundTrip(host, port);
    Dispatch.LineIsSeen(Http.CONNECT, HostPort(host, port), VERSION, [CR, NEWLINE] + payload, c);
    Dispatch.DetectedHttp(c, Session.Saw(4));
  }

  lemma VersionIsPlain()
    ensures Utf8.Valid(VERSION) && NEWLINE !in VERSION
  {
    hide Utf8.Valid;
    Utf8.PlainIsValid(VERSION);
  }

  // ---------------------------------------------------------------- the reply

  const TERMINATOR: seq<Byte> := [0x0D, 0x0A, 0x0D, 0x0A]
  /** "HTTP/1.1 200 OK" */
  const ACCEPTED: seq<Byte> := [
    0x48, 0x54, 0x54, 0x50, 0x2F, 0x31, 0x2E, 0x31, 0x20, 0x32, 0x30, 0x30, 0x20, 0x4F, 0x4B]

  /** One read: at most 256 bytes (none at the end of the stream), or an error. */
  datatype Chunk = Data(bytes: seq<Byte>) | Lost

  datatype Outcome = Waiting | Success(body: seq<Byte>) | BadGateway | Disconnected

  predicate TerminatorAt(b: seq<Byte>, i: nat) {
    i + 4 <= |b| && b[i..i + 4] == [0x0D, 0x0A, 0x0D, 0x0A]
  }

  ghost predicate Complete(b: seq<Byte>) {
    |b| > 4 && exists i: nat :: TerminatorAt(b, i)
  }

  /** The bytes of the first `k` reads. */
  function Arrived(chunks: seq<Chunk>, k: nat): seq<Byte>
    requires k <= |chunks|
  {
    if k == 0 then []
    else Arrived(chunks, k - 1) + if chunks[k - 1].Data? then chunks[k - 1].bytes else []
  }

  /** The loop goes on after `k` reads. */
  ghost predicate StillReading(chunks: seq<Chunk>, k: nat)
    requires k <= |chunks|
  {
    forall j :: 0 <= j <= k ==> !Complete(Arrived(chunks, j)) && (j < k ==> chunks[j].Data?)
  }

  function Decision(reply: seq<Byte>): Outcome {
    if ACCEPTED <= reply then Success([]) else BadGateway
  }

  /**
   The loop is waiting exactly when no read failed and the reply is incomplete; otherwise read `used` was the
   first that failed or completed the reply, and then the bytes so far decide.
   */
  ghost predicate Stops(chunks: seq<Chunk>, r: Outcome, used: nat) {
    && used <= |chunks|
    && (r.Waiting? <==> StillReading(chunks, |chunks|))
    && (!r.Waiting? ==> used > 0 && StillReading(chunks, used - 1))
    && (r.Disconnected? ==> chunks[used - 1].Lost?)
    && (r.Success? || r.BadGateway? ==>
          chunks[used - 1].Data? && Complete(Arrived(chunks, used)) && r == Decision(Arrived(chunks, used)))
  }

  /** `windows(4).position(..)`. */
  method FindTerminator(b: seq<Byte>) returns (r: Option<nat>)
    ensures r.None? <==> forall i: nat :: !TerminatorAt(b, i)
    ensures r.Some? ==> TerminatorAt(b, r.value) && forall i: nat :: i < r.value ==> !TerminatorAt(b, i)
  {
    var i := 0;
    while i + 4 <= |b|
      invariant forall j: nat :: j < i ==> !TerminatorAt(b, j)
    {
      if b[i..i + 4] == TERMINATOR {
        assert TerminatorAt(b, i);
        return Some(i);
      }
      i := i + 1;
    }
    r := None;
  }

  /** One pass of the checks after a read: where the body starts, if the reply is complete. */
  method CheckBuffer(b: seq<Byte>) returns (start: Option<nat>)
    ensures start.Some? <==> Complete(b)
    ensures start.Some? ==> 4 <= start.value <= |b| && TerminatorAt(b, start.value - 4)
  {
    if |b| > 4 {
      if b[|b| - 4..] == TERMINATOR {
        assert b[|b| - 4..|b|] == b[|b| - 4..];
        assert TerminatorAt(b, |b| - 4);
        return Some(|b|);
      }
      var found := FindTerminator(b);
      if found.Some? { return Some(found.value + 4); }
    }
    start := None;
  }

  /**
   The read loop over the reads that happen, and the decision after it.  `used` is how many reads it took: the
   first after which the reply is complete, or the first that failed.
   */
  method ReadReply(chunks: seq<Chunk>) returns (r: Outcome, used: nat)
    ensures Stops(chunks, r, used)
  {
    hide Complete, Arrived, Decision, StillReading;
    var buffer := [];
    used := 0;
    ReadingStarts(chunks);
    while used < |chunks|
      invariant used <= |chunks| && buffer == Arrived(chunks, used) && StillReading(chunks, used)
    {
      ReadingGoesOn(chunks, used);
      if chunks[used].Lost? { return Disconnected, used + 1; }
      buffer := buffer + chunks[used].bytes;
      used := used + 1;
      var start := CheckBuffer(buffer);
      if start.Some? {
        if ACCEPTED <= buffer {
          if start.value <= |buffer| {
            r := Success([]);
          } else {
            assert false;
          }
        } else {
          r := BadGateway;
        }
        assert r == Decision(buffer) by { Decided(buffer); }
        return;
      }
    }
    r := Waiting;
  }

  lemma ReadingStarts(chunks: seq<Chunk>)
    ensures Arrived(chunks, 0) == [] && StillReading(chunks, 0)
  {
  }

  /** One more read: the loop goes on exactly when it delivered bytes and the reply is still incomplete. */
  lemma ReadingGoesOn(chunks: seq<Chunk>, k: nat)
    requires k < |chunks| && StillReading(chunks, k)
    ensures chunks[k].Data? ==> Arrived(chunks, k + 1) == Arrived(chunks, k) + chunks[k].bytes
    ensures chunks[k].Data? && !Complete(Arrived(chunks, k + 1)) ==> StillReading(chunks, k + 1)
    ensures chunks[k].Lost? || Complete(Arrived(chunks, k + 1)) ==> !StillReading(chunks, |chunks|)
  {
  }

  lemma Decided(b: seq<Byte>)
    ensures Decision(b) == if ACCEPTED <= b then Success([]) else BadGateway
  {
  }

  // -------------------------------------------------- independence of chunking

  lemma {:induction false} ArrivedIsPrefix(chunks: seq<Chunk>, j: nat, k: nat)
    requires j <= k <= |chunks|
    ensures Arrived(chunks, j) <= Arrived(chunks, k)
    decreases k - j
  {
    if j < k {
      ArrivedIsPrefix(chunks, j, k - 1);
    }
  }

  lemma CompleteGrows(a: seq<Byte>, b: seq<Byte>)
    requires a <= b && Complete(a)
    ensures Complete(b)
  {
    var i: nat :| TerminatorAt(a, i);
    assert b[i..i + 4] == a[i..i + 4];
    assert TerminatorAt(b, i);
  }

  /** A complete reply is long enough for the status to be decided: more bytes cannot change it. */
  lemma DecisionIsFinal(a: seq<Byte>, b: seq<Byte>)
    requires a <= b && Complete(a)
    ensures Decision(a) == Decision(b)
  {
    var i: nat :| TerminatorAt(a, i);
    assert a[i] == a[i..i + 4][0] == 0x0D;
    assert ACCEPTED <= b && i < |ACCEPTED| ==> ACCEPTED[i] == b[i];
  }

  /** What the loop answers, from the whole reply alone. */
  ghost function Answer(reply: seq<Byte>): Outcome {
    if |reply| <= 4 || forall i: nat :: !TerminatorAt(reply, i) then Waiting
    else if Ascii("HTTP/1.1 200 OK") <= reply then Success([])
    else BadGateway
  }

  lemma AcceptedText()
    ensures ACCEPTED == Ascii("HTTP/1.1 200 OK")
  {
  }

  /**
   For every split of a reply into reads without an error, the result depends only on the bytes: success exactly
   when the reply is complete and starts with "HTTP/1.1 200 OK", and the value is always empty.  A reply that is
   never completed is waited for without end, however many empty reads follow.
   */
  lemma ChunkingDoesNotMatter(chunks: seq<Chunk>, r: Outcome, used: nat)
    requires forall i :: 0 <= i < |chunks| ==> chunks[i].Data?
    requires Stops(chunks, r, used)
    ensures r == Answer(Arrived(chunks, |chunks|))
  {
    AcceptedText();
    hide Ascii;
    var whole := Arrived(chunks, |chunks|);
    if r.Waiting? {
      assert !Complete(Arrived(chunks, |chunks|));
    } else {
      ArrivedIsPrefix(chunks, used, |chunks|);
      CompleteGrows(Arrived(chunks, used), whole);
      DecisionIsFinal(Arrived(chunks, used), whole);
    }
  }

  /** Two readers of the same bytes, split differently, agree. */
  lemma ChunkingsAgree(one: seq<Chunk>, r: Outcome, n: nat, two: seq<Chunk>, s: Outcome, m: nat)
    requires forall i :: 0 <= i < |one| ==> one[i].Data?
    requires forall i :: 0 <= i < |two| ==> two[i].Data?
    requires Stops(one, r, n) && Stops(two, s, m) && Arrived(one, |one|) == Arrived(two, |two|)
    ensures r == s
  {
    hide Stops, Arrived;
    ChunkingDoesNotMatter(one, r, n);
    ChunkingDoesNotMatter(two, s, m);
  }

  /**
   Bytes behind the terminator that arrived with it are dropped (the success value is empty); with reads of at
   most 256 bytes at most 256 of them are.
   */
  lemma DroppedSurplus(chunks: seq<Chunk>, used: nat, i: nat)
    requires 0 < used <= |chunks| && chunks[used - 1].Data? && |chunks[used - 1].bytes| <= 256
    requires StillReading(chunks, used - 1) && TerminatorAt(Arrived(chunks, used), i)
    ensures |Arrived(chunks, used)| - (i + 4) <= 256
  {
    var before := Arrived(chunks, used - 1);
    ArrivedIsPrefix(chunks, used - 1, used);
    assert !Complete(before);
    if i + 4 <= |before| {
      assert before[i..i + 4] == Arrived(chunks, used)[i..i + 4];
      assert TerminatorAt(before, i);
    }
  }
}
