/**
 The bidirectional tunnel: two copy loops over a 1024-byte buffer, run together under `try_join`.
 One direction is a small machine whose events are the completed reads and (partial) writes; a schedule
 interleaves the events of both directions in any order and with any chunk sizes.
 */
module Relay {
  import opened Bytes

  const BUFFER: nat := 1024
  const U64: nat := 0x1_0000_0000_0000_0000

  datatype Phase = Reading | Writing | Closing | Done | Failed

  /** `sink` is what this direction has delivered; `pending` is read but not delivered, of a chunk of `chunk` bytes. */
  datatype Direction = Direction(
    source: seq<Byte>, read: nat, pending: seq<Byte>, chunk: nat, sink: seq<Byte>,
    total: nat, shutdowns: nat, phase: Phase)

  datatype Event = Read(n: nat) | Eof | Write(n: nat) | Close | Fault

  function Start(source: seq<Byte>): Direction {
    Direction(source, 0, [], 0, [], 0, 0, Reading)
  }

  predicate Enabled(d: Direction, e: Event) {
    match e
    case Read(n) => d.phase.Reading? && 1 <= n <= BUFFER && d.read + n <= |d.source|
    case Eof => d.phase.Reading? && d.read == |d.source|
    case Write(n) => d.phase.Writing? && 1 <= n <= |d.pending|
    case Close => d.phase.Closing?
    case Fault => !d.phase.Done? && !d.phase.Failed?
  }

  function Apply(d: Direction, e: Event): Direction
    requires Enabled(d, e)
  {
    match e
    case Read(n) =>
      d.(read := d.read + n, pending := d.source[d.read..d.read + n], chunk := n, phase := Writing)
    case Eof => d.(phase := Closing)
    case Write(n) =>
      var d' := d.(sink := d.sink + d.pending[..n], pending := d.pending[n..]);
      if n < |d.pending| then d'
      else d'.(total := (d.total + d.chunk) % U64, chunk := 0, phase := Reading)
    case Close => d.(shutdowns := d.shutdowns + 1, phase := Done)
    case Fault => d.(phase := Failed)
  }

  // -------------------------------------------------- one direction's invariant

  ghost predicate Inv(d: Direction) {
    && d.read <= |d.source|
    && d.source[..d.read] == d.sink + d.pending
    && (d.pending != [] ==> d.phase.Writing? || d.phase.Failed?)
    && (d.phase.Writing? ==> d.pending != [])
    && |d.pending| <= d.chunk <= |d.sink| + |d.pending|
    && (d.pending == [] ==> d.chunk == 0)
    && d.total == (|d.sink| + |d.pending| - d.chunk) % U64
    && (d.phase.Closing? || d.phase.Done? ==> d.read == |d.source|)
    && d.shutdowns == if d.phase.Done? then 1 else 0
  }

  lemma ApplyKeepsInv(d: Direction, e: Event)
    requires Inv(d) && Enabled(d, e)
    ensures Inv(Apply(d, e))
  {
    match e {
      case Read(n) => ReadKeepsInv(d, n);
      case Write(n) => WriteKeepsInv(d, n);
      case _ =>
    }
  }

  lemma ReadKeepsInv(d: Direction, n: nat)
    requires Inv(d) && Enabled(d, Read(n))
    ensures Inv(Apply(d, Read(n)))
  {
    var d' := Apply(d, Read(n));
    assert d.source[..d.read + n] == d.source[..d.read] + d.source[d.read..d.read + n];
    assert d.sink + d.pending == d.sink;
  }

  lemma WriteKeepsInv(d: Direction, n: nat)
    requires Inv(d) && Enabled(d, Write(n))
    ensures Inv(Apply(d, Write(n)))
  {
    assert d.sink + d.pending == (d.sink + d.pending[..n]) + d.pending[n..];
    if n == |d.pending| {
      var before := |d.sink| + |d.pending| - d.chunk;
      ModAdd(before, d.chunk);
    }
  }

  lemma ModAdd(a: nat, b: nat)
    ensures (a % U64 + b) % U64 == (a + b) % U64
  {
    var q := a / U64;
    assert a + b == q * U64 + (a % U64 + b);
    ModShift(a % U64 + b, q);
  }

  lemma {:induction false} ModShift(x: nat, q: nat)
    ensures (q * U64 + x) % U64 == x % U64
    decreases q
  {
    if q > 0 {
      ModShift(x, q - 1);
      assert q * U64 + x == ((q - 1) * U64 + x) + U64;
    }
  }

  /** What is delivered is a prefix of the source; a finished direction delivered all and closed once. */
  lemma InvMeans(d: Direction)
    requires Inv(d)
    ensures d.sink <= d.source
    ensures d.phase.Closing? || d.phase.Done? ==> d.sink == d.source && d.total == |d.source| % U64
    ensures Enabled(d, Close) || d.shutdowns == 1 ==> d.sink == d.source
    ensures d.shutdowns == if d.phase.Done? then 1 else 0
    ensures d.phase.Done? && |d.source| < U64 ==> d.total == |d.source|
  {
    assert d.sink == d.source[..d.read][..|d.sink|];
    assert d.source[..|d.source|] == d.source;
  }

  // --------------------------------------------------------- runs of one loop

  ghost predicate ValidLoop(source: seq<Byte>, es: seq<Event>)
    decreases |es|, 0
  {
    es == [] || (var n := |es| - 1;
      ValidLoop(source, es[..n]) && Enabled(Loop(source, es[..n]), es[n]))
  }

  ghost function Loop(source: seq<Byte>, es: seq<Event>): Direction
    requires ValidLoop(source, es)
    decreases |es|, 1
  {
    if es == [] then Start(source)
    else var n := |es| - 1; Apply(Loop(source, es[..n]), es[n])
  }

  lemma LoopStart(source: seq<Byte>)
    ensures ValidLoop(source, []) && Loop(source, []) == Start(source) && Inv(Start(source))
  {
  }

  lemma LoopStep(source: seq<Byte>, es: seq<Event>, e: Event)
    requires ValidLoop(source, es) && Enabled(Loop(source, es), e)
    ensures ValidLoop(source, es + [e]) && Loop(source, es + [e]) == Apply(Loop(source, es), e)
  {
    assert (es + [e])[..|es|] == es;
  }

  // ------------------------------------------------------------- both loops

  datatype Side = ToTarget | ToClient

  datatype Tunnel = Tunnel(toTarget: Direction, toClient: Direction)

  datatype Verdict = Running | Finished(sent: nat, received: nat) | Broken

  function Half(t: Tunnel, s: Side): Direction {
    if s.ToTarget? then t.toTarget else t.toClient
  }

  /** `try_join`: the first error ends the tunnel, success needs both. */
  function Outcome(t: Tunnel): Verdict {
    if t.toTarget.phase.Failed? || t.toClient.phase.Failed? then Broken
    else if t.toTarget.phase.Done? && t.toClient.phase.Done? then Finished(t.toTarget.total, t.toClient.total)
    else Running
  }

  datatype Step = Step(side: Side, event: Event)

  predicate CanStep(t: Tunnel, s: Step) {
    Outcome(t).Running? && Enabled(Half(t, s.side), s.event)
  }

  function Advance(t: Tunnel, s: Step): Tunnel
    requires CanStep(t, s)
  {
    match s.side
    case ToTarget => t.(toTarget := Apply(t.toTarget, s.event))
    case ToClient => t.(toClient := Apply(t.toClient, s.event))
  }

  function Open(fromClient: seq<Byte>, fromTarget: seq<Byte>): Tunnel {
    Tunnel(Start(fromClient), Start(fromTarget))
  }

  ghost predicate Schedule(start: Tunnel, steps: seq<Step>)
    decreases |steps|, 0
  {
    steps == [] || (var n := |steps| - 1;
      Schedule(start, steps[..n]) && CanStep(Run(start, steps[..n]), steps[n]))
  }

  ghost function Run(start: Tunnel, steps: seq<Step>): Tunnel
    requires Schedule(start, steps)
    decreases |steps|, 1
  {
    if steps == [] then start
    else var n := |steps| - 1; Advance(Run(start, steps[..n]), steps[n])
  }

  lemma RunStep(start: Tunnel, steps: seq<Step>, s: Step)
    requires Schedule(start, steps) && CanStep(Run(start, steps), s)
    ensures Schedule(start, steps + [s]) && Run(start, steps + [s]) == Advance(Run(start, steps), s)
  {
    assert (steps + [s])[..|steps|] == steps;
  }

  ghost predicate TunnelInv(t: Tunnel, fromClient: seq<Byte>, fromTarget: seq<Byte>) {
    Inv(t.toTarget) && Inv(t.toClient) && t.toTarget.source == fromClient && t.toClient.source == fromTarget
  }

  lemma {:induction false} RunKeepsInv(fromClient: seq<Byte>, fromTarget: seq<Byte>, steps: seq<Step>)
    requires Schedule(Open(fromClient, fromTarget), steps)
    ensures TunnelInv(Run(Open(fromClient, fromTarget), steps), fromClient, fromTarget)
  {
    if steps != [] {
      var n := |steps| - 1;
      RunKeepsInv(fromClient, fromTarget, steps[..n]);
      hide Inv;
      var t := Run(Open(fromClient, fromTarget), steps[..n]);
      ApplyKeepsInv(Half(t, steps[n].side), steps[n].event);
    }
  }

  /**
   Under every interleaving and every chunking: each sink holds a prefix of the opposite source and nothing
   else; a write side is closed at most once, and only when its source is drained and delivered; and a tunnel
   that finishes has delivered both sources in full and returns their lengths.
   */
  lemma EverySchedule(fromClient: seq<Byte>, fromTarget: seq<Byte>, steps: seq<Step>)
    requires Schedule(Open(fromClient, fromTarget), steps)
    ensures var t := Run(Open(fromClient, fromTarget), steps);
      && t.toTarget.sink <= fromClient && t.toClient.sink <= fromTarget
      && t.toTarget.shutdowns <= 1 && t.toClient.shutdowns <= 1
      && (Enabled(t.toTarget, Close) || t.toTarget.shutdowns == 1 ==> t.toTarget.sink == fromClient)
      && (Enabled(t.toClient, Close) || t.toClient.shutdowns == 1 ==> t.toClient.sink == fromTarget)
      && (Outcome(t).Finished? ==>
            && t.toTarget.sink == fromClient && t.toClient.sink == fromTarget
            && t.toTarget.shutdowns == 1 && t.toClient.shutdowns == 1
            && (|fromClient| < 0x1_0000_0000_0000_0000 && |fromTarget| < 0x1_0000_0000_0000_0000 ==>
                  Outcome(t) == Finished(|fromClient|, |fromTarget|)))
  {
    hide Inv, Schedule, Run, Enabled;
    RunKeepsInv(fromClient, fromTarget, steps);
    var t := Run(Open(fromClient, fromTarget), steps);
    InvMeans(t.toTarget);
    InvMeans(t.toClient);
  }

  /** The events of one side of a schedule, in order. */
  function EventsOf(steps: seq<Step>, side: Side): seq<Event> {
    if steps == [] then []
    else
      var n := |steps| - 1;
      EventsOf(steps[..n], side) + if steps[n].side == side then [steps[n].event] else []
  }

  /** Each half of every schedule is a run of its own copy loop. */
  lemma {:induction false} HalvesAreLoops(fromClient: seq<Byte>, fromTarget: seq<Byte>, steps: seq<Step>)
    requires Schedule(Open(fromClient, fromTarget), steps)
    ensures ValidLoop(fromClient, EventsOf(steps, ToTarget)) && ValidLoop(fromTarget, EventsOf(steps, ToClient))
    ensures Run(Open(fromClient, fromTarget), steps)
         == Tunnel(Loop(fromClient, EventsOf(steps, ToTarget)), Loop(fromTarget, EventsOf(steps, ToClient)))
    decreases |steps|
  {
    if steps == [] {
      LoopStart(fromClient);
      LoopStart(fromTarget);
    } else {
      var n := |steps| - 1;
      HalvesAreLoops(fromClient, fromTarget, steps[..n]);
      hide Apply, Enabled, ValidLoop, Loop;
      var e := steps[n].event;
      var own, other := EventsOf(steps[..n], ToTarget), EventsOf(steps[..n], ToClient);
      assert own + [] == own && other + [] == other;
      if steps[n].side.ToTarget? {
        LoopStep(fromClient, own, e);
      } else {
        LoopStep(fromTarget, other, e);
      }
    }
  }

  /** Two schedules of the same tunnel that both finish end in the same state. */
  lemma OutcomeIgnoresSchedule(fromClient: seq<Byte>, fromTarget: seq<Byte>, one: seq<Step>, two: seq<Step>)
    requires Schedule(Open(fromClient, fromTarget), one) && Schedule(Open(fromClient, fromTarget), two)
    requires Outcome(Run(Open(fromClient, fromTarget), one)).Finished?
    requires Outcome(Run(Open(fromClient, fromTarget), two)).Finished?
    ensures Run(Open(fromClient, fromTarget), one) == Run(Open(fromClient, fromTarget), two)
  {
    RunKeepsInv(fromClient, fromTarget, one);
    RunKeepsInv(fromClient, fromTarget, two);
    var t, u := Run(Open(fromClient, fromTarget), one), Run(Open(fromClient, fromTarget), two);
    InvMeans(t.toTarget);
    InvMeans(t.toClient);
    InvMeans(u.toTarget);
    InvMeans(u.toClient);
  }

  // --------------------------------------------------- progress and termination

  function Work(d: Direction): int {
    if d.phase.Failed? || d.phase.Done? then 0
    else 3 * (|d.source| - d.read) + 2 * |d.pending| + if d.phase.Closing? then 1 else 2
  }

  lemma ApplyWorks(d: Direction, e: Event)
    requires Inv(d) && Enabled(d, e)
    ensures 0 <= Work(Apply(d, e)) < Work(d)
  {
  }

  /** Every schedule is at most three steps per byte, and four, long. */
  lemma {:induction false} SchedulesEnd(fromClient: seq<Byte>, fromTarget: seq<Byte>, steps: seq<Step>)
    requires Schedule(Open(fromClient, fromTarget), steps)
    ensures var t := Run(Open(fromClient, fromTarget), steps);
      0 <= Work(t.toTarget) && 0 <= Work(t.toClient)
      && |steps| + Work(t.toTarget) + Work(t.toClient) <= 3 * (|fromClient| + |fromTarget|) + 4
  {
    if steps != [] {
      var n := |steps| - 1;
      SchedulesEnd(fromClient, fromTarget, steps[..n]);
      RunKeepsInv(fromClient, fromTarget, steps[..n]);
      hide Inv, Work;
      var t := Run(Open(fromClient, fromTarget), steps[..n]);
      ApplyWorks(Half(t, steps[n].side), steps[n].event);
    }
  }

  lemma AdvanceWorks(t: Tunnel, s: Step)
    requires Inv(t.toTarget) && Inv(t.toClient) && CanStep(t, s)
    ensures var u := Advance(t, s);
      0 <= Work(u.toTarget) + Work(u.toClient) < Work(t.toTarget) + Work(t.toClient)
  {
    ApplyWorks(Half(t, s.side), s.event);
    hide Work;
    WorkIsNatural(Half(t, if s.side.ToTarget? then ToClient else ToTarget));
  }

  lemma WorkIsNatural(d: Direction)
    requires Inv(d)
    ensures 0 <= Work(d)
  {
  }

  function NextEvent(d: Direction): Event {
    match d.phase
    case Reading => if d.read < |d.source| then Read(1) else Eof
    case Writing => Write(1)
    case _ => Close
  }

  /** A tunnel that has not ended can always move on without an error: it never deadlocks. */
  lemma NoDeadlock(fromClient: seq<Byte>, fromTarget: seq<Byte>, steps: seq<Step>) returns (s: Step)
    requires Schedule(Open(fromClient, fromTarget), steps)
    requires Outcome(Run(Open(fromClient, fromTarget), steps)).Running?
    ensures CanStep(Run(Open(fromClient, fromTarget), steps), s) && !s.event.Fault?
  {
    RunKeepsInv(fromClient, fromTarget, steps);
    var t := Run(Open(fromClient, fromTarget), steps);
    var side := if t.toTarget.phase.Done? then ToClient else ToTarget;
    s := Step(side, NextEvent(Half(t, side)));
  }

  /** Only a fault breaks a running tunnel, and it does so at once. */
  lemma BreaksOnFault(t: Tunnel, s: Step)
    requires CanStep(t, s)
    ensures Outcome(Advance(t, s)).Broken? <==> s.event.Fault?
  {
  }

  /** `try_join`: whichever side fails, its fault is the last step of the schedule. */
  lemma {:induction false} FaultEndsTunnel(start: Tunnel, steps: seq<Step>, i: nat)
    requires Schedule(start, steps) && i < |steps| && steps[i].event.Fault?
    ensures i == |steps| - 1 && Outcome(Run(start, steps)).Broken?
  {
    var n := |steps| - 1;
    if i < n {
      FaultEndsTunnel(start, steps[..n], i);
    } else {
      BreaksOnFault(Run(start, steps[..n]), steps[n]);
    }
  }

  lemma {:induction false} FailureNeedsFault(start: Tunnel, steps: seq<Step>)
    requires Schedule(start, steps) && Outcome(start).Running?
    requires forall i :: 0 <= i < |steps| ==> !steps[i].event.Fault?
    ensures !Outcome(Run(start, steps)).Broken?
  {
    if steps != [] {
      var n := |steps| - 1;
      FailureNeedsFault(start, steps[..n]);
    }
  }

  /** Without an I/O error, a schedule that cannot be continued has delivered everything. */
  lemma FaultFreeRunsFinish(fromClient: seq<Byte>, fromTarget: seq<Byte>, steps: seq<Step>)
    requires Schedule(Open(fromClient, fromTarget), steps)
    requires forall i :: 0 <= i < |steps| ==> !steps[i].event.Fault?
    requires forall s :: CanStep(Run(Open(fromClient, fromTarget), steps), s) ==> s.event.Fault?
    ensures Outcome(Run(Open(fromClient, fromTarget), steps)).Finished?
  {
    FailureNeedsFault(Open(fromClient, fromTarget), steps);
    if Outcome(Run(Open(fromClient, fromTarget), steps)).Running? {
      var _ := NoDeadlock(fromClient, fromTarget, steps);
    }
  }

  // --------------------------------------------------------- implementation

  class Reader {
    const bytes: seq<Byte>
    var pos: nat
    /** An I/O error has happened. */
    ghost var failed: bool

    constructor (bytes: seq<Byte>)
      ensures this.bytes == bytes && pos == 0 && !failed
    {
      this.bytes, this.pos, this.failed := bytes, 0, false;
    }

    /** One `read` into the buffer: some bytes that have arrived, zero only at the end, or an error. */
    method Read(buf: array<Byte>) returns (r: Option<nat>)
      requires pos <= |bytes| && buf.Length > 0
      modifies this, buf
      ensures pos <= |bytes|
      ensures r.None? ==> pos == old(pos)
      ensures failed == (old(failed) || r.None?)
      ensures r.Some? ==> pos == old(pos) + r.value && r.value <= buf.Length
                          && buf[..r.value] == bytes[old(pos)..pos]
                          && (r.value == 0 <==> old(pos) == |bytes|)
    {
      if * {
        failed := true;
        return None;
      }
      var bound := Min(buf.Length, |bytes| - pos);
      if bound == 0 {
        return Some(0);
      }
      var n :| 1 <= n <= bound;
      forall i | 0 <= i < n {
        buf[i] := bytes[pos + i];
      }
      pos := pos + n;
      r := Some(n);
    }
  }

  class Writer {
    var data: seq<Byte>
    var closed: nat
    ghost var failed: bool

    constructor ()
      ensures data == [] && closed == 0 && !failed
    {
      data, closed, failed := [], 0, false;
    }

    /** `write_all`: everything, or an error behind a strict prefix. */
    method WriteAll(bytes: seq<Byte>) returns (ok: bool)
      requires bytes != []
      modifies this`data, this`failed
      ensures failed == (old(failed) || !ok)
      ensures ok ==> data == old(data) + bytes
      ensures !ok ==> exists k :: 0 <= k < |bytes| && data == old(data) + bytes[..k]
    {
      if * {
        var k :| 0 <= k < |bytes|;
        data := data + bytes[..k];
        failed := true;
        return false;
      }
      data := data + bytes;
      ok := true;
    }

    method Shutdown() returns (ok: bool)
      modifies this`closed, this`failed
      ensures failed == (old(failed) || !ok)
      ensures closed == old(closed) + if ok then 1 else 0
    {
      if * {
        failed := true;
        return false;
      }
      closed := closed + 1;
      ok := true;
    }
  }

  /** The direction `d` is where the run `es` of the copy loop leads. */
  ghost predicate ReachedBy(d: Direction, source: seq<Byte>, es: seq<Event>) {
    ValidLoop(source, es) && d == Loop(source, es) && Inv(d)
  }

  /** The machine state a running loop is in. */
  ghost predicate Matches(d: Direction, read: Reader, write: Writer)
    reads read, write
  {
    d.source == read.bytes && d.sink == write.data && d.read == read.pos && d.shutdowns == write.closed
  }

  /** Forwards the chunk just read; an error leaves a strict prefix of it delivered. */
  method Deliver(write: Writer, bytes: seq<Byte>, ghost source: seq<Byte>, ghost d: Direction, ghost es: seq<Event>)
    returns (ok: bool, ghost d': Direction, ghost more: seq<Event>)
    requires ReachedBy(d, source, es) && write.data == d.sink
    requires Enabled(d, Read(|bytes|)) && bytes == d.source[d.read..d.read + |bytes|]
    modifies write`data, write`failed
    ensures write.failed == (old(write.failed) || !ok)
    ensures ReachedBy(d', source, more)
    ensures write.data == d'.sink && d'.source == d.source && d'.read == d.read + |bytes| && d'.shutdowns == d.shutdowns
    ensures ok ==> d'.phase.Reading? && d'.total == (d.total + |bytes|) % U64
    ensures !ok ==> d'.phase.Failed?
  {
    hide ReachedBy;
    ok := write.WriteAll(bytes);
    if ok {
      d', more := Forwarded(source, d, es, bytes);
    } else {
      ghost var k: nat :| k < |bytes| && write.data == d.sink + bytes[..k];
      d', more := CutShort(source, d, es, bytes, k);
    }
  }

  /** A chunk that was read and written in full. */
  lemma Forwarded(source: seq<Byte>, d: Direction, es: seq<Event>, bytes: seq<Byte>)
    returns (d': Direction, more: seq<Event>)
    requires ReachedBy(d, source, es)
    requires Enabled(d, Read(|bytes|)) && bytes == d.source[d.read..d.read + |bytes|]
    ensures ReachedBy(d', source, more)
    ensures d'.sink == d.sink + bytes && d'.source == d.source && d'.read == d.read + |bytes|
    ensures d'.shutdowns == d.shutdowns && d'.phase.Reading? && d'.total == (d.total + |bytes|) % U64
  {
    hide ReachedBy;
    d', more := Take(source, d, es, Read(|bytes|));
    assert bytes[..|bytes|] == bytes;
    d', more := Take(source, d', more, Write(|bytes|));
  }

  /** A chunk that was read and of which `k` bytes were written before the error. */
  lemma CutShort(source: seq<Byte>, d: Direction, es: seq<Event>, bytes: seq<Byte>, k: nat)
    returns (d': Direction, more: seq<Event>)
    requires ReachedBy(d, source, es)
    requires Enabled(d, Read(|bytes|)) && bytes == d.source[d.read..d.read + |bytes|] && k < |bytes|
    ensures ReachedBy(d', source, more)
    ensures d'.sink == d.sink + bytes[..k] && d'.source == d.source && d'.read == d.read + |bytes|
    ensures d'.shutdowns == d.shutdowns && d'.phase.Failed?
  {
    hide ReachedBy;
    d', more := Take(source, d, es, Read(|bytes|));
    if k > 0 {
      d', more := Take(source, d', more, Write(k));
    } else {
      assert d.sink + bytes[..k] == d.sink;
    }
    d', more := Stop(source, d', more);
  }

  /** An error ends the loop where it is. */
  lemma Stop(source: seq<Byte>, d: Direction, es: seq<Event>) returns (d': Direction, more: seq<Event>)
    requires ReachedBy(d, source, es) && Enabled(d, Fault)
    ensures ReachedBy(d', source, more) && d' == d.(phase := Failed)
  {
    hide ReachedBy;
    d', more := Take(source, d, es, Fault);
  }

  /** The copy loop over the reused buffer, up to the end of the source or the first error. */
  method CopyAll(read: Reader, write: Writer) returns (r: Option<nat>, ghost d: Direction, ghost es: seq<Event>)
    requires read.pos == 0 && write.data == [] && write.closed == 0 && !read.failed && !write.failed
    modifies read, write
    ensures r.None? <==> read.failed || write.failed
    ensures ReachedBy(d, read.bytes, es) && Matches(d, read, write)
    ensures r.Some? ==> Enabled(d, Eof) && r.value == d.total
    ensures r.None? ==> d.phase.Failed?
  {
    var buf := new Byte[BUFFER];
    var total := 0;
    LoopStart(read.bytes);
    es, d := [], Start(read.bytes);
    hide ReachedBy, Loop, ValidLoop, Inv, Apply, Start;
    while true
      invariant ReachedBy(d, read.bytes, es)
      invariant Matches(d, read, write) && d.phase.Reading? && total == d.total
      invariant read.pos <= |read.bytes| && !read.failed && !write.failed
      decreases |read.bytes| - read.pos
    {
      var n := read.Read(buf);
      if n.None? {
        d, es := Stop(read.bytes, d, es);
        return None, d, es;
      }
      if n.value == 0 { return Some(total), d, es; }
      var ok;
      var chunk := buf[..n.value];
      ok, d, es := Deliver(write, chunk, read.bytes, d, es);
      if !ok { return None, d, es; }
      total := (total + n.value) % U64;
    }
  }

  /** `relay_with_logging`: the loop is a run of the direction machine, so its result is that run's result. */
  method RelayWithLogging(read: Reader, write: Writer) returns (r: Option<nat>, ghost es: seq<Event>)
    requires read.pos == 0 && write.data == [] && write.closed == 0 && !read.failed && !write.failed
    modifies read, write
    ensures r.None? <==> read.failed || write.failed
    ensures ValidLoop(read.bytes, es) && Inv(Loop(read.bytes, es)) && Matches(Loop(read.bytes, es), read, write)
    ensures r.Some? ==>
      write.data == read.bytes && write.closed == 1 && r.value == |read.bytes| % 0x1_0000_0000_0000_0000
    ensures r.None? ==> Loop(read.bytes, es).phase.Failed? && write.data <= read.bytes && write.closed == 0
  {
    hide Inv, Loop, ValidLoop;
    ghost var d;
    r, d, es := CopyAll(read, write);
    if r.Some? {
      d, es := Take(read.bytes, d, es, Eof);
      var ok := write.Shutdown();
      d, es := Take(read.bytes, d, es, if ok then Close else Fault);
      if !ok { r := None; }
    }
    InvMeans(d);
  }

  /** Extends a run by one enabled event. */
  lemma Take(source: seq<Byte>, d: Direction, es: seq<Event>, e: Event) returns (d': Direction, more: seq<Event>)
    requires ReachedBy(d, source, es) && Enabled(d, e)
    ensures ReachedBy(d', source, more) && d' == Apply(d, e)
  {
    more := es + [e];
    LoopStep(source, es, e);
    ApplyKeepsInv(d, e);
    d' := Apply(d, e);
  }
}
