/** The port allocator: a set of allocated ports, a deque of free ones and a cursor. */
module PortAllocator {
  import opened Bytes

  datatype AllocError =
    | PortOutOfRange(port: U16, min: U16, max: U16)
    | PortUnavailable(port: U16)
    | NoPortsAvailable(min: U16, max: U16)
    | PortNotAllocated(port: U16)

  datatype State = State(min: U16, max: U16, taken: set<U16>, free: seq<U16>, next: U16)

  // ---------------------------------------------------------- specification

  /** `(min..=max).collect()`. */
  function Range(min: U16, max: U16): (ports: seq<U16>)
    requires min <= max
    ensures |ports| == max - min + 1
    ensures forall i :: 0 <= i < |ports| ==> ports[i] == min + i
  {
    seq(max - min + 1, i requires 0 <= i <= max - min => (min + i) as U16)
  }

  /** `retain(|&p| p != port)`. */
  function Without(q: seq<U16>, port: U16): (r: seq<U16>)
    ensures port !in r
    ensures forall p :: p in r <==> p in q && p != port
    ensures |r| <= |q|
  {
    if q == [] then []
    else
      assert q == [q[0]] + q[1..];
      if q[0] == port then Without(q[1..], port) else [q[0]] + Without(q[1..], port)
  }

  function New(min: U16, max: U16): (s: State)
    requires 0 < min <= max
    ensures Inv(s)
  {
    RangeIsAll(min, max);
    State(min, max, {}, Range(min, max), min)
  }

  datatype Op = Specific(port: U16) | Next | Release(port: U16)

  /** A granted port, a completed release, or the error. */
  datatype Answer = Granted(port: U16) | Released | Denied(error: AllocError)

  function AllocateSpecific(s: State, port: U16): (State, Answer) {
    if port < s.min || port > s.max then (s, Denied(PortOutOfRange(port, s.min, s.max)))
    else if port in s.taken then (s, Denied(PortUnavailable(port)))
    else (s.(taken := s.taken + {port}, free := Without(s.free, port)), Granted(port))
  }

  /** The cursor arithmetic is on u16; `Inv` is what keeps `port + 1` in range. */
  function AllocateNext(s: State): (State, Answer)
    requires Inv(s)
  {
    if s.free == [] then (s, Denied(NoPortsAvailable(s.min, s.max)))
    else
      var port := s.free[0];
      assert port in s.free;
      var next := if port == s.max then s.min else port + 1;
      (s.(taken := s.taken + {port}, free := s.free[1..], next := next), Granted(port))
  }

  function ReleasePort(s: State, port: U16): (State, Answer) {
    if port !in s.taken then (s, Denied(PortNotAllocated(port)))
    else
      (s.(taken := s.taken - {port},
          free := if port < s.next then [port] + s.free else s.free + [port]), Released)
  }

  function Step(s: State, op: Op): (State, Answer)
    requires Inv(s)
  {
    match op
    case Specific(port) => AllocateSpecific(s, port)
    case Next => AllocateNext(s)
    case Release(port) => ReleasePort(s, port)
  }

  // -------------------------------------------------------------- the partition

  /** The deque and the set partition the range, and the deque has no duplicates. */
  ghost predicate Inv(s: State) {
    && 0 < s.min <= s.max
    && Distinct(s.free)
    && (forall p: U16 :: p in s.free <==> s.min <= p <= s.max && p !in s.taken)
    && (forall p :: p in s.taken ==> s.min <= p <= s.max)
  }

  lemma RangeIsAll(min: U16, max: U16)
    requires min <= max
    ensures forall p: U16 :: p in Range(min, max) <==> min <= p <= max
  {
    var q := Range(min, max);
    forall p: U16 | min <= p <= max ensures p in q {
      assert q[p - min] == p;
    }
  }

  lemma {:induction false} WithoutKeepsDistinct(q: seq<U16>, port: U16)
    requires Distinct(q)
    ensures Distinct(Without(q, port))
  {
    if q != [] {
      WithoutKeepsDistinct(q[1..], port);
      assert q[0] !in q[1..];
    }
  }

  lemma StepKeepsInv(s: State, op: Op)
    requires Inv(s)
    ensures Inv(Step(s, op).0)
    ensures Step(s, op).0.min == s.min && Step(s, op).0.max == s.max
  {
    match op {
      case Specific(port) => WithoutKeepsDistinct(s.free, port);
      case Next =>
        if s.free != [] {
          FirstAndRest(s.free);
        }
      case Release(port) =>
        if port in s.taken {
          assert port !in s.free;
        }
    }
  }

  ghost function Run(s: State, ops: seq<Op>): State
    requires Inv(s)
    ensures Inv(Run(s, ops))
    decreases |ops|
  {
    if ops == [] then s
    else
      var n := |ops| - 1;
      StepKeepsInv(Run(s, ops[..n]), ops[n]);
      Step(Run(s, ops[..n]), ops[n]).0
  }

  /** The answer to the last operation of a run. */
  ghost function LastAnswer(s: State, ops: seq<Op>): Answer
    requires Inv(s) && ops != []
  {
    Step(Run(s, ops[..|ops| - 1]), ops[|ops| - 1]).1
  }

  // --------------------------------------------------- counts and exhaustion

  ghost function Ports(min: U16, max: U16): set<U16>
    requires min <= max
  {
    Elements(Range(min, max))
  }

  /** After every run the two counts add up to the size of the range. */
  lemma CountsAddUp(min: U16, max: U16, ops: seq<Op>)
    requires 0 < min <= max
    ensures var s := Run(New(min, max), ops); |s.free| + |s.taken| == max - min + 1
  {
    var s := Run(New(min, max), ops);
    RunKeepsRange(New(min, max), ops);
    InvCounts(s);
  }

  lemma InvCounts(s: State)
    requires Inv(s)
    ensures |s.free| + |s.taken| == s.max - s.min + 1
  {
    var rest := Elements(s.free);
    DistinctCount(s.free);
    DistinctCount(Range(s.min, s.max));
    RangeIsAll(s.min, s.max);
    assert Ports(s.min, s.max) == rest + s.taken && rest !! s.taken;
  }

  lemma {:induction false} RunKeepsRange(s: State, ops: seq<Op>)
    requires Inv(s)
    ensures Run(s, ops).min == s.min && Run(s, ops).max == s.max
    decreases |ops|
  {
    if ops != [] {
      var n := |ops| - 1;
      RunKeepsRange(s, ops[..n]);
      StepKeepsInv(Run(s, ops[..n]), ops[n]);
    }
  }

  /** Allocating fails exactly when every port of the range is allocated. */
  lemma NextFailsWhenFull(s: State)
    requires Inv(s)
    ensures AllocateNext(s).1.Denied? <==> s.taken == Ports(s.min, s.max)
    ensures AllocateNext(s).1.Denied? <==> |s.taken| == s.max - s.min + 1
  {
    RangeIsAll(s.min, s.max);
    InvCounts(s);
    if s.free != [] {
      assert s.free[0] in s.free;
    }
  }

  // ------------------------------------------------------------ live ports

  /** The ports handed out and not given back, read off the answers alone. */
  ghost function Live(s: State, ops: seq<Op>): set<U16>
    requires Inv(s)
    decreases |ops|
  {
    if ops == [] then {}
    else
      var n := |ops| - 1;
      var before := Live(s, ops[..n]);
      match LastAnswer(s, ops)
      case Granted(p) => before + {p}
      case Released => if ops[n].Release? then before - {ops[n].port} else before
      case Denied(_) => before
  }

  lemma {:induction false} AllocatedIsLive(min: U16, max: U16, ops: seq<Op>)
    requires 0 < min <= max
    ensures Run(New(min, max), ops).taken == Live(New(min, max), ops)
    decreases |ops|
  {
    if ops != [] {
      var n := |ops| - 1;
      hide Inv, Step;
      AllocatedIsLive(min, max, ops[..n]);
      TakenStep(Run(New(min, max), ops[..n]), ops[n]);
    }
  }

  lemma TakenStep(s: State, op: Op)
    requires Inv(s)
    ensures var (t, a) := Step(s, op); t.taken == match a
      case Granted(p) => s.taken + {p}
      case Released => if op.Release? then s.taken - {op.port} else s.taken
      case Denied(_) => s.taken
  {
    hide Inv;
  }

  /** No port is handed out twice while it is live, and only ports of the range are. */
  lemma NeverTwice(min: U16, max: U16, ops: seq<Op>)
    requires 0 < min <= max && ops != []
    requires LastAnswer(New(min, max), ops).Granted?
    ensures LastAnswer(New(min, max), ops).port !in Live(New(min, max), ops[..|ops| - 1])
    ensures min <= LastAnswer(New(min, max), ops).port <= max
  {
    var before := ops[..|ops| - 1];
    AllocatedIsLive(min, max, before);
    RunKeepsRange(New(min, max), before);
    var s := Run(New(min, max), before);
    if ops[|ops| - 1].Next? {
      assert s.free[0] in s.free;
    }
  }

  /** A specific port is granted exactly when it is in the range and not live; otherwise the error says which. */
  lemma SpecificAnswer(min: U16, max: U16, ops: seq<Op>, port: U16)
    requires 0 < min <= max
    ensures LastAnswer(New(min, max), ops + [Specific(port)])
         == if !(min <= port <= max) then Denied(PortOutOfRange(port, min, max))
            else if port in Live(New(min, max), ops) then Denied(PortUnavailable(port))
            else Granted(port)
  {
    assert (ops + [Specific(port)])[..|ops|] == ops;
    AllocatedIsLive(min, max, ops);
    RunKeepsRange(New(min, max), ops);
  }

  /** A port is given back exactly when it is live; otherwise the error names it. */
  lemma ReleaseAnswer(min: U16, max: U16, ops: seq<Op>, port: U16)
    requires 0 < min <= max
    ensures LastAnswer(New(min, max), ops + [Release(port)])
         == if port in Live(New(min, max), ops) then Released else Denied(PortNotAllocated(port))
  {
    assert (ops + [Release(port)])[..|ops|] == ops;
    AllocatedIsLive(min, max, ops);
  }

  /** `Next` is denied exactly when every port of the range is live, and the error names the range. */
  lemma NextAnswer(min: U16, max: U16, ops: seq<Op>)
    requires 0 < min <= max
    ensures var a := LastAnswer(New(min, max), ops + [Next]);
      if Live(New(min, max), ops) == Ports(min, max) then a == Denied(NoPortsAvailable(min, max)) else a.Granted?
  {
    assert (ops + [Next])[..|ops|] == ops;
    AllocatedIsLive(min, max, ops);
    RunKeepsRange(New(min, max), ops);
    NextFailsWhenFull(Run(New(min, max), ops));
  }

  /** Taking a specific port out of the deque leaves the others in their order. */
  lemma {:induction false} SpecificLeavesOrder(s: State, port: U16, a: seq<U16>, b: seq<U16>)
    requires Inv(s) && s.free == a + [port] + b
    ensures AllocateSpecific(s, port).0.free == a + b && AllocateSpecific(s, port).1 == Granted(port)
  {
    assert s.free[|a|] == port;
    assert port in s.free;
    forall i | 0 <= i < |a| ensures a[i] != port {
      assert s.free[i] == a[i];
    }
    forall i | 0 <= i < |b| ensures b[i] != port {
      assert s.free[|a| + 1 + i] == b[i];
    }
    hide Inv;
    WithoutCuts(a, port, b);
  }

  lemma {:induction false} WithoutCuts(a: seq<U16>, port: U16, b: seq<U16>)
    requires port !in a && port !in b
    ensures Without(a + [port] + b, port) == a + b
  {
    var q := a + [port] + b;
    if a == [] {
      assert q[1..] == b;
      WithoutNothing(b, port);
      assert a + b == b;
    } else {
      assert q[0] == a[0] && q[1..] == a[1..] + [port] + b;
      WithoutCuts(a[1..], port, b);
      assert a + b == [a[0]] + (a[1..] + b);
    }
  }

  lemma {:induction false} WithoutNothing(q: seq<U16>, port: U16)
    requires port !in q
    ensures Without(q, port) == q
  {
    if q != [] {
      WithoutNothing(q[1..], port);
    }
  }

  // ---------------------------------------------------------------- order

  predicate Increasing(q: seq<U16>) {
    forall i, j :: 0 <= i < j < |q| ==> q[i] < q[j]
  }

  lemma {:induction false} WithoutKeepsIncreasing(q: seq<U16>, port: U16)
    requires Increasing(q)
    ensures Increasing(Without(q, port))
  {
    if q != [] {
      WithoutKeepsIncreasing(q[1..], port);
      var r := Without(q[1..], port);
      forall i | 0 <= i < |r| ensures q[0] < r[i] {
        assert r[i] in q[1..];
      }
    }
  }

  /** Until the first release the deque is strictly increasing. */
  lemma {:induction false} IncreasingWithoutRelease(min: U16, max: U16, ops: seq<Op>)
    requires 0 < min <= max
    requires forall i :: 0 <= i < |ops| ==> !ops[i].Release?
    ensures Increasing(Run(New(min, max), ops).free)
    decreases |ops|
  {
    if ops != [] {
      var n := |ops| - 1;
      IncreasingWithoutRelease(min, max, ops[..n]);
      var s := Run(New(min, max), ops[..n]);
      if ops[n].Specific? {
        WithoutKeepsIncreasing(s.free, ops[n].port);
      }
    }
  }

  /** So, mixed with specific allocations in any way, `Next` hands out the smallest free port. */
  lemma SmallestFirst(min: U16, max: U16, ops: seq<Op>)
    requires 0 < min <= max
    requires forall i :: 0 <= i < |ops| ==> !ops[i].Release?
    ensures var s := Run(New(min, max), ops);
      AllocateNext(s).1.Granted? ==>
        var p := AllocateNext(s).1.port;
        min <= p <= max && p !in s.taken
        && forall q :: min <= q <= max && q !in s.taken ==> p <= q
  {
    IncreasingWithoutRelease(min, max, ops);
    RunKeepsRange(New(min, max), ops);
    var s := Run(New(min, max), ops);
    if s.free != [] {
      assert s.free[0] in s.free;
    }
  }

  /**
   The order is lost by releases.  The deque is increasing after a release exactly when it was before and a port
   below the cursor is smaller than the head, or a port at or above it larger than the last; so a release never
   restores a lost order.
   */
  lemma ReleaseKeepsIncreasing(s: State, port: U16)
    requires Inv(s) && port in s.taken
    ensures Increasing(ReleasePort(s, port).0.free)
       <==> Increasing(s.free)
            && (s.free == [] || if port < s.next then port < s.free[0] else s.free[|s.free| - 1] < port)
  {
    var q := s.free;
    var r := ReleasePort(s, port).0.free;
    if port < s.next {
      assert r[0] == port && q == r[1..];
      assert q != [] ==> r[1] == q[0];
    } else {
      assert r[|q|] == port && q == r[..|q|];
      assert q != [] ==> r[|q| - 1] == q[|q| - 1];
    }
  }

  /** On the range 1 to 3: allocating twice and releasing both in order leaves 2, 1, 3. */
  lemma OrderIsLost()
    ensures Run(New(1, 3), [Next, Next, Release(1), Release(2)]).free == [2, 1, 3]
  {
    var s0 := New(1, 3);
    assert s0.free == [1, 2, 3];
    var ops := [Next, Next, Release(1), Release(2)];
    assert ops[..3] == [Next, Next, Release(1)] && ops[..3][..2] == [Next, Next];
    assert ops[..3][..2][..1] == [Next] && ops[..3][..2][..1][..0] == [];
    assert Run(s0, [Next]) == Step(s0, Next).0;
    assert Run(s0, [Next, Next]) == Step(Run(s0, [Next]), Next).0;
    assert Run(s0, ops[..3]) == Step(Run(s0, [Next, Next]), Release(1)).0;
  }

  // --------------------------------------------------------------- the cursor

  /** The port `Next` granted last, read off the answers alone. */
  ghost function LastNext(s: State, ops: seq<Op>): Option<U16>
    requires Inv(s)
    decreases |ops|
  {
    if ops == [] then None
    else
      var n := |ops| - 1;
      if ops[n].Next? && LastAnswer(s, ops).Granted? then Some(LastAnswer(s, ops).port) else LastNext(s, ops[..n])
  }

  /**
   After every run the cursor stands behind the port `Next` granted last, and at the start of the range before the
   first grant and after a grant of the last port; specific grants and releases do not move it.
   */
  lemma {:induction false} CursorFollowsNext(min: U16, max: U16, ops: seq<Op>)
    requires 0 < min <= max
    ensures var last := LastNext(New(min, max), ops);
      Run(New(min, max), ops).next == if last.None? || last.value == max then min else last.value + 1
    decreases |ops|
  {
    if ops != [] {
      var n := |ops| - 1;
      CursorFollowsNext(min, max, ops[..n]);
      RunKeepsRange(New(min, max), ops[..n]);
      hide Inv;
    }
  }

  /** The port is at most the one `Next` granted last, and that grant did not wrap the cursor. */
  ghost predicate Passed(s: State, ops: seq<Op>, port: U16)
    requires Inv(s)
  {
    var last := LastNext(s, ops); last.Some? && last.value != s.max && port <= last.value
  }

  lemma OneMore(s: State, ops: seq<Op>, a: Op)
    requires Inv(s)
    ensures Run(s, ops + [a]) == Step(Run(s, ops), a).0 && LastAnswer(s, ops + [a]) == Step(Run(s, ops), a).1
  {
    hide Inv, Step;
    assert (ops + [a])[..|ops|] == ops;
  }

  lemma TwoMore(s: State, ops: seq<Op>, a: Op, b: Op)
    requires Inv(s)
    ensures Inv(Step(Run(s, ops), a).0)
    ensures LastAnswer(s, ops + [a]) == Step(Run(s, ops), a).1 && Run(s, ops + [a]) == Step(Run(s, ops), a).0
    ensures LastAnswer(s, ops + [a, b]) == Step(Step(Run(s, ops), a).0, b).1
    ensures Run(s, ops + [a, b]) == Step(Step(Run(s, ops), a).0, b).0
  {
    hide Inv, Step, Run, LastAnswer;
    StepKeepsInv(Run(s, ops), a);
    OneMore(s, ops, a);
    OneMore(s, ops + [a], b);
    assert ops + [a, b] == ops + [a] + [b];
  }

  /** After every run: a live port up to the last grant of `Next`, once released, is what `Next` grants then. */
  lemma ReleasedBelowIsNext(min: U16, max: U16, ops: seq<Op>, port: U16)
    requires 0 < min <= max
    requires port in Live(New(min, max), ops) && Passed(New(min, max), ops, port)
    ensures LastAnswer(New(min, max), ops + [Release(port), Next]) == Granted(port)
    ensures Run(New(min, max), ops + [Release(port), Next]).free == Run(New(min, max), ops).free
    ensures Run(New(min, max), ops + [Release(port), Next]).taken == Run(New(min, max), ops).taken
  {
    var start := New(min, max);
    AllocatedIsLive(min, max, ops);
    CursorFollowsNext(min, max, ops);
    TwoMore(start, ops, Release(port), Next);
    hide Inv, Run, Live, LastNext, LastAnswer;
  }

  /** After every run: any other live port, once released, waits behind every free port. */
  lemma ReleasedAboveWaits(min: U16, max: U16, ops: seq<Op>, port: U16)
    requires 0 < min <= max && Run(New(min, max), ops).free != []
    requires port in Live(New(min, max), ops) && !Passed(New(min, max), ops, port)
    ensures LastAnswer(New(min, max), ops + [Release(port), Next]) == LastAnswer(New(min, max), ops + [Next])
    ensures LastAnswer(New(min, max), ops + [Next]).Granted?
    ensures Run(New(min, max), ops + [Release(port)]).free == Run(New(min, max), ops).free + [port]
  {
    var start := New(min, max);
    AllocatedIsLive(min, max, ops);
    CursorFollowsNext(min, max, ops);
    TakenIsInRange(min, max, ops, port);
    TwoMore(start, ops, Release(port), Next);
    TwoMore(start, ops, Next, Next);
    hide Inv, Run, Live, LastNext, LastAnswer;
  }

  lemma TakenIsInRange(min: U16, max: U16, ops: seq<Op>, port: U16)
    requires 0 < min <= max && port in Run(New(min, max), ops).taken
    ensures min <= port <= max
  {
    RunKeepsRange(New(min, max), ops);
  }

  /**
   Giving a port straight back undoes `Next` on the deque, unless it was the last port of the range and others
   are free: the cursor has wrapped, and the port goes to the back.
   */
  lemma ReleaseUndoesNext(s: State)
    requires Inv(s) && s.free != []
    ensures var p := s.free[0]; var t := ReleasePort(AllocateNext(s).0, p).0;
      && AllocateNext(s).1 == Granted(p)
      && t.taken == s.taken
      && (t.free == s.free <==> p != s.max || |s.free| == 1)
      && (p == s.max ==> t.free == s.free[1..] + [p])
  {
    var p := s.free[0];
    assert p in s.free;
    assert s.free == [p] + s.free[1..];
    assert |s.free| > 1 ==> (s.free[1..] + [p])[0] != p;
  }

  // ---------------------------------------------------- a batch of releases

  function Reversed(q: seq<U16>): seq<U16> {
    if q == [] then [] else Reversed(q[1..]) + [q[0]]
  }

  function Below(ports: seq<U16>, cursor: U16): seq<U16> {
    if ports == [] then []
    else (if ports[0] < cursor then [ports[0]] else []) + Below(ports[1..], cursor)
  }

  function AtOrAbove(ports: seq<U16>, cursor: U16): seq<U16> {
    if ports == [] then []
    else (if ports[0] < cursor then [] else [ports[0]]) + AtOrAbove(ports[1..], cursor)
  }

  function ReleaseAll(s: State, ports: seq<U16>): State
    decreases ports
  {
    if ports == [] then s else ReleaseAll(ReleasePort(s, ports[0]).0, ports[1..])
  }

  /**
   Releasing any distinct allocated ports: those below the cursor come back in front, last released first (a
   stack), the others behind in order (a queue), and the free ports keep their places in between.
   */
  lemma {:induction false} ReleaseBatch(s: State, ports: seq<U16>)
    requires Inv(s) && Distinct(ports) && forall i :: 0 <= i < |ports| ==> ports[i] in s.taken
    ensures ReleaseAll(s, ports).free
         == Reversed(Below(ports, s.next)) + s.free + AtOrAbove(ports, s.next)
    ensures ReleaseAll(s, ports).taken == s.taken - Elements(ports)
    decreases ports
  {
    if ports == [] {
      assert Reversed([]) + s.free + [] == s.free;
      assert s.taken - {} == s.taken;
    } else {
      var p, rest := ports[0], ports[1..];
      var s1 := ReleasePort(s, p).0;
      StepKeepsInv(s, Release(p));
      ReleaseBatch(s1, rest);
      BatchStep(s, p, rest);
      hide Reversed, Below, AtOrAbove, Inv;
      assert ports == [p] + rest;
      assert Elements(ports) == {p} + Elements(rest);
    }
  }

  lemma BatchStep(s: State, p: U16, rest: seq<U16>)
    requires p in s.taken
    ensures Reversed(Below(rest, s.next)) + ReleasePort(s, p).0.free + AtOrAbove(rest, s.next)
         == Reversed(Below([p] + rest, s.next)) + s.free + AtOrAbove([p] + rest, s.next)
  {
    Unfold(p, rest, s.next);
    hide Reversed, Below, AtOrAbove;
    var below, above := Below(rest, s.next), AtOrAbove(rest, s.next);
    if p < s.next {
      Associate(Reversed(below), [p], s.free);
    } else {
      assert [] + below == below;
      assert Reversed(below) + (s.free + [p]) + above == Reversed(below) + s.free + ([p] + above);
    }
  }

  lemma Unfold(p: U16, rest: seq<U16>, cursor: U16)
    ensures Below([p] + rest, cursor) == if p < cursor then [p] + Below(rest, cursor) else Below(rest, cursor)
    ensures AtOrAbove([p] + rest, cursor)
         == if p < cursor then AtOrAbove(rest, cursor) else [p] + AtOrAbove(rest, cursor)
    ensures forall q: seq<U16> :: Reversed([p] + q) == Reversed(q) + [p]
  {
    assert ([p] + rest)[1..] == rest;
    forall q: seq<U16> ensures Reversed([p] + q) == Reversed(q) + [p] {
      assert ([p] + q)[1..] == q;
    }
  }

  // --------------------------------------------------------- implementation

  class Allocator {
    const minPort: U16
    const maxPort: U16
    var taken: set<U16>
    var free: seq<U16>
    var nextPort: U16

    ghost function View(): State
      reads this
    {
      State(minPort, maxPort, taken, free, nextPort)
    }

    ghost predicate Valid()
      reads this
    {
      Inv(View())
    }

    constructor (minPort: U16, maxPort: U16)
      requires 0 < minPort <= maxPort
      ensures Valid() && View() == New(minPort, maxPort)
    {
      this.minPort, this.maxPort := minPort, maxPort;
      taken, free, nextPort := {}, Range(minPort, maxPort), minPort;
      new;
      assert View() == New(minPort, maxPort);
    }

    method AllocatePort(preferred: Option<U16>) returns (r: Answer)
      requires Valid()
      modifies this
      ensures Valid()
      ensures (View(), r) == Step(old(View()), if preferred.Some? then Specific(preferred.value) else Next)
    {
      if preferred.Some? {
        r := Specifically(preferred.value);
      } else {
        r := NextFree();
      }
    }

    method Specifically(port: U16) returns (r: Answer)
      requires Valid()
      modifies this
      ensures Valid() && (View(), r) == AllocateSpecific(old(View()), port)
    {
      StepKeepsInv(View(), Specific(port));
      if port < minPort || port > maxPort { return Denied(PortOutOfRange(port, minPort, maxPort)); }
      if port in taken { return Denied(PortUnavailable(port)); }
      taken := taken + {port};
      free := Without(free, port);
      r := Granted(port);
    }

    method NextFree() returns (r: Answer)
      requires Valid()
      modifies this
      ensures Valid() && (View(), r) == AllocateNext(old(View()))
    {
      StepKeepsInv(View(), Next);
      if free == [] { return Denied(NoPortsAvailable(minPort, maxPort)); }
      var port := free[0];
      free := free[1..];
      taken := taken + {port};
      nextPort := if port == maxPort then minPort else port + 1;
      r := Granted(port);
    }

    method Free(port: U16) returns (r: Answer)
      requires Valid()
      modifies this
      ensures Valid() && (View(), r) == ReleasePort(old(View()), port)
    {
      StepKeepsInv(View(), Release(port));
      if port !in taken { return Denied(PortNotAllocated(port)); }
      taken := taken - {port};
      if port < nextPort {
        free := [port] + free;
      } else {
        free := free + [port];
      }
      r := Released;
    }

    method Counts() returns (unused: nat, used: nat)
      requires Valid()
      ensures unused == |free| && used == |taken|
      ensures unused + used == maxPort - minPort + 1
    {
      InvCounts(View());
      unused, used := |free|, |taken|;
    }
  }
}
