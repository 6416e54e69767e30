/** Reverse tunnels: two maps over the port allocator that must agree with it. */
module TunnelManager {
  import opened Bytes
  import PA = PortAllocator

  /** Metadata of a tunnel; ids, addresses, service and clock are supplied by the caller. */
  datatype Details = Details(tunnelId: nat, clientId: nat, target: nat, service: nat, createdAt: nat)

  datatype ActiveTunnel = ActiveTunnel(listenPort: U16, details: Details)

  datatype TunnelError =
    | PortOutOfRange(port: U16, min: U16, max: U16)
    | PortInUse(port: U16)
    | NoPortsAvailable(min: U16, max: U16)
    | AllocationError
    | TunnelNotFound(port: U16)
    | PortReleaseError(port: U16)

  /** `From<PortAllocError>`. */
  function Convert(e: PA.AllocError): TunnelError {
    match e
    case PortOutOfRange(port, min, max) => PortOutOfRange(port, min, max)
    case PortUnavailable(port) => PortInUse(port)
    case NoPortsAvailable(min, max) => NoPortsAvailable(min, max)
    case PortNotAllocated(_) => AllocationError
  }

  /** Task handles are numbered in the order they are spawned; `aborted` lists the aborts performed. */
  datatype State = State(
    active: map<U16, ActiveTunnel>, tasks: map<U16, seq<nat>>, ports: PA.State,
    spawned: nat, aborted: seq<nat>)

  datatype Op = Create(preferred: Option<U16>, details: Details) | Close(port: U16) | Shutdown

  datatype Answer = Created(port: U16) | Closed | Down | Failed(error: TunnelError)

  function New(start: U16, end: U16): State
    requires 0 < start <= end
  {
    State(map[], map[], PA.New(start, end), 0, [])
  }

  function CreateTunnel(s: State, preferred: Option<U16>, details: Details): (State, Answer)
    requires PA.Inv(s.ports)
  {
    var (ports, a) := PA.Step(s.ports, AllocOp(preferred));
    match a
    case Denied(e) => (s.(ports := ports), Failed(Convert(e)))
    case Released => (s, Failed(AllocationError))
    case Granted(port) =>
      var handles := (if port in s.tasks then s.tasks[port] else []) + [s.spawned];
      (State(s.active[port := ActiveTunnel(port, details)], s.tasks[port := handles], ports, s.spawned + 1, s.aborted),
       Created(port))
  }

  function CloseTunnel(s: State, port: U16): (State, Answer)
    requires PA.Inv(s.ports)
  {
    if port !in s.active then (s, Failed(TunnelNotFound(port)))
    else
      var (ports, a) := PA.ReleasePort(s.ports, port);
      if a.Denied? then (s.(active := s.active - {port}, ports := ports), Failed(PortReleaseError(port)))
      else
        (State(s.active - {port}, s.tasks - {port}, ports, s.spawned,
               s.aborted + if port in s.tasks then s.tasks[port] else []), Closed)
  }

  /** `shutdown`: every handle is aborted, in the order the map is drained; the ports are not released. */
  function ShutDown(s: State, order: seq<U16>): State {
    State(map[], map[], s.ports, s.spawned, s.aborted + Handles(s.tasks, order))
  }

  function Handles(tasks: map<U16, seq<nat>>, order: seq<U16>): seq<nat> {
    if order == [] then []
    else (if order[0] in tasks then tasks[order[0]] else []) + Handles(tasks, order[1..])
  }

  /** The order in which a hash map is drained lists each key once. */
  ghost predicate Drains(order: seq<U16>, keys: set<U16>) {
    Distinct(order) && forall p :: p in order <==> p in keys
  }

  // ------------------------------------------------------------- invariant

  /** The two maps agree with each other and with the allocator, and no task handle is lost. */
  ghost predicate Inv(s: State) {
    PortsInv(s) && Accounted(s.tasks, s.spawned, s.aborted)
  }

  ghost predicate PortsInv(s: State) {
    && PA.Inv(s.ports)
    && s.active.Keys == s.tasks.Keys
    && s.active.Keys <= s.ports.taken
    && (forall p :: p in s.active ==> s.active[p].listenPort == p)
  }

  /**
   Every task list holds exactly one handle; the waiting handles and the aborted ones are pairwise different
   and together as many as were spawned, so each spawned handle waits in one list or was aborted once.
   */
  ghost predicate Accounted(tasks: map<U16, seq<nat>>, spawned: nat, aborted: seq<nat>) {
    && Waits(tasks, spawned, aborted) && Separate(tasks) && AbortedOnce(spawned, aborted)
    && |aborted| + |tasks| == spawned
  }

  /** Each list holds one spawned handle that was not aborted. */
  ghost predicate Waits(tasks: map<U16, seq<nat>>, spawned: nat, aborted: seq<nat>) {
    forall p :: p in tasks ==> |tasks[p]| == 1 && tasks[p][0] < spawned && tasks[p][0] !in aborted
  }

  /** No handle stands in two lists. */
  ghost predicate Separate(tasks: map<U16, seq<nat>>) {
    forall p, q :: p in tasks && q in tasks && p != q ==> tasks[p] != tasks[q]
  }

  ghost predicate AbortedOnce(spawned: nat, aborted: seq<nat>) {
    Distinct(aborted) && forall i :: 0 <= i < |aborted| ==> aborted[i] < spawned
  }

  lemma NewInv(start: U16, end: U16)
    requires 0 < start <= end
    ensures Inv(New(start, end))
  {
  }

  lemma SpawnWaits(tasks: map<U16, seq<nat>>, spawned: nat, aborted: seq<nat>, port: U16)
    requires Waits(tasks, spawned, aborted) && AbortedOnce(spawned, aborted)
    ensures Waits(tasks[port := [spawned]], spawned + 1, aborted)
  {
  }

  lemma SpawnIsSeparate(tasks: map<U16, seq<nat>>, spawned: nat, aborted: seq<nat>, port: U16)
    requires Separate(tasks) && Waits(tasks, spawned, aborted)
    ensures Separate(tasks[port := [spawned]])
  {
    var t := tasks[port := [spawned]];
    forall p | p in t && p != port ensures t[p] != [spawned] {
      assert tasks[p][0] < spawned;
    }
  }

  lemma SpawnIsAccounted(tasks: map<U16, seq<nat>>, spawned: nat, aborted: seq<nat>, port: U16)
    requires Accounted(tasks, spawned, aborted) && port !in tasks
    ensures Accounted(tasks[port := [spawned]], spawned + 1, aborted)
  {
    SpawnWaits(tasks, spawned, aborted, port);
    SpawnIsSeparate(tasks, spawned, aborted, port);
    hide Waits, Separate;
    assert tasks[port := [spawned]].Keys == tasks.Keys + {port};
  }

  lemma AbortWaits(tasks: map<U16, seq<nat>>, spawned: nat, aborted: seq<nat>, port: U16)
    requires Waits(tasks, spawned, aborted) && Separate(tasks) && port in tasks
    ensures Waits(tasks - {port}, spawned, aborted + tasks[port])
  {
    var t := tasks - {port};
    forall p | p in t ensures t[p][0] !in aborted + tasks[port] {
      assert tasks[p] == [tasks[p][0]] && tasks[port] == [tasks[port][0]];
      assert tasks[p] != tasks[port];
    }
  }

  lemma AbortIsOnce(tasks: map<U16, seq<nat>>, spawned: nat, aborted: seq<nat>, port: U16)
    requires Waits(tasks, spawned, aborted) && AbortedOnce(spawned, aborted) && port in tasks
    ensures AbortedOnce(spawned, aborted + tasks[port])
  {
    assert tasks[port] == [tasks[port][0]];
  }

  lemma AbortIsAccounted(tasks: map<U16, seq<nat>>, spawned: nat, aborted: seq<nat>, port: U16)
    requires Accounted(tasks, spawned, aborted) && port in tasks
    ensures Accounted(tasks - {port}, spawned, aborted + tasks[port])
  {
    assert |tasks[port]| == 1;
    AbortWaits(tasks, spawned, aborted, port);
    AbortIsOnce(tasks, spawned, aborted, port);
    hide Waits, AbortedOnce;
    assert (tasks - {port}).Keys == tasks.Keys - {port};
  }

  lemma GrantIsFresh(s: PA.State, op: PA.Op)
    requires PA.Inv(s)
    ensures PA.Step(s, op).1.Granted? ==>
      var p := PA.Step(s, op).1.port; p !in s.taken && PA.Step(s, op).0.taken == s.taken + {p}
    ensures PA.Step(s, op).1.Denied? ==> PA.Step(s, op).0 == s
    ensures PA.Step(s, op).1.Released? <==> op.Release? && op.port in s.taken
  {
    if op.Next? && s.free != [] {
      assert s.free[0] in s.free;
    }
  }

  function AllocOp(preferred: Option<U16>): PA.Op {
    if preferred.Some? then PA.Specific(preferred.value) else PA.Next
  }

  lemma CreateKeepsInv(s: State, preferred: Option<U16>, details: Details)
    requires Inv(s)
    ensures Inv(CreateTunnel(s, preferred, details).0)
  {
    hide PA.Inv, PA.Step, Accounted;
    var op := AllocOp(preferred);
    PA.StepKeepsInv(s.ports, op);
    GrantIsFresh(s.ports, op);
    var (ports, a) := PA.Step(s.ports, op);
    if a.Granted? {
      assert a.port !in s.tasks;
      SpawnIsAccounted(s.tasks, s.spawned, s.aborted, a.port);
      assert [] + [s.spawned] == [s.spawned];
    }
  }

  lemma CloseKeepsInv(s: State, port: U16)
    requires Inv(s)
    ensures Inv(CloseTunnel(s, port).0)
  {
    hide PA.Inv, Accounted;
    PA.StepKeepsInv(s.ports, PA.Release(port));
    if port in s.active {
      AbortIsAccounted(s.tasks, s.spawned, s.aborted, port);
    }
  }

  // ----------------------------------------------------------------- shutdown

  lemma {:induction false} HandlesSnoc(tasks: map<U16, seq<nat>>, order: seq<U16>, port: U16)
    requires port in tasks
    ensures Handles(tasks, order + [port]) == Handles(tasks, order) + tasks[port]
    decreases |order|
  {
    if order == [] {
      assert order + [port] == [port];
      assert Handles(tasks, [port]) == tasks[port] + Handles(tasks, []);
    } else {
      var first := if order[0] in tasks then tasks[order[0]] else [];
      assert (order + [port])[1..] == order[1..] + [port];
      HandlesSnoc(tasks, order[1..], port);
      Associate(first, Handles(tasks, order[1..]), tasks[port]);
    }
  }

  /** Aborting the lists one by one, in the order the map is drained, keeps every handle accounted for. */
  lemma {:induction false} DrainIsAccounted(tasks: map<U16, seq<nat>>, spawned: nat, aborted: seq<nat>, order: seq<U16>)
    requires Accounted(tasks, spawned, aborted) && Distinct(order)
    requires forall p :: p in order ==> p in tasks
    ensures Accounted(tasks - Elements(order), spawned, aborted + Handles(tasks, order))
    decreases |order|
  {
    hide Accounted;
    if order == [] {
      assert tasks - Elements(order) == tasks;
      assert aborted + [] == aborted;
    } else {
      var n := |order| - 1;
      var front, port := order[..n], order[n];
      forall p | p in front ensures p in tasks {
        assert p in order;
      }
      DrainIsAccounted(tasks, spawned, aborted, front);
      assert order == front + [port];
      assert port in order && port !in front;
      DrainStep(tasks, spawned, aborted, front, port);
    }
  }

  lemma DrainStep(tasks: map<U16, seq<nat>>, spawned: nat, aborted: seq<nat>, front: seq<U16>, port: U16)
    requires Accounted(tasks - Elements(front), spawned, aborted + Handles(tasks, front))
    requires port in tasks && port !in front
    ensures Accounted(tasks - Elements(front + [port]), spawned, aborted + Handles(tasks, front + [port]))
  {
    hide Accounted, Handles;
    HandlesSnoc(tasks, front, port);
    var left := tasks - Elements(front);
    AbortIsAccounted(left, spawned, aborted + Handles(tasks, front), port);
    Associate(aborted, Handles(tasks, front), tasks[port]);
    assert left - {port} == tasks - Elements(front + [port]);
  }

  lemma ShutdownKeepsInv(s: State, order: seq<U16>)
    requires Inv(s) && Drains(order, s.tasks.Keys)
    ensures Inv(ShutDown(s, order))
  {
    hide Accounted, PA.Inv;
    DrainIsAccounted(s.tasks, s.spawned, s.aborted, order);
    assert s.tasks - Elements(order) == map[];
  }

  // ------------------------------------------------- no task is lost or leaked

  lemma Enumerate(keys: set<U16>) returns (order: seq<U16>)
    ensures Drains(order, keys)
    decreases |keys|
  {
    order := [];
    if keys != {} {
      var p :| p in keys;
      var front := Enumerate(keys - {p});
      assert p !in front;
      order := front + [p];
    }
  }

  ghost function Below(n: nat): (r: set<nat>)
    ensures forall h: nat :: h in r <==> h < n
  {
    if n == 0 then {} else Below(n - 1) + {n - 1}
  }

  lemma {:induction false} BelowCount(n: nat)
    ensures |Below(n)| == n
  {
    if n > 0 {
      BelowCount(n - 1);
      var front := Below(n - 1);
      assert Below(n) == front + {n - 1} && (n - 1) !in front;
    }
  }

  lemma SubsetOfSameSize(a: set<nat>, b: set<nat>)
    requires a <= b && |a| == |b|
    ensures a == b
  {
    assert |b - a| == |b| - |a|;
  }

  lemma {:induction false} HandleOwner(tasks: map<U16, seq<nat>>, order: seq<U16>, h: nat)
    requires h in Handles(tasks, order)
    ensures exists p :: p in tasks && h in tasks[p]
    decreases |order|
  {
    var first := if order[0] in tasks then tasks[order[0]] else [];
    if h !in first {
      HandleOwner(tasks, order[1..], h);
    }
  }

  /** Every task ever spawned waits in the list of an active port or has been aborted. */
  lemma EveryTaskAccounted(tasks: map<U16, seq<nat>>, spawned: nat, aborted: seq<nat>, h: nat)
    requires Accounted(tasks, spawned, aborted) && h < spawned
    ensures h in aborted || exists p :: p in tasks && h in tasks[p]
  {
    var order := Enumerate(tasks.Keys);
    DrainIsAccounted(tasks, spawned, aborted, order);
    assert tasks - Elements(order) == map[];
    var all := aborted + Handles(tasks, order);
    DistinctCount(all);
    BelowCount(spawned);
    SubsetOfSameSize(Elements(all), Below(spawned));
    assert h in Below(spawned);
    if h !in aborted {
      HandleOwner(tasks, order, h);
    }
  }

  // ------------------------------------------------------------------ runs

  /** One operation; a shutdown drains the task map in any order. */
  ghost predicate Step(s: State, op: Op, t: State, a: Answer)
    requires PA.Inv(s.ports)
  {
    match op
    case Create(preferred, details) => (t, a) == CreateTunnel(s, preferred, details)
    case Close(port) => (t, a) == CloseTunnel(s, port)
    case Shutdown => a == Down && exists order :: Drains(order, s.tasks.Keys) && t == ShutDown(s, order)
  }

  lemma StepKeepsInv(s: State, op: Op, t: State, a: Answer)
    requires Inv(s) && Step(s, op, t, a)
    ensures Inv(t)
  {
    match op {
      case Create(preferred, details) => CreateKeepsInv(s, preferred, details);
      case Close(port) => CloseKeepsInv(s, port);
      case Shutdown =>
        var order :| Drains(order, s.tasks.Keys) && t == ShutDown(s, order);
        ShutdownKeepsInv(s, order);
    }
  }

  /** A finished operation: what was asked, what was answered and the state after it. */
  datatype Event = Event(op: Op, answer: Answer, after: State)

  function StateAfter(start: State, run: seq<Event>): State {
    if run == [] then start else run[|run| - 1].after
  }

  ghost predicate IsRun(start: State, run: seq<Event>) {
    forall i :: 0 <= i < |run| ==>
      PA.Inv(StateAfter(start, run[..i]).ports)
      && Step(StateAfter(start, run[..i]), run[i].op, run[i].after, run[i].answer)
  }

  lemma {:induction false} RunKeepsInv(start: State, run: seq<Event>)
    requires Inv(start) && IsRun(start, run)
    ensures Inv(StateAfter(start, run))
    decreases |run|
  {
    if run != [] {
      var n := |run| - 1;
      RunPrefix(start, run, n);
      RunKeepsInv(start, run[..n]);
      StepKeepsInv(StateAfter(start, run[..n]), run[n].op, run[n].after, run[n].answer);
    }
  }

  lemma RunPrefix(start: State, run: seq<Event>, n: nat)
    requires IsRun(start, run) && n <= |run|
    ensures IsRun(start, run[..n])
  {
    forall i | 0 <= i < n
      ensures PA.Inv(StateAfter(start, run[..n][..i]).ports)
           && Step(StateAfter(start, run[..n][..i]), run[..n][i].op, run[..n][i].after, run[..n][i].answer)
    {
      assert run[..n][..i] == run[..i];
    }
  }

  // ------------------------------------------------------------- stranded ports

  /** The ports that were active when a shutdown happened. */
  ghost function Stranded(start: State, run: seq<Event>): set<U16>
    decreases |run|
  {
    if run == [] then {}
    else
      var n := |run| - 1;
      Stranded(start, run[..n]) + if run[n].op.Shutdown? then StateAfter(start, run[..n]).active.Keys else {}
  }

  /**
   After every run the allocated ports are exactly the active ones and, apart from them, the ports that were
   active at some shutdown.
   */
  lemma {:induction false} AllocatedPorts(start: State, run: seq<Event>)
    requires Inv(start) && start.ports.taken == start.active.Keys && IsRun(start, run)
    ensures StateAfter(start, run).ports.taken == StateAfter(start, run).active.Keys + Stranded(start, run)
    ensures StateAfter(start, run).active.Keys !! Stranded(start, run)
    decreases |run|
  {
    hide Inv, Step, IsRun;
    if run != [] {
      var n := |run| - 1;
      RunPrefix(start, run, n);
      AllocatedPorts(start, run[..n]);
      var s := StateAfter(start, run[..n]);
      EffectAt(start, run, n);
    }
  }

  lemma EffectAt(start: State, run: seq<Event>, i: nat)
    requires Inv(start) && IsRun(start, run) && i < |run|
    ensures Effect(StateAfter(start, run[..i]), run[i].op, run[i].after, run[i].answer)
  {
    hide Inv, Step, Effect;
    RunPrefix(start, run, i);
    RunKeepsInv(start, run[..i]);
    StepOnPorts(StateAfter(start, run[..i]), run[i].op, run[i].after, run[i].answer);
  }

  /** What one operation does to the active and the allocated ports. */
  ghost predicate Effect(s: State, op: Op, t: State, a: Answer) {
    match a
    case Created(p) =>
      op.Create? && (op.preferred.Some? ==> p == op.preferred.value)
      && p !in s.ports.taken && t.ports.taken == s.ports.taken + {p}
      && t.active == s.active[p := ActiveTunnel(p, op.details)]
    case Closed =>
      op.Close? && op.port in s.active
      && t.ports.taken == s.ports.taken - {op.port} && t.active == s.active - {op.port}
    case Down => op.Shutdown? && t.ports == s.ports && t.active.Keys == {}
    case Failed(e) =>
      t == s && !e.PortReleaseError? && !op.Shutdown?
      && (op.Close? ==> op.port !in s.active && e == TunnelNotFound(op.port))
      && (op.Create? ==> e == match op.preferred
            case None => NoPortsAvailable(s.ports.min, s.ports.max)
            case Some(p) =>
              if s.ports.min <= p <= s.ports.max then PortInUse(p) else PortOutOfRange(p, s.ports.min, s.ports.max))
  }

  lemma GrantIsAsked(s: PA.State, preferred: Option<U16>)
    requires PA.Inv(s)
    ensures match PA.Step(s, AllocOp(preferred)).1
      case Granted(p) => preferred.Some? ==> p == preferred.value
      case Released => false
      case Denied(e) => e == match preferred
        case None => PA.NoPortsAvailable(s.min, s.max)
        case Some(p) =>
          if s.min <= p <= s.max then PA.PortUnavailable(p) else PA.PortOutOfRange(p, s.min, s.max)
  {
  }

  lemma StepOnPorts(s: State, op: Op, t: State, a: Answer)
    requires Inv(s) && Step(s, op, t, a)
    ensures Effect(s, op, t, a)
  {
    hide Accounted, PA.Inv, PA.Step;
    match op {
      case Create(preferred, details) =>
        GrantIsFresh(s.ports, AllocOp(preferred));
        GrantIsAsked(s.ports, preferred);
      case _ =>
    }
  }

  /** No run ever answers `PortReleaseError`. */
  lemma ReleaseNeverFails(start: State, run: seq<Event>, i: nat)
    requires Inv(start) && IsRun(start, run) && i < |run|
    ensures run[i].answer.Failed? ==> !run[i].answer.error.PortReleaseError?
  {
    hide Inv, IsRun;
    EffectAt(start, run, i);
  }

  /** Without a shutdown, exactly the active ports are allocated. */
  lemma {:induction false} NothingStranded(start: State, run: seq<Event>)
    requires forall i :: 0 <= i < |run| ==> !run[i].op.Shutdown?
    ensures Stranded(start, run) == {}
    decreases |run|
  {
    if run != [] {
      NothingStranded(start, run[..|run| - 1]);
    }
  }

  lemma WithoutShutdown(start: State, run: seq<Event>)
    requires Inv(start) && start.ports.taken == start.active.Keys && IsRun(start, run)
    requires forall i :: 0 <= i < |run| ==> !run[i].op.Shutdown?
    ensures StateAfter(start, run).ports.taken == StateAfter(start, run).active.Keys
  {
    NothingStranded(start, run);
    AllocatedPorts(start, run);
  }

  lemma {:induction false} StrandedGrows(start: State, run: seq<Event>, i: nat)
    requires i <= |run|
    ensures Stranded(start, run[..i]) <= Stranded(start, run)
    decreases |run|
  {
    if i < |run| {
      var n := |run| - 1;
      StrandedGrows(start, run[..n], i);
      assert run[..n][..i] == run[..i];
    } else {
      assert run[..i] == run;
    }
  }

  /**
   A port active at a shutdown stays allocated for the rest of every run: no later create returns it and
   closing it answers `TunnelNotFound`.
   */
  lemma StrandedForever(start: State, run: seq<Event>, i: nat, j: nat, port: U16)
    requires Inv(start) && start.ports.taken == start.active.Keys && IsRun(start, run) && i < j < |run|
    ensures run[i].op.Shutdown? && port in StateAfter(start, run[..i]).active ==>
      && port in StateAfter(start, run[..j]).ports.taken
      && run[j].answer != Created(port)
      && (run[j].op == Close(port) ==> run[j].answer == Failed(TunnelNotFound(port)))
      && (run[j].op.Create? && run[j].op.preferred == Some(port) ==> run[j].answer == Failed(PortInUse(port)))
  {
    hide Inv, Step, IsRun, Stranded;
    if run[i].op.Shutdown? && port in StateAfter(start, run[..i]).active {
      StrandedAt(start, run, i, j, port);
      RunPrefix(start, run, j);
      AllocatedPorts(start, run[..j]);
      EffectAt(start, run, j);
      RunKeepsInv(start, run[..j]);
      TakenInRange(StateAfter(start, run[..j]));
    }
  }

  lemma TakenInRange(s: State)
    requires Inv(s)
    ensures forall p :: p in s.ports.taken ==> s.ports.min <= p <= s.ports.max
  {
  }

  lemma StrandedAt(start: State, run: seq<Event>, i: nat, j: nat, port: U16)
    requires i < j <= |run| && run[i].op.Shutdown? && port in StateAfter(start, run[..i]).active
    ensures port in Stranded(start, run[..j])
  {
    var before := run[..j];
    assert run[..i + 1][..i] == run[..i] && before[..i + 1] == run[..i + 1];
    assert port in Stranded(start, run[..i + 1]);
    StrandedGrows(start, before, i + 1);
  }

  /** The manager runs out exactly when active and stranded ports fill the range. */
  lemma Exhaustion(start: State, run: seq<Event>)
    requires Inv(start) && start.ports.taken == start.active.Keys && IsRun(start, run)
    ensures var s := StateAfter(start, run);
      && Inv(s)
      && (PA.AllocateNext(s.ports).1.Denied?
          <==> s.active.Keys + Stranded(start, run) == PA.Ports(s.ports.min, s.ports.max))
      && |s.ports.free| + |s.active| + |Stranded(start, run)| == s.ports.max - s.ports.min + 1
  {
    RunKeepsInv(start, run);
    AllocatedPorts(start, run);
    var s := StateAfter(start, run);
    PA.NextFailsWhenFull(s.ports);
    PA.InvCounts(s.ports);
    assert |s.active.Keys + Stranded(start, run)| == |s.active.Keys| + |Stranded(start, run)|;
  }

  // ----------------------------------------------- the allocator's share of a run

  /** The allocator operations a run of the manager performs: one for each create, one for each completed close. */
  function PortOps(run: seq<Event>): seq<PA.Op> {
    if run == [] then []
    else
      var n := |run| - 1;
      PortOps(run[..n]) + match run[n].op
        case Create(preferred, _) => [AllocOp(preferred)]
        case Close(port) => if run[n].answer.Closed? then [PA.Release(port)] else []
        case Shutdown => []
  }

  /** What the allocator's answer to a create becomes. */
  function AnswerOf(a: PA.Answer): Answer {
    match a
    case Granted(port) => Created(port)
    case Denied(e) => Failed(Convert(e))
    case Released => Failed(AllocationError)
  }

  lemma StepOnAllocator(s: State, op: Op, t: State, a: Answer)
    requires Inv(s) && Step(s, op, t, a)
    ensures match op
      case Create(preferred, _) =>
        t.ports == PA.Step(s.ports, AllocOp(preferred)).0 && a == AnswerOf(PA.Step(s.ports, AllocOp(preferred)).1)
      case Close(port) => t.ports == if a.Closed? then PA.Step(s.ports, PA.Release(port)).0 else s.ports
      case Shutdown => t.ports == s.ports
  {
    hide PA.Inv, Accounted;
    if op.Create? {
      CreateOnAllocator(s, op.preferred, op.details);
    }
  }

  lemma CreateOnAllocator(s: State, preferred: Option<U16>, details: Details)
    requires Inv(s)
    ensures var (t, a) := CreateTunnel(s, preferred, details); var (ports, b) := PA.Step(s.ports, AllocOp(preferred));
      t.ports == ports && a == AnswerOf(b)
  {
    hide PA.Step, PA.Inv, Accounted;
    GrantIsFresh(s.ports, AllocOp(preferred));
    GrantIsAsked(s.ports, preferred);
  }

  /**
   Over every run the manager's allocator is the allocator alone after the operations of the run, and a create answers
   what the allocator answers: everything proved about the allocator holds inside the manager.
   */
  lemma {:induction false} AllocatorFollows(start: U16, end: U16, run: seq<Event>)
    requires 0 < start <= end && IsRun(New(start, end), run)
    ensures StateAfter(New(start, end), run).ports == PA.Run(PA.New(start, end), PortOps(run))
    ensures run != [] && run[|run| - 1].op.Create? ==>
      run[|run| - 1].answer == AnswerOf(PA.LastAnswer(PA.New(start, end), PortOps(run)))
    decreases |run|
  {
    hide PA.Inv, PA.Step, Step, Inv, PA.Run, PA.LastAnswer, IsRun;
    NewInv(start, end);
    if run == [] {
      NothingRun(start, end);
    } else {
      var n := |run| - 1;
      var front, last := run[..n], run[n];
      RunPrefix(New(start, end), run, n);
      AllocatorFollows(start, end, front);
      RunKeepsInv(New(start, end), front);
      StepAt(New(start, end), run, n);
      StepOnAllocator(StateAfter(New(start, end), front), last.op, last.after, last.answer);
      match last.op {
        case Create(preferred, _) => PA.OneMore(PA.New(start, end), PortOps(front), AllocOp(preferred));
        case Close(port) => PA.OneMore(PA.New(start, end), PortOps(front), PA.Release(port));
        case Shutdown =>
      }
      assert PortOps(front) + [] == PortOps(front);
    }
  }

  lemma NothingRun(start: U16, end: U16)
    requires 0 < start <= end
    ensures PA.Run(PA.New(start, end), []) == PA.New(start, end)
  {
  }

  lemma StepAt(start: State, run: seq<Event>, i: nat)
    requires IsRun(start, run) && i < |run|
    ensures PA.Inv(StateAfter(start, run[..i]).ports)
    ensures Step(StateAfter(start, run[..i]), run[i].op, run[i].after, run[i].answer)
  {
  }

  /**
   When a create succeeds, over every run: with no preference exactly when active and stranded ports do not fill the
   range, and with a preferred port exactly when it is in the range and neither active nor stranded.
   */
  lemma CreatedExactly(start: State, run: seq<Event>, i: nat)
    requires Inv(start) && start.ports.taken == start.active.Keys && IsRun(start, run) && i < |run|
    ensures run[i].op.Create? ==>
      var used := StateAfter(start, run[..i]).active.Keys + Stranded(start, run[..i]);
      match run[i].op.preferred
      case None => run[i].answer.Created? <==> used != PA.Ports(start.ports.min, start.ports.max)
      case Some(p) => run[i].answer == Created(p) <==> start.ports.min <= p <= start.ports.max && p !in used
  {
    if run[i].op.Create? {
      hide PA.Inv, Step, Inv, IsRun, Stranded;
      var s := StateAfter(start, run[..i]);
      RunPrefix(start, run, i);
      RunKeepsInv(start, run[..i]);
      AllocatedPorts(start, run[..i]);
      RangeIsKept(start, run[..i]);
      StepAt(start, run, i);
      StepOnAllocator(s, run[i].op, run[i].after, run[i].answer);
      GrantsExactly(s, run[i].op.preferred);
    }
  }

  lemma GrantsExactly(s: State, preferred: Option<U16>)
    requires Inv(s)
    ensures PA.Inv(s.ports)
    ensures match preferred
      case None => PA.Step(s.ports, PA.Next).1.Granted? <==> s.ports.taken != PA.Ports(s.ports.min, s.ports.max)
      case Some(p) =>
        PA.Step(s.ports, PA.Specific(p)).1 == PA.Granted(p)
        <==> s.ports.min <= p <= s.ports.max && p !in s.ports.taken
  {
    hide Accounted;
    PA.NextFailsWhenFull(s.ports);
  }

  lemma {:induction false} RangeIsKept(start: State, run: seq<Event>)
    requires Inv(start) && IsRun(start, run)
    ensures StateAfter(start, run).ports.min == start.ports.min && StateAfter(start, run).ports.max == start.ports.max
    decreases |run|
  {
    hide PA.Inv, PA.Step, Step, Inv, IsRun;
    if run != [] {
      var n := |run| - 1;
      RunPrefix(start, run, n);
      RangeIsKept(start, run[..n]);
      RunKeepsInv(start, run[..n]);
      StepAt(start, run, n);
      var s, op := StateAfter(start, run[..n]), run[n].op;
      StepOnAllocator(s, op, run[n].after, run[n].answer);
      if op.Create? {
        PA.StepKeepsInv(s.ports, AllocOp(op.preferred));
      } else if op.Close? {
        PA.StepKeepsInv(s.ports, PA.Release(op.port));
      }
    }
  }

  // --------------------------------------------------------- implementation

  class Manager {
    var active: map<U16, ActiveTunnel>
    var tasks: map<U16, seq<nat>>
    const allocator: PA.Allocator
    var spawned: nat
    var aborted: seq<nat>

    ghost function View(): State
      reads this, allocator
    {
      State(active, tasks, allocator.View(), spawned, aborted)
    }

    ghost predicate Valid()
      reads this, allocator
    {
      Inv(View())
    }

    constructor (start: U16, end: U16)
      requires 0 < start <= end
      ensures Valid() && View() == New(start, end) && fresh(allocator)
    {
      active, tasks, spawned, aborted := map[], map[], 0, [];
      allocator := new PA.Allocator(start, end);
      new;
      NewInv(start, end);
    }

    method CreateReverseTunnel(preferred: Option<U16>, details: Details) returns (r: Answer)
      requires Valid()
      modifies this, allocator
      ensures Valid() && (View(), r) == CreateTunnel(old(View()), preferred, details)
    {
      hide Inv, PA.Inv, PA.Step;
      CreateKeepsInv(View(), preferred, details);
      PortsAreValid(View());
      GrantIsFresh(allocator.View(), AllocOp(preferred));
      var a := allocator.AllocatePort(preferred);
      if a.Denied? { return Failed(Convert(a.error)); }
      var handle := spawned;
      spawned := spawned + 1;
      PushHandle(a.port, handle);
      active := active[a.port := ActiveTunnel(a.port, details)];
      r := Created(a.port);
    }

    /** `tasks.entry(port).or_default().push(handle)`. */
    method PushHandle(port: U16, handle: nat)
      modifies this`tasks
      ensures tasks == old(tasks)[port := (if port in old(tasks) then old(tasks)[port] else []) + [handle]]
    {
      var waiting := if port in tasks then tasks[port] else [];
      tasks := tasks[port := waiting + [handle]];
    }

    method Close(port: U16) returns (r: Answer)
      requires Valid()
      modifies this, allocator
      ensures Valid() && (View(), r) == CloseTunnel(old(View()), port)
    {
      hide Inv, PA.Inv;
      CloseKeepsInv(View(), port);
      PortsAreValid(View());
      if port !in active { return Failed(TunnelNotFound(port)); }
      active := active - {port};
      var a := allocator.Free(port);
      if a.Denied? { return Failed(PortReleaseError(port)); }
      if port in tasks {
        var handles := tasks[port];
        tasks := tasks - {port};
        AbortAll(handles);
      } else {
        assert tasks - {port} == tasks && aborted + [] == aborted;
      }
      r := Closed;
    }

    /** The loop that aborts each handle of a list. */
    method AbortAll(handles: seq<nat>)
      modifies this`aborted
      ensures aborted == old(aborted) + handles
    {
      for i := 0 to |handles|
        invariant aborted == old(aborted) + handles[..i]
      {
        aborted := aborted + [handles[i]];
        assert handles[..i + 1] == handles[..i] + [handles[i]];
      }
      assert handles[..|handles|] == handles;
    }

    /** Drains the task map in some order, aborting as it goes. */
    method DrainTasks() returns (ghost order: seq<U16>)
      modifies this`aborted
      ensures Drains(order, tasks.Keys) && aborted == old(aborted) + Handles(tasks, order)
    {
      order := [];
      var left := tasks.Keys;
      assert old(aborted) + [] == old(aborted);
      while left != {}
        invariant left <= tasks.Keys && Drains(order, tasks.Keys - left)
        invariant aborted == old(aborted) + Handles(tasks, order)
        decreases left
      {
        var port :| port in left;
        AbortAll(tasks[port]);
        HandlesSnoc(tasks, order, port);
        Associate(old(aborted), Handles(tasks, order), tasks[port]);
        DrainsMore(order, tasks.Keys, left, port);
        order := order + [port];
        left := left - {port};
      }
      assert tasks.Keys - left == tasks.Keys;
    }

    method ShutdownAll() returns (ghost order: seq<U16>)
      requires Valid()
      modifies this
      ensures Valid() && Drains(order, old(tasks).Keys) && View() == ShutDown(old(View()), order)
    {
      hide Inv, Drains;
      order := DrainTasks();
      ShutdownKeepsInv(old(View()), order);
      tasks := map[];
      active := map[];
    }
  }

  lemma DrainsMore(order: seq<U16>, keys: set<U16>, left: set<U16>, port: U16)
    requires Drains(order, keys - left) && left <= keys && port in left
    ensures Drains(order + [port], keys - (left - {port}))
  {
    assert port !in order;
    assert keys - (left - {port}) == keys - left + {port};
  }

  lemma PortsAreValid(s: State)
    requires Inv(s)
    ensures PA.Inv(s.ports)
  {
  }
}
