/** The approval of connections: pending requests, one-shot decisions and active connections. */
module Approval {
  import opened Bytes

  type Id = nat
  type Sender = nat

  datatype RequestState = Pending | Approved | Rejected | Active | Closed

  /** Address and kind of a request are carried along as `info`. */
  datatype Request = Request(id: Id, info: nat, state: RequestState, sender: Option<Sender>)

  datatype Decision = Approve | Reject(reason: string)

  /** A decision sent through a one-shot channel. */
  datatype Sent = Sent(sender: Sender, decision: Decision)

  datatype ConnectionError = NotFound | InvalidState

  datatype State = State(pending: map<Id, Request>, active: map<Id, nat>, sent: seq<Sent>)

  datatype Op =
    | Add(request: Request)
    | Permit(id: Id)
    | Refuse(id: Id, reason: string)
    | Activate(id: Id, now: nat)
    | Close(id: Id)

  /** The id an operation is about. */
  function Subject(op: Op): Id {
    match op
    case Add(request) => request.id
    case Permit(id) => id
    case Refuse(id, _) => id
    case Activate(id, _) => id
    case Close(id) => id
  }

  datatype Answer = Done | Failed(error: ConnectionError)

  // ---------------------------------------------------------- specification

  const EMPTY: State := State(map[], map[], [])

  /** Added requests were made by `ConnectionRequest::new`, which starts them pending. */
  predicate Genuine(ops: seq<Op>) {
    forall i :: 0 <= i < |ops| && ops[i].Add? ==> ops[i].request.state.Pending?
  }

  function Tell(sent: seq<Sent>, sender: Option<Sender>, d: Decision): seq<Sent> {
    if sender.Some? then sent + [Sent(sender.value, d)] else sent
  }

  function Step(s: State, op: Op): (State, Answer) {
    match op
    case Add(request) => (s.(pending := s.pending[request.id := request]), Done)
    case Permit(id) =>
      if id !in s.pending then (s, Failed(NotFound))
      else
        var r := s.pending[id];
        if !r.state.Pending? then (s, Failed(InvalidState))
        else
          (s.(pending := s.pending[id := r.(state := Approved, sender := None)],
              sent := Tell(s.sent, r.sender, Approve)), Done)
    case Refuse(id, reason) =>
      if id !in s.pending then (s, Failed(NotFound))
      else
        var r := s.pending[id];
        var s1 := s.(pending := s.pending - {id});
        if !r.state.Pending? then (s1, Failed(InvalidState))
        else (s1.(sent := Tell(s.sent, r.sender, Reject(reason))), Done)
    case Activate(id, now) =>
      if id !in s.pending then (s, Failed(NotFound))
      else
        var s1 := s.(pending := s.pending - {id});
        if !s.pending[id].state.Approved? then (s1, Failed(InvalidState))
        else (s1.(active := s.active[id := now]), Done)
    case Close(id) =>
      if id in s.active then (s.(active := s.active - {id}), Done) else (s, Failed(NotFound))
  }

  function Run(ops: seq<Op>): State {
    if ops == [] then EMPTY else Step(Run(ops[..|ops| - 1]), ops[|ops| - 1]).0
  }

  function AnswerAt(ops: seq<Op>, i: nat): Answer
    requires i < |ops|
  {
    Step(Run(ops[..i]), ops[i]).1
  }

  // ---------------------------------------------- entries, with any ids at all

  /** Stored requests are only pending or approved, and an approved one has no sender left. */
  ghost predicate Entries(s: State) {
    forall id :: id in s.pending ==>
      s.pending[id].id == id
      && (s.pending[id].state.Pending? || (s.pending[id].state.Approved? && s.pending[id].sender.None?))
  }

  lemma {:induction false} RunEntries(ops: seq<Op>)
    requires Genuine(ops)
    ensures Entries(Run(ops))
    decreases |ops|
  {
    if ops != [] {
      RunEntries(ops[..|ops| - 1]);
    }
  }

  // -------------------------------------------------------------- termination

  /** Three for a pending entry, two for an approved one, one for an active connection. */
  ghost function Rank(s: State): nat {
    2 * |s.pending| + |Waiting(s)| + |s.active|
  }

  ghost function Waiting(s: State): set<Id> {
    set id | id in s.pending && s.pending[id].state.Pending?
  }

  lemma RemoveLowers(s: State, id: Id)
    requires id in s.pending
    ensures var t := s.(pending := s.pending - {id});
      |t.pending| == |s.pending| - 1 && |Waiting(t)| <= |Waiting(s)| && t.active == s.active
  {
    var t := s.(pending := s.pending - {id});
    assert t.pending.Keys == s.pending.Keys - {id};
    assert Waiting(t) == Waiting(s) - {id};
  }

  lemma ActivateLowers(s: State, id: Id, now: nat)
    requires id in s.pending
    ensures var t := State(s.pending - {id}, s.active[id := now], s.sent); Rank(t) < Rank(s)
  {
    RemoveLowers(s, id);
    var t := State(s.pending - {id}, s.active[id := now], s.sent);
    assert Waiting(t) == Waiting(s.(pending := s.pending - {id}));
    assert t.active.Keys == s.active.Keys + {id};
  }

  lemma PermitLowers(s: State, id: Id, r: Request, sent: seq<Sent>)
    requires id in s.pending && s.pending[id].state.Pending? && r.state.Approved?
    ensures Rank(State(s.pending[id := r], s.active, sent)) < Rank(s)
  {
    var t := State(s.pending[id := r], s.active, sent);
    assert t.pending.Keys == s.pending.Keys;
    assert Waiting(t) == Waiting(s) - {id} && id in Waiting(s);
  }

  lemma AddRaises(s: State, id: Id, r: Request)
    ensures Rank(s.(pending := s.pending[id := r])) <= Rank(s) + 3
  {
    var t := s.(pending := s.pending[id := r]);
    WaitingAdd(s, id, r);
    hide Waiting;
    assert t.pending.Keys == s.pending.Keys + {id};
    AddOne(s.pending.Keys, id);
  }

  lemma WaitingAdd(s: State, id: Id, r: Request)
    ensures |Waiting(s.(pending := s.pending[id := r]))| <= |Waiting(s)| + 1
  {
    var t := s.(pending := s.pending[id := r]);
    assert Waiting(t) == if r.state.Pending? then Waiting(s) + {id} else Waiting(s) - {id};
    AddOne(Waiting(s), id);
  }

  lemma AddOne(a: set<Id>, id: Id)
    ensures |a + {id}| <= |a| + 1
  {
    if id in a {
      assert a + {id} == a;
    }
  }

  /** An operation changed one of the maps. */
  predicate Changes(s: State, op: Op) {
    var t := Step(s, op).0; t.pending != s.pending || t.active != s.active
  }

  /** Every change other than an addition lowers the rank, also on the error paths that remove the entry. */
  lemma ChangeLowersRank(s: State, op: Op)
    ensures !op.Add? && Changes(s, op) ==> Rank(Step(s, op).0) < Rank(s)
    ensures !op.Add? && !Changes(s, op) ==> Rank(Step(s, op).0) == Rank(s)
    ensures op.Add? ==> Rank(Step(s, op).0) <= Rank(s) + 3
  {
    hide Rank;
    var t := Step(s, op).0;
    match op {
      case Add(request) => AddRaises(s, request.id, request);
      case Permit(id) =>
        if id in s.pending && s.pending[id].state.Pending? {
          PermitLowers(s, id, t.pending[id], t.sent);
        }
      case Refuse(id, reason) =>
        if id in s.pending {
          RemoveRank(s, id, t.sent);
        }
      case Activate(id, now) =>
        if id in s.pending {
          RemoveRank(s, id, s.sent);
          ActivateLowers(s, id, now);
        }
      case Close(id) =>
        if id in s.active {
          CloseLowers(s, id);
        }
    }
    if !op.Add? && !Changes(s, op) {
      RankIgnoresSent(s, t);
    }
  }

  lemma RemoveRank(s: State, id: Id, sent: seq<Sent>)
    requires id in s.pending
    ensures Rank(State(s.pending - {id}, s.active, sent)) < Rank(s)
  {
    RemoveLowers(s, id);
    RankIgnoresSent(State(s.pending - {id}, s.active, sent), s.(pending := s.pending - {id}));
  }

  lemma CloseLowers(s: State, id: Id)
    requires id in s.active
    ensures Rank(s.(active := s.active - {id})) < Rank(s)
  {
    var t := s.(active := s.active - {id});
    assert t.active.Keys == s.active.Keys - {id};
    assert Waiting(t) == Waiting(s);
  }

  lemma RankIgnoresSent(s: State, t: State)
    requires s.pending == t.pending && s.active == t.active
    ensures Rank(s) == Rank(t)
  {
    assert Waiting(s) == Waiting(t);
  }

  function Additions(ops: seq<Op>): nat {
    if ops == [] then 0 else Additions(ops[..|ops| - 1]) + if ops[|ops| - 1].Add? then 1 else 0
  }

  function ChangesIn(ops: seq<Op>): nat {
    if ops == [] then 0
    else
      var n := |ops| - 1;
      ChangesIn(ops[..n]) + if !ops[n].Add? && Changes(Run(ops[..n]), ops[n]) then 1 else 0
  }

  /** Any run, with ids repeated at will, makes at most three changes per added request. */
  lemma {:induction false} ThreeChangesPerAddition(ops: seq<Op>)
    ensures ChangesIn(ops) + Rank(Run(ops)) <= 3 * Additions(ops)
    decreases |ops|
  {
    if ops == [] {
      assert Waiting(EMPTY) == {};
    } else {
      var n := |ops| - 1;
      ThreeChangesPerAddition(ops[..n]);
      ChangeLowersRank(Run(ops[..n]), ops[n]);
    }
  }

  // ------------------------------------------------- lives of ids that are fresh

  /** Requests come from `ConnectionRequest::new`; ids are never reused and no two requests share a sender. */
  ghost predicate Fresh(ops: seq<Op>) {
    Genuine(ops)
    && forall i, j :: 0 <= i < j < |ops| && ops[i].Add? && ops[j].Add? ==>
         ops[i].request.id != ops[j].request.id
         && (ops[i].request.sender.Some? ==> ops[i].request.sender != ops[j].request.sender)
  }

  /** What has become of an id, with the request it stands for and the time it was activated. */
  datatype Life = Unknown | Asked(request: Request) | Allowed(request: Request) | Live(since: nat) | Gone

  /** The life of an id, by its operations alone. */
  function LifeStep(life: Life, id: Id, op: Op): Life {
    if Subject(op) != id then life
    else match op
      case Add(request) => Asked(request)
      case Permit(_) => if life.Asked? then Allowed(life.request) else life
      case Refuse(_, _) => if life.Asked? || life.Allowed? then Gone else life
      case Activate(_, now) => if life.Allowed? then Live(now) else if life.Asked? then Gone else life
      case Close(_) => if life.Live? then Gone else life
  }

  function LifeOf(ops: seq<Op>, id: Id): Life {
    if ops == [] then Unknown else LifeStep(LifeOf(ops[..|ops| - 1], id), id, ops[|ops| - 1])
  }

  ghost predicate Reflects(s: State, id: Id, life: Life) {
    match life
    case Unknown => id !in s.pending && id !in s.active
    case Asked(r) => id in s.pending && s.pending[id] == r && r.state.Pending? && id !in s.active
    case Allowed(r) =>
      id in s.pending && s.pending[id] == r.(state := Approved, sender := None) && id !in s.active
    case Live(since) => id !in s.pending && id in s.active && s.active[id] == since
    case Gone => id !in s.pending && id !in s.active
  }

  lemma {:induction false} UnknownUntilAdded(ops: seq<Op>, id: Id)
    requires forall i :: 0 <= i < |ops| ==> !(ops[i].Add? && ops[i].request.id == id)
    ensures LifeOf(ops, id) == Unknown
    decreases |ops|
  {
    if ops != [] {
      UnknownUntilAdded(ops[..|ops| - 1], id);
    }
  }

  /**
   Over every run with fresh ids the two maps hold exactly what each id's life says, the request and the time of
   activation included: so pending and active are disjoint, an id becomes active only from approved, and an id that is
   gone is in neither map.
   */
  lemma {:induction false} MapsReflectLives(ops: seq<Op>, id: Id)
    requires Fresh(ops)
    ensures Reflects(Run(ops), id, LifeOf(ops, id))
    decreases |ops|
  {
    if ops != [] {
      var n := |ops| - 1;
      MapsReflectLives(ops[..n], id);
      if ops[n].Add? && ops[n].request.id == id {
        UnknownUntilAdded(ops[..n], id);
      }
      hide Reflects, Step, LifeStep;
      StepReflects(Run(ops[..n]), id, LifeOf(ops[..n], id), ops[n]);
    }
  }

  lemma StepReflects(s: State, id: Id, life: Life, op: Op)
    requires Reflects(s, id, life)
    requires op.Add? && op.request.id == id ==> life.Unknown? && op.request.state.Pending?
    ensures Reflects(Step(s, op).0, id, LifeStep(life, id, op))
  {
  }

  /** What an operation on an id in this life answers. */
  function ExpectedAnswer(life: Life, op: Op): Answer {
    match op
    case Add(_) => Done
    case Activate(_, _) =>
      if life.Allowed? then Done else if life.Asked? then Failed(InvalidState) else Failed(NotFound)
    case Close(_) => if life.Live? then Done else Failed(NotFound)
    case _ => if life.Asked? then Done else if life.Allowed? then Failed(InvalidState) else Failed(NotFound)
  }

  /** Over every run with fresh ids each answer, and the kind of each error, is decided by the life of the id. */
  lemma AnswersFollowLives(ops: seq<Op>, k: nat)
    requires Fresh(ops) && k < |ops|
    ensures AnswerAt(ops, k) == ExpectedAnswer(LifeOf(ops[..k], Subject(ops[k])), ops[k])
  {
    FreshPrefix(ops, k);
    MapsReflectLives(ops[..k], Subject(ops[k]));
    hide Fresh, LifeOf, Run;
  }

  /** A rejected, dropped or closed id stays gone. */
  lemma {:induction false} GoneStaysGone(ops: seq<Op>, n: nat, id: Id)
    requires Fresh(ops) && n <= |ops| && LifeOf(ops[..n], id) == Gone
    ensures LifeOf(ops, id) == Gone && id !in Run(ops).active
    decreases |ops| - n
  {
    if n == |ops| {
      assert ops[..n] == ops;
      MapsReflectLives(ops, id);
    } else {
      var a := LastAddition(ops[..n], id);
      assert ops[..n + 1][..n] == ops[..n];
      assert !(ops[n].Add? && ops[n].request.id == id);
      GoneStaysGone(ops, n + 1, id);
    }
  }

  lemma {:induction false} LastAddition(ops: seq<Op>, id: Id) returns (a: nat)
    requires !LifeOf(ops, id).Unknown?
    ensures a < |ops| && ops[a].Add? && ops[a].request.id == id
    decreases |ops|
  {
    var n := |ops| - 1;
    if ops[n].Add? && ops[n].request.id == id {
      a := n;
    } else {
      a := LastAddition(ops[..n], id);
    }
  }

  /** A removal by reject, or by activating too early, is final: the id is never active afterwards. */
  lemma RemovedNeverActive(ops: seq<Op>, n: nat, id: Id, k: nat)
    requires Fresh(ops) && n < k <= |ops| && id in Run(ops[..n]).pending
    requires (ops[n].Refuse? && ops[n].id == id)
             || (ops[n].Activate? && ops[n].id == id && AnswerAt(ops, n).Failed?)
    ensures id !in Run(ops[..k]).active && id !in Run(ops[..k]).pending
  {
    FreshPrefix(ops, n);
    FreshPrefix(ops, k);
    MapsReflectLives(ops[..n], id);
    assert ops[..k][..n + 1][..n] == ops[..n];
    assert LifeOf(ops[..k][..n + 1], id) == Gone;
    GoneStaysGone(ops[..k], n + 1, id);
    MapsReflectLives(ops[..k], id);
  }

  lemma FreshPrefix(ops: seq<Op>, n: nat)
    requires Fresh(ops) && n <= |ops|
    ensures Fresh(ops[..n])
  {
  }

  /** An active id was added, then approved, then activated, in this order and each time with success. */
  lemma ActiveWasApproved(ops: seq<Op>, id: Id) returns (a: nat, b: nat, c: nat)
    requires Fresh(ops) && id in Run(ops).active
    ensures a < b < c < |ops|
    ensures ops[a].Add? && ops[a].request.id == id
    ensures ops[b] == Permit(id) && AnswerAt(ops, b) == Done
    ensures ops[c].Activate? && ops[c].id == id && AnswerAt(ops, c) == Done
  {
    MapsReflectLives(ops, id);
    c := EnteredAt(ops, id, LifeOf(ops, id));
    FreshPrefix(ops, c);
    MapsReflectLives(ops[..c], id);
    b := EnteredAt(ops[..c], id, LifeOf(ops[..c], id));
    assert ops[..c][..b] == ops[..b];
    FreshPrefix(ops, b);
    MapsReflectLives(ops[..b], id);
    a := LastAddition(ops[..b], id);
  }

  /** The step at which an id entered the life it is in. */
  lemma {:induction false} EnteredAt(ops: seq<Op>, id: Id, life: Life) returns (k: nat)
    requires LifeOf(ops, id) == life && (life.Live? || life.Allowed?)
    ensures k < |ops| && Subject(ops[k]) == id && LifeOf(ops[..k], id) != life
    ensures LifeStep(LifeOf(ops[..k], id), id, ops[k]) == life
    decreases |ops|
  {
    var n := |ops| - 1;
    if LifeOf(ops[..n], id) == life {
      k := EnteredAt(ops[..n], id, life);
      assert ops[..n][..k] == ops[..k];
    } else {
      k := n;
    }
  }

  // ---------------------------------------------------------- one decision each

  ghost predicate AddedWith(ops: seq<Op>, id: Id, x: Sender) {
    exists i :: 0 <= i < |ops| && ops[i].Add? && ops[i].request.id == id && ops[i].request.sender == Some(x)
  }

  predicate Told(sent: seq<Sent>, x: Sender) {
    exists j :: 0 <= j < |sent| && sent[j].sender == x
  }

  /** Stored senders come from their request's addition and are unused; used ones were used once. */
  ghost predicate SendersInv(s: State, ops: seq<Op>) {
    && (forall id :: id in s.pending && s.pending[id].sender.Some? ==>
          AddedWith(ops, id, s.pending[id].sender.value) && !Told(s.sent, s.pending[id].sender.value))
    && (forall x :: Told(s.sent, x) ==> exists id :: AddedWith(ops, id, x))
    && (forall j, k :: 0 <= j < k < |s.sent| ==> s.sent[j].sender != s.sent[k].sender)
  }

  /** In every run with fresh ids, each request's channel carries at most one decision. */
  lemma {:induction false} OneDecisionEach(ops: seq<Op>)
    requires Fresh(ops)
    ensures SendersInv(Run(ops), ops)
    decreases |ops|
  {
    if ops != [] {
      var n := |ops| - 1;
      var front := ops[..n];
      FreshPrefix(ops, n);
      OneDecisionEach(front);
      assert ops == front + [ops[n]];
      SendersStep(Run(front), front, ops[n]);
    }
  }

  lemma AddedStays(ops: seq<Op>, op: Op)
    ensures forall id, x :: AddedWith(ops, id, x) ==> AddedWith(ops + [op], id, x)
  {
    forall id: Id, x: Sender | AddedWith(ops, id, x) ensures AddedWith(ops + [op], id, x) {
      var i :| 0 <= i < |ops| && ops[i].Add? && ops[i].request.id == id && ops[i].request.sender == Some(x);
      assert (ops + [op])[i] == ops[i];
    }
  }

  lemma OneOwner(ops: seq<Op>, id: Id, other: Id, x: Sender)
    requires Fresh(ops) && AddedWith(ops, id, x) && AddedWith(ops, other, x)
    ensures id == other
  {
    var i :| 0 <= i < |ops| && ops[i].Add? && ops[i].request.id == id && ops[i].request.sender == Some(x);
    var j :| 0 <= j < |ops| && ops[j].Add? && ops[j].request.id == other && ops[j].request.sender == Some(x);
    assert i == j;
  }

  lemma TellSenders(sent: seq<Sent>, x: Sender, d: Decision)
    ensures forall y :: Told(sent + [Sent(x, d)], y) <==> Told(sent, y) || y == x
  {
    var more := sent + [Sent(x, d)];
    assert more[|sent|].sender == x;
    forall y | Told(sent, y) ensures Told(more, y) {
      var j :| 0 <= j < |sent| && sent[j].sender == y;
      assert more[j] == sent[j];
    }
  }

  lemma SendersStep(s: State, ops: seq<Op>, op: Op)
    requires SendersInv(s, ops) && Fresh(ops + [op])
    ensures SendersInv(Step(s, op).0, ops + [op])
  {
    AddedStays(ops, op);
    match op {
      case Add(request) =>
        if request.sender.Some? {
          NewSender(s, ops, op);
        }
      case Permit(id) =>
        if id in s.pending && s.pending[id].state.Pending? && s.pending[id].sender.Some? {
          DecisionStep(s, ops, op, id, Approve);
        }
      case Refuse(id, reason) =>
        if id in s.pending && s.pending[id].state.Pending? && s.pending[id].sender.Some? {
          DecisionStep(s, ops, op, id, Reject(reason));
        }
      case _ =>
    }
  }

  lemma NewSender(s: State, ops: seq<Op>, op: Op)
    requires SendersInv(s, ops) && Fresh(ops + [op]) && op.Add? && op.request.sender.Some?
    ensures AddedWith(ops + [op], op.request.id, op.request.sender.value) && !Told(s.sent, op.request.sender.value)
  {
    var more := ops + [op];
    assert more[|ops|] == op;
    forall id: Id ensures !AddedWith(ops, id, op.request.sender.value) {
      assert forall i :: 0 <= i < |ops| ==> more[i] == ops[i];
    }
  }

  /** Sending a stored sender's decision leaves every other stored sender unused. */
  lemma DecisionStep(s: State, ops: seq<Op>, op: Op, id: Id, d: Decision)
    requires SendersInv(s, ops) && Fresh(ops + [op])
    requires id in s.pending && s.pending[id].sender.Some?
    ensures var x := s.pending[id].sender.value; var sent := s.sent + [Sent(x, d)];
      && (forall j, k :: 0 <= j < k < |sent| ==> sent[j].sender != sent[k].sender)
      && (forall y :: Told(sent, y) <==> Told(s.sent, y) || y == x)
      && (forall other :: other in s.pending && other != id && s.pending[other].sender.Some? ==>
            !Told(sent, s.pending[other].sender.value))
  {
    var x := s.pending[id].sender.value;
    TellSenders(s.sent, x, d);
    assert (ops + [op])[..|ops|] == ops;
    FreshPrefix(ops + [op], |ops|);
    forall other | other in s.pending && other != id && s.pending[other].sender.Some?
      ensures s.pending[other].sender.value != x
    {
      if s.pending[other].sender.value == x {
        OneOwner(ops, id, other, x);
      }
    }
  }

  /** Every decision sent was caused by a successful approve or reject of the request that owns the channel. */
  lemma {:induction false} DecisionHasCause(ops: seq<Op>, j: nat) returns (k: nat, id: Id)
    requires Fresh(ops) && j < |Run(ops).sent|
    ensures k < |ops| && AnswerAt(ops, k) == Done && AddedWith(ops[..k], id, Run(ops).sent[j].sender)
    ensures match Run(ops).sent[j].decision
      case Approve => ops[k] == Permit(id)
      case Reject(reason) => ops[k] == Refuse(id, reason)
    decreases |ops|
  {
    hide Fresh, AddedWith, Step;
    var n := |ops| - 1;
    var front := ops[..n];
    FreshPrefix(ops, n);
    SendCause(Run(front), ops[n]);
    if j < |Run(front).sent| {
      k, id := DecisionHasCause(front, j);
      assert front[..k] == ops[..k];
    } else {
      k, id := n, Subject(ops[n]);
      StoredSenderAdded(front, id);
    }
  }

  /** A step sends at most one decision, the one its operation stands for, to the sender of the entry it is about. */
  lemma SendCause(s: State, op: Op)
    ensures var (t, a) := Step(s, op); var id := Subject(op);
      t.sent == s.sent
      || (&& a == Done && id in s.pending && s.pending[id].sender.Some?
          && ((op.Permit? && t.sent == s.sent + [Sent(s.pending[id].sender.value, Approve)])
              || (op.Refuse? && t.sent == s.sent + [Sent(s.pending[id].sender.value, Reject(op.reason))])))
  {
  }

  lemma StoredSenderAdded(ops: seq<Op>, id: Id)
    requires Fresh(ops)
    ensures id in Run(ops).pending && Run(ops).pending[id].sender.Some? ==>
      AddedWith(ops, id, Run(ops).pending[id].sender.value)
  {
    OneDecisionEach(ops);
  }

  // ------------------------------------------------------- every decision is sent

  /** The decision an operation sends for a request in this life: one for each success, if there is a channel. */
  function DecisionOf(life: Life, op: Op): seq<Sent> {
    if !life.Asked? || life.request.sender.None? then []
    else match op
      case Permit(_) => [Sent(life.request.sender.value, Approve)]
      case Refuse(_, reason) => [Sent(life.request.sender.value, Reject(reason))]
      case _ => []
  }

  function Decisions(ops: seq<Op>): seq<Sent> {
    if ops == [] then []
    else
      var n := |ops| - 1;
      Decisions(ops[..n]) + DecisionOf(LifeOf(ops[..n], Subject(ops[n])), ops[n])
  }

  /** Over every run with fresh ids exactly the decisions the lives of the ids call for are sent, in order. */
  lemma {:induction false} SentIsDecisions(ops: seq<Op>)
    requires Fresh(ops)
    ensures Run(ops).sent == Decisions(ops)
    decreases |ops|
  {
    if ops != [] {
      var n := |ops| - 1;
      FreshPrefix(ops, n);
      SentIsDecisions(ops[..n]);
      MapsReflectLives(ops[..n], Subject(ops[n]));
      hide Fresh, LifeOf, Reflects, Step, DecisionOf;
      StepSends(Run(ops[..n]), LifeOf(ops[..n], Subject(ops[n])), ops[n]);
    }
  }

  lemma StepSends(s: State, life: Life, op: Op)
    requires Reflects(s, Subject(op), life)
    ensures Step(s, op).0.sent == s.sent + DecisionOf(life, op)
  {
    assert s.sent + [] == s.sent;
  }

  lemma {:induction false} SentGrows(ops: seq<Op>, n: nat)
    requires n <= |ops|
    ensures Run(ops[..n]).sent <= Run(ops).sent
    decreases |ops|
  {
    if n == |ops| {
      assert ops[..n] == ops;
    } else {
      var k := |ops| - 1;
      SentGrows(ops[..k], n);
      assert ops[..k][..n] == ops[..n];
      SendCause(Run(ops[..k]), ops[k]);
      hide Step;
    }
  }

  /** The request a waiting id stands for is the one it was added with. */
  lemma {:induction false} WaitingWasAdded(ops: seq<Op>, id: Id) returns (a: nat)
    requires LifeOf(ops, id).Asked?
    ensures a < |ops| && ops[a] == Add(LifeOf(ops, id).request) && LifeOf(ops, id).request.id == id
    decreases |ops|
  {
    var n := |ops| - 1;
    if ops[n].Add? && ops[n].request.id == id {
      a := n;
    } else {
      a := WaitingWasAdded(ops[..n], id);
    }
  }

  /** The decision that a successful approve or reject stands for. */
  function DecisionFor(op: Op): Decision
    requires op.Permit? || op.Refuse?
  {
    if op.Permit? then Approve else Reject(op.reason)
  }

  /**
   Every successful approve or reject of a request with a channel is told through that channel, and nothing else is:
   the converse of `DecisionHasCause`.
   */
  lemma DecisionIsSent(ops: seq<Op>, k: nat, x: Sender) returns (j: nat)
    requires Fresh(ops) && k < |ops| && (ops[k].Permit? || ops[k].Refuse?) && AnswerAt(ops, k) == Done
    requires AddedWith(ops[..k], ops[k].id, x)
    ensures j < |Run(ops).sent| && Run(ops).sent[j] == Sent(x, DecisionFor(ops[k]))
    ensures forall i :: 0 <= i < |Run(ops).sent| && Run(ops).sent[i].sender == x ==> i == j
  {
    var id := ops[k].id;
    FreshPrefix(ops, k);
    MapsReflectLives(ops[..k], id);
    var life := LifeOf(ops[..k], id);
    AnswersFollowLives(ops, k);
    hide Run, LifeOf;
    var a := WaitingWasAdded(ops[..k], id);
    SameSender(ops[..k], a, id, x);
    hide Fresh, AddedWith;
    j := |Run(ops[..k]).sent|;
    assert ops[..k + 1][..k] == ops[..k];
    RunOne(ops, k);
    StepSends(Run(ops[..k]), life, ops[k]);
    SentGrows(ops, k + 1);
    OneDecisionEach(ops);
  }

  lemma RunOne(ops: seq<Op>, k: nat)
    requires k < |ops|
    ensures Run(ops[..k + 1]) == Step(Run(ops[..k]), ops[k]).0
  {
    hide Step;
    assert ops[..k + 1][..k] == ops[..k];
  }

  lemma SameSender(ops: seq<Op>, a: nat, id: Id, x: Sender)
    requires Fresh(ops) && a < |ops| && ops[a].Add? && ops[a].request.id == id && AddedWith(ops, id, x)
    ensures ops[a].request.sender == Some(x)
  {
    var i :| 0 <= i < |ops| && ops[i].Add? && ops[i].request.id == id && ops[i].request.sender == Some(x);
    assert i == a;
  }

  // --------------------------------------------------------- implementation

  class ConnectionManager {
    var pending: map<Id, Request>
    var active: map<Id, nat>
    var sent: seq<Sent>

    ghost function View(): State
      reads this
    {
      State(pending, active, sent)
    }

    constructor ()
      ensures View() == EMPTY
    {
      pending, active, sent := map[], map[], [];
    }

    method AddPending(r: Request)
      modifies this
      ensures View() == Step(old(View()), Add(r)).0
      ensures pending == old(pending)[r.id := r] && active == old(active) && sent == old(sent)
    {
      pending := pending[r.id := r];
    }

    /** `tx.take()` and `send`: a sender is used up by its first decision. */
    method TakeAndSend(sender: Option<Sender>, d: Decision)
      modifies this`sent
      ensures sent == Tell(old(sent), sender, d)
    {
      if sender.Some? {
        sent := sent + [Sent(sender.value, d)];
      }
    }

    method ApproveConnection(id: Id) returns (r: Answer)
      modifies this
      ensures (View(), r) == Step(old(View()), Permit(id))
    {
      if id !in pending { return Failed(NotFound); }
      var request := pending[id];
      if !request.state.Pending? { return Failed(InvalidState); }
      pending := pending[id := request.(state := Approved, sender := None)];
      TakeAndSend(request.sender, Approve);
      r := Done;
    }

    method RejectConnection(id: Id, reason: string) returns (r: Answer)
      modifies this
      ensures (View(), r) == Step(old(View()), Refuse(id, reason))
    {
      if id !in pending { return Failed(NotFound); }
      var request := pending[id];
      pending := pending - {id};
      if !request.state.Pending? { return Failed(InvalidState); }
      TakeAndSend(request.sender, Reject(reason));
      r := Done;
    }

    method ActivateConnection(id: Id, now: nat) returns (r: Answer)
      modifies this
      ensures (View(), r) == Step(old(View()), Activate(id, now))
    {
      if id !in pending { return Failed(NotFound); }
      var request := pending[id];
      pending := pending - {id};
      if !request.state.Approved? { return Failed(InvalidState); }
      active := active[id := now];
      r := Done;
    }

    method CloseConnection(id: Id) returns (r: Answer)
      modifies this
      ensures (View(), r) == Step(old(View()), Close(id))
    {
      if id in active {
        active := active - {id};
        r := Done;
      } else {
        r := Failed(NotFound);
      }
    }
  }
}
