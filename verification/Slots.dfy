/** Who holds a slot: balancer calls told apart by the request that makes them, so
    that the active count of a node can be compared with the requests it really
    serves. */
module Slots {
  import opened Prelude
  import opened Nodes
  import opened Selection
  import opened Balancing

  /** A balancer call made by a request, or a request being answered. */
  datatype Event = Call(call: nat, op: Op) | Done(call: nat)

  datatype Slot = Slot(sid: int, id: int)

  function Ops(log: seq<Event>): seq<Op> {
    if log == [] then []
    else
      var e := log[|log| - 1];
      Ops(log[..|log| - 1]) + if e.Call? then [e.op] else []
  }

  lemma {:induction false} OpsAppend(a: seq<Event>, b: seq<Event>)
    ensures Ops(a + b) == Ops(a) + Ops(b)
    decreases |b|
  {
    if b == [] {
      assert a + b == a;
    } else {
      OpsAppend(a, b[..|b| - 1]);
      assert (a + b)[..|a + b| - 1] == a + b[..|b| - 1];
    }
  }

  /** The load balancer after the calls of a log. */
  ghost function After(s: State, log: seq<Event>): State {
    Run(s, Ops(log))
  }

  lemma AfterAppend(s: State, a: seq<Event>, b: seq<Event>)
    ensures After(s, a + b) == Run(After(s, a), Ops(b))
  {
    hide Run;
    OpsAppend(a, b);
    RunAppend(s, Ops(a), Ops(b));
  }

  /** What a request holds after one more event of its own. */
  ghost function HoldingNext(s: State, e: Event, held: Option<Slot>): Option<Slot> {
    match e
    case Done(_) => None
    case Call(_, op) =>
      if op.OpRelease? then None
      else if op.OpSelect? then
        var c := Chosen(s, op);
        if c.Some? then Some(Slot(op.service.id, c.value.id)) else None
      else held
  }

  /** The slot a request has been given and has neither released nor taken to its
      end: the node it is being served by, or is about to be. */
  ghost function Holding(s: State, log: seq<Event>, call: nat): Option<Slot> {
    if log == [] then None
    else
      var front, e := log[..|log| - 1], log[|log| - 1];
      var held := Holding(s, front, call);
      if e.call != call then held else HoldingNext(After(s, front), e, held)
  }

  lemma HoldingSnoc(s: State, log: seq<Event>, e: Event, call: nat)
    ensures Holding(s, log + [e], call)
            == if e.call != call then Holding(s, log, call) else HoldingNext(After(s, log), e, Holding(s, log, call))
  {
    assert (log + [e])[..|log|] == log;
  }

  predicate Foreign(log: seq<Event>, call: nat) {
    forall e :: e in log ==> e.call != call
  }

  /** Other requests change nothing about what a request holds. */
  lemma {:induction false} HoldingForeign(s: State, log: seq<Event>, others: seq<Event>, call: nat)
    requires Foreign(others, call)
    ensures Holding(s, log + others, call) == Holding(s, log, call)
    decreases |others|
  {
    hide HoldingNext, After;
    if others == [] {
      assert log + others == log;
    } else {
      var front := others[..|others| - 1];
      HoldingForeign(s, log, front, call);
      assert log + others == (log + front) + [others[|others| - 1]];
      HoldingSnoc(s, log + front, others[|others| - 1], call);
    }
  }

  /** The discipline of a request: it selects when it holds nothing, and releases
      what it holds. */
  ghost predicate Follows(s: State, before: seq<Event>, e: Event) {
    e.Call? ==>
      && (e.op.OpSelect? ==> Holding(s, before, e.call).None?)
      && (e.op.OpRelease? ==> Holding(s, before, e.call) == Some(Slot(e.op.sid, e.op.id)))
  }

  ghost predicate Disciplined(s: State, log: seq<Event>) {
    forall j {:trigger log[..j]} :: 0 <= j < |log| ==> Follows(s, log[..j], log[j])
  }

  lemma DisciplinedFront(s: State, log: seq<Event>)
    requires log != [] && Disciplined(s, log)
    ensures Disciplined(s, log[..|log| - 1]) && Follows(s, log[..|log| - 1], log[|log| - 1])
  {
    var front := log[..|log| - 1];
    forall j | 0 <= j < |front| ensures Follows(s, front[..j], front[j]) {
      assert front[..j] == log[..j];
    }
  }

  predicate KeyedLog(log: seq<Event>) {
    forall e :: e in log && e.Call? ==> Keyed(e.op)
  }

  lemma {:induction false} KeyedOps(log: seq<Event>)
    requires KeyedLog(log)
    ensures forall j :: 0 <= j < |Ops(log)| ==> Keyed(Ops(log)[j])
    decreases |log|
  {
    hide Keyed;
    if log != [] {
      KeyedOps(log[..|log| - 1]);
      assert log[|log| - 1] in log;
    }
  }

  // ----- requests in flight

  function Calls(log: seq<Event>): set<nat> {
    set j | 0 <= j < |log| :: log[j].call
  }

  /** The requests a node is in use by. */
  ghost function InFlight(s: State, log: seq<Event>, slot: Slot): set<nat> {
    set c | c in Calls(log) && Holding(s, log, c) == Some(slot)
  }

  /** Requests answered while they held the slot. */
  ghost function Abandoned(s: State, log: seq<Event>, slot: Slot): nat {
    if log == [] then 0
    else
      var front, e := log[..|log| - 1], log[|log| - 1];
      Abandoned(s, front, slot) + One(e.Done? && Holding(s, front, e.call) == Some(slot))
  }

  ghost function TallyLog(s: State, log: seq<Event>, slot: Slot): Tally {
    TallyOf(s, Ops(log), slot.sid, slot.id)
  }

  lemma {:induction false} StrangersHoldNothing(s: State, log: seq<Event>, call: nat)
    requires call !in Calls(log)
    ensures Holding(s, log, call).None?
    decreases |log|
  {
    hide HoldingNext, After;
    if log != [] {
      var front := log[..|log| - 1];
      assert log[|log| - 1].call in Calls(log);
      assert forall j :: 0 <= j < |front| ==> front[j].call == log[j].call;
      StrangersHoldNothing(s, front, call);
    }
  }

  lemma InFlightMembers(s: State, log: seq<Event>, slot: Slot, c: nat)
    ensures c in InFlight(s, log, slot) <==> Holding(s, log, c) == Some(slot)
  {
    hide Holding;
    if c !in Calls(log) {
      StrangersHoldNothing(s, log, c);
    }
  }

  /** One event moves at most its own request in or out. */
  lemma InFlightNext(s: State, front: seq<Event>, e: Event, slot: Slot)
    ensures var before, after := InFlight(s, front, slot), InFlight(s, front + [e], slot);
            && (Holding(s, front, e.call) == Some(slot) <==> e.call in before)
            && (Holding(s, front + [e], e.call) == Some(slot) <==> e.call in after)
            && after - {e.call} == before - {e.call}
            && |after| - One(e.call in after) == |before| - One(e.call in before)
  {
    hide Holding, InFlight;
    var before, after := InFlight(s, front, slot), InFlight(s, front + [e], slot);
    InFlightMembers(s, front, slot, e.call);
    InFlightMembers(s, front + [e], slot, e.call);
    forall c ensures c in after - {e.call} <==> c in before - {e.call} {
      InFlightMembers(s, front, slot, c);
      InFlightMembers(s, front + [e], slot, c);
      HoldingSnoc(s, front, e, c);
    }
    WithoutOne(before, e.call);
    WithoutOne(after, e.call);
  }

  lemma WithoutOne(a: set<nat>, x: nat)
    ensures |a - {x}| == |a| - One(x in a)
  {
    if x in a {
      assert a == (a - {x}) + {x};
    } else {
      assert a - {x} == a;
    }
  }

  lemma TallyNext(s: State, front: seq<Event>, e: Event, slot: Slot)
    requires NonNegative(Current(After(s, front), slot.sid))
    ensures var t := TallyLog(s, front, slot);
            TallyLog(s, front + [e], slot)
            == if e.Done? then t else Added(t, TallyOp(After(s, front), e.op, slot.sid, slot.id))
  {
    hide Run, TallyOp;
    assert (front + [e])[..|front|] == front;
    if e.Call? {
      assert Ops(front + [e]) == Ops(front) + [e.op];
      assert (Ops(front) + [e.op])[..|Ops(front)|] == Ops(front);
    } else {
      assert Ops(front + [e]) == Ops(front);
    }
  }

  /** One event of a disciplined request, seen from the slot it may move. */
  lemma FlightStep(s: State, front: seq<Event>, e: Event, slot: Slot)
    requires Follows(s, front, e) && NonNegative(Current(After(s, front), slot.sid))
    ensures var held, holds := Holding(s, front, e.call) == Some(slot), Holding(s, front + [e], e.call) == Some(slot);
            One(holds) - One(held)
            == if e.Done? then 0 - One(held)
               else var t := TallyOp(After(s, front), e.op, slot.sid, slot.id); t.picked - t.released
  {
    hide Run, Chosen, ActiveOf;
    HoldingSnoc(s, front, e, e.call);
  }

  predicate Sound(s: State, sid: int) {
    DistinctIds(Current(s, sid)) && NonNegative(Current(s, sid))
  }

  lemma {:induction false} SoundAfter(s: State, log: seq<Event>, sid: int)
    requires Sound(s, sid) && KeyedLog(log)
    ensures Sound(After(s, log), sid)
  {
    hide Run;
    KeyedOps(log);
    SlotLedger(s, Ops(log), sid, 0);
  }

  /** The requests a node is in use by are exactly the selections of it that were
      neither released nor abandoned. */
  lemma {:induction false} FlightLedger(s: State, log: seq<Event>, slot: Slot)
    requires Sound(s, slot.sid) && KeyedLog(log) && Disciplined(s, log)
    ensures var t := TallyLog(s, log, slot);
            |InFlight(s, log, slot)| == t.picked - t.released - Abandoned(s, log, slot)
    decreases |log|
  {
    hide Holding, InFlight, TallyOp, Follows, TallyOf, Sound, Disciplined, Ops, After;
    if log == [] {
      NobodyYet(s, slot);
    } else {
      var front, e := log[..|log| - 1], log[|log| - 1];
      assert log == front + [e];
      DisciplinedFront(s, log);
      FlightLedger(s, front, slot);
      SoundAfter(s, front, slot.sid);
      SoundMeans(After(s, front), slot.sid);
      InFlightNext(s, front, e, slot);
      FlightStep(s, front, e, slot);
      TallyNext(s, front, e, slot);
    }
  }

  lemma NobodyYet(s: State, slot: Slot)
    ensures InFlight(s, [], slot) == {} && TallyLog(s, [], slot) == Tally(0, 0, 0, 0, 0)
  {
  }

  lemma SoundMeans(s: State, sid: int)
    requires Sound(s, sid)
    ensures NonNegative(Current(s, sid))
  {
  }

  /** The active count against the requests in flight, at every moment of every
      disciplined log: each success and each failure takes one slot too many, each
      abandoned request leaves one behind. */
  lemma ActiveVersusInFlight(s: State, log: seq<Event>, slot: Slot)
    requires Sound(s, slot.sid) && KeyedLog(log) && Disciplined(s, log) && ActiveOf(Current(s, slot.sid), slot.id) == 0
    ensures var t, active := TallyLog(s, log, slot), ActiveOf(Current(After(s, log), slot.sid), slot.id);
            active - |InFlight(s, log, slot)| == Abandoned(s, log, slot) + t.idle - t.marked - t.dropped
  {
    hide Run, TallyOf, InFlight, Abandoned, ActiveOf, Disciplined, Ops;
    KeyedOps(log);
    SlotLedger(s, Ops(log), slot.sid, slot.id);
    FlightLedger(s, log, slot);
  }

  /** Exactly when the active count is the number of requests in flight. */
  lemma ActiveCountsInFlight(s: State, log: seq<Event>, slot: Slot)
    requires Sound(s, slot.sid) && KeyedLog(log) && Disciplined(s, log) && ActiveOf(Current(s, slot.sid), slot.id) == 0
    ensures var t, active := TallyLog(s, log, slot), ActiveOf(Current(After(s, log), slot.sid), slot.id);
            active == |InFlight(s, log, slot)| <==> Abandoned(s, log, slot) + t.idle == t.marked + t.dropped
  {
    hide Run, TallyOf, InFlight, Abandoned, ActiveOf, Disciplined, After;
    ActiveVersusInFlight(s, log, slot);
  }

  /** Disciplined requests never release more than they selected, so the active
      count is at most the selections not yet released. */
  lemma ActiveBounded(s: State, log: seq<Event>, slot: Slot)
    requires Sound(s, slot.sid) && KeyedLog(log) && Disciplined(s, log) && ActiveOf(Current(s, slot.sid), slot.id) == 0
    ensures var t, active := TallyLog(s, log, slot), ActiveOf(Current(After(s, log), slot.sid), slot.id);
            0 <= active <= t.picked - t.released == |InFlight(s, log, slot)| + Abandoned(s, log, slot)
  {
    hide Run, TallyOf, InFlight, Abandoned, ActiveOf, Disciplined;
    KeyedOps(log);
    SlotLedger(s, Ops(log), slot.sid, slot.id);
    FlightLedger(s, log, slot);
    forall j | 0 <= j <= |Ops(log)|
      ensures var t := TallyOf(s, Ops(log)[..j], slot.sid, slot.id); t.released <= t.picked
    {
      PrefixReleases(s, log, slot, j);
    }
    ActiveBoundedByUnreleased(s, Ops(log), slot.sid, slot.id);
  }

  lemma {:induction false} PrefixReleases(s: State, log: seq<Event>, slot: Slot, j: nat)
    requires Sound(s, slot.sid) && KeyedLog(log) && Disciplined(s, log) && j <= |Ops(log)|
    ensures var t := TallyOf(s, Ops(log)[..j], slot.sid, slot.id); t.released <= t.picked
    decreases |log|
  {
    hide TallyOf, InFlight, Disciplined, Sound;
    if j == |Ops(log)| {
      assert Ops(log)[..j] == Ops(log);
      FlightLedger(s, log, slot);
    } else {
      var front := log[..|log| - 1];
      DisciplinedFront(s, log);
      assert Ops(log)[..j] == Ops(front)[..j];
      PrefixReleases(s, front, slot, j);
    }
  }

  // ----- slots that are left behind

  predicate SelectsOnly(log: seq<Event>, service: Service) {
    forall e :: e in log && e.Call? ==>
      e.op.OpSelect? && (e.op.service.id == service.id ==> e.op.service.nodes == service.nodes)
  }

  /** Requests turned away between selection and proxying give nothing back: while
      only such requests arrive, a node is handed out at most its limit times in
      all, however long it lasts and however few are in flight. */
  lemma RejectionsWearOut(s: State, log: seq<Event>, service: Service, i: nat)
    requires Sound(s, service.id) && KeyedLog(log) && SelectsOnly(log, service) && i < |service.nodes|
    requires var nodes := Current(s, service.id);
             && Matches(nodes, service.nodes) && WithinCapacity(nodes) && nodes[i].activeRequests == 0
    ensures var t := TallyLog(s, log, Slot(service.id, service.nodes[i].id));
            && ActiveOf(Current(After(s, log), service.id), service.nodes[i].id) == t.picked
            && t.picked <= EffectiveMaxConn(Current(s, service.id)[i].conf)
  {
    hide Run, Sound, Matches, WithinCapacity, TallyOf, ActiveOf, Keyed, Step;
    var sid, id := service.id, service.nodes[i].id;
    var nodes := Current(s, sid);
    SelectsOnlyOps(log, service);
    KeyedOps(log);
    MatchesAt(nodes, service.nodes, i);
    SoundAt(s, sid, i);
    SlotLedger(s, Ops(log), sid, id);
    SelectionsLeaveNoMark(s, Ops(log), service, id);
    StaysMatched(s, Ops(log), service);
    var last := Current(After(s, log), sid);
    MatchesAt(last, service.nodes, i);
    SoundAfter(s, log, sid);
    SoundAt(After(s, log), sid, i);
    WithinAt(last, i);
  }

  lemma SoundAt(s: State, sid: int, i: nat)
    requires Sound(s, sid) && i < |Current(s, sid)|
    ensures DistinctIds(Current(s, sid)) && NonNegative(Current(s, sid))
    ensures ActiveOf(Current(s, sid), Current(s, sid)[i].conf.id) == Current(s, sid)[i].activeRequests
  {
    PreviousAt(Current(s, sid), i);
  }

  lemma MatchesAt(nodes: seq<Node>, conf: seq<ServiceNode>, i: nat)
    requires Matches(nodes, conf) && i < |conf|
    ensures i < |nodes| && SameNode(nodes[i], conf[i])
  {
  }

  lemma WithinAt(nodes: seq<Node>, i: nat)
    requires WithinCapacity(nodes) && i < |nodes|
    ensures nodes[i].activeRequests <= EffectiveMaxConn(nodes[i].conf)
  {
  }

  predicate SelectOps(ops: seq<Op>, service: Service) {
    forall j :: 0 <= j < |ops| ==>
      ops[j].OpSelect? && (ops[j].service.id == service.id ==> ops[j].service.nodes == service.nodes)
  }

  lemma {:induction false} SelectsOnlyOps(log: seq<Event>, service: Service)
    requires SelectsOnly(log, service)
    ensures SelectOps(Ops(log), service)
    decreases |log|
  {
    if log != [] {
      SelectsOnlyOps(log[..|log| - 1], service);
      assert log[|log| - 1] in log;
    }
  }

  lemma {:induction false} SelectionsLeaveNoMark(s: State, ops: seq<Op>, service: Service, id: int)
    requires SelectOps(ops, service) && Lists(service.nodes, id)
    ensures var t := TallyOf(s, ops, service.id, id);
            t.released == t.marked == t.idle == t.dropped == 0
    decreases |ops|
  {
    hide Run, TallyOp, NonNegative, Lists, TallyOf;
    if ops == [] {
      NothingRun(s, service.id, id);
    } else {
      var front, op := ops[..|ops| - 1], ops[|ops| - 1];
      SelectionsLeaveNoMark(s, front, service, id);
      TallyLast(s, ops, service.id, id);
      if NonNegative(Current(Run(s, front), service.id)) {
        SelectionTallies(Run(s, front), op, service, id);
      }
    }
  }

  lemma TallyLast(s: State, ops: seq<Op>, sid: int, id: int)
    requires ops != []
    ensures var before, front := Run(s, ops[..|ops| - 1]), TallyOf(s, ops[..|ops| - 1], sid, id);
            TallyOf(s, ops, sid, id)
            == Added(front, if NonNegative(Current(before, sid)) then TallyOp(before, ops[|ops| - 1], sid, id)
                            else Tally(0, 0, 0, 0, 0))
  {
    hide TallyOp, NonNegative;
  }

  lemma SelectionTallies(s: State, op: Op, service: Service, id: int)
    requires NonNegative(Current(s, service.id)) && Lists(service.nodes, id)
    requires op.OpSelect? && (op.service.id == service.id ==> op.service.nodes == service.nodes)
    ensures var t := TallyOp(s, op, service.id, id);
            t.released == t.marked == t.idle == t.dropped == 0
  {
    hide HandsOut, ActiveOf, Lists;
    ActiveNonNegative(Current(s, service.id), id);
  }

  lemma {:induction false} StaysMatched(s: State, ops: seq<Op>, service: Service)
    requires SelectOps(ops, service)
    requires Matches(Current(s, service.id), service.nodes) && WithinCapacity(Current(s, service.id))
    ensures var nodes := Current(Run(s, ops), service.id);
            Matches(nodes, service.nodes) && WithinCapacity(nodes)
    decreases |ops|
  {
    hide Step, Matches, WithinCapacity;
    if ops != [] {
      var front, op := ops[..|ops| - 1], ops[|ops| - 1];
      StaysMatched(s, front, service);
      MatchedStep(Run(s, front), op, service);
    }
  }

  lemma MatchedStep(s: State, op: Op, service: Service)
    requires op.OpSelect? && (op.service.id == service.id ==> op.service.nodes == service.nodes)
    requires Matches(Current(s, service.id), service.nodes) && WithinCapacity(Current(s, service.id))
    ensures var nodes := Current(Step(s, op), service.id);
            Matches(nodes, service.nodes) && WithinCapacity(nodes)
  {
    hide Step, SelectFrom;
    var nodes := Current(s, service.id);
    SelectOnService(s, op, service.id);
    if op.service.id == service.id {
      RefreshedList(s, op.service);
      SelectKeepsConf(nodes, op.excluded, op.now);
      SelectionWithinCapacity(nodes, op.excluded, op.now);
    }
  }

  /** One such request can be enough: from an empty table, on a service with one
      enabled node of limit 1, it leaves nothing in flight and the node full, and no
      later selection finds a node. */
  lemma OneRejectionFillsANode(u: bool, conf: ServiceNode, sid: int, now: Time, pick: Op)
    requires conf.status == 1 && conf.maxConn == 1
    requires pick.OpSelect? && pick.service == Service(sid, [conf])
    ensures var s := State(map[], map[], u);
            var log := [Call(0, OpSelect(pick.service, {}, now)), Done(0)];
            && (forall slot :: InFlight(s, log, slot) == {})
            && ActiveOf(Current(After(s, log), sid), conf.id) == 1
            && Chosen(After(s, log), pick) == None
  {
    hide Step, Chosen, ActiveOf, AllFull, Matches;
    var s, select := State(map[], map[], u), OpSelect(pick.service, {}, now);
    var log := [Call(0, select), Done(0)];
    SelectsFirst(s, conf, sid, now);
    OpsAppend([Call(0, select)], [Done(0)]);
    assert log == [Call(0, select)] + [Done(0)] && log == ([] + [Call(0, select)]) + [Done(0)];
    assert Ops([Done(0)]) == [];
    assert Ops([Call(0, select)]) == [select];
    assert Ops(log) == [] + [select];
    RunSnoc(s, [], select);
    forall slot, c ensures Holding(s, log, c) != Some(slot) {
      HoldingSnoc(s, [Call(0, select)], Done(0), c);
      HoldingSnoc(s, [], Call(0, select), c);
    }
    FullServiceStaysFull(Step(s, select), [], pick);
  }

  lemma SelectsFirst(s: State, conf: ServiceNode, sid: int, now: Time)
    requires s.services == map[] && conf.status == 1 && conf.maxConn == 1
    ensures var nodes := Current(Step(s, OpSelect(Service(sid, [conf]), {}, now)), sid);
            && nodes == [FreshNode(conf).(activeRequests := 1)]
            && ActiveOf(nodes, conf.id) == 1 && AllFull(nodes) && Matches(nodes, [conf])
  {
    hide Step, SelectFrom, Refreshed;
    var select := OpSelect(Service(sid, [conf]), {}, now);
    RefreshedList(s, select.service);
    assert Current(s, sid) == [] && Rebuild([conf], []) == [FreshNode(conf)];
    SelectOnService(s, select, sid);
    LoneSelection([FreshNode(conf)], 0, now);
  }
}
