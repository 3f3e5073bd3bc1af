/** Write-behind of node availability: the load balancer records, a flusher drains
    what is recorded into batches, the database stores a batch or refuses it. All of
    them as one state machine, and the flusher as it runs. */
module WriteBehind {
  import opened Prelude
  import opened Nodes
  import opened Selection
  import opened Balancing
  import Availability
  import Gateway
  import LoadBalancer

  type Update = Availability.Update
  type Table = Availability.Table

  /** The balancer with its queue, the batch on its way, and the table. */
  datatype World = World(balancer: State, inflight: seq<Update>, table: Table)

  datatype Event =
    | Called(op: Op)
    | Drained(batch: seq<Update>)
    | Committed
    | Refused

  /** Flushes run one at a time, so a batch is drained only when none is in
      flight; balancer calls go on at any moment. */
  predicate Enabled(w: World, e: Event) {
    match e
    case Called(_) => true
    case Drained(batch) =>
      && w.balancer.updater && w.inflight == [] && w.balancer.queue != map[]
      && Availability.Enumerates(batch, w.balancer.queue)
    case Committed => w.inflight != []
    case Refused => w.inflight != []
  }

  ghost function Next(w: World, e: Event): World {
    match e
    case Called(op) => w.(balancer := Step(w.balancer, op))
    case Drained(batch) => w.(balancer := w.balancer.(queue := map[]), inflight := batch)
    case Committed => w.(table := Availability.Overwritten(w.inflight, w.table), inflight := [])
    case Refused => w.(inflight := [])
  }

  ghost function After(w: World, es: seq<Event>): World {
    if es == [] then w else Next(After(w, es[..|es| - 1]), es[|es| - 1])
  }

  ghost predicate Possible(w: World, es: seq<Event>) {
    es != [] ==> Possible(w, es[..|es| - 1]) && Enabled(After(w, es[..|es| - 1]), es[|es| - 1])
  }

  lemma AfterSnoc(w: World, es: seq<Event>, e: Event)
    ensures After(w, es + [e]) == Next(After(w, es), e)
    ensures Possible(w, es + [e]) <==> Possible(w, es) && Enabled(After(w, es), e)
  {
    assert (es + [e])[..|es|] == es;
  }

  /** Draining, storing and refusing batches leaves the nodes alone: a service's
      nodes are what the balancer calls on it make them. */
  lemma {:induction false} FlusherLeavesNodes(w: World, es: seq<Event>, sid: int)
    requires forall k :: 0 <= k < |es| && es[k].Called? ==> ServiceOf(es[k].op) != sid
    ensures Current(After(w, es).balancer, sid) == Current(w.balancer, sid)
    decreases |es|
  {
    hide Step;
    if es != [] {
      var front, e := es[..|es| - 1], es[|es| - 1];
      FlusherLeavesNodes(w, front, sid);
      if e.Called? {
        StepOnService(After(w, front).balancer, e.op, sid);
      }
    }
  }

  // ----- nothing is lost

  /** What a balancer call records: the availability the node it marks has after
      it. */
  ghost function Recorded(s: State, op: Op): Option<Update> {
    if op.OpSelect? || !s.updater then None
    else
      var at := Find(Current(s, op.sid), op.id);
      if at.None? then None
      else
        var n := Current(s, op.sid)[at.value];
        if Queues(n, op) then Some(Availability.Update(n.conf.id, Touched(n, op).conf.availability)) else None
  }

  /** The availability a run recorded last for a node. */
  ghost function LastRecorded(w: World, es: seq<Event>, id: int): Option<real> {
    if es == [] then None
    else
      var front, e := es[..|es| - 1], es[|es| - 1];
      var u := if e.Called? then Recorded(After(w, front).balancer, e.op) else None;
      if u.Some? && u.value.id == id then Some(u.value.availability) else LastRecorded(w, front, id)
  }

  lemma RecordedIsQueued(s: State, op: Op)
    ensures Step(s, op).updater == s.updater
    ensures Step(s, op).queue
            == var u := Recorded(s, op);
               if u.Some? then s.queue[u.value.id := u.value.availability] else s.queue
  {
    hide SelectFrom, Matches, Rebuild;
    if op.OpSelect? {
      RefreshKeepsQueue(s, op.service);
    } else {
      var at := Find(Current(s, op.sid), op.id);
      if at.Some? {
        TouchKeepsId(Current(s, op.sid)[at.value], op);
      }
    }
  }

  lemma TouchKeepsId(n: Node, op: Op)
    requires !op.OpSelect?
    ensures Touched(n, op).conf.id == n.conf.id
  {
  }

  /** Table, overlaid by the batch in flight, overlaid by the queue. */
  function Overlay(w: World, id: int): real
    requires id in w.table
  {
    if id in w.balancer.queue then w.balancer.queue[id]
    else Availability.Or(Availability.First(w.inflight, id), w.table[id])
  }

  /** The value a node was last recorded with (or held at the start of the run) was
      in a batch that has been refused, and the node has not been recorded since. */
  ghost predicate LastWasRefused(w: World, es: seq<Event>, id: int) {
    es != [] &&
    var front, e := es[..|es| - 1], es[|es| - 1];
    var before := After(w, front);
    match e
    case Called(op) =>
      var u := Recorded(before.balancer, op);
      !(u.Some? && u.value.id == id) && LastWasRefused(w, front, id)
    case Refused =>
      LastWasRefused(w, front, id)
      || (id !in before.balancer.queue && Availability.First(before.inflight, id).Some?)
    case _ => LastWasRefused(w, front, id)
  }

  /** What the overlay of a node should be after a run. */
  ghost function Expected(w: World, es: seq<Event>, id: int): real
    requires id in w.table
  {
    Availability.Or(LastRecorded(w, es, id), Overlay(w, id))
  }

  lemma ExpectedNext(w: World, front: seq<Event>, e: Event, id: int)
    requires id in w.table
    ensures Expected(w, front + [e], id)
            == var u := if e.Called? then Recorded(After(w, front).balancer, e.op) else None;
               if u.Some? && u.value.id == id then u.value.availability else Expected(w, front, id)
  {
    hide Recorded, After;
    assert (front + [e])[..|front|] == front;
  }

  lemma RefusedNext(w: World, front: seq<Event>, e: Event, id: int)
    ensures LastWasRefused(w, front + [e], id)
            <==> match e
                 case Called(op) =>
                   var u := Recorded(After(w, front).balancer, op);
                   !(u.Some? && u.value.id == id) && LastWasRefused(w, front, id)
                 case Refused =>
                   LastWasRefused(w, front, id)
                   || (id !in After(w, front).balancer.queue && Availability.First(After(w, front).inflight, id).Some?)
                 case _ => LastWasRefused(w, front, id)
  {
    hide Recorded, After;
    assert (front + [e])[..|front|] == front;
  }

  /** A node whose last value was refused is in neither queue nor batch; every other
      node's overlay is as expected. */
  lemma {:induction false} RefusalLedger(w: World, es: seq<Event>, id: int)
    requires Possible(w, es) && id in w.table
    ensures var n := After(w, es);
            && id in n.table
            && if LastWasRefused(w, es, id)
               then id !in n.balancer.queue && Availability.First(n.inflight, id).None?
               else Overlay(n, id) == Expected(w, es, id)
    decreases |es|
  {
    hide Enabled, Recorded, Next, Expected, LastWasRefused, Overlay;
    if es == [] {
      NothingHappened(w, id);
    } else {
      var front, e := es[..|es| - 1], es[|es| - 1];
      assert es == front + [e];
      RefusalLedger(w, front, id);
      ExpectedNext(w, front, e, id);
      RefusedNext(w, front, e, id);
      RefusalStep(After(w, front), e, id, LastWasRefused(w, front, id));
    }
  }

  lemma NothingHappened(w: World, id: int)
    requires id in w.table
    ensures !LastWasRefused(w, [], id) && Expected(w, [], id) == Overlay(w, id)
  {
  }

  /** One event, for a node known to be lost or not. */
  lemma RefusalStep(w: World, e: Event, id: int, lost: bool)
    requires Enabled(w, e) && id in w.table
    requires lost ==> id !in w.balancer.queue && Availability.First(w.inflight, id).None?
    ensures id in Next(w, e).table
    ensures var u := if e.Called? then Recorded(w.balancer, e.op) else None;
            var n := Next(w, e);
            && (u.Some? && u.value.id == id ==> Overlay(n, id) == u.value.availability)
            && (!(u.Some? && u.value.id == id) && lost ==>
                  id !in n.balancer.queue && Availability.First(n.inflight, id).None?)
            && (!(u.Some? && u.value.id == id) && !lost && !e.Refused? ==> Overlay(n, id) == Overlay(w, id))
            && (e.Refused? ==>
                  if id !in w.balancer.queue && Availability.First(w.inflight, id).Some?
                  then id !in n.balancer.queue && Availability.First(n.inflight, id).None?
                  else Overlay(n, id) == Overlay(w, id))
  {
    hide Step, Recorded;
    match e
    case Called(op) => RecordedIsQueued(w.balancer, op);
    case Drained(batch) =>
      if id in w.balancer.queue {
        Availability.LookupIsMembership(batch, id, w.balancer.queue[id]);
      }
    case Committed =>
    case Refused =>
  }

  /** Over every run, refusals included, exactly which nodes keep the availability
      recorded last: those whose last value was not refused, and those the table
      happens to hold it for. */
  lemma RefusedBatchesAreDropped(w: World, es: seq<Event>, id: int)
    requires Possible(w, es) && id in w.table
    ensures id in After(w, es).table
    ensures Overlay(After(w, es), id) == Expected(w, es, id)
            <==> !LastWasRefused(w, es, id) || After(w, es).table[id] == Expected(w, es, id)
  {
    hide After, Possible, Expected, LastWasRefused;
    RefusalLedger(w, es, id);
  }

  /** One refusal: exactly the nodes keep their overlay that were recorded again, were
      not in the batch, or had that value stored already. */
  lemma RefusedBatchIsDropped(w: World, id: int)
    requires Enabled(w, Refused) && id in w.table
    ensures Overlay(Next(w, Refused), id) == Overlay(w, id)
            <==> id in w.balancer.queue || Availability.First(w.inflight, id) in {None, Some(w.table[id])}
  {
  }

  /** While the database accepts the batches: over every run of balancer calls, drains
      and commits, table overlaid by batch overlaid by queue is the availability
      recorded last, and before anything is recorded what it was at the start. */
  lemma {:induction false} NothingIsLost(w: World, es: seq<Event>, id: int)
    requires Possible(w, es) && id in w.table
    requires forall k :: 0 <= k < |es| ==> !es[k].Refused?
    ensures id in After(w, es).table
    ensures Overlay(After(w, es), id) == Availability.Or(LastRecorded(w, es, id), Overlay(w, id))
  {
    hide After, Possible, LastRecorded, LastWasRefused, Overlay;
    NoneRefused(w, es, id);
    RefusalLedger(w, es, id);
  }

  lemma {:induction false} NoneRefused(w: World, es: seq<Event>, id: int)
    requires forall k :: 0 <= k < |es| ==> !es[k].Refused?
    ensures !LastWasRefused(w, es, id)
    decreases |es|
  {
    hide After, Recorded;
    if es != [] {
      NoneRefused(w, es[..|es| - 1], id);
    }
  }

  // ----- always a percentage

  predicate Percentages(w: World) {
    && InRange(w.balancer)
    && (forall u :: u in w.inflight ==> Percentage(u.availability))
    && (forall id :: id in w.table ==> Percentage(w.table[id]))
  }

  lemma PercentagesStep(w: World, e: Event)
    requires Percentages(w) && Enabled(w, e) && (e.Called? ==> ConfInRange(e.op))
    ensures Percentages(Next(w, e))
  {
    hide Step, ConfInRange;
    match e
    case Called(op) => InRangeStep(w.balancer, op);
    case Drained(batch) =>
    case Refused =>
    case Committed =>
      var t := Next(w, e).table;
      forall id | id in t ensures Percentage(t[id]) {
        var f := Availability.First(w.inflight, id);
        assert f.Some? ==> Availability.Update(id, f.value) in w.inflight;
      }
  }

  /** Run-time nodes, queue, batch and table hold percentages at every moment of
      every run, refused batches included. */
  lemma {:induction false} AlwaysPercentages(w: World, es: seq<Event>)
    requires Percentages(w) && Possible(w, es)
    requires forall k :: 0 <= k < |es| && es[k].Called? ==> ConfInRange(es[k].op)
    ensures Percentages(After(w, es))
    decreases |es|
  {
    hide Next, Percentages, Enabled, ConfInRange;
    if es != [] {
      AlwaysPercentages(w, es[..|es| - 1]);
      PercentagesStep(After(w, es[..|es| - 1]), es[|es| - 1]);
    }
  }

  // ----- the flusher

  function Calls(ops: seq<Op>): (es: seq<Event>)
    ensures |es| == |ops| && forall i :: 0 <= i < |ops| ==> es[i] == Called(ops[i])
  {
    seq(|ops|, i requires 0 <= i < |ops| => Called(ops[i]))
  }

  lemma {:induction false} CallsAfter(w: World, es: seq<Event>, ops: seq<Op>)
    ensures After(w, es + Calls(ops)) == After(w, es).(balancer := Run(After(w, es).balancer, ops))
    ensures Possible(w, es + Calls(ops)) <==> Possible(w, es)
    decreases |ops|
  {
    hide Step, After, Possible;
    if ops == [] {
      assert es + Calls(ops) == es;
    } else {
      var front := ops[..|ops| - 1];
      CallsAfter(w, es, front);
      assert es + Calls(ops) == (es + Calls(front)) + [Called(ops[|ops| - 1])];
      AfterSnoc(w, es + Calls(front), Called(ops[|ops| - 1]));
    }
  }

  function FlushEvents(batch: seq<Update>, others: seq<Op>, refused: bool): seq<Event> {
    [Drained(batch)] + Calls(others) + [if refused then Refused else Committed]
  }

  /** One tick of the flusher: takes the whole queue, in the order the map is walked,
      and hands it to the database, which may refuse it. `others` are the balancer
      calls made while the statement is on its way. */
  method FlushAvailabilityQueue(b: LoadBalancer.Balancer, table: Availability.NodeTable, order: seq<int>,
                                others: seq<Op>, refused: bool)
      returns (ghost batch: seq<Update>)
    requires b.Valid() && b.WalkOrder(order)
    modifies b, b.Repr(), table
    ensures b.Valid() && fresh(b.Repr() - old(b.Repr()))
    ensures var before, after := World(old(b.View()), [], old(table.rows)), World(b.View(), [], table.rows);
            var es := FlushEvents(batch, others, refused);
            if !b.dbUpdater || old(b.availabilityQueue) == map[] then after == before
            else Possible(before, es) && after == After(before, es)
  {
    hide Run, Step;
    batch := [];
    if !b.dbUpdater {
      return;
    }
    if |b.availabilityQueue| == 0 {
      return;
    }
    ghost var w := World(b.View(), [], table.rows);
    var updates := b.DrainAvailabilityQueue(order);
    batch := updates;
    Gateway.Others(b, others);
    var _ := table.UpdateNodeAvailability(updates, refused);
    EnumeratesSome(updates, w.balancer.queue);
    FlushIsRun(w, batch, others, refused);
  }

  lemma EnumeratesSome(us: seq<Update>, q: map<int, real>)
    requires Availability.Enumerates(us, q) && q != map[]
    ensures us != []
  {
    if us == [] {
      EmptyBatch(q);
    }
  }

  lemma EmptyBatch(q: map<int, real>)
    requires Availability.Enumerates([], q)
    ensures q == map[]
  {
    forall id ensures id !in q {
    }
    assert q.Keys == {};
  }

  lemma FlushIsRun(w: World, batch: seq<Update>, others: seq<Op>, refused: bool)
    requires w.inflight == [] && Enabled(w, Drained(batch)) && batch != []
    ensures Possible(w, FlushEvents(batch, others, refused))
    ensures After(w, FlushEvents(batch, others, refused))
            == World(Run(w.balancer.(queue := map[]), others), [],
                     if refused then w.table else Availability.Overwritten(batch, w.table))
  {
    hide Run, Enabled, Step;
    var start := [Drained(batch)];
    AfterSnoc(w, [], Drained(batch));
    assert [] + start == start;
    CallsAfter(w, start, others);
    AfterSnoc(w, start + Calls(others), if refused then Refused else Committed);
    InFlightIsEnabled(After(w, start + Calls(others)), refused);
  }

  lemma InFlightIsEnabled(w: World, refused: bool)
    requires w.inflight != []
    ensures Enabled(w, if refused then Refused else Committed)
  {
  }
}
