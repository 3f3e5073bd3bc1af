/** The load balancer as a state machine: every locked operation is one step, on
    any service, in any order. Theorems here are about whole runs. */
module Balancing {
  import opened Prelude
  import opened Nodes
  import opened Selection

  /** `services` is the run-time node table; `queue` holds availabilities waiting
      for the database; nothing is queued while there is no updater. */
  datatype State = State(services: map<int, seq<Node>>, queue: map<int, real>, updater: bool)

  datatype Op =
    | OpSelect(service: Service, excluded: set<int>, now: Time)
    | OpRelease(sid: int, id: int)
    | OpSuccess(sid: int, id: int)
    | OpFailure(sid: int, id: int, err: Option<string>, now: Time)
    | OpMaxConn(sid: int, id: int, now: Time)

  function Current(s: State, sid: int): seq<Node> {
    if sid in s.services then s.services[sid] else []
  }

  // ----- configuration changes

  predicate SameNode(n: Node, c: ServiceNode) {
    && n.conf.id == c.id
    && n.conf.url == c.url
    && n.conf.weight == c.weight
    && n.conf.maxConn == c.maxConn
    && n.conf.status == c.status
  }

  predicate Matches(current: seq<Node>, conf: seq<ServiceNode>) {
    |current| == |conf| && forall i :: 0 <= i < |conf| ==> SameNode(current[i], conf[i])
  }

  /** The node a map built by walking `current` holds under `id`. */
  function Previous(current: seq<Node>, id: int): (r: Option<Node>)
    ensures r.Some? ==> r.value in current && r.value.conf.id == id
    ensures r.None? <==> forall i :: 0 <= i < |current| ==> current[i].conf.id != id
  {
    if current == [] then None
    else if current[|current| - 1].conf.id == id then Some(current[|current| - 1])
    else Previous(current[..|current| - 1], id)
  }

  function Rebuilt(c: ServiceNode, current: seq<Node>): (n: Node)
    ensures n.conf == c
  {
    var p := Previous(current, c.id);
    if p.Some? then Carried(p.value, c) else FreshNode(c)
  }

  function Rebuild(conf: seq<ServiceNode>, current: seq<Node>): (r: seq<Node>)
    ensures |r| == |conf|
    ensures forall i :: 0 <= i < |conf| ==> r[i] == Rebuilt(conf[i], current)
  {
    seq(|conf|, i requires 0 <= i < |conf| => Rebuilt(conf[i], current))
  }

  function Refreshed(s: State, service: Service): State {
    var current := Current(s, service.id);
    if Matches(current, service.nodes) then s
    else s.(services := s.services[service.id := Rebuild(service.nodes, current)])
  }

  // ----- steps

  /** The first node with the given ID, where every per-node loop stops. */
  function Find(nodes: seq<Node>, id: int): (r: Option<nat>)
    ensures r.Some? ==> r.value < |nodes| && nodes[r.value].conf.id == id
    ensures r.Some? ==> forall i :: 0 <= i < r.value ==> nodes[i].conf.id != id
    ensures r.None? <==> forall i :: 0 <= i < |nodes| ==> nodes[i].conf.id != id
  {
    FindFrom(nodes, id, 0)
  }

  function FindFrom(nodes: seq<Node>, id: int, k: nat): (r: Option<nat>)
    requires k <= |nodes|
    ensures r.Some? ==> k <= r.value < |nodes| && nodes[r.value].conf.id == id
    ensures r.Some? ==> forall i :: k <= i < r.value ==> nodes[i].conf.id != id
    ensures r.None? <==> forall i :: k <= i < |nodes| ==> nodes[i].conf.id != id
    decreases |nodes| - k
  {
    if k == |nodes| then None
    else if nodes[k].conf.id == id then Some(k)
    else FindFrom(nodes, id, k + 1)
  }

  function Record(s: State, id: int, availability: real): State {
    if s.updater then s.(queue := s.queue[id := availability]) else s
  }

  function WithNode(s: State, sid: int, i: nat, n: Node): State
    requires sid in s.services && i < |s.services[sid]|
  {
    s.(services := s.services[sid := s.services[sid][i := n]])
  }

  function ServiceOf(op: Op): int {
    if op.OpSelect? then op.service.id else op.sid
  }

  function Touched(n: Node, op: Op): Node
    requires !op.OpSelect?
  {
    match op
    case OpRelease(_, _) => Released(n)
    case OpSuccess(_, _) => Succeeded(n)
    case OpFailure(_, _, err, now) => Failed(n, err, now)
    case OpMaxConn(_, _, now) => Saturated(n, now)
  }

  /** Failures and saturation always queue the new availability; success only
      while it is still below 100. */
  predicate Queues(n: Node, op: Op)
    requires !op.OpSelect?
  {
    op.OpFailure? || op.OpMaxConn? || (op.OpSuccess? && n.conf.availability < 100.0)
  }

  ghost function Step(s: State, op: Op): State {
    if op.OpSelect? then
      var s' := Refreshed(s, op.service);
      var sid := op.service.id;
      if sid in s'.services
      then s'.(services := s'.services[sid := SelectFrom(s'.services[sid], op.excluded, op.now).nodes])
      else s'
    else
      var at := Find(Current(s, op.sid), op.id);
      if at.None? then s
      else
        var n := Current(s, op.sid)[at.value];
        var n' := Touched(n, op);
        var s' := WithNode(s, op.sid, at.value, n');
        if Queues(n, op) then Record(s', n'.conf.id, n'.conf.availability) else s'
  }

  /** The node a selection hands out, as configured. */
  ghost function Chosen(s: State, op: Op): (r: Option<ServiceNode>)
    ensures r.Some? ==> op.OpSelect?
  {
    if !op.OpSelect? then None
    else
      var nodes := Current(Refreshed(s, op.service), op.service.id);
      var pick := SelectFrom(nodes, op.excluded, op.now).pick;
      if pick.Some? then Some(nodes[pick.value].conf) else None
  }

  ghost function Run(s: State, ops: seq<Op>): State {
    if ops == [] then s
    else Step(Run(s, ops[..|ops| - 1]), ops[|ops| - 1])
  }

  lemma RunSnoc(s: State, ops: seq<Op>, op: Op)
    ensures Run(s, ops + [op]) == Step(Run(s, ops), op)
  {
    assert (ops + [op])[..|ops|] == ops;
  }

  lemma {:induction false} RunAppend(s: State, a: seq<Op>, b: seq<Op>)
    ensures Run(s, a + b) == Run(Run(s, a), b)
    decreases |b|
  {
    hide Step;
    if b == [] {
      assert a + b == a;
    } else {
      RunAppend(s, a, b[..|b| - 1]);
      assert (a + b)[..|a + b| - 1] == a + b[..|b| - 1];
    }
  }

  // ----- services do not interfere

  function OwnOps(ops: seq<Op>, sid: int): seq<Op> {
    if ops == [] then []
    else
      var op := ops[|ops| - 1];
      OwnOps(ops[..|ops| - 1], sid) + if ServiceOf(op) == sid then [op] else []
  }

  /** An operation makes of its service the same whatever the other services are. */
  lemma StepsAlike(s: State, t: State, op: Op)
    requires Current(s, ServiceOf(op)) == Current(t, ServiceOf(op))
    ensures Current(Step(s, op), ServiceOf(op)) == Current(Step(t, op), ServiceOf(op))
    ensures Chosen(s, op) == Chosen(t, op)
  {
    hide Step, SelectFrom, Refreshed, Rebuild, Matches;
    var sid := ServiceOf(op);
    StepOnService(s, op, sid);
    StepOnService(t, op, sid);
    if op.OpSelect? {
      RefreshedList(s, op.service);
      RefreshedList(t, op.service);
    }
  }

  /** Over every run, a service's nodes, and the node any selection for it hands out,
      are what the operations on that service alone make them. */
  lemma {:induction false} OwnOpsDecide(s: State, ops: seq<Op>, pick: Op)
    requires pick.OpSelect?
    ensures var sid := pick.service.id;
            && Current(Run(s, ops), sid) == Current(Run(s, OwnOps(ops, sid)), sid)
            && Chosen(Run(s, ops), pick) == Chosen(Run(s, OwnOps(ops, sid)), pick)
    decreases |ops|
  {
    hide Step, Chosen;
    var sid := pick.service.id;
    if ops != [] {
      var front, op := ops[..|ops| - 1], ops[|ops| - 1];
      OwnOpsDecide(s, front, pick);
      if ServiceOf(op) == sid {
        StepsAlike(Run(s, front), Run(s, OwnOps(front, sid)), op);
        RunSnoc(s, OwnOps(front, sid), op);
      } else {
        StepOnService(Run(s, front), op, sid);
        assert OwnOps(ops, sid) == OwnOps(front, sid);
      }
    }
    StepsAlike(Run(s, ops), Run(s, OwnOps(ops, sid)), pick);
  }

  // ----- shape of a step on one service

  predicate DistinctIds(nodes: seq<Node>) {
    forall i, j :: 0 <= i < j < |nodes| ==> nodes[i].conf.id != nodes[j].conf.id
  }

  predicate DistinctConf(conf: seq<ServiceNode>) {
    forall i, j :: 0 <= i < j < |conf| ==> conf[i].id != conf[j].id
  }

  /** Node IDs are a primary key, so no configuration repeats one. */
  predicate Keyed(op: Op) {
    op.OpSelect? ==> DistinctConf(op.service.nodes)
  }

  /** What a step can do to a service's list: nothing, rewrite the node found, or
      refresh it from configuration and select from the result. */
  lemma StepOnService(s: State, op: Op, sid: int)
    ensures ServiceOf(op) != sid ==> Current(Step(s, op), sid) == Current(s, sid)
    ensures ServiceOf(op) == sid && op.OpSelect? ==>
              Current(Step(s, op), sid)
              == SelectFrom(Current(Refreshed(s, op.service), sid), op.excluded, op.now).nodes
    ensures ServiceOf(op) == sid && !op.OpSelect? ==>
              var nodes, at := Current(s, sid), Find(Current(s, sid), op.id);
              Current(Step(s, op), sid)
              == if at.None? then nodes else nodes[at.value := Touched(nodes[at.value], op)]
  {
    if op.OpSelect? {
      SelectOnService(s, op, sid);
    } else {
      TouchOnService(s, op, sid);
    }
  }

  lemma SelectOnService(s: State, op: Op, sid: int)
    requires op.OpSelect?
    ensures ServiceOf(op) != sid ==> Current(Step(s, op), sid) == Current(s, sid)
    ensures ServiceOf(op) == sid ==>
              Current(Step(s, op), sid)
              == SelectFrom(Current(Refreshed(s, op.service), sid), op.excluded, op.now).nodes
  {
    hide SelectFrom, Matches, Rebuild;
    if ServiceOf(op) == sid && sid !in Refreshed(s, op.service).services {
      assert Current(Refreshed(s, op.service), sid) == [];
    }
  }

  lemma TouchOnService(s: State, op: Op, sid: int)
    requires !op.OpSelect?
    ensures ServiceOf(op) != sid ==> Current(Step(s, op), sid) == Current(s, sid)
    ensures ServiceOf(op) == sid ==>
              var nodes, at := Current(s, sid), Find(Current(s, sid), op.id);
              Current(Step(s, op), sid)
              == if at.None? then nodes else nodes[at.value := Touched(nodes[at.value], op)]
  {
    hide Touched, Queues, SelectFrom, Refreshed;
  }

  lemma RefreshedList(s: State, service: Service)
    ensures var current, r := Current(s, service.id), Current(Refreshed(s, service), service.id);
            && Matches(r, service.nodes)
            && r == if Matches(current, service.nodes) then current else Rebuild(service.nodes, current)
  {
  }

  lemma SelectKeepsConf(nodes: seq<Node>, excluded: set<int>, now: Time)
    ensures var r := SelectFrom(nodes, excluded, now).nodes;
            forall i :: 0 <= i < |nodes| ==> r[i].conf == nodes[i].conf && r[i].breaker == nodes[i].breaker
  {
    forall i | 0 <= i < |nodes|
      ensures SelectFrom(nodes, excluded, now).nodes[i].conf == nodes[i].conf
      ensures SelectFrom(nodes, excluded, now).nodes[i].breaker == nodes[i].breaker
    {
      SelectionTakesOneSlot(nodes, excluded, now, i);
    }
  }

  lemma DistinctStep(s: State, op: Op, sid: int)
    requires DistinctIds(Current(s, sid)) && Keyed(op)
    ensures DistinctIds(Current(Step(s, op), sid))
    ensures op.OpSelect? && op.service.id == sid ==> DistinctIds(Current(Refreshed(s, op.service), sid))
  {
    hide Step, SelectFrom, Refreshed, Rebuild, Find;
    StepOnService(s, op, sid);
    if ServiceOf(op) == sid && op.OpSelect? {
      RefreshedList(s, op.service);
      SelectKeepsConf(Current(Refreshed(s, op.service), sid), op.excluded, op.now);
    }
  }

  // ----- weight conservation over runs

  predicate Lists(conf: seq<ServiceNode>, id: int) {
    exists k :: 0 <= k < |conf| && conf[k].id == id
  }

  /** The weight held by nodes a configuration no longer lists. */
  function Dropped(conf: seq<ServiceNode>, current: seq<Node>): int {
    if current == [] then 0
    else
      var last := current[|current| - 1];
      Dropped(conf, current[..|current| - 1]) + if Lists(conf, last.conf.id) then 0 else last.currentWeight
  }

  /** The weight a step takes out of a service: what a failure resets, and what
      nodes dropped by a reconfiguration held. */
  function Lost(s: State, op: Op, sid: int): int {
    if ServiceOf(op) != sid then 0
    else
      match op
      case OpSelect(service, _, _) => Dropped(service.nodes, Current(s, sid))
      case OpFailure(_, id, _, _) =>
        var at := Find(Current(s, sid), id);
        if at.Some? then Current(s, sid)[at.value].currentWeight else 0
      case _ => 0
  }

  function Without(nodes: seq<Node>, id: int): seq<Node> {
    if nodes == [] then []
    else
      var rest := Without(nodes[..|nodes| - 1], id);
      if nodes[|nodes| - 1].conf.id == id then rest else rest + [nodes[|nodes| - 1]]
  }

  function WeightOf(current: seq<Node>, id: int): int {
    var p := Previous(current, id);
    if p.Some? then p.value.currentWeight else 0
  }

  lemma PreviousSnoc(nodes: seq<Node>, n: Node, id: int)
    ensures Previous(nodes + [n], id) == if n.conf.id == id then Some(n) else Previous(nodes, id)
  {
    assert (nodes + [n])[..|nodes|] == nodes;
  }

  lemma {:induction false} WithoutMembers(nodes: seq<Node>, id: int)
    ensures forall n :: n in Without(nodes, id) <==> n in nodes && n.conf.id != id
    decreases |nodes|
  {
    if nodes != [] {
      var last, front := nodes[|nodes| - 1], nodes[..|nodes| - 1];
      WithoutMembers(front, id);
      assert nodes == front + [last];
    }
  }

  lemma WithoutSnoc(nodes: seq<Node>, n: Node, id: int)
    ensures Without(nodes + [n], id) == if n.conf.id == id then Without(nodes, id) else Without(nodes, id) + [n]
  {
    assert (nodes + [n])[..|nodes|] == nodes;
  }

  lemma {:induction false} WithoutPrevious(nodes: seq<Node>, id: int, other: int)
    requires id != other
    ensures Previous(Without(nodes, id), other) == Previous(nodes, other)
    decreases |nodes|
  {
    if nodes == [] {
      assert Without(nodes, id) == nodes;
    } else {
      hide Previous, Without;
      var last, front := nodes[|nodes| - 1], nodes[..|nodes| - 1];
      WithoutPrevious(front, id, other);
      assert nodes == front + [last];
      WithoutSnoc(front, last, id);
      PreviousSnoc(front, last, other);
      PreviousSnoc(Without(front, id), last, other);
    }
  }

  lemma {:induction false} WithoutDistinct(nodes: seq<Node>, id: int)
    requires DistinctIds(nodes)
    ensures DistinctIds(Without(nodes, id))
    decreases |nodes|
  {
    if nodes != [] {
      var last, front := nodes[|nodes| - 1], nodes[..|nodes| - 1];
      WithoutDistinct(front, id);
      WithoutMembers(front, id);
      var rest := Without(front, id);
      forall k | 0 <= k < |rest| ensures rest[k].conf.id != last.conf.id {
        assert rest[k] in front;
      }
    }
  }

  lemma {:induction false} WithoutSum(nodes: seq<Node>, id: int)
    requires DistinctIds(nodes)
    ensures WeightSum(nodes) == WeightSum(Without(nodes, id)) + WeightOf(nodes, id)
    decreases |nodes|
  {
    if nodes != [] {
      var last, front := nodes[|nodes| - 1], nodes[..|nodes| - 1];
      WithoutSum(front, id);
      WeightSumSnoc(Without(front, id), last);
      if last.conf.id == id {
        assert Previous(front, id).None?;
      }
    }
  }

  lemma RebuildSplit(conf: seq<ServiceNode>, current: seq<Node>)
    requires conf != [] && DistinctConf(conf)
    ensures var c, front := conf[|conf| - 1], conf[..|conf| - 1];
            Rebuild(conf, current) == Rebuild(front, Without(current, c.id)) + [Rebuilt(c, current)]
  {
    var c, front := conf[|conf| - 1], conf[..|conf| - 1];
    forall i | 0 <= i < |front| ensures Rebuilt(front[i], Without(current, c.id)) == Rebuilt(front[i], current) {
      assert front[i].id != c.id;
      WithoutPrevious(current, c.id, front[i].id);
    }
  }

  lemma WeightSumSnoc(nodes: seq<Node>, n: Node)
    ensures WeightSum(nodes + [n]) == WeightSum(nodes) + n.currentWeight
  {
    assert (nodes + [n])[..|nodes|] == nodes;
  }

  lemma {:induction false} DroppedWithout(conf: seq<ServiceNode>, nodes: seq<Node>)
    requires conf != []
    ensures Dropped(conf[..|conf| - 1], Without(nodes, conf[|conf| - 1].id)) == Dropped(conf, nodes)
    decreases |nodes|
  {
    if nodes != [] {
      var c, front := conf[|conf| - 1], conf[..|conf| - 1];
      var last := nodes[|nodes| - 1];
      DroppedWithout(conf, nodes[..|nodes| - 1]);
      ListedBefore(conf, last.conf.id);
      var rest := Without(nodes[..|nodes| - 1], c.id);
      assert (rest + [last])[..|rest|] == rest;
    }
  }

  lemma {:induction false} AllDropped(nodes: seq<Node>)
    ensures Dropped([], nodes) == WeightSum(nodes)
    decreases |nodes|
  {
    if nodes != [] {
      AllDropped(nodes[..|nodes| - 1]);
    }
  }

  lemma {:induction false} NoneDropped(conf: seq<ServiceNode>, nodes: seq<Node>)
    requires forall n :: n in nodes ==> Lists(conf, n.conf.id)
    ensures Dropped(conf, nodes) == 0
    decreases |nodes|
  {
    if nodes != [] {
      NoneDropped(conf, nodes[..|nodes| - 1]);
    }
  }

  /** Reordering, adding and re-reading nodes moves no weight: a rebuild loses
      exactly what the nodes it drops held. */
  lemma {:induction false} RebuildConservesWeight(conf: seq<ServiceNode>, current: seq<Node>)
    requires DistinctConf(conf) && DistinctIds(current)
    ensures WeightSum(Rebuild(conf, current)) == WeightSum(current) - Dropped(conf, current)
    decreases |conf|
  {
    if conf == [] {
      AllDropped(current);
    } else {
      var c, front := conf[|conf| - 1], conf[..|conf| - 1];
      var rest := Without(current, c.id);
      WithoutSum(current, c.id);
      WithoutDistinct(current, c.id);
      DroppedWithout(conf, current);
      RebuildConservesWeight(front, rest);
      RebuildSplit(conf, current);
      WeightSumSnoc(Rebuild(front, rest), Rebuilt(c, current));
      assert Rebuilt(c, current).currentWeight == WeightOf(current, c.id);
    }
  }

  lemma ListedBefore(conf: seq<ServiceNode>, id: int)
    requires conf != []
    ensures Lists(conf, id) <==> Lists(conf[..|conf| - 1], id) || conf[|conf| - 1].id == id
  {
    var front := conf[..|conf| - 1];
    if Lists(front, id) {
      var k :| 0 <= k < |front| && front[k].id == id;
      assert conf[k].id == id;
    }
    if Lists(conf, id) && conf[|conf| - 1].id != id {
      var k :| 0 <= k < |conf| && conf[k].id == id;
      assert front[k].id == id;
    }
  }

  lemma MatchingDropsNone(conf: seq<ServiceNode>, current: seq<Node>)
    requires Matches(current, conf)
    ensures Dropped(conf, current) == 0
  {
    forall n | n in current ensures Lists(conf, n.conf.id) {
      var i :| 0 <= i < |current| && current[i] == n;
      assert conf[i].id == n.conf.id;
    }
    NoneDropped(conf, current);
  }

  lemma WeightStep(s: State, op: Op, sid: int)
    requires DistinctIds(Current(s, sid)) && Keyed(op)
    ensures DistinctIds(Current(Step(s, op), sid))
    ensures WeightSum(Current(Step(s, op), sid)) == WeightSum(Current(s, sid)) - Lost(s, op, sid)
  {
    hide Step, SelectFrom, Refreshed, Rebuild, Dropped, WeightSum, DistinctIds, DistinctConf, Matches, Find;
    StepOnService(s, op, sid);
    DistinctStep(s, op, sid);
    if ServiceOf(op) == sid {
      var nodes := Current(s, sid);
      if op.OpSelect? {
        RefreshedList(s, op.service);
        if Matches(nodes, op.service.nodes) {
          MatchingDropsNone(op.service.nodes, nodes);
        } else {
          RebuildConservesWeight(op.service.nodes, nodes);
        }
        SelectionConservesWeight(Current(Refreshed(s, op.service), sid), op.excluded, op.now);
      } else {
        var at := Find(nodes, op.id);
        if at.Some? {
          WeightSumUpdate(nodes, at.value, Touched(nodes[at.value], op));
        }
      }
    }
  }

  ghost function LostInRun(s: State, ops: seq<Op>, sid: int): int {
    if ops == [] then 0
    else LostInRun(s, ops[..|ops| - 1], sid) + Lost(Run(s, ops[..|ops| - 1]), ops[|ops| - 1], sid)
  }

  /** Over every run, on any mix of services: the weights of a service add up to
      what they started with (0 for a service not seen before) less exactly what
      failures reset and reconfigurations dropped. */
  lemma {:induction false} WeightLedger(s: State, ops: seq<Op>, sid: int)
    requires DistinctIds(Current(s, sid))
    requires forall j :: 0 <= j < |ops| ==> Keyed(ops[j])
    ensures DistinctIds(Current(Run(s, ops), sid))
    ensures WeightSum(Current(Run(s, ops), sid)) == WeightSum(Current(s, sid)) - LostInRun(s, ops, sid)
    decreases |ops|
  {
    hide Step, Lost, Keyed, DistinctIds, WeightSum;
    if ops != [] {
      WeightLedger(s, ops[..|ops| - 1], sid);
      WeightStep(Run(s, ops[..|ops| - 1]), ops[|ops| - 1], sid);
    }
  }

  /** The steps that keep all weight: no failure that lands, and every
      reconfiguration lists every node. */
  predicate KeepsWeight(s: State, op: Op, sid: int) {
    ServiceOf(op) == sid ==>
      match op
      case OpSelect(service, _, _) => forall n :: n in Current(s, sid) ==> Lists(service.nodes, n.conf.id)
      case OpFailure(_, id, _, _) => Find(Current(s, sid), id).None?
      case _ => true
  }

  /** In particular selections, releases, successes, saturations and
      reconfigurations that drop no node keep the sum for ever. */
  lemma {:induction false} WeightsKeepTheirSum(s: State, ops: seq<Op>, sid: int)
    requires DistinctIds(Current(s, sid))
    requires forall j :: 0 <= j < |ops| ==> Keyed(ops[j]) && KeepsWeight(Run(s, ops[..j]), ops[j], sid)
    ensures WeightSum(Current(Run(s, ops), sid)) == WeightSum(Current(s, sid))
  {
    NothingLost(s, ops, sid);
    WeightLedger(s, ops, sid);
  }

  lemma {:induction false} NothingLost(s: State, ops: seq<Op>, sid: int)
    requires forall j :: 0 <= j < |ops| ==> KeepsWeight(Run(s, ops[..j]), ops[j], sid)
    ensures LostInRun(s, ops, sid) == 0
    decreases |ops|
  {
    hide Step;
    if ops != [] {
      var front, op := ops[..|ops| - 1], ops[|ops| - 1];
      forall j | 0 <= j < |front| ensures KeepsWeight(Run(s, front[..j]), front[j], sid) {
        assert front[..j] == ops[..j];
      }
      NothingLost(s, front, sid);
      if ServiceOf(op) == sid && op.OpSelect? {
        NoneDropped(op.service.nodes, Current(Run(s, front), sid));
      }
    }
  }

  // ----- cooldown

  /** Every node of the service with this ID has a breaker that is live until at
      least `until`. */
  predicate Cooling(nodes: seq<Node>, id: int, until: Time) {
    forall i :: 0 <= i < |nodes| && nodes[i].conf.id == id ==>
      && nodes[i].breaker.Some?
      && nodes[i].breaker.value.start > 0
      && nodes[i].breaker.value.start + FAILURE_COOLDOWN >= until
  }

  predicate HasNode(nodes: seq<Node>, id: int) {
    exists i :: 0 <= i < |nodes| && nodes[i].conf.id == id
  }

  /** Steps that may follow a failure at `since` without ending the cooldown: no
      success for the node, a clock that has not gone back, and configurations
      that still list the ID. */
  predicate KeepsCooldown(op: Op, sid: int, id: int, since: Time) {
    ServiceOf(op) == sid ==>
      match op
      case OpSelect(service, _, _) => Lists(service.nodes, id)
      case OpRelease(_, _) => true
      case OpSuccess(_, id') => id' != id
      case OpFailure(_, _, _, now) => now >= since
      case OpMaxConn(_, _, now) => now >= since
  }

  lemma CoolingRefresh(s: State, service: Service, id: int, until: Time)
    requires Cooling(Current(s, service.id), id, until) && HasNode(Current(s, service.id), id)
    requires Lists(service.nodes, id)
    ensures Cooling(Current(Refreshed(s, service), service.id), id, until)
    ensures HasNode(Current(Refreshed(s, service), service.id), id)
  {
    RefreshedList(s, service);
    var current, r := Current(s, service.id), Current(Refreshed(s, service), service.id);
    var k :| 0 <= k < |service.nodes| && service.nodes[k].id == id;
    assert SameNode(r[k], service.nodes[k]);
    if !Matches(current, service.nodes) {
      forall i | 0 <= i < |r| && r[i].conf.id == id ensures r[i].breaker.Some? && r[i].breaker.value.start > 0
                                                            && r[i].breaker.value.start + FAILURE_COOLDOWN >= until {
        var p := Previous(current, id);
        assert p.Some?;
        var j :| 0 <= j < |current| && current[j] == p.value;
        assert r[i] == Carried(p.value, service.nodes[i]);
      }
    }
  }

  /** Selecting changes neither identities nor breakers. */
  lemma CoolingSelect(r: seq<Node>, excluded: set<int>, now: Time, id: int, until: Time)
    requires Cooling(r, id, until) && HasNode(r, id)
    ensures Cooling(SelectFrom(r, excluded, now).nodes, id, until)
    ensures HasNode(SelectFrom(r, excluded, now).nodes, id)
  {
    SelectKeepsConf(r, excluded, now);
    var k :| 0 <= k < |r| && r[k].conf.id == id;
    assert SelectFrom(r, excluded, now).nodes[k].conf.id == id;
  }

  lemma CoolingTouch(nodes: seq<Node>, i: nat, op: Op, id: int, since: Time)
    requires since > 0 && !op.OpSelect? && i < |nodes| && nodes[i].conf.id == op.id
    requires Cooling(nodes, id, since + FAILURE_COOLDOWN) && HasNode(nodes, id)
    requires KeepsCooldown(op, op.sid, id, since)
    ensures Cooling(nodes[i := Touched(nodes[i], op)], id, since + FAILURE_COOLDOWN)
    ensures HasNode(nodes[i := Touched(nodes[i], op)], id)
  {
    var k :| 0 <= k < |nodes| && nodes[k].conf.id == id;
    assert nodes[i := Touched(nodes[i], op)][k].conf.id == id;
  }

  lemma CoolingStep(s: State, op: Op, sid: int, id: int, since: Time)
    requires since > 0
    requires Cooling(Current(s, sid), id, since + FAILURE_COOLDOWN) && HasNode(Current(s, sid), id)
    requires KeepsCooldown(op, sid, id, since)
    ensures Cooling(Current(Step(s, op), sid), id, since + FAILURE_COOLDOWN)
    ensures HasNode(Current(Step(s, op), sid), id)
    ensures op.OpSelect? && op.service.id == sid ==>
              Cooling(Current(Refreshed(s, op.service), sid), id, since + FAILURE_COOLDOWN)
  {
    StepOnService(s, op, sid);
    if ServiceOf(op) == sid && op.OpSelect? {
      CoolingRefresh(s, op.service, id, since + FAILURE_COOLDOWN);
      CoolingSelect(Current(Refreshed(s, op.service), sid), op.excluded, op.now, id, since + FAILURE_COOLDOWN);
    } else if ServiceOf(op) == sid {
      var at := Find(Current(s, sid), op.id);
      if at.Some? {
        CoolingTouch(Current(s, sid), at.value, op, id, since);
      }
    }
  }

  lemma {:induction false} CoolingRun(s: State, ops: seq<Op>, sid: int, id: int, since: Time)
    requires since > 0
    requires Cooling(Current(s, sid), id, since + FAILURE_COOLDOWN) && HasNode(Current(s, sid), id)
    requires forall j :: 0 <= j < |ops| ==> KeepsCooldown(ops[j], sid, id, since)
    ensures Cooling(Current(Run(s, ops), sid), id, since + FAILURE_COOLDOWN)
    ensures HasNode(Current(Run(s, ops), sid), id)
    decreases |ops|
  {
    if ops != [] {
      CoolingRun(s, ops[..|ops| - 1], sid, id, since);
      CoolingStep(Run(s, ops[..|ops| - 1]), ops[|ops| - 1], sid, id, since);
    }
  }

  /** A node that failed or was saturated at `t` is not handed out by any later
      selection before `t` + 15 s, whatever else happens and however often the
      configuration is rebuilt around its ID, unless it is marked successful. */
  lemma CooldownHolds(s: State, mark: Op, ops: seq<Op>, pick: Op)
    requires mark.OpFailure? || mark.OpMaxConn?
    requires mark.now > 0
    requires DistinctIds(Current(s, mark.sid)) && HasNode(Current(s, mark.sid), mark.id)
    requires forall j :: 0 <= j < |ops| ==> KeepsCooldown(ops[j], mark.sid, mark.id, mark.now)
    requires pick.OpSelect? && pick.service.id == mark.sid
    requires pick.now < mark.now + 15 * SECOND
    ensures var r := Chosen(Run(Step(s, mark), ops), pick);
            r.Some? ==> r.value.id != mark.id
  {
    hide Step, SelectFrom, Refreshed, Cooling;
    StartsCooling(s, mark);
    CoolingRun(Step(s, mark), ops, mark.sid, mark.id, mark.now);
    var before := Run(Step(s, mark), ops);
    if Lists(pick.service.nodes, mark.id) {
      CoolingStep(before, pick, mark.sid, mark.id, mark.now);
      CoolingExcludes(Current(Refreshed(before, pick.service), mark.sid), pick.excluded, pick.now, mark.id,
        mark.now + FAILURE_COOLDOWN);
    } else {
      ChosenIsListed(before, pick);
    }
  }

  /** A selection only ever hands out nodes of the configuration it was given,
      outside the exclusion set. */
  lemma ChosenIsListed(s: State, op: Op)
    requires op.OpSelect?
    ensures var c := Chosen(s, op);
            c.Some? ==> Lists(op.service.nodes, c.value.id) && c.value.id !in op.excluded
  {
    RefreshedList(s, op.service);
    var nodes := Current(Refreshed(s, op.service), op.service.id);
    var pick := SelectFrom(nodes, op.excluded, op.now).pick;
    if pick.Some? {
      assert SameNode(nodes[pick.value], op.service.nodes[pick.value]);
    }
  }

  lemma StartsCooling(s: State, mark: Op)
    requires mark.OpFailure? || mark.OpMaxConn?
    requires mark.now > 0
    requires DistinctIds(Current(s, mark.sid)) && HasNode(Current(s, mark.sid), mark.id)
    ensures Cooling(Current(Step(s, mark), mark.sid), mark.id, mark.now + FAILURE_COOLDOWN)
    ensures HasNode(Current(Step(s, mark), mark.sid), mark.id)
  {
    hide Step, SelectFrom, Lowered;
    StepOnService(s, mark, mark.sid);
    var at := Find(Current(s, mark.sid), mark.id).value;
    var marked := Current(Step(s, mark), mark.sid);
    assert marked[at].conf.id == mark.id;
    forall i | 0 <= i < |marked| && marked[i].conf.id == mark.id ensures i == at {
      assert Current(s, mark.sid)[i].conf.id == mark.id;
    }
  }

  lemma CoolingExcludes(nodes: seq<Node>, excluded: set<int>, now: Time, id: int, until: Time)
    requires Cooling(nodes, id, until) && now < until
    ensures var p := SelectFrom(nodes, excluded, now).pick;
            p.Some? ==> nodes[p.value].conf.id != id
  {
  }

  // ----- the end of a cooldown

  /** Nothing keeps the node back at the given time but its status and its load. */
  predicate Rested(n: Node, at: Time) {
    && (n.breaker == None || n.breaker.value.start == 0 || at - n.breaker.value.start >= 15 * SECOND)
    && (n.disabledUntil == 0 || n.disabledUntil <= at)
  }

  predicate AllRested(nodes: seq<Node>, id: int, at: Time) {
    forall n :: n in nodes && n.conf.id == id ==> Rested(n, at)
  }

  lemma RestedRefresh(s: State, service: Service, id: int, at: Time)
    requires AllRested(Current(s, service.id), id, at)
    ensures AllRested(Current(Refreshed(s, service), service.id), id, at)
  {
    hide Refreshed;
    RefreshedList(s, service);
  }

  lemma RestedStep(s: State, op: Op, sid: int, id: int, at: Time)
    requires AllRested(Current(s, sid), id, at)
    requires (op.OpFailure? || op.OpMaxConn?) && op.sid == sid && op.id == id ==> op.now + 15 * SECOND <= at
    ensures AllRested(Current(Step(s, op), sid), id, at)
  {
    hide Step, SelectFrom, Refreshed;
    StepOnService(s, op, sid);
    if ServiceOf(op) == sid && op.OpSelect? {
      RestedRefresh(s, op.service, id, at);
      SelectKeepsRest(Current(Refreshed(s, op.service), sid), op.excluded, op.now, id, at);
    }
  }

  lemma SelectKeepsRest(nodes: seq<Node>, excluded: set<int>, now: Time, id: int, at: Time)
    requires AllRested(nodes, id, at)
    ensures AllRested(SelectFrom(nodes, excluded, now).nodes, id, at)
  {
    hide SelectFrom;
    var r := SelectFrom(nodes, excluded, now).nodes;
    forall n | n in r && n.conf.id == id ensures Rested(n, at) {
      var i :| 0 <= i < |r| && r[i] == n;
      SelectionTakesOneSlot(nodes, excluded, now, i);
      assert nodes[i] in nodes;
    }
  }

  lemma {:induction false} RestedRun(s: State, ops: seq<Op>, sid: int, id: int, at: Time)
    requires AllRested(Current(s, sid), id, at)
    requires forall j ::
               0 <= j < |ops| && (ops[j].OpFailure? || ops[j].OpMaxConn?) && ops[j].sid == sid && ops[j].id == id ==>
                 ops[j].now + 15 * SECOND <= at
    ensures AllRested(Current(Run(s, ops), sid), id, at)
    decreases |ops|
  {
    hide Step, AllRested;
    if ops != [] {
      RestedRun(s, ops[..|ops| - 1], sid, id, at);
      RestedStep(Run(s, ops[..|ops| - 1]), ops[|ops| - 1], sid, id, at);
    }
  }

  /** Every cooldown ends. Over every run: a node that was not held back to begin with
      and whose every failure or saturation mark is at least 15 s before the pick is
      eligible again, if it is listed, enabled, below its limit and not excluded; and
      it is the one handed out when every other node is excluded, disabled, full or
      held back by a mark. */
  lemma CooldownEnds(s: State, ops: seq<Op>, pick: Op, i: nat)
    requires pick.OpSelect?
    requires var r := Current(Refreshed(Run(s, ops), pick.service), pick.service.id);
             && i < |r| && r[i].conf.status == 1 && r[i].conf.id !in pick.excluded
             && r[i].activeRequests < (if r[i].conf.maxConn > 0 then r[i].conf.maxConn else 100)
             && AllRested(Current(s, pick.service.id), r[i].conf.id, pick.now)
             && forall j :: 0 <= j < |ops| && (ops[j].OpFailure? || ops[j].OpMaxConn?)
                            && ops[j].sid == pick.service.id && ops[j].id == r[i].conf.id ==>
                  ops[j].now + 15 * SECOND <= pick.now
    ensures var r, c := Current(Refreshed(Run(s, ops), pick.service), pick.service.id), Chosen(Run(s, ops), pick);
            && i in AllIndices(r, pick.excluded, pick.now)
            && c.Some?
            && ((forall j :: 0 <= j < |r| && j != i ==> Barred(r[j], pick.excluded, pick.now)) ==> c == Some(r[i].conf))
  {
    hide Run, Refreshed, SelectFrom, Available, AllIndices;
    var before, sid := Run(s, ops), pick.service.id;
    var r := Current(Refreshed(before, pick.service), sid);
    RestedRun(s, ops, sid, r[i].conf.id, pick.now);
    RestedRefresh(before, pick.service, r[i].conf.id, pick.now);
    assert r[i] in r;
    AvailableExactly(r[i], pick.now);
    EligibleIsChosen(r, pick.excluded, pick.now, i);
  }

  /** Not to be handed out: excluded, disabled, full, or within 15 s of a mark. */
  predicate Barred(n: Node, excluded: set<int>, now: Time) {
    || n.conf.id in excluded
    || n.conf.status != 1
    || n.activeRequests >= (if n.conf.maxConn > 0 then n.conf.maxConn else 100)
    || !Rested(n, now)
  }

  lemma BarredExactly(n: Node, excluded: set<int>, now: Time)
    ensures Barred(n, excluded, now) <==> n.conf.id in excluded || !Available(n, now)
  {
    AvailableExactly(n, now);
    hide Available;
  }

  lemma EligibleIsChosen(nodes: seq<Node>, excluded: set<int>, now: Time, i: nat)
    requires i < |nodes| && nodes[i].conf.id !in excluded && Available(nodes[i], now)
    ensures var p := SelectFrom(nodes, excluded, now).pick;
            && i in AllIndices(nodes, excluded, now) && p.Some?
            && ((forall j :: 0 <= j < |nodes| && j != i ==> Barred(nodes[j], excluded, now)) ==> p == Some(i))
  {
    hide AllIndices, Available, Select, Barred;
    var e := AllIndices(nodes, excluded, now);
    assert i in e;
    if forall j :: 0 <= j < |nodes| && j != i ==> Barred(nodes[j], excluded, now) {
      forall j ensures j in e <==> j in [i] {
        if 0 <= j < |nodes| {
          BarredExactly(nodes[j], excluded, now);
        }
      }
      SameIndices(e, [i], |nodes|);
    }
  }

  /** Exactly when a selection finds no node: all of the service's are barred. */
  lemma NoneExactly(s: State, pick: Op)
    requires pick.OpSelect?
    ensures var nodes := Current(Refreshed(s, pick.service), pick.service.id);
            Chosen(s, pick).None? <==> forall i :: 0 <= i < |nodes| ==> Barred(nodes[i], pick.excluded, pick.now)
  {
    hide Refreshed, SelectFrom, Available, Barred;
    var nodes := Current(Refreshed(s, pick.service), pick.service.id);
    forall i | 0 <= i < |nodes| && !Barred(nodes[i], pick.excluded, pick.now) ensures Chosen(s, pick).Some? {
      BarredExactly(nodes[i], pick.excluded, pick.now);
      EligibleIsChosen(nodes, pick.excluded, pick.now, i);
    }
    if Chosen(s, pick).Some? {
      var k := SelectFrom(nodes, pick.excluded, pick.now).pick.value;
      BarredExactly(nodes[k], pick.excluded, pick.now);
    }
  }

  // ----- the configuration in force

  /** The list a selection works on, whatever it was before: one entry for each
      configured node, in order, with its id, url, weight, limit and status. */
  lemma ListFollowsConfiguration(s: State, pick: Op)
    requires pick.OpSelect?
    ensures var conf, r := pick.service.nodes, Current(Step(s, pick), pick.service.id);
            && |r| == |conf|
            && forall i :: 0 <= i < |conf| ==>
                 && r[i].conf.id == conf[i].id && r[i].conf.url == conf[i].url && r[i].conf.weight == conf[i].weight
                 && r[i].conf.maxConn == conf[i].maxConn && r[i].conf.status == conf[i].status
  {
    hide Step, SelectFrom, Refreshed, Rebuild;
    SelectOnService(s, pick, pick.service.id);
    RefreshedList(s, pick.service);
    SelectKeepsConf(Current(Refreshed(s, pick.service), pick.service.id), pick.excluded, pick.now);
  }

  /** What is handed out is one of the configured nodes as configured now, enabled and
      not excluded. */
  lemma ChosenIsConfigured(s: State, pick: Op)
    requires pick.OpSelect?
    ensures var c, conf := Chosen(s, pick), pick.service.nodes;
            c.Some? ==>
              && c.value.status == 1 && c.value.id !in pick.excluded
              && exists i :: 0 <= i < |conf| && c.value == conf[i].(availability := c.value.availability)
  {
    hide SelectFrom, Refreshed, Rebuild, Available;
    RefreshedList(s, pick.service);
    var nodes := Current(Refreshed(s, pick.service), pick.service.id);
    var p := SelectFrom(nodes, pick.excluded, pick.now).pick;
    if p.Some? {
      AvailableExactly(nodes[p.value], pick.now);
      assert SameNode(nodes[p.value], pick.service.nodes[p.value]);
      assert nodes[p.value].conf == pick.service.nodes[p.value].(availability := nodes[p.value].conf.availability);
    }
  }

  /** When a list is rebuilt and what the new one carries over. It stays as it is,
      availabilities included, exactly when its length and the five fields agree with
      the configuration; else every node is as configured, and has the run-time state
      its ID had, or none. */
  lemma RefreshExactly(s: State, service: Service)
    ensures var before, r, conf := Current(s, service.id), Current(Refreshed(s, service), service.id), service.nodes;
            if |before| == |conf|
               && forall i :: 0 <= i < |conf| ==>
                    && before[i].conf.id == conf[i].id && before[i].conf.url == conf[i].url
                    && before[i].conf.weight == conf[i].weight && before[i].conf.maxConn == conf[i].maxConn
                    && before[i].conf.status == conf[i].status
            then r == before
            else
              && |r| == |conf|
              && forall i :: 0 <= i < |conf| ==>
                   && r[i].conf == conf[i]
                   && var p := Previous(before, conf[i].id);
                   if p.None? then r[i] == Node(conf[i], 0, 0, 0, 0, "", None)
                   else
                     && r[i].currentWeight == p.value.currentWeight && r[i].activeRequests == p.value.activeRequests
                     && r[i].disabledUntil == p.value.disabledUntil && r[i].lastError == p.value.lastError
                     && r[i].consecutiveFails == p.value.consecutiveFails && r[i].breaker == p.value.breaker
  {
    hide Refreshed;
    RefreshedList(s, service);
  }

  // ----- capacity

  predicate WithinCapacity(nodes: seq<Node>) {
    forall i :: 0 <= i < |nodes| ==> 0 <= nodes[i].activeRequests <= EffectiveMaxConn(nodes[i].conf)
  }

  predicate RaisesOnly(current: seq<Node>, conf: seq<ServiceNode>) {
    forall k :: 0 <= k < |conf| ==>
      var p := Previous(current, conf[k].id);
      p.Some? ==> EffectiveMaxConn(p.value.conf) <= EffectiveMaxConn(conf[k])
  }

  predicate NeverLowers(s: State, op: Op, sid: int) {
    op.OpSelect? && op.service.id == sid ==> RaisesOnly(Current(s, sid), op.service.nodes)
  }

  /** Exactly when a reconfiguration keeps every node within its (new) limit. */
  lemma RebuildWithinCapacity(conf: seq<ServiceNode>, current: seq<Node>)
    requires WithinCapacity(current)
    ensures WithinCapacity(Rebuild(conf, current)) <==>
            forall k :: 0 <= k < |conf| ==>
              var p := Previous(current, conf[k].id);
              p.Some? ==> p.value.activeRequests <= EffectiveMaxConn(conf[k])
  {
    var r := Rebuild(conf, current);
    if WithinCapacity(r) {
      forall k | 0 <= k < |conf| && Previous(current, conf[k].id).Some?
        ensures Previous(current, conf[k].id).value.activeRequests <= EffectiveMaxConn(conf[k])
      {
        assert r[k].activeRequests <= EffectiveMaxConn(r[k].conf);
      }
    }
  }

  lemma SelectionWithinCapacity(nodes: seq<Node>, excluded: set<int>, now: Time)
    requires WithinCapacity(nodes)
    ensures WithinCapacity(SelectFrom(nodes, excluded, now).nodes)
  {
    var r := SelectFrom(nodes, excluded, now);
    forall i | 0 <= i < |nodes|
      ensures 0 <= r.nodes[i].activeRequests <= EffectiveMaxConn(r.nodes[i].conf)
    {
      SelectionTakesOneSlot(nodes, excluded, now, i);
    }
  }

  lemma RaisingKeepsCapacity(conf: seq<ServiceNode>, current: seq<Node>)
    requires WithinCapacity(current) && RaisesOnly(current, conf)
    ensures WithinCapacity(Rebuild(conf, current))
  {
    forall k | 0 <= k < |conf| && Previous(current, conf[k].id).Some?
      ensures Previous(current, conf[k].id).value.activeRequests <= EffectiveMaxConn(conf[k])
    {
      var p := Previous(current, conf[k].id).value;
      var i :| 0 <= i < |current| && current[i] == p;
    }
    RebuildWithinCapacity(conf, current);
  }

  lemma CapacityStep(s: State, op: Op, sid: int)
    requires WithinCapacity(Current(s, sid)) && NeverLowers(s, op, sid)
    ensures WithinCapacity(Current(Step(s, op), sid))
  {
    hide Step, SelectFrom, Refreshed, Rebuild;
    StepOnService(s, op, sid);
    if op.OpSelect? && op.service.id == sid {
      RefreshedList(s, op.service);
      if !Matches(Current(s, sid), op.service.nodes) {
        RaisingKeepsCapacity(op.service.nodes, Current(s, sid));
      }
      SelectionWithinCapacity(Current(Refreshed(s, op.service), sid), op.excluded, op.now);
    }
  }

  /** In every run in which no reconfiguration lowers a limit, every node of the
      service stays between 0 and its effective limit. */
  lemma {:induction false} CapacityHolds(s: State, ops: seq<Op>, sid: int)
    requires WithinCapacity(Current(s, sid))
    requires forall j :: 0 <= j < |ops| ==> NeverLowers(Run(s, ops[..j]), ops[j], sid)
    ensures WithinCapacity(Current(Run(s, ops), sid))
    decreases |ops|
  {
    hide Step, NeverLowers;
    if ops != [] {
      var front, op := ops[..|ops| - 1], ops[|ops| - 1];
      forall j | 0 <= j < |front| ensures NeverLowers(Run(s, front[..j]), front[j], sid) {
        assert front[..j] == ops[..j];
      }
      CapacityHolds(s, front, sid);
      CapacityStep(Run(s, front), op, sid);
    }
  }

  // ----- slots: what the active count is made of

  /** Active count of a node, 0 when the service does not have it. */
  function ActiveOf(nodes: seq<Node>, id: int): int {
    var p := Previous(nodes, id);
    if p.Some? then p.value.activeRequests else 0
  }

  /** What has happened to a node's slots: taken by selections, given back by
      releases, given back once more by success and failure marks, of those two how
      many found the count at 0, and lost with nodes a configuration dropped. */
  datatype Tally = Tally(picked: nat, released: nat, marked: nat, idle: nat, dropped: nat)

  predicate Marks(op: Op, sid: int, id: int) {
    (op.OpSuccess? || op.OpFailure?) && op.sid == sid && op.id == id
  }

  predicate GivesBack(op: Op, sid: int, id: int) {
    op == OpRelease(sid, id) || Marks(op, sid, id)
  }

  predicate DropsNode(op: Op, sid: int, id: int) {
    op.OpSelect? && op.service.id == sid && !Lists(op.service.nodes, id)
  }

  ghost predicate HandsOut(s: State, op: Op, sid: int, id: int) {
    op.OpSelect? && op.service.id == sid && Chosen(s, op).Some? && Chosen(s, op).value.id == id
  }

  function One(b: bool): nat {
    if b then 1 else 0
  }

  ghost function TallyOp(s: State, op: Op, sid: int, id: int): Tally
    requires NonNegative(Current(s, sid))
  {
    var active := ActiveOf(Current(s, sid), id);
    Tally(One(HandsOut(s, op, sid, id)), One(op == OpRelease(sid, id)), One(Marks(op, sid, id)),
          One(GivesBack(op, sid, id) && active == 0), if DropsNode(op, sid, id) then active else 0)
  }

  function Added(t: Tally, u: Tally): Tally {
    Tally(t.picked + u.picked, t.released + u.released, t.marked + u.marked, t.idle + u.idle, t.dropped + u.dropped)
  }

  /** What the tally leaves of an initial count. */
  function Balance(initial: int, t: Tally): int {
    initial + t.picked - t.released - t.marked + t.idle - t.dropped
  }

  lemma {:induction false} PreviousAt(nodes: seq<Node>, i: nat)
    requires DistinctIds(nodes) && i < |nodes|
    ensures Previous(nodes, nodes[i].conf.id) == Some(nodes[i])
    decreases |nodes|
  {
    if i < |nodes| - 1 {
      PreviousAt(nodes[..|nodes| - 1], i);
    }
  }

  predicate NonNegative(nodes: seq<Node>) {
    forall n :: n in nodes ==> n.activeRequests >= 0
  }

  /** Exactly how one operation moves one node's active count. */
  lemma ActiveStep(s: State, op: Op, sid: int, id: int)
    requires DistinctIds(Current(s, sid)) && Keyed(op)
    requires NonNegative(Current(s, sid))
    ensures ActiveOf(Current(Step(s, op), sid), id) == Balance(ActiveOf(Current(s, sid), id), TallyOp(s, op, sid, id))
    ensures NonNegative(Current(Step(s, op), sid))
    ensures DistinctIds(Current(Step(s, op), sid))
  {
    hide Step, SelectFrom, Refreshed, Find, NonNegative, DistinctIds, ActiveOf, Lists;
    DistinctStep(s, op, sid);
    ActiveNonNegative(Current(s, sid), id);
    if op.OpSelect? {
      ActiveAfterSelect(s, op, sid, id);
    } else {
      ActiveAfterTouch(s, op, sid, id);
    }
  }

  lemma ActiveAfterSelect(s: State, op: Op, sid: int, id: int)
    requires op.OpSelect? && DistinctIds(Current(s, sid)) && Keyed(op) && NonNegative(Current(s, sid))
    ensures NonNegative(Current(Step(s, op), sid))
    ensures ActiveOf(Current(Step(s, op), sid), id)
            == ActiveOf(Current(s, sid), id) + One(HandsOut(s, op, sid, id))
               - if DropsNode(op, sid, id) then ActiveOf(Current(s, sid), id) else 0
  {
    hide Step, SelectFrom, Refreshed, NonNegative, DistinctIds, ActiveOf, Lists, DistinctConf;
    SelectOnService(s, op, sid);
    if op.service.id == sid {
      ActiveRefresh(s, op.service, id);
      ActiveSelect(Current(Refreshed(s, op.service), sid), op.excluded, op.now, id);
    }
  }

  lemma ActiveAfterTouch(s: State, op: Op, sid: int, id: int)
    requires !op.OpSelect? && DistinctIds(Current(s, sid)) && NonNegative(Current(s, sid))
    ensures NonNegative(Current(Step(s, op), sid))
    ensures ActiveOf(Current(Step(s, op), sid), id)
            == if GivesBack(op, sid, id) then Decremented(ActiveOf(Current(s, sid), id))
              else ActiveOf(Current(s, sid), id)
  {
    hide Step, SelectFrom, NonNegative, DistinctIds, ActiveOf, Touched;
    TouchOnService(s, op, sid);
    if op.sid == sid {
      var nodes := Current(s, sid);
      var at := Find(nodes, op.id);
      if at.Some? {
        ActiveTouch(nodes, at.value, op, id);
      } else {
        NoneFound(nodes, op.id);
      }
    }
  }

  lemma NoneFound(nodes: seq<Node>, id: int)
    requires Find(nodes, id).None?
    ensures ActiveOf(nodes, id) == 0
  {
  }

  /** A refresh keeps the count of every node the configuration lists. */
  lemma ActiveRefresh(s: State, service: Service, id: int)
    requires DistinctIds(Current(s, service.id)) && DistinctConf(service.nodes)
    requires NonNegative(Current(s, service.id))
    ensures var r := Current(Refreshed(s, service), service.id);
            && NonNegative(r) && DistinctIds(r)
            && ActiveOf(r, id) == if Lists(service.nodes, id) then ActiveOf(Current(s, service.id), id) else 0
  {
    hide Refreshed;
    RefreshedList(s, service);
    var r := Current(Refreshed(s, service), service.id);
    if Lists(service.nodes, id) {
      var k :| 0 <= k < |service.nodes| && service.nodes[k].id == id;
      assert SameNode(r[k], service.nodes[k]);
      PreviousAt(r, k);
    } else {
      forall i | 0 <= i < |r| ensures r[i].conf.id != id {
        assert SameNode(r[i], service.nodes[i]);
      }
    }
  }

  lemma ActiveSelect(r: seq<Node>, excluded: set<int>, now: Time, id: int)
    requires DistinctIds(r) && NonNegative(r)
    ensures var sel := SelectFrom(r, excluded, now);
            && NonNegative(sel.nodes)
            && ActiveOf(sel.nodes, id) == ActiveOf(r, id)
                 + if sel.pick.Some? && r[sel.pick.value].conf.id == id then 1 else 0
  {
    var sel := SelectFrom(r, excluded, now);
    forall i | 0 <= i < |r| ensures sel.nodes[i].activeRequests >= 0 && sel.nodes[i].conf == r[i].conf {
      SelectionTakesOneSlot(r, excluded, now, i);
    }
    var p := Previous(sel.nodes, id);
    if p.Some? {
      var i :| 0 <= i < |r| && sel.nodes[i] == p.value;
      SelectionTakesOneSlot(r, excluded, now, i);
      PreviousAt(r, i);
    }
  }

  lemma PreviousUpdated(nodes: seq<Node>, at: nat, n: Node, id: int)
    requires DistinctIds(nodes) && at < |nodes| && n.conf.id == nodes[at].conf.id
    ensures Previous(nodes[at := n], id) == if id == n.conf.id then Some(n) else Previous(nodes, id)
    decreases |nodes|
  {
    var last, front := |nodes| - 1, nodes[..|nodes| - 1];
    if at < last {
      assert nodes[at := n][..last] == front[at := n];
      PreviousUpdated(front, at, n, id);
    } else {
      assert nodes[at := n][..last] == front;
    }
  }

  lemma TouchedCount(n: Node, op: Op)
    requires !op.OpSelect? && n.conf.id == op.id
    ensures Touched(n, op).conf.id == n.conf.id
    ensures Touched(n, op).activeRequests
            == if GivesBack(op, op.sid, op.id) then Decremented(n.activeRequests) else n.activeRequests
  {
  }

  lemma ActiveTouch(nodes: seq<Node>, at: nat, op: Op, id: int)
    requires DistinctIds(nodes) && NonNegative(nodes)
    requires !op.OpSelect? && at < |nodes| && nodes[at].conf.id == op.id
    ensures var r := nodes[at := Touched(nodes[at], op)];
            && NonNegative(r)
            && ActiveOf(r, id)
               == if GivesBack(op, op.sid, id) then Decremented(ActiveOf(nodes, id)) else ActiveOf(nodes, id)
  {
    hide Touched, DistinctIds, Previous;
    TouchedCount(nodes[at], op);
    PreviousAt(nodes, at);
    PreviousUpdated(nodes, at, Touched(nodes[at], op), id);
    assert nodes[at] in nodes;
  }

  /** The tally of a run; nothing is asked of the state it starts in. */
  ghost function TallyOf(s: State, ops: seq<Op>, sid: int, id: int): Tally {
    if ops == [] then Tally(0, 0, 0, 0, 0)
    else
      var front := ops[..|ops| - 1];
      var before := Run(s, front);
      Added(TallyOf(s, front, sid, id),
            if NonNegative(Current(before, sid)) then TallyOp(before, ops[|ops| - 1], sid, id)
              else Tally(0, 0, 0, 0, 0))
  }

  /** The slot ledger. In every run the active count of a node is exactly what its
      tally says: a finished request gives its slot back twice, and one that is
      selected and never released keeps it. */
  lemma {:induction false} SlotLedger(s: State, ops: seq<Op>, sid: int, id: int)
    requires DistinctIds(Current(s, sid)) && NonNegative(Current(s, sid))
    requires forall j :: 0 <= j < |ops| ==> Keyed(ops[j])
    ensures DistinctIds(Current(Run(s, ops), sid)) && NonNegative(Current(Run(s, ops), sid))
    ensures ActiveOf(Current(Run(s, ops), sid), id)
            == Balance(ActiveOf(Current(s, sid), id), TallyOf(s, ops, sid, id)) >= 0
    decreases |ops|
  {
    hide Step, Run, TallyOp, TallyOf, Keyed, DistinctIds, NonNegative, ActiveOf;
    if ops == [] {
      NothingRun(s, sid, id);
    } else {
      SlotLedger(s, ops[..|ops| - 1], sid, id);
      LastStep(s, ops, sid, id);
      ActiveStep(Run(s, ops[..|ops| - 1]), ops[|ops| - 1], sid, id);
    }
    ActiveNonNegative(Current(Run(s, ops), sid), id);
  }

  lemma ActiveNonNegative(nodes: seq<Node>, id: int)
    requires NonNegative(nodes)
    ensures ActiveOf(nodes, id) >= 0
  {
  }

  /** A node's active count never exceeds its selections that have not been
      released, in every run that never releases more than it selected. `Slots`
      shows that requests handled by the gateway only make such runs. */
  lemma {:induction false} ActiveBoundedByUnreleased(s: State, ops: seq<Op>, sid: int, id: int)
    requires DistinctIds(Current(s, sid)) && NonNegative(Current(s, sid)) && ActiveOf(Current(s, sid), id) == 0
    requires forall j :: 0 <= j < |ops| ==> Keyed(ops[j])
    requires forall j :: 0 <= j <= |ops| ==>
               var t := TallyOf(s, ops[..j], sid, id); t.released <= t.picked
    ensures DistinctIds(Current(Run(s, ops), sid)) && NonNegative(Current(Run(s, ops), sid))
    ensures var t := TallyOf(s, ops, sid, id);
            ActiveOf(Current(Run(s, ops), sid), id) <= t.picked - t.released
    decreases |ops|
  {
    hide Step, Run, Keyed, DistinctIds, NonNegative, ActiveOf, TallyOp, TallyOf;
    SlotLedger(s, ops, sid, id);
    if ops != [] {
      var front, op := ops[..|ops| - 1], ops[|ops| - 1];
      forall j | 0 <= j <= |front| ensures var t := TallyOf(s, front[..j], sid, id); t.released <= t.picked {
        assert front[..j] == ops[..j];
      }
      ActiveBoundedByUnreleased(s, front, sid, id);
      SlotLedger(s, front, sid, id);
      LastStep(s, ops, sid, id);
      ActiveStep(Run(s, front), op, sid, id);
      NeverTakesTooMuch(Run(s, front), op, sid, id);
      assert ops[..|ops|] == ops;
    } else {
      NothingRun(s, sid, id);
    }
  }

  lemma LastStep(s: State, ops: seq<Op>, sid: int, id: int)
    requires ops != [] && NonNegative(Current(Run(s, ops[..|ops| - 1]), sid))
    ensures var before, op := Run(s, ops[..|ops| - 1]), ops[|ops| - 1];
            && Run(s, ops) == Step(before, op)
            && TallyOf(s, ops, sid, id) == Added(TallyOf(s, ops[..|ops| - 1], sid, id), TallyOp(before, op, sid, id))
  {
  }

  lemma NothingRun(s: State, sid: int, id: int)
    ensures Run(s, []) == s && TallyOf(s, [], sid, id) == Tally(0, 0, 0, 0, 0)
  {
  }

  /** A release takes one slot back unless there is none, and nothing but being
      handed out adds one. */
  lemma NeverTakesTooMuch(s: State, op: Op, sid: int, id: int)
    requires NonNegative(Current(s, sid))
    ensures var a, t := ActiveOf(Current(s, sid), id), TallyOp(s, op, sid, id);
            && (t.released > 0 ==> t.released == 1 && t.picked == 0)
            && Balance(a, t) <= (if t.released > 0 && a > 0 then a - 1 else a) + t.picked
  {
    hide Chosen, ActiveOf;
    ActiveNonNegative(Current(s, sid), id);
  }

  // ----- a full service stays full

  predicate AllFull(nodes: seq<Node>) {
    forall i :: 0 <= i < |nodes| ==>
      nodes[i].conf.status != 1 || nodes[i].activeRequests >= EffectiveMaxConn(nodes[i].conf)
  }

  lemma FullSelectsNone(nodes: seq<Node>, excluded: set<int>, now: Time)
    requires AllFull(nodes)
    ensures SelectFrom(nodes, excluded, now) == Selected(nodes, None)
  {
    HeadIsMember(AllIndices(nodes, excluded, now));
  }

  /** Once every enabled node of a service is full, selections alone never find a
      node again, at any later time and for any exclusion set, as long as the
      configuration does not change: only a release or a mark frees a slot. */
  lemma {:induction false} FullServiceStaysFull(s: State, ops: seq<Op>, pick: Op)
    requires pick.OpSelect? && AllFull(Current(s, pick.service.id))
    requires Matches(Current(s, pick.service.id), pick.service.nodes)
    requires forall j :: 0 <= j < |ops| ==>
               ops[j].OpSelect? && (ops[j].service.id == pick.service.id ==> ops[j].service.nodes == pick.service.nodes)
    ensures Chosen(Run(s, ops), pick) == None
    ensures Current(Run(s, ops), pick.service.id) == Current(s, pick.service.id)
    decreases |ops|
  {
    hide Step, SelectFrom, AllFull, Matches;
    var sid := pick.service.id;
    if ops != [] {
      var front, op := ops[..|ops| - 1], ops[|ops| - 1];
      FullServiceStaysFull(s, front, pick);
      StepOnService(Run(s, front), op, sid);
      FullSelectsNone(Current(s, sid), op.excluded, op.now);
    }
    FullSelectsNone(Current(s, sid), pick.excluded, pick.now);
  }

  /** What one finished exchange does to one node that nothing else touches: success
      and failure give two slots back, a timeout gives one. What this makes of the
      count when requests overlap, or never finish, is in `Slots`. */
  lemma FinishedRequestGivesBackTwoSlots(n: Node, err: Option<string>, now: Time)
    requires n.activeRequests >= 0
    ensures var held := n.(activeRequests := n.activeRequests + 1);
            && Succeeded(Released(held)).activeRequests == Decremented(n.activeRequests)
            && Failed(Released(held), err, now).activeRequests == Decremented(n.activeRequests)
            && Saturated(Released(held), now).activeRequests == n.activeRequests
            && (Succeeded(Released(held)).activeRequests == n.activeRequests <==> n.activeRequests == 0)
  {
  }

  // ----- availability

  predicate Percentage(a: real) { 0.0 <= a <= 100.0 }

  predicate InRange(s: State) {
    && (forall sid, i :: sid in s.services && 0 <= i < |s.services[sid]| ==>
          Percentage(s.services[sid][i].conf.availability))
    && (forall id :: id in s.queue ==> Percentage(s.queue[id]))
  }

  predicate ConfInRange(op: Op) {
    op.OpSelect? ==> forall c :: c in op.service.nodes ==> Percentage(c.availability)
  }

  predicate ListInRange(nodes: seq<Node>) {
    forall i :: 0 <= i < |nodes| ==> Percentage(nodes[i].conf.availability)
  }

  lemma ListInRangeStep(s: State, op: Op, sid: int)
    requires ListInRange(Current(s, sid)) && ConfInRange(op)
    ensures ListInRange(Current(Step(s, op), sid))
  {
    hide Step, SelectFrom, Refreshed, Find;
    StepOnService(s, op, sid);
    if ServiceOf(op) == sid && op.OpSelect? {
      RefreshedList(s, op.service);
      SelectKeepsConf(Current(Refreshed(s, op.service), sid), op.excluded, op.now);
    }
  }

  lemma QueueInRangeStep(s: State, op: Op)
    requires ListInRange(Current(s, ServiceOf(op))) && forall id :: id in s.queue ==> Percentage(s.queue[id])
    ensures forall id :: id in Step(s, op).queue ==> Percentage(Step(s, op).queue[id])
  {
    hide SelectFrom, Refreshed, Rebuild, Matches;
    if op.OpSelect? {
      RefreshKeepsQueue(s, op.service);
    }
  }

  lemma RefreshKeepsQueue(s: State, service: Service)
    ensures Refreshed(s, service).queue == s.queue
  {
  }

  lemma InRangeStep(s: State, op: Op)
    requires InRange(s) && ConfInRange(op)
    ensures InRange(Step(s, op))
  {
    hide Step, ConfInRange;
    QueueInRangeStep(s, op);
    var s' := Step(s, op);
    forall sid, i | sid in s'.services && 0 <= i < |s'.services[sid]|
      ensures Percentage(s'.services[sid][i].conf.availability)
    {
      ListInRangeStep(s, op, sid);
      assert ListInRange(Current(s', sid));
    }
  }

  /** Every availability ever held or queued is a percentage. */
  lemma {:induction false} AvailabilityStaysInRange(s: State, ops: seq<Op>)
    requires InRange(s)
    requires forall j :: 0 <= j < |ops| ==> ConfInRange(ops[j])
    ensures InRange(Run(s, ops))
    decreases |ops|
  {
    if ops != [] {
      AvailabilityStaysInRange(s, ops[..|ops| - 1]);
      InRangeStep(Run(s, ops[..|ops| - 1]), ops[|ops| - 1]);
    }
  }

  // ----- what each mark does

  /** What a release or a mark does to the node it is for, to the others and to the
      queue. */
  lemma MarkEffect(s: State, op: Op, i: nat)
    requires !op.OpSelect? && DistinctIds(Current(s, op.sid))
    requires i < |Current(s, op.sid)| && Current(s, op.sid)[i].conf.id == op.id
    ensures var nodes, nodes' := Current(s, op.sid), Current(Step(s, op), op.sid);
            var n, n', a := nodes[i], nodes'[i], nodes[i].conf.availability;
            var queue' := Step(s, op).queue;
            && |nodes'| == |nodes| && (forall j :: 0 <= j < |nodes| && j != i ==> nodes'[j] == nodes[j])
            && SameIdentity(n, n')
            && n'.activeRequests == (if n.activeRequests > 0 && !op.OpMaxConn? then n.activeRequests - 1
                                     else n.activeRequests)
            && match op
               case OpRelease(_, _) => n' == n.(activeRequests := n'.activeRequests) && queue' == s.queue
               case OpSuccess(_, _) =>
                 && n'.breaker == None && n'.disabledUntil == 0 && n'.consecutiveFails == 0 && n'.lastError == ""
                 && n'.currentWeight == n.currentWeight
                 && n'.conf.availability == (if a < 100.0 then Min(a + 0.5, 100.0) else a)
                 && queue' == if s.updater && a < 100.0 then s.queue[op.id := Min(a + 0.5, 100.0)] else s.queue
               case OpFailure(_, _, err, now) =>
                 && n'.breaker == Some(Breaker(Errors, now)) && n'.disabledUntil == now + 15 * SECOND
                 && n'.consecutiveFails == n.consecutiveFails + 1 && n'.currentWeight == 0
                 && n'.lastError == (if err.Some? then err.value else n.lastError)
                 && n'.conf.availability == Max(a - 5.0, 0.0)
                 && queue' == if s.updater then s.queue[op.id := Max(a - 5.0, 0.0)] else s.queue
               case OpMaxConn(_, _, now) =>
                 && n'.breaker == Some(Breaker(MaxConn, now)) && n'.disabledUntil == n.disabledUntil
                 && n'.consecutiveFails == n.consecutiveFails && n'.currentWeight == n.currentWeight
                 && n'.lastError == n.lastError
                 && n'.conf.availability == Max(a - 3.0, 0.0)
                 && queue' == if s.updater then s.queue[op.id := Max(a - 3.0, 0.0)] else s.queue
  {
    var n := Current(s, op.sid)[i];
    FindsAt(Current(s, op.sid), i);
    match op
    case OpRelease(_, _) =>
    case OpSuccess(_, _) => SucceededExactly(n);
    case OpFailure(_, _, err, now) => FailedExactly(n, err, now);
    case OpMaxConn(_, _, now) => SaturatedExactly(n, now);
  }

  lemma FindsAt(nodes: seq<Node>, i: nat)
    requires i < |nodes| && DistinctIds(nodes)
    ensures Find(nodes, nodes[i].conf.id) == Some(i)
  {
    var f := Find(nodes, nodes[i].conf.id);
    assert f.Some?;
  }

  /** A mark for a node the service does not have does nothing at all. */
  lemma StrayMarkHasNoEffect(s: State, op: Op)
    requires !op.OpSelect? && forall n :: n in Current(s, op.sid) ==> n.conf.id != op.id
    ensures Step(s, op) == s
  {
    forall i | 0 <= i < |Current(s, op.sid)| ensures Current(s, op.sid)[i].conf.id != op.id {
      assert Current(s, op.sid)[i] in Current(s, op.sid);
    }
  }

  /** The availability of a node of a service after a run: what it was, or what the
      configuration said when the list was last rebuilt, moved 5 down by every failure
      since, 3 down by every saturation and half a point up by every success, within 0
      and 100. None when the service does not have the node. */
  ghost function AvailabilityDue(s: State, ops: seq<Op>, sid: int, id: int): Option<real> {
    if ops == [] then
      var p := Previous(Current(s, sid), id);
      if p.Some? then Some(p.value.conf.availability) else None
    else
      var front, op := ops[..|ops| - 1], ops[|ops| - 1];
      var due := AvailabilityDue(s, front, sid, id);
      if ServiceOf(op) != sid then due
      else
        match op
        case OpSelect(service, _, _) =>
          if Matches(Current(Run(s, front), sid), service.nodes) then due else Configured(service.nodes, id)
        case OpRelease(_, _) => due
        case OpFailure(_, id', _, _) =>
          if id' == id && due.Some? then Some(Max(due.value - 5.0, 0.0)) else due
        case OpMaxConn(_, id', _) =>
          if id' == id && due.Some? then Some(Max(due.value - 3.0, 0.0)) else due
        case OpSuccess(_, id') =>
          if id' == id && due.Some? && due.value < 100.0 then Some(Min(due.value + 0.5, 100.0)) else due
  }

  /** The availability configured for an ID. */
  function Configured(conf: seq<ServiceNode>, id: int): Option<real> {
    if conf == [] then None
    else
      var c := conf[|conf| - 1];
      if c.id == id then Some(c.availability) else Configured(conf[..|conf| - 1], id)
  }

  function AvailabilityIn(nodes: seq<Node>, id: int): Option<real> {
    var p := Previous(nodes, id);
    if p.Some? then Some(p.value.conf.availability) else None
  }

  lemma {:induction false} ConfiguredAvailability(nodes: seq<Node>, conf: seq<ServiceNode>, id: int)
    requires |nodes| == |conf| && forall i :: 0 <= i < |conf| ==> nodes[i].conf == conf[i]
    ensures AvailabilityIn(nodes, id) == Configured(conf, id)
    decreases |conf|
  {
    if conf != [] {
      ConfiguredAvailability(nodes[..|nodes| - 1], conf[..|conf| - 1], id);
    }
  }

  lemma {:induction false} SameConfSameAvailability(nodes: seq<Node>, nodes': seq<Node>, id: int)
    requires |nodes| == |nodes'| && forall i :: 0 <= i < |nodes| ==> nodes'[i].conf == nodes[i].conf
    ensures AvailabilityIn(nodes', id) == AvailabilityIn(nodes, id)
    decreases |nodes|
  {
    if nodes != [] {
      SameConfSameAvailability(nodes[..|nodes| - 1], nodes'[..|nodes'| - 1], id);
    }
  }

  lemma AvailabilityAfterSelect(s: State, op: Op, id: int)
    requires op.OpSelect?
    ensures AvailabilityIn(Current(Step(s, op), op.service.id), id)
            == if Matches(Current(s, op.service.id), op.service.nodes)
               then AvailabilityIn(Current(s, op.service.id), id)
               else Configured(op.service.nodes, id)
  {
    hide Step, SelectFrom, Refreshed, Matches, AvailabilityIn, Configured;
    var sid := op.service.id;
    SelectOnService(s, op, sid);
    RefreshedList(s, op.service);
    var r := Current(Refreshed(s, op.service), sid);
    SelectKeepsConf(r, op.excluded, op.now);
    SameConfSameAvailability(r, SelectFrom(r, op.excluded, op.now).nodes, id);
    if !Matches(Current(s, sid), op.service.nodes) {
      ConfiguredAvailability(r, op.service.nodes, id);
    }
  }

  lemma AvailabilityAfterMark(s: State, op: Op, id: int)
    requires !op.OpSelect? && DistinctIds(Current(s, op.sid))
    ensures var a := AvailabilityIn(Current(s, op.sid), id);
            AvailabilityIn(Current(Step(s, op), op.sid), id)
            == match op
               case OpFailure(_, id', _, _) => if id' == id && a.Some? then Some(Max(a.value - 5.0, 0.0)) else a
               case OpMaxConn(_, id', _) => if id' == id && a.Some? then Some(Max(a.value - 3.0, 0.0)) else a
               case OpSuccess(_, id') =>
                 if id' == id && a.Some? && a.value < 100.0 then Some(Min(a.value + 0.5, 100.0)) else a
               case _ => a
  {
    hide Step, Find, DistinctIds, Previous;
    var nodes := Current(s, op.sid);
    var at := Find(nodes, op.id);
    if at.Some? {
      MarkEffect(s, op, at.value);
      var n' := Current(Step(s, op), op.sid)[at.value];
      assert Current(Step(s, op), op.sid) == nodes[at.value := n'];
      PreviousUpdated(nodes, at.value, n', id);
      PreviousAt(nodes, at.value);
    } else {
      StrayMark(nodes, op.id);
      StrayMarkHasNoEffect(s, op);
    }
  }

  lemma StrayMark(nodes: seq<Node>, id: int)
    requires Find(nodes, id).None?
    ensures Previous(nodes, id).None? && forall n :: n in nodes ==> n.conf.id != id
  {
  }

  /** Over every run, the availability of every node of every service is exactly the
      one due. */
  lemma {:induction false} AvailabilityLedger(s: State, ops: seq<Op>, sid: int, id: int)
    requires DistinctIds(Current(s, sid)) && forall j :: 0 <= j < |ops| ==> Keyed(ops[j])
    ensures DistinctIds(Current(Run(s, ops), sid))
    ensures AvailabilityIn(Current(Run(s, ops), sid), id) == AvailabilityDue(s, ops, sid, id)
    decreases |ops|
  {
    hide Step, Keyed, DistinctIds, AvailabilityIn, Matches, Configured;
    if ops == [] {
      FirstAvailability(s, sid, id);
    } else {
      var front, op := ops[..|ops| - 1], ops[|ops| - 1];
      AvailabilityLedger(s, front, sid, id);
      DistinctStep(Run(s, front), op, sid);
      if ServiceOf(op) != sid {
        StepOnService(Run(s, front), op, sid);
      } else if op.OpSelect? {
        AvailabilityAfterSelect(Run(s, front), op, id);
      } else {
        AvailabilityAfterMark(Run(s, front), op, id);
      }
    }
  }

  lemma FirstAvailability(s: State, sid: int, id: int)
    ensures Run(s, []) == s && AvailabilityDue(s, [], sid, id) == AvailabilityIn(Current(s, sid), id)
  {
  }
}
