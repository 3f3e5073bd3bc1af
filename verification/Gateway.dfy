/** The failover loop of one proxied request, among any other traffic. */
module Gateway {
  import opened Prelude
  import opened Nodes
  import opened Selection
  import opened Balancing
  import opened Slots
  import LoadBalancer

  /** What an upstream exchange came to: served, or failed with an error, before or
      after bytes reached the client. */
  datatype Outcome = Served | Failure(retryable: bool, err: string)

  predicate Contains(s: string, part: string) {
    part <= s || (s != "" && Contains(s[1..], part))
  }

  lemma {:induction false} ContainsMeaning(s: string, part: string)
    ensures Contains(s, part) <==> exists a, b :: s == a + part + b
    decreases |s|
  {
    if part <= s {
      assert s == [] + part + s[|part|..];
    } else if s != "" {
      ContainsMeaning(s[1..], part);
      if Contains(s[1..], part) {
        var a, b :| s[1..] == a + part + b;
        assert s == ([s[0]] + a) + part + b;
      }
      if a, b :| s == a + part + b {
        assert a != "" by {
          assert a == "" ==> part <= s;
        }
        assert s[1..] == a[1..] + part + b;
      }
    }
  }

  /** Timeouts are told from other errors by their text. */
  predicate IsContextTimeout(err: string) {
    Contains(err, "context deadline exceeded") || Contains(err, "context canceled")
  }

  /** Everything the loop cannot control about one round: the clock, the body
      reset, whether the exchange panics (as it does when copying the response fails),
      its outcome if not, and what other requests do meanwhile. */
  datatype Round = Round(
    at: Time, resetFails: bool, panics: bool, outcome: Outcome,
    during: seq<Event>, beforeMark: seq<Event>, markAt: Time, beforeSelect: seq<Event>, selectAt: Time)

  datatype Verdict =
    | Success          // response delivered
    | TimedOut         // total time used up: the last node picked was not tried
    | BodyLost         // the request body could not be reset
    | Aborted          // the exchange panicked through the loop
    | Truncated        // failed after bytes were sent: nothing more to try
    | NoMoreNodes      // failed, and no node is left to try

  function Ids(service: Service): (s: set<int>)
    ensures forall id :: id in s <==> Lists(service.nodes, id)
  {
    set k | 0 <= k < |service.nodes| :: service.nodes[k].id
  }

  function Elements(tried: seq<int>): set<int> {
    set k | 0 <= k < |tried| :: tried[k]
  }

  function MarkOp(service: Service, id: int, r: Round): Op {
    match r.outcome
    case Served => OpSuccess(service.id, id)
    case Failure(_, err) =>
      if IsContextTimeout(err) then OpMaxConn(service.id, id, r.markAt)
      else OpFailure(service.id, id, Some(err), r.markAt)
  }

  /** The balancer steps of one round up to its mark. */
  function MarkedOps(service: Service, id: int, r: Round): seq<Op> {
    Ops(r.during) + [OpRelease(service.id, id)] + Ops(r.beforeMark) + [MarkOp(service, id, r)]
  }

  /** ... and, when it failed, on to the point of selecting the next node. */
  function FailedOps(service: Service, id: int, r: Round): seq<Op> {
    MarkedOps(service, id, r) + Ops(r.beforeSelect)
  }

  /** The next node is looked for among everything not yet tried. */
  function NextPick(service: Service, tried: seq<int>, r: Round): Op {
    OpSelect(service, Elements(tried), r.selectAt)
  }

  function RoundOps(service: Service, tried: seq<int>, r: Round): seq<Op>
    requires tried != []
  {
    FailedOps(service, tried[|tried| - 1], r) + [NextPick(service, tried, r)]
  }

  ghost predicate Distinct(tried: seq<int>) {
    forall i, j :: 0 <= i < j < |tried| ==> tried[i] != tried[j]
  }

  /** After the failure of the last of `tried`, selection hands out `next`. */
  ghost predicate Leads(s: State, service: Service, tried: seq<int>, r: Round, next: int, s': State)
    requires tried != []
  {
    var c := Chosen(Run(s, FailedOps(service, tried[|tried| - 1], r)), NextPick(service, tried, r));
    c.Some? && c.value.id == next && s' == Run(s, RoundOps(service, tried, r))
  }

  /** `picked` are the nodes the loop took up, in order, and `states` the states
      in which it took them up: each was chosen when the one before had failed. */
  ghost predicate Chained(service: Service, picked: seq<int>, states: seq<State>, script: nat -> Round) {
    && |states| == |picked| > 0
    && forall k: nat {:trigger picked[..k + 1]} :: k + 1 < |picked| ==>
         Leads(states[k], service, picked[..k + 1], script(k), picked[k + 1], states[k + 1])
  }

  method Apply(b: LoadBalancer.Balancer, op: Op) returns (chosen: Option<ServiceNode>)
    requires b.Valid()
    modifies b, b.Repr()
    ensures b.Valid() && fresh(b.Repr() - old(b.Repr()))
    ensures b.View() == Step(old(b.View()), op)
    ensures chosen == Chosen(old(b.View()), op)
  {
    chosen := None;
    match op
    case OpSelect(service, excluded, now) => chosen := b.SelectNode(service, excluded, now);
    case OpRelease(sid, id) => b.ReleaseNodeRequest(sid, id);
    case OpSuccess(sid, id) => b.MarkNodeSuccess(sid, id);
    case OpFailure(sid, id, err, now) => b.MarkNodeFailure(sid, id, err, now);
    case OpMaxConn(sid, id, now) => b.MarkNodeMaxConn(sid, id, now);
  }

  /** Balancer calls of other requests. */
  method Others(b: LoadBalancer.Balancer, ops: seq<Op>)
    requires b.Valid()
    modifies b, b.Repr()
    ensures b.Valid() && fresh(b.Repr() - old(b.Repr()))
    ensures b.View() == Run(old(b.View()), ops)
  {
    hide Step, Chosen;
    for i := 0 to |ops|
      invariant b.Valid() && fresh(b.Repr() - old(b.Repr()))
      invariant b.View() == Run(old(b.View()), ops[..i])
    {
      var _ := Apply(b, ops[i]);
      assert ops[..i + 1] == ops[..i] + [ops[i]];
      RunSnoc(old(b.View()), ops[..i], ops[i]);
    }
    assert ops[..|ops|] == ops;
  }

  /** One exchange with a node: other traffic, release, other traffic, mark. */
  method Exchange(b: LoadBalancer.Balancer, service: Service, id: int, r: Round)
    requires b.Valid()
    modifies b, b.Repr()
    ensures b.Valid() && fresh(b.Repr() - old(b.Repr()))
    ensures b.View() == Run(old(b.View()), MarkedOps(service, id, r))
  {
    hide Step, Chosen, Run, Ops;
    ghost var s := b.View();
    Others(b, Ops(r.during));
    b.ReleaseNodeRequest(service.id, id);
    RunSnoc(s, Ops(r.during), OpRelease(service.id, id));
    Others(b, Ops(r.beforeMark));
    RunAppend(s, Ops(r.during) + [OpRelease(service.id, id)], Ops(r.beforeMark));
    match r.outcome {
      case Served => b.MarkNodeSuccess(service.id, id);
      case Failure(_, err) =>
        if IsContextTimeout(err) {
          b.MarkNodeMaxConn(service.id, id, r.markAt);
        } else {
          b.MarkNodeFailure(service.id, id, Some(err), r.markAt);
        }
    }
    RunSnoc(s, Ops(r.during) + [OpRelease(service.id, id)] + Ops(r.beforeMark), MarkOp(service, id, r));
  }

  /** What a round makes of the node it tried, whatever other traffic does before:
      after a success no trace of failure is left; after an error that speaks of a
      context deadline or cancellation only the breaker is open; after any other the
      node cools down for 15 s, with its weight reset and one more failure counted. The
      other nodes are left alone. */
  lemma OutcomeDecidesMark(s: State, service: Service, id: int, r: Round, i: nat)
    requires var nodes := Current(Run(s, Ops(r.during) + [OpRelease(service.id, id)] + Ops(r.beforeMark)), service.id);
             DistinctIds(nodes) && i < |nodes| && nodes[i].conf.id == id
    ensures var nodes := Current(Run(s, Ops(r.during) + [OpRelease(service.id, id)] + Ops(r.beforeMark)), service.id);
            var nodes' := Current(Run(s, MarkedOps(service, id, r)), service.id);
            && |nodes'| == |nodes| && (forall j :: 0 <= j < |nodes| && j != i ==> nodes'[j] == nodes[j])
            && var n, n', a := nodes[i], nodes'[i], nodes[i].conf.availability;
            && SameIdentity(n, n')
            && match r.outcome
               case Served =>
                 && n'.breaker == None && n'.disabledUntil == 0 && n'.consecutiveFails == 0 && n'.lastError == ""
                 && n'.currentWeight == n.currentWeight
                 && n'.activeRequests == (if n.activeRequests > 0 then n.activeRequests - 1 else n.activeRequests)
                 && n'.conf.availability == (if a < 100.0 then Min(a + 0.5, 100.0) else a)
               case Failure(_, err) =>
                 if Contains(err, "context deadline exceeded") || Contains(err, "context canceled") then
                   && n'.breaker == Some(Breaker(MaxConn, r.markAt)) && n'.disabledUntil == n.disabledUntil
                   && n'.consecutiveFails == n.consecutiveFails && n'.currentWeight == n.currentWeight
                   && n'.activeRequests == n.activeRequests && n'.lastError == n.lastError
                   && n'.conf.availability == Max(a - 3.0, 0.0)
                 else
                   && n'.breaker == Some(Breaker(Errors, r.markAt)) && n'.disabledUntil == r.markAt + 15 * SECOND
                   && n'.consecutiveFails == n.consecutiveFails + 1 && n'.currentWeight == 0 && n'.lastError == err
                   && n'.activeRequests == (if n.activeRequests > 0 then n.activeRequests - 1 else n.activeRequests)
                   && n'.conf.availability == Max(a - 5.0, 0.0)
  {
    hide Run, Step, Ops, DistinctIds;
    var before := Ops(r.during) + [OpRelease(service.id, id)] + Ops(r.beforeMark);
    RunSnoc(s, before, MarkOp(service, id, r));
    MarkEffect(Run(s, before), MarkOp(service, id, r), i);
  }

  /** The calls of a round on its own: the slot is released, then the node is marked by
      its outcome, and after a failure, even one that cannot be retried, the next node
      is selected among those not tried. */
  lemma RoundInOrder(service: Service, tried: seq<int>, r: Round)
    requires tried != [] && r.during == r.beforeMark == r.beforeSelect == []
    ensures var sid, id := service.id, tried[|tried| - 1];
            && (r.outcome.Served? ==> MarkedOps(service, id, r) == [OpRelease(sid, id), OpSuccess(sid, id)])
            && (r.outcome.Failure? ==>
                  RoundOps(service, tried, r)
                  == [OpRelease(sid, id),
                      if IsContextTimeout(r.outcome.err) then OpMaxConn(sid, id, r.markAt)
                      else OpFailure(sid, id, Some(r.outcome.err), r.markAt),
                      OpSelect(service, set k | 0 <= k < |tried| :: tried[k], r.selectAt)])
  {
    assert Ops([]) == [];
  }

  lemma NotAmong(tried: seq<int>, next: int)
    requires Distinct(tried + [next])
    ensures Distinct(tried) && next !in Elements(tried)
  {
    var all := tried + [next];
    forall k | 0 <= k < |tried| ensures tried[k] != next {
      assert all[k] != all[|tried|];
    }
    forall i, j | 0 <= i < j < |tried| ensures tried[i] != tried[j] {
      assert all[i] != all[j];
    }
  }

  lemma {:induction false} DistinctCount(tried: seq<int>)
    requires Distinct(tried)
    ensures |Elements(tried)| == |tried|
    decreases |tried|
  {
    if tried != [] {
      hide Elements, Distinct;
      var front, last := tried[..|tried| - 1], tried[|tried| - 1];
      assert tried == front + [last];
      NotAmong(front, last);
      DistinctCount(front);
      ElementsNext(front, last);
    }
  }

  lemma SubsetCount(a: set<int>, b: set<int>)
    requires a <= b
    ensures |a| <= |b|
  {
    assert b == a + (b - a);
  }

  /** No node twice, and after the first only configured nodes. */
  ghost predicate Fair(service: Service, first: int, picked: seq<int>) {
    && picked != [] && picked[0] == first
    && Distinct(picked)
    && forall k :: 1 <= k < |picked| ==> picked[k] in Ids(service)
  }

  lemma AttemptsBounded(service: Service, first: int, picked: seq<int>)
    requires Fair(service, first, picked)
    ensures |picked| <= |Ids(service) + {first}|
    ensures first in Ids(service) ==> |picked| <= |service.nodes|
  {
    DistinctCount(picked);
    SubsetCount(Elements(picked), Ids(service) + {first});
    if first in Ids(service) {
      assert Ids(service) + {first} == Ids(service);
      IdsCount(service.nodes);
    }
  }

  lemma IdsCount(nodes: seq<ServiceNode>)
    ensures |set k | 0 <= k < |nodes| :: nodes[k].id| <= |nodes|
  {
    if nodes != [] {
      var front := nodes[..|nodes| - 1];
      IdsCount(front);
      var rest := set k | 0 <= k < |front| :: front[k].id;
      assert (set k | 0 <= k < |nodes| :: nodes[k].id) == rest + {nodes[|nodes| - 1].id};
    }
  }

  predicate Failed(r: Round, start: Time, maxTotal: int) {
    r.at - start <= maxTotal && !r.resetFails && !r.panics && r.outcome.Failure?
  }

  predicate Retried(picked: seq<int>, script: nat -> Round, start: Time, maxTotal: int) {
    forall k: nat :: k + 1 < |picked| ==> Failed(script(k), start, maxTotal) && script(k).outcome.retryable
  }

  lemma FairNext(service: Service, first: int, picked: seq<int>, next: int)
    requires Fair(service, first, picked)
    requires next in Ids(service) && next !in Elements(picked)
    ensures Fair(service, first, picked + [next])
    ensures Ids(service) - Elements(picked + [next]) < Ids(service) - Elements(picked)
  {
    forall k | 0 <= k < |picked| ensures picked[k] != next {
      assert picked[k] in Elements(picked);
    }
    ElementsNext(picked, next);
    assert next in Ids(service) - Elements(picked);
  }

  lemma ElementsNext(picked: seq<int>, next: int)
    ensures Elements(picked + [next]) == Elements(picked) + {next}
  {
    forall id ensures id in Elements(picked + [next]) <==> id in Elements(picked) + {next} {
      if id in Elements(picked) {
        var k :| 0 <= k < |picked| && picked[k] == id;
        assert (picked + [next])[k] == id;
      }
      assert (picked + [next])[|picked|] == next;
    }
  }

  lemma ChainedNext(service: Service, picked: seq<int>, states: seq<State>, script: nat -> Round, next: int, s': State)
    requires Chained(service, picked, states, script)
    requires Leads(states[|picked| - 1], service, picked, script(|picked| - 1), next, s')
    ensures Chained(service, picked + [next], states + [s'], script)
  {
    hide Leads;
    var picked', states' := picked + [next], states + [s'];
    forall k: nat | k + 1 < |picked'|
      ensures Leads(states'[k], service, picked'[..k + 1], script(k), picked'[k + 1], states'[k + 1])
    {
      assert picked'[..k + 1] == picked[..k + 1];
      assert k + 1 == |picked| ==> picked[..k + 1] == picked;
    }
  }

  /** One failed round, and the selection of the next node. */
  method FailAndSelect(b: LoadBalancer.Balancer, service: Service, tried: seq<int>, r: Round)
      returns (next: Option<ServiceNode>)
    requires b.Valid() && tried != []
    modifies b, b.Repr()
    ensures b.Valid() && fresh(b.Repr() - old(b.Repr()))
    ensures b.View() == Run(old(b.View()), RoundOps(service, tried, r))
    ensures next == Chosen(Run(old(b.View()), FailedOps(service, tried[|tried| - 1], r)), NextPick(service, tried, r))
    ensures next.Some? ==> next.value.id in Ids(service) && next.value.id !in Elements(tried)
    ensures next.Some? ==> Leads(old(b.View()), service, tried, r, next.value.id, b.View())
  {
    hide Step, Chosen, Run, Ops;
    ghost var s, id := b.View(), tried[|tried| - 1];
    Exchange(b, service, tried[|tried| - 1], r);
    Others(b, Ops(r.beforeSelect));
    RunAppend(s, MarkedOps(service, id, r), Ops(r.beforeSelect));
    ChosenIsListed(b.View(), NextPick(service, tried, r));
    next := b.SelectNode(service, Elements(tried), r.selectAt);
    RunSnoc(s, FailedOps(service, id, r), NextPick(service, tried, r));
  }

  /** How a call that took up `picked` ends: the verdict in terms of the last
      round, and the balancer steps that round still made. */
  ghost predicate Ended(service: Service, picked: seq<int>, last: State, s': State, r: Round, verdict: Verdict,
                        start: Time, maxTotal: int)
    requires picked != []
  {
    match verdict
    case TimedOut => r.at - start > maxTotal && s' == last
    case BodyLost => r.at - start <= maxTotal && r.resetFails && s' == last
    case Aborted => r.at - start <= maxTotal && !r.resetFails && r.panics && s' == Run(last, Ops(r.during))
    case Success =>
      && r.at - start <= maxTotal && !r.resetFails && !r.panics && r.outcome.Served?
      && s' == Run(last, MarkedOps(service, picked[|picked| - 1], r))
    case Truncated =>
      && Failed(r, start, maxTotal) && !r.outcome.retryable
      && s' == Run(last, RoundOps(service, picked, r))
    case NoMoreNodes =>
      && Failed(r, start, maxTotal) && r.outcome.retryable
      && s' == Run(last, RoundOps(service, picked, r))
      && Chosen(Run(last, FailedOps(service, picked[|picked| - 1], r)), NextPick(service, picked, r)).None?
  }

  /** The verdict is decided by the last round in this order: the time, the body, a
      panic, the answer, whether anything was sent; and the rounds before it ran in
      time to failures after which nothing had been sent. */
  lemma VerdictExactly(service: Service, picked: seq<int>, last: State, s': State, script: nat -> Round,
                       verdict: Verdict, start: Time, maxTotal: int)
    requires picked != [] && Retried(picked, script, start, maxTotal)
    requires Ended(service, picked, last, s', script(|picked| - 1), verdict, start, maxTotal)
    ensures var r := script(|picked| - 1);
            verdict == if r.at - start > maxTotal then TimedOut
                       else if r.resetFails then BodyLost
                       else if r.panics then Aborted
                       else if r.outcome.Served? then Success
                       else if !r.outcome.retryable then Truncated
                       else NoMoreNodes
    ensures forall k: nat :: k < |picked| - 1 ==>
              var r := script(k);
              && r.at - start <= maxTotal && !r.resetFails && !r.panics
              && r.outcome.Failure? && r.outcome.retryable
  {
    hide Run, RoundOps, MarkedOps, FailedOps, Chosen;
  }

  /** One round of the loop: the call ends, or another node is taken up. */
  method TryLast(b: LoadBalancer.Balancer, service: Service, picked: seq<int>, r: Round, start: Time, maxTotal: int)
      returns (verdict: Option<Verdict>, next: int)
    requires b.Valid() && picked != []
    modifies b, b.Repr()
    ensures b.Valid() && fresh(b.Repr() - old(b.Repr()))
    ensures verdict.Some? ==> Ended(service, picked, old(b.View()), b.View(), r, verdict.value, start, maxTotal)
    ensures verdict.None? ==> Failed(r, start, maxTotal) && r.outcome.retryable
    ensures verdict.None? ==> next in Ids(service) && next !in Elements(picked)
    ensures verdict.None? ==> Leads(old(b.View()), service, picked, r, next, b.View())
  {
    next := 0;
    if r.at - start > maxTotal {
      return Some(TimedOut), next;
    }
    if r.resetFails {
      return Some(BodyLost), next;
    }
    if r.panics {
      Others(b, Ops(r.during));
      return Some(Aborted), next;
    }
    if r.outcome.Served? {
      Exchange(b, service, picked[|picked| - 1], r);
      return Some(Success), next;
    }
    var n := FailAndSelect(b, service, picked, r);
    if !r.outcome.retryable {
      return Some(Truncated), next;
    }
    if n.None? {
      return Some(NoMoreNodes), next;
    }
    return None, n.value.id;
  }

  /** Tries `first`, and after each retryable failure the node selected among
      those not yet tried, until something is served or nothing is left. The
      untried nodes are the termination measure. */
  method Proxy(b: LoadBalancer.Balancer, service: Service, first: ServiceNode, script: nat -> Round, start: Time,
               maxTotal: int)
      returns (picked: seq<int>, verdict: Verdict, ghost states: seq<State>)
    requires b.Valid()
    modifies b, b.Repr()
    ensures b.Valid()
    ensures Fair(service, first.id, picked) && |picked| <= |Ids(service) + {first.id}|
    ensures Chained(service, picked, states, script) && states[0] == old(b.View())
    ensures Retried(picked, script, start, maxTotal)
    ensures Ended(service, picked, states[|picked| - 1], b.View(), script(|picked| - 1), verdict, start, maxTotal)
  {
    hide Step, Chosen, Run, Leads, Ended, Fair, Chained, Retried, Failed;
    picked, states := [first.id], [b.View()];
    LoopStarts(service, first.id, b.View(), script, start, maxTotal);
    while true
      invariant b.Valid() && fresh(b.Repr() - old(b.Repr()))
      invariant picked != [] && |states| == |picked|
      invariant Fair(service, first.id, picked)
      invariant Chained(service, picked, states, script) && states[0] == old(b.View())
      invariant Retried(picked, script, start, maxTotal)
      invariant b.View() == states[|picked| - 1]
      decreases Ids(service) - Elements(picked)
    {
      var v, next := TryLast(b, service, picked, script(|picked| - 1), start, maxTotal);
      if v.Some? {
        AttemptsBounded(service, first.id, picked);
        return picked, v.value, states;
      }
      FairNext(service, first.id, picked, next);
      ChainedNext(service, picked, states, script, next, b.View());
      RetriedNext(picked, next, script, start, maxTotal);
      picked, states := picked + [next], states + [b.View()];
    }
  }

  lemma LoopStarts(service: Service, first: int, s: State, script: nat -> Round, start: Time, maxTotal: int)
    ensures Fair(service, first, [first]) && Chained(service, [first], [s], script)
    ensures Retried([first], script, start, maxTotal)
  {
  }

  lemma RetriedNext(picked: seq<int>, next: int, script: nat -> Round, start: Time, maxTotal: int)
    requires picked != [] && Retried(picked, script, start, maxTotal)
    requires Failed(script(|picked| - 1), start, maxTotal) && script(|picked| - 1).outcome.retryable
    ensures Retried(picked + [next], script, start, maxTotal)
  {
  }

  /** All balancer steps of the rounds before the last node was taken up. */
  function RoundsOps(service: Service, picked: seq<int>, script: nat -> Round, n: nat): seq<Op>
    requires n < |picked|
  {
    if n == 0 then []
    else RoundsOps(service, picked, script, n - 1) + RoundOps(service, picked[..n], script(n - 1))
  }

  /** A call is a run of the balancer: what holds of all runs holds across calls,
      with all traffic in between. */
  lemma {:induction false} CallIsRun(service: Service, picked: seq<int>, states: seq<State>, script: nat -> Round,
                                     n: nat)
    requires Chained(service, picked, states, script) && n < |picked|
    ensures states[n] == Run(states[0], RoundsOps(service, picked, script, n))
    decreases n
  {
    hide Step, Chosen;
    if n > 0 {
      CallIsRun(service, picked, states, script, n - 1);
      OneRound(service, picked, states, script, n - 1);
      RunAppend(states[0], RoundsOps(service, picked, script, n - 1), RoundOps(service, picked[..n], script(n - 1)));
    }
  }

  lemma OneRound(service: Service, picked: seq<int>, states: seq<State>, script: nat -> Round, k: nat)
    requires Chained(service, picked, states, script) && k + 1 < |picked|
    ensures states[k + 1] == Run(states[k], RoundOps(service, picked[..k + 1], script(k)))
  {
    assert Leads(states[k], service, picked[..k + 1], script(k), picked[k + 1], states[k + 1]);
  }

  /** How a request ends: without a node; turned away after one was selected, by the
      rate limiter, the route's own middleware or a body that cannot be kept; or
      proxied. */
  datatype Answer = NoNode | Rejected | Proxied(verdict: Verdict)

  function FirstPick(service: Service, now: Time): Op {
    OpSelect(service, {}, now)
  }

  /** Exactly when a request finds no node: the service has none, or each is disabled,
      full, or within 15 s of a mark; none is excluded yet. */
  lemma NoNodeExactly(s: State, service: Service, now: Time)
    ensures var nodes := Current(Refreshed(s, service), service.id);
            Chosen(s, FirstPick(service, now)).None? <==> forall i :: 0 <= i < |nodes| ==> Barred(nodes[i], {}, now)
  {
    hide Chosen, Refreshed, Barred;
    NoneExactly(s, FirstPick(service, now));
  }

  /** A whole request: one node selected up front; then everything that may still
      turn the request away, with `between` going on meanwhile; then the failover
      loop. Every node taken up is one of the service's, none twice. */
  method Handle(b: LoadBalancer.Balancer, service: Service, now: Time, between: seq<Event>, admitted: bool,
                script: nat -> Round, start: Time, maxTotal: int)
      returns (picked: seq<int>, answer: Answer, ghost states: seq<State>)
    requires b.Valid()
    modifies b, b.Repr()
    ensures b.Valid()
    ensures answer.NoNode? <==> service.nodes == [] || Chosen(old(b.View()), FirstPick(service, now)).None?
    ensures answer.NoNode? ==>
              && picked == []
              && b.View() == if service.nodes == [] then old(b.View()) else Step(old(b.View()), FirstPick(service, now))
    ensures !answer.NoNode? ==>
              && picked != [] && picked[0] == Chosen(old(b.View()), FirstPick(service, now)).value.id
              && |states| == |picked| && states[0] == Run(Step(old(b.View()), FirstPick(service, now)), Ops(between))
              && (answer.Rejected? <==> !admitted)
    ensures answer.Rejected? ==> |picked| == 1 && b.View() == states[0]
    ensures answer.Proxied? ==>
              && Chained(service, picked, states, script)
              && Retried(picked, script, start, maxTotal)
              && Ended(service, picked, states[|picked| - 1], b.View(), script(|picked| - 1), answer.verdict,
                       start, maxTotal)
    ensures Distinct(picked) && (forall k :: 0 <= k < |picked| ==> picked[k] in Ids(service))
    ensures |picked| <= |service.nodes|
  {
    hide Step, Chosen, Run, Ops;
    if |service.nodes| == 0 {
      return [], NoNode, [];
    }
    ChosenIsListed(b.View(), FirstPick(service, now));
    var selected := b.SelectNode(service, {}, now);
    if selected.None? {
      return [], NoNode, [];
    }
    Others(b, Ops(between));
    if !admitted {
      return [selected.value.id], Rejected, [b.View()];
    }
    var v;
    picked, v, states := Proxy(b, service, selected.value, script, start, maxTotal);
    AttemptsBounded(service, selected.value.id, picked);
    answer := Proxied(v);
  }

  // ----- a request in the log of all traffic

  function MarkedLog(call: nat, service: Service, id: int, r: Round): seq<Event> {
    r.during + [Call(call, OpRelease(service.id, id))] + r.beforeMark + [Call(call, MarkOp(service, id, r))]
  }

  function RoundLog(call: nat, service: Service, tried: seq<int>, r: Round): seq<Event>
    requires tried != []
  {
    MarkedLog(call, service, tried[|tried| - 1], r) + r.beforeSelect + [Call(call, NextPick(service, tried, r))]
  }

  function RoundsLog(call: nat, service: Service, picked: seq<int>, script: nat -> Round, n: nat): seq<Event>
    requires n < |picked|
  {
    if n == 0 then []
    else RoundsLog(call, service, picked, script, n - 1) + RoundLog(call, service, picked[..n], script(n - 1))
  }

  /** The calls of the last round. */
  function LastLog(call: nat, service: Service, picked: seq<int>, r: Round, verdict: Verdict): seq<Event>
    requires picked != []
  {
    match verdict
    case TimedOut | BodyLost => []
    case Aborted => r.during
    case Success => MarkedLog(call, service, picked[|picked| - 1], r)
    case Truncated | NoMoreNodes => RoundLog(call, service, picked, r)
  }

  predicate Quiet(r: Round, call: nat) {
    Foreign(r.during, call) && Foreign(r.beforeMark, call) && Foreign(r.beforeSelect, call)
  }

  /** The request's own events in a log keep the discipline. */
  ghost predicate OwnFollows(s: State, log: seq<Event>, call: nat) {
    forall j {:trigger log[..j]} :: 0 <= j < |log| && log[j].call == call ==> Follows(s, log[..j], log[j])
  }

  /** What a request holds, and that it has kept the discipline so far. */
  ghost predicate Holds(s: State, log: seq<Event>, call: nat, held: Option<Slot>, now: State) {
    OwnFollows(s, log, call) && Holding(s, log, call) == held && After(s, log) == now
  }

  lemma HoldsThroughOthers(s: State, log: seq<Event>, call: nat, held: Option<Slot>, now: State, others: seq<Event>)
    requires Holds(s, log, call, held, now) && Foreign(others, call)
    ensures Holds(s, log + others, call, held, Run(now, Ops(others)))
  {
    hide Run, Holding, After, Follows;
    HoldingForeign(s, log, others, call);
    AfterAppend(s, log, others);
    ForeignIsStranger(others, call);
    var all := log + others;
    forall j | 0 <= j < |all| && all[j].call == call ensures Follows(s, all[..j], all[j]) {
      if j < |log| {
        assert all[..j] == log[..j];
      }
    }
  }

  lemma HoldsAfterOwn(s: State, log: seq<Event>, call: nat, held: Option<Slot>, now: State, e: Event)
    requires Holds(s, log, call, held, now) && e.call == call && Follows(s, log, e)
    ensures Holds(s, log + [e], call, HoldingNext(now, e, held), if e.Call? then Step(now, e.op) else now)
  {
    hide Run, Step, Holding, Follows, HoldingNext;
    HoldingSnoc(s, log, e, call);
    AfterAppend(s, log, [e]);
    OneEvent(now, e);
    var all := log + [e];
    forall j | 0 <= j < |all| && all[j].call == call ensures Follows(s, all[..j], all[j]) {
      if j < |log| {
        assert all[..j] == log[..j];
      } else {
        assert all[..j] == log;
      }
    }
  }

  lemma OneEvent(s: State, e: Event)
    ensures Run(s, Ops([e])) == if e.Call? then Step(s, e.op) else s
  {
    assert [e][..0] == [];
    if e.Call? {
      assert Ops([e]) == [] + [e.op];
      RunSnoc(s, [], e.op);
    }
  }

  /** One exchange: the slot is held until the release, and not after. */
  lemma ExchangeHolds(s: State, log: seq<Event>, call: nat, now: State, service: Service, id: int, r: Round)
    requires Holds(s, log, call, Some(Slot(service.id, id)), now) && Quiet(r, call)
    ensures Holds(s, log + MarkedLog(call, service, id, r), call, None, Run(now, MarkedOps(service, id, r)))
  {
    hide Run, Step, Holds, Ops, Foreign, MarkOp;
    var slot := Some(Slot(service.id, id));
    var release, mark := Call(call, OpRelease(service.id, id)), Call(call, MarkOp(service, id, r));
    var l1, n1 := log + r.during, Run(now, Ops(r.during));
    HoldsThroughOthers(s, log, call, slot, now, r.during);
    HoldsMeans(s, l1, call, slot, n1);
    HoldsAfterOwn(s, l1, call, slot, n1, release);
    RunSnoc(now, Ops(r.during), release.op);
    var l2, n2 := l1 + [release], Step(n1, release.op);
    HoldsThroughOthers(s, l2, call, None, n2, r.beforeMark);
    RunAppend(now, Ops(r.during) + [release.op], Ops(r.beforeMark));
    var l3, n3 := l2 + r.beforeMark, Run(n2, Ops(r.beforeMark));
    MarkIsMark(service, id, r);
    HoldsAfterOwn(s, l3, call, None, n3, mark);
    RunSnoc(now, Ops(r.during) + [release.op] + Ops(r.beforeMark), mark.op);
    assert log + MarkedLog(call, service, id, r) == l3 + [mark];
  }

  lemma HoldsMeans(s: State, log: seq<Event>, call: nat, held: Option<Slot>, now: State)
    requires Holds(s, log, call, held, now)
    ensures Holding(s, log, call) == held
  {
  }

  lemma MarkIsMark(service: Service, id: int, r: Round)
    ensures var op := MarkOp(service, id, r); !op.OpSelect? && !op.OpRelease?
  {
  }

  /** The slot the selection after a failed round hands the request. */
  ghost function NextSlot(now: State, service: Service, tried: seq<int>, r: Round): Option<Slot>
    requires tried != []
  {
    var c := Chosen(Run(now, FailedOps(service, tried[|tried| - 1], r)), NextPick(service, tried, r));
    if c.Some? then Some(Slot(service.id, c.value.id)) else None
  }

  lemma RoundHolds(s: State, log: seq<Event>, call: nat, now: State, service: Service, tried: seq<int>, r: Round)
    requires tried != [] && Quiet(r, call)
    requires Holds(s, log, call, Some(Slot(service.id, tried[|tried| - 1])), now)
    ensures Holds(s, log + RoundLog(call, service, tried, r), call, NextSlot(now, service, tried, r),
                  Run(now, RoundOps(service, tried, r)))
  {
    hide Run, Step, Chosen, Holds, Ops, Foreign, MarkedLog, MarkedOps;
    var id, pick := tried[|tried| - 1], NextPick(service, tried, r);
    var l1, n1 := log + MarkedLog(call, service, id, r), Run(now, MarkedOps(service, id, r));
    ExchangeHolds(s, log, call, now, service, id, r);
    HoldsThroughOthers(s, l1, call, None, n1, r.beforeSelect);
    RunAppend(now, MarkedOps(service, id, r), Ops(r.beforeSelect));
    var l2, n2 := l1 + r.beforeSelect, Run(n1, Ops(r.beforeSelect));
    HoldsMeans(s, l2, call, None, n2);
    HoldsAfterOwn(s, l2, call, None, n2, Call(call, pick));
    RunSnoc(now, FailedOps(service, id, r), pick);
    assert log + RoundLog(call, service, tried, r) == l2 + [Call(call, pick)];
  }

  lemma LeadsAt(service: Service, picked: seq<int>, states: seq<State>, script: nat -> Round, k: nat)
    requires Chained(service, picked, states, script) && k + 1 < |picked|
    ensures NextSlot(states[k], service, picked[..k + 1], script(k)) == Some(Slot(service.id, picked[k + 1]))
    ensures Run(states[k], RoundOps(service, picked[..k + 1], script(k))) == states[k + 1]
  {
    assert Leads(states[k], service, picked[..k + 1], script(k), picked[k + 1], states[k + 1]);
  }

  lemma {:induction false} RoundsHold(s: State, log: seq<Event>, call: nat, service: Service, picked: seq<int>,
                                      states: seq<State>, script: nat -> Round, n: nat)
    requires Chained(service, picked, states, script) && n < |picked|
    requires forall k: nat :: k < |picked| ==> Quiet(script(k), call)
    requires Holds(s, log, call, Some(Slot(service.id, picked[0])), states[0])
    ensures Holds(s, log + RoundsLog(call, service, picked, script, n), call, Some(Slot(service.id, picked[n])),
                  states[n])
    decreases n
  {
    hide Run, Chosen, Holds, Quiet, RoundLog, RoundOps;
    var rounds := RoundsLog(call, service, picked, script, n);
    if n == 0 {
      assert log + rounds == log;
    } else {
      var front := RoundsLog(call, service, picked, script, n - 1);
      var last := RoundLog(call, service, picked[..n], script(n - 1));
      RoundsHold(s, log, call, service, picked, states, script, n - 1);
      LeadsAt(service, picked, states, script, n - 1);
      RoundHolds(s, log + front, call, states[n - 1], service, picked[..n], script(n - 1));
      assert log + rounds == (log + front) + last;
    }
  }

  /** The slot a proxied request still holds when it is answered. */
  ghost function LeftBehind(service: Service, picked: seq<int>, last: State, r: Round, verdict: Verdict): Option<Slot>
    requires picked != []
  {
    match verdict
    case TimedOut | BodyLost | Aborted => Some(Slot(service.id, picked[|picked| - 1]))
    case Success | NoMoreNodes => None
    case Truncated => NextSlot(last, service, picked, r)
  }

  /** The log of a request up to its answer: its first selection, what went on until
      it was proxied, its rounds. */
  function RequestLog(call: nat, service: Service, now: Time, between: seq<Event>, picked: seq<int>,
                      script: nat -> Round, verdict: Verdict): seq<Event>
    requires picked != []
  {
    [Call(call, FirstPick(service, now))] + between + RoundsLog(call, service, picked, script, |picked| - 1)
    + LastLog(call, service, picked, script(|picked| - 1), verdict)
  }

  lemma ForeignIsStranger(log: seq<Event>, call: nat)
    requires Foreign(log, call)
    ensures call !in Calls(log)
    ensures forall j :: 0 <= j < |log| ==> log[j].call != call
  {
    forall j | 0 <= j < |log| ensures log[j].call != call {
      assert log[j] in log;
    }
  }

  lemma ArrivalHolds(s: State, before: seq<Event>, call: nat, service: Service, now: Time, between: seq<Event>)
    requires Foreign(before, call) && Foreign(between, call)
    ensures var c := Chosen(After(s, before), FirstPick(service, now));
            Holds(s, before + [Call(call, FirstPick(service, now))] + between, call,
                  if c.Some? then Some(Slot(service.id, c.value.id)) else None,
                  Run(Step(After(s, before), FirstPick(service, now)), Ops(between)))
  {
    hide Run, Step, Chosen, Ops;
    var pick := Call(call, FirstPick(service, now));
    ForeignIsStranger(before, call);
    StrangersHoldNothing(s, before, call);
    hide Holds;
    HoldsAfterOwn(s, before, call, None, After(s, before), pick);
    HoldsThroughOthers(s, before + [pick], call, HoldingNext(After(s, before), pick, None),
                       Step(After(s, before), pick.op), between);
  }

  /** A request that the rate limiter or the route's middleware turns away keeps the
      discipline, and always leaves the slot of the node selected for it behind. */
  lemma RejectedLeavesItsSlot(s: State, before: seq<Event>, call: nat, service: Service, now: Time, between: seq<Event>)
    requires Foreign(before, call) && Foreign(between, call)
    requires Chosen(After(s, before), FirstPick(service, now)).Some?
    ensures var log := before + [Call(call, FirstPick(service, now))] + between;
            && OwnFollows(s, log, call)
            && Holding(s, log, call)
              == Some(Slot(service.id, Chosen(After(s, before), FirstPick(service, now)).value.id))
            && After(s, log) == Run(Step(After(s, before), FirstPick(service, now)), Ops(between))
  {
    hide Run, Step, Chosen, Ops;
    ArrivalHolds(s, before, call, service, now, between);
  }

  /** A proxied request keeps the discipline among any other traffic, and this is
      the slot it leaves behind: the last node taken up, if the time was up, the body
      was lost or the exchange panicked; the node selected in vain after a failure that
      cannot be retried; none after a success or when no node was left. */
  lemma ProxiedLeaves(s: State, before: seq<Event>, call: nat, service: Service, now: Time, between: seq<Event>,
                      picked: seq<int>, states: seq<State>, script: nat -> Round, verdict: Verdict, end: State,
                      start: Time, maxTotal: int)
    requires Foreign(before, call) && Foreign(between, call) && forall k: nat :: k < |picked| ==> Quiet(script(k), call)
    requires Chained(service, picked, states, script)
    requires Chosen(After(s, before), FirstPick(service, now)).Some?
    requires picked[0] == Chosen(After(s, before), FirstPick(service, now)).value.id
    requires states[0] == Run(Step(After(s, before), FirstPick(service, now)), Ops(between))
    requires Ended(service, picked, states[|picked| - 1], end, script(|picked| - 1), verdict, start, maxTotal)
    ensures var log := before + RequestLog(call, service, now, between, picked, script, verdict);
            && OwnFollows(s, log, call) && After(s, log) == end
            && Holding(s, log, call) == LeftBehind(service, picked, states[|picked| - 1], script(|picked| - 1), verdict)
  {
    hide Run, Step, Chosen, Ops, Quiet, Foreign, RoundLog;
    hide MarkedLog, RoundsLog, MarkedOps, RoundOps, FailedOps, OwnFollows, After, Holding;
    var n := |picked| - 1;
    var arrival := before + [Call(call, FirstPick(service, now))] + between;
    ArrivalHolds(s, before, call, service, now, between);
    RoundsHold(s, arrival, call, service, picked, states, script, n);
    var log := arrival + RoundsLog(call, service, picked, script, n);
    var r, last := script(n), states[n];
    var tail := LastLog(call, service, picked, r, verdict);
    assert before + RequestLog(call, service, now, between, picked, script, verdict) == log + tail;
    LastRoundHolds(s, log, call, last, service, picked, r, verdict, end, start, maxTotal);
  }

  lemma QuietDuring(r: Round, call: nat)
    requires Quiet(r, call)
    ensures Foreign(r.during, call)
  {
  }

  lemma LastRoundHolds(s: State, log: seq<Event>, call: nat, last: State, service: Service, picked: seq<int>, r: Round,
                       verdict: Verdict, end: State, start: Time, maxTotal: int)
    requires picked != [] && Quiet(r, call)
    requires Holds(s, log, call, Some(Slot(service.id, picked[|picked| - 1])), last)
    requires Ended(service, picked, last, end, r, verdict, start, maxTotal)
    ensures Holds(s, log + LastLog(call, service, picked, r, verdict), call,
                  LeftBehind(service, picked, last, r, verdict), end)
  {
    hide Run, Step, Chosen, Ops, Quiet, RoundLog, MarkedLog, MarkedOps, RoundOps, FailedOps, Holds;
    match verdict
    case TimedOut => assert log + [] == log;
    case BodyLost => assert log + [] == log;
    case Aborted =>
      QuietDuring(r, call);
      HoldsThroughOthers(s, log, call, Some(Slot(service.id, picked[|picked| - 1])), last, r.during);
    case Success => ExchangeHolds(s, log, call, last, service, picked[|picked| - 1], r);
    case Truncated => RoundHolds(s, log, call, last, service, picked, r);
    case NoMoreNodes => RoundHolds(s, log, call, last, service, picked, r);
  }

  // ----- traffic made of requests

  /** One request, told in full: how `Handle` treated it and everything it leaves to
      chance. */
  datatype Story = Story(
    service: Service, now: Time, between: seq<Event>, answer: Answer, picked: seq<int>, states: seq<State>,
    script: nat -> Round, end: State, start: Time, maxTotal: int)

  /** The events of a request and of what goes on meanwhile, up to its answer. A
      service without nodes is not even asked for one. */
  function StoryLog(call: nat, st: Story): seq<Event>
    requires st.answer.Proxied? ==> st.picked != []
  {
    match st.answer
    case NoNode => if st.service.nodes == [] then [] else [Call(call, FirstPick(st.service, st.now))]
    case Rejected => [Call(call, FirstPick(st.service, st.now))] + st.between
    case Proxied(v) => RequestLog(call, st.service, st.now, st.between, st.picked, st.script, v)
  }

  /** The story is one that `Handle` allows, from the state the log before leads to,
      and none of the other events in it are the request's. */
  ghost predicate Told(s: State, before: seq<Event>, call: nat, st: Story) {
    var c := Chosen(After(s, before), FirstPick(st.service, st.now));
    && Foreign(before, call) && Foreign(st.between, call)
    && (st.answer.NoNode? ==> st.service.nodes == [] || c.None?)
    && (!st.answer.NoNode? ==> c.Some?)
    && (st.answer.Proxied? ==>
          && (forall k: nat :: k < |st.picked| ==> Quiet(st.script(k), call))
          && Chained(st.service, st.picked, st.states, st.script)
          && st.picked[0] == c.value.id
          && st.states[0] == Run(Step(After(s, before), FirstPick(st.service, st.now)), Ops(st.between))
          && Ended(st.service, st.picked, st.states[|st.picked| - 1], st.end, st.script(|st.picked| - 1),
                   st.answer.verdict, st.start, st.maxTotal))
  }

  lemma StoryFollows(s: State, before: seq<Event>, call: nat, st: Story)
    requires Told(s, before, call, st)
    ensures OwnFollows(s, before + StoryLog(call, st), call)
  {
    hide After, Run, Step, Chosen, OwnFollows, Chained, Ended, RequestLog;
    match st.answer
    case Proxied(v) =>
      ProxiedLeaves(s, before, call, st.service, st.now, st.between, st.picked, st.states, st.script, v, st.end,
                    st.start, st.maxTotal);
    case Rejected =>
      RejectedLeavesItsSlot(s, before, call, st.service, st.now, st.between);
      assert before + StoryLog(call, st) == before + [Call(call, FirstPick(st.service, st.now))] + st.between;
    case NoNode =>
      UnservedFollows(s, before, call, st.service, st.now);
      assert before + [] == before;
  }

  lemma UnservedFollows(s: State, before: seq<Event>, call: nat, service: Service, now: Time)
    requires Foreign(before, call)
    ensures OwnFollows(s, before, call)
    ensures OwnFollows(s, before + [Call(call, FirstPick(service, now))], call)
  {
    hide After, Run, Step, Chosen, Follows;
    ForeignIsStranger(before, call);
    ArrivalHolds(s, before, call, service, now, []);
    var log := before + [Call(call, FirstPick(service, now))];
    assert log + [] == log;
  }

  /** Everything the request does in the log is a beginning of such a story, or all
      of it and the answer, with anything after it. */
  ghost predicate GatewayRequest(s: State, log: seq<Event>, call: nat) {
    exists before: seq<Event>, st: Story, rest: seq<Event> ::
      Told(s, before, call, st) && Foreign(rest, call) && log <= Whole(before, call, st, rest)
  }

  function Whole(before: seq<Event>, call: nat, st: Story, rest: seq<Event>): seq<Event>
    requires st.answer.Proxied? ==> st.picked != []
  {
    before + StoryLog(call, st) + [Done(call)] + rest
  }

  lemma WholeFollows(s: State, before: seq<Event>, call: nat, st: Story, rest: seq<Event>)
    requires Told(s, before, call, st) && Foreign(rest, call)
    ensures OwnFollows(s, Whole(before, call, st, rest), call)
  {
    hide After, Run, Holding, Ended;
    var log := before + StoryLog(call, st);
    StoryFollows(s, before, call, st);
    hide OwnFollows, StoryLog;
    OwnFollowsDone(s, log, call);
    OwnFollowsOthers(s, log + [Done(call)], call, rest);
  }

  lemma OwnFollowsDone(s: State, log: seq<Event>, call: nat)
    requires OwnFollows(s, log, call)
    ensures OwnFollows(s, log + [Done(call)], call)
  {
    hide Holding;
    var all := log + [Done(call)];
    forall j | 0 <= j < |all| && all[j].call == call ensures Follows(s, all[..j], all[j]) {
      if j < |log| {
        assert all[..j] == log[..j];
      }
    }
  }

  lemma OwnFollowsOthers(s: State, log: seq<Event>, call: nat, others: seq<Event>)
    requires OwnFollows(s, log, call) && Foreign(others, call)
    ensures OwnFollows(s, log + others, call)
  {
    hide Follows;
    ForeignIsStranger(others, call);
    var all := log + others;
    forall j | 0 <= j < |all| && all[j].call == call ensures Follows(s, all[..j], all[j]) {
      if j < |log| {
        assert all[..j] == log[..j];
      }
    }
  }

  lemma OwnFollowsPrefix(s: State, log: seq<Event>, whole: seq<Event>, call: nat)
    requires OwnFollows(s, whole, call) && log <= whole
    ensures OwnFollows(s, log, call)
  {
    hide Follows;
    forall j | 0 <= j < |log| && log[j].call == call ensures Follows(s, log[..j], log[j]) {
      assert log[..j] == whole[..j] && log[j] == whole[j];
    }
  }

  /** Traffic in which every request is one the gateway handled, or is still handling,
      is disciplined: the ledgers of `Slots` hold of it at every moment. */
  lemma TrafficIsDisciplined(s: State, log: seq<Event>)
    requires forall call :: call in Calls(log) ==> GatewayRequest(s, log, call)
    ensures Disciplined(s, log)
  {
    forall call | call in Calls(log) ensures OwnFollows(s, log, call) {
      hide Told, Whole, OwnFollows;
      var before, st, rest :|
        Told(s, before, call, st) && Foreign(rest, call) && log <= Whole(before, call, st, rest);
      WholeFollows(s, before, call, st, rest);
      OwnFollowsPrefix(s, log, Whole(before, call, st, rest), call);
    }
    hide Follows;
    forall j | 0 <= j < |log| ensures Follows(s, log[..j], log[j]) {
      assert log[j].call in Calls(log);
    }
  }

  /** So for all traffic of the gateway: the active count is between 0 and the
      selections not yet released, and off the requests in flight by exactly what
      abandoned and finished requests make of it. */
  lemma GatewayActiveCount(s: State, log: seq<Event>, slot: Slot)
    requires forall call :: call in Calls(log) ==> GatewayRequest(s, log, call)
    requires Sound(s, slot.sid) && KeyedLog(log) && ActiveOf(Current(s, slot.sid), slot.id) == 0
    ensures var t, active := TallyLog(s, log, slot), ActiveOf(Current(After(s, log), slot.sid), slot.id);
            && 0 <= active <= t.picked - t.released
            && active - |InFlight(s, log, slot)| == Abandoned(s, log, slot) + t.idle - t.marked - t.dropped
  {
    hide After, InFlight, Abandoned, TallyLog, ActiveOf, Sound, KeyedLog, Disciplined, GatewayRequest;
    TrafficIsDisciplined(s, log);
    ActiveBounded(s, log, slot);
    ActiveVersusInFlight(s, log, slot);
  }
}
