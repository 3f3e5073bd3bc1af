/** The scheduling theorem: requests that finish one after the other on a healthy
    service are shared exactly in proportion to the adjusted weights. */
module Fairness {
  import opened Prelude
  import opened Nodes
  import opened Selection
  import opened Balancing

  // ----- smooth weighted round-robin on bare numbers

  function Sum(a: seq<int>): int {
    if a == [] then 0 else Sum(a[..|a| - 1]) + a[|a| - 1]
  }

  function Plus(c: seq<int>, a: seq<int>): (r: seq<int>)
    requires |c| == |a|
    ensures |r| == |c| && forall i :: 0 <= i < |c| ==> r[i] == c[i] + a[i]
  {
    seq(|c|, i requires 0 <= i < |c| => c[i] + a[i])
  }

  predicate FirstMax(c: seq<int>, w: nat) {
    w < |c| && forall j :: 0 <= j < |c| ==> c[j] < c[w] || (c[j] == c[w] && w <= j)
  }

  lemma {:induction false} FirstMaxExists(c: seq<int>)
    requires c != []
    ensures exists w: nat :: FirstMax(c, w)
    decreases |c|
  {
    if |c| == 1 {
      assert FirstMax(c, 0);
    } else {
      var front := c[..|c| - 1];
      FirstMaxExists(front);
      var w: nat :| FirstMax(front, w);
      assert front[w] == c[w];
      assert forall j :: 0 <= j < |front| ==> front[j] == c[j];
      assert FirstMax(c, if c[|c| - 1] > c[w] then |c| - 1 else w);
    }
  }

  /** One turn: everyone is credited its weight, the first of the heaviest is
      chosen and charged the total. */
  predicate IsTurn(a: seq<int>, c: seq<int>, w: nat, c': seq<int>) {
    && |c| == |a|
    && FirstMax(Plus(c, a), w)
    && c' == Plus(c, a)[w := c[w] + a[w] - Sum(a)]
  }

  /** `cs` are the weights before, between and after the turns that chose `ws`. */
  predicate Turns(a: seq<int>, cs: seq<seq<int>>, ws: seq<nat>) {
    && |cs| == |ws| + 1
    && forall k {:trigger ws[k]} :: 0 <= k < |ws| ==> IsTurn(a, cs[k], ws[k], cs[k + 1])
  }

  lemma {:induction false} SumUpdate(c: seq<int>, i: nat, x: int)
    requires i < |c|
    ensures Sum(c[i := x]) == Sum(c) + x - c[i]
    decreases |c|
  {
    var front := c[..|c| - 1];
    if i == |c| - 1 {
      assert c[i := x][..|c| - 1] == front;
    } else {
      SumUpdate(front, i, x);
      assert c[i := x][..|c| - 1] == front[i := x];
    }
  }

  lemma {:induction false} SumPlus(c: seq<int>, a: seq<int>)
    requires |c| == |a|
    ensures Sum(Plus(c, a)) == Sum(c) + Sum(a)
    decreases |c|
  {
    if c != [] {
      SumPlus(c[..|c| - 1], a[..|a| - 1]);
      assert Plus(c, a)[..|c| - 1] == Plus(c[..|c| - 1], a[..|a| - 1]);
    }
  }

  /** If every entry is at most `m`, the sum is at most `m` times the length. */
  lemma {:induction false} SumAtMost(c: seq<int>, m: int)
    requires forall j :: 0 <= j < |c| ==> c[j] <= m
    ensures Sum(c) <= m * |c|
    decreases |c|
  {
    if c != [] {
      SumAtMost(c[..|c| - 1], m);
      assert m * |c| == m * (|c| - 1) + m;
    }
  }

  /** One entry against a common lower bound for all the others. */
  lemma {:induction false} OneAgainstRest(c: seq<int>, i: nat, m: int)
    requires i < |c| && forall j :: 0 <= j < |c| ==> c[j] >= m
    ensures c[i] <= Sum(c) - m * (|c| - 1)
    decreases |c|
  {
    var front := c[..|c| - 1];
    if i == |c| - 1 {
      SumAtLeast(front, m);
    } else {
      OneAgainstRest(front, i, m);
      assert m * (|c| - 1) == m * (|front| - 1) + m;
    }
  }

  lemma {:induction false} SumAtLeast(c: seq<int>, m: int)
    requires forall j :: 0 <= j < |c| ==> c[j] >= m
    ensures Sum(c) >= m * |c|
    decreases |c|
  {
    if c != [] {
      SumAtLeast(c[..|c| - 1], m);
      assert m * |c| == m * (|c| - 1) + m;
    }
  }

  predicate Positive(a: seq<int>) {
    a != [] && forall i :: 0 <= i < |a| ==> a[i] >= 1
  }

  lemma PositiveSum(a: seq<int>)
    requires Positive(a)
    ensures Sum(a) >= |a|
  {
    SumAtLeast(a, 1);
  }

  predicate Balanced(a: seq<int>, c: seq<int>) {
    |c| == |a| && Sum(c) == 0 && forall i :: 0 <= i < |c| ==> c[i] > -Sum(a)
  }

  /** A balanced weight vector stays balanced, and above minus the total. */
  lemma TurnKeepsBalance(a: seq<int>, c: seq<int>, w: nat, c': seq<int>)
    requires Positive(a) && Balanced(a, c) && IsTurn(a, c, w, c')
    ensures Balanced(a, c')
  {
    PositiveSum(a);
    var p := Plus(c, a);
    SumPlus(c, a);
    SumUpdate(p, w, p[w] - Sum(a));
    if p[w] <= 0 {
      SumAtMost(p, 0);
      assert false;
    }
  }

  lemma Shorter(a: seq<int>, cs: seq<seq<int>>, ws: seq<nat>)
    requires Turns(a, cs, ws) && ws != []
    ensures Turns(a, cs[..|ws|], ws[..|ws| - 1])
    ensures IsTurn(a, cs[|ws| - 1], ws[|ws| - 1], cs[|ws|])
  {
    assert IsTurn(a, cs[|ws| - 1], ws[|ws| - 1], cs[|ws|]);
  }

  lemma {:induction false} StaysBalanced(a: seq<int>, cs: seq<seq<int>>, ws: seq<nat>)
    requires Positive(a) && Turns(a, cs, ws) && Balanced(a, cs[0])
    ensures Balanced(a, cs[|ws|])
    decreases |ws|
  {
    if ws != [] {
      Shorter(a, cs, ws);
      StaysBalanced(a, cs[..|ws|], ws[..|ws| - 1]);
      TurnKeepsBalance(a, cs[|ws| - 1], ws[|ws| - 1], cs[|ws|]);
    }
  }

  /** Times chosen. */
  function Count(ws: seq<nat>, i: nat): nat {
    multiset(ws)[i]
  }

  lemma CountLast(ws: seq<nat>, i: nat)
    requires ws != []
    ensures Count(ws, i) == Count(ws[..|ws| - 1], i) + if ws[|ws| - 1] == i then 1 else 0
  {
    assert ws == ws[..|ws| - 1] + [ws[|ws| - 1]];
  }

  lemma LedgerStep(share: int, total: int, k: nat, n: nat)
    ensures (k + 1) * share == k * share + share
    ensures total * (n + 1) == total * n + total
  {
  }

  /** Each weight is the node's due share minus what it was charged. */
  lemma {:induction false} Ledger(a: seq<int>, cs: seq<seq<int>>, ws: seq<nat>, i: nat)
    requires Turns(a, cs, ws) && |cs[0]| == |a| && i < |a|
    ensures |cs[|ws|]| == |a|
    ensures cs[|ws|][i] == cs[0][i] + |ws| * a[i] - Sum(a) * Count(ws, i)
    decreases |ws|
  {
    if ws != [] {
      Shorter(a, cs, ws);
      Ledger(a, cs[..|ws|], ws[..|ws| - 1], i);
      CountLast(ws, i);
      LedgerStep(a[i], Sum(a), |ws| - 1, Count(ws[..|ws| - 1], i));
    }
  }

  function Zeros(n: nat): (c: seq<int>)
    ensures |c| == n && forall i :: 0 <= i < n ==> c[i] == 0
  {
    seq(n, i => 0)
  }

  lemma {:induction false} ZerosSum(n: nat)
    ensures Sum(Zeros(n)) == 0
  {
    if n > 0 {
      ZerosSum(n - 1);
      assert Zeros(n)[..n - 1] == Zeros(n - 1);
    }
  }

  /** At every point of a run from rest: the weight is the exact deviation from
      the proportional share, never a full turn ahead, never n-1 turns behind. */
  lemma DeviationBounded(a: seq<int>, cs: seq<seq<int>>, ws: seq<nat>, i: nat)
    requires Positive(a) && Turns(a, cs, ws) && cs[0] == Zeros(|a|) && i < |a|
    ensures |cs[|ws|]| == |a|
    ensures cs[|ws|][i] == |ws| * a[i] - Sum(a) * Count(ws, i)
    ensures -Sum(a) < cs[|ws|][i]
    ensures |a| >= 2 ==> cs[|ws|][i] < (|a| - 1) * Sum(a)
  {
    ZerosSum(|a|);
    PositiveSum(a);
    StaysBalanced(a, cs, ws);
    BalancedBounds(a, cs[|ws|], i);
    Ledger(a, cs, ws, i);
  }

  lemma BalancedBounds(a: seq<int>, c: seq<int>, i: nat)
    requires Balanced(a, c) && i < |a|
    ensures -Sum(a) < c[i]
    ensures |a| >= 2 ==> c[i] < (|a| - 1) * Sum(a)
  {
    hide Sum;
    OneAgainstRest(c, i, 1 - Sum(a));
    if |a| >= 2 {
      BelowAllTurns(|a|, Sum(a), c[i]);
    }
  }

  lemma BelowAllTurns(n: nat, total: int, x: int)
    requires n >= 2 && x <= 0 - (1 - total) * (n - 1)
    ensures x < (n - 1) * total
  {
    assert (1 - total) * (n - 1) == (n - 1) - (n - 1) * total;
  }

  function Counts(ws: seq<nat>, n: nat): (r: seq<int>)
    ensures |r| == n && forall i :: 0 <= i < n ==> r[i] == Count(ws, i)
  {
    seq(n, i requires 0 <= i < n => Count(ws, i))
  }

  lemma {:induction false} CountsTotal(ws: seq<nat>, n: nat)
    requires forall k :: 0 <= k < |ws| ==> ws[k] < n
    ensures Sum(Counts(ws, n)) == |ws|
    decreases |ws|
  {
    if ws == [] {
      ZerosSum(n);
      assert Counts(ws, n) == Zeros(n);
    } else {
      var front, w := ws[..|ws| - 1], ws[|ws| - 1];
      CountsTotal(front, n);
      var before := Counts(front, n);
      SumUpdate(before, w, before[w] + 1);
      forall i | 0 <= i < n ensures Count(ws, i) == before[w := before[w] + 1][i] {
        CountLast(ws, i);
      }
      assert Counts(ws, n) == before[w := before[w] + 1];
    }
  }

  lemma SumLast(c: seq<int>)
    requires c != []
    ensures Sum(c) == Sum(c[..|c| - 1]) + c[|c| - 1]
  {
  }

  /** Entrywise at most and equal in sum means equal. */
  lemma {:induction false} SqueezedBySum(p: seq<int>, q: seq<int>)
    requires |p| == |q| && forall i :: 0 <= i < |p| ==> p[i] <= q[i]
    ensures Sum(p) <= Sum(q)
    ensures Sum(p) == Sum(q) ==> p == q
    decreases |p|
  {
    if p != [] {
      hide Sum;
      SumLast(p);
      SumLast(q);
      SqueezedBySum(p[..|p| - 1], q[..|q| - 1]);
      assert p == p[..|p| - 1] + [p[|p| - 1]] && q == q[..|q| - 1] + [q[|q| - 1]];
    }
  }

  lemma NotOvercharged(total: int, share: int, count: int)
    requires total >= 1 && total * share - total * count > -total
    ensures count <= share
  {
    Distribute(total, share, count);
    ScaleInts(share - count, -1, total);
  }

  lemma Distribute(total: int, share: int, count: int)
    ensures total * share - total * count == (share - count) * total
  {
  }

  /** One full period from rest: everyone was chosen exactly its weight, and all
      weights are back to zero. */
  lemma OnePeriod(a: seq<int>, cs: seq<seq<int>>, ws: seq<nat>)
    requires Positive(a) && Turns(a, cs, ws) && cs[0] == Zeros(|a|)
    requires |ws| == Sum(a)
    ensures Counts(ws, |a|) == a
    ensures cs[|ws|] == Zeros(|a|)
  {
    PositiveSum(a);
    var counts, total := Counts(ws, |a|), Sum(a);
    forall i | 0 <= i < |a| ensures counts[i] <= a[i] {
      DeviationBounded(a, cs, ws, i);
      NotOvercharged(total, a[i], Count(ws, i));
    }
    forall k | 0 <= k < |ws| ensures ws[k] < |a| {
      assert IsTurn(a, cs[k], ws[k], cs[k + 1]);
    }
    CountsTotal(ws, |a|);
    SqueezedBySum(counts, a);
    DeviationBounded(a, cs, ws, 0);
    forall i | 0 <= i < |a| ensures cs[|ws|][i] == 0 {
      DeviationBounded(a, cs, ws, i);
      assert counts[i] == a[i];
    }
  }

  /** The turns are determined by where they start. */
  lemma {:induction false} Deterministic(a: seq<int>, cs: seq<seq<int>>, ws: seq<nat>, cs': seq<seq<int>>,
                                         ws': seq<nat>)
    requires Turns(a, cs, ws) && Turns(a, cs', ws')
    requires |ws| == |ws'| && cs[0] == cs'[0]
    ensures cs[|ws|] == cs'[|ws|]
    decreases |ws|
  {
    if ws != [] {
      Shorter(a, cs, ws);
      Shorter(a, cs', ws');
      Deterministic(a, cs[..|ws|], ws[..|ws| - 1], cs'[..|ws|], ws'[..|ws| - 1]);
    }
  }

  lemma Segment(a: seq<int>, cs: seq<seq<int>>, ws: seq<nat>, lo: nat, hi: nat)
    requires Turns(a, cs, ws) && lo <= hi <= |ws|
    ensures Turns(a, cs[lo..hi + 1], ws[lo..hi])
  {
    forall k | 0 <= k < hi - lo
      ensures IsTurn(a, cs[lo..hi + 1][k], ws[lo..hi][k], cs[lo..hi + 1][k + 1])
    {
      assert IsTurn(a, cs[lo + k], ws[lo + k], cs[lo + k + 1]);
    }
  }

  lemma Returns(a: seq<int>, cs: seq<seq<int>>, ws: seq<nat>)
    requires Positive(a) && Turns(a, cs, ws) && cs[0] == Zeros(|a|)
    requires 0 <= Sum(a) <= |ws|
    ensures cs[Sum(a)] == Zeros(|a|)
  {
    Segment(a, cs, ws, 0, Sum(a));
    OnePeriod(a, cs[0..Sum(a) + 1], ws[0..Sum(a)]);
  }

  lemma SameFrom(a: seq<int>, cs: seq<seq<int>>, ws: seq<nat>, p: nat, q: nat, n: nat)
    requires Turns(a, cs, ws) && p + n <= |ws| && q + n <= |ws| && cs[p] == cs[q]
    ensures cs[p + n] == cs[q + n]
  {
    Segment(a, cs, ws, p, p + n);
    Segment(a, cs, ws, q, q + n);
    Deterministic(a, cs[p..p + n + 1], ws[p..p + n], cs[q..q + n + 1], ws[q..q + n]);
  }

  /** The weights repeat with the period. */
  lemma Periodic(a: seq<int>, cs: seq<seq<int>>, ws: seq<nat>, start: nat)
    requires Positive(a) && Turns(a, cs, ws) && cs[0] == Zeros(|a|)
    requires Sum(a) >= 0 && start + Sum(a) <= |ws|
    ensures cs[start + Sum(a)] == cs[start]
  {
    Returns(a, cs, ws);
    SameFrom(a, cs, ws, 0, Sum(a), start);
  }

  lemma Widths(a: seq<int>, cs: seq<seq<int>>, ws: seq<nat>, k: nat)
    requires Turns(a, cs, ws) && |cs[0]| == |a| && k <= |ws|
    ensures |cs[k]| == |a|
  {
    if k > 0 {
      assert IsTurn(a, cs[k - 1], ws[k - 1], cs[k]);
    }
  }

  /** Any window of one period, wherever it starts, is exactly fair. */
  lemma AnyPeriodIsFair(a: seq<int>, cs: seq<seq<int>>, ws: seq<nat>, start: nat, i: nat)
    requires Positive(a) && Turns(a, cs, ws) && cs[0] == Zeros(|a|) && i < |a|
    requires Sum(a) >= 0 && start + Sum(a) <= |ws|
    ensures Count(ws[start..start + Sum(a)], i) == a[i]
  {
    hide Count, IsTurn, FirstMax;
    PositiveSum(a);
    Periodic(a, cs, ws, start);
    var total := Sum(a);
    var cs', ws' := cs[start..start + total + 1], ws[start..start + total];
    Segment(a, cs, ws, start, start + total);
    Widths(a, cs, ws, start);
    Ledger(a, cs', ws', i);
    assert cs'[0] == cs[start] && cs'[total] == cs[start + total];
    EvenLedger(total, a[i], Count(ws', i));
  }

  lemma EvenLedger(total: int, share: int, count: int)
    requires total >= 1 && total * share - total * count == 0
    ensures share == count
  {
    Distribute(total, share, count);
    ScaleInts(share - count, 0, total);
    ScaleInts(0, share - count, total);
  }

  // ----- the same, for the node list the load balancer really keeps

  /** At each of the times exactly the nodes at `ix` are available, at least two,
      each with nothing in flight and availability at (or configured above) 100, so
      that success does not move it. The others may be disabled, cooling down or
      full. */
  predicate Standing(nodes: seq<Node>, ix: seq<nat>, times: seq<Time>) {
    && Indices(ix, |nodes|) && |ix| >= 2
    && (forall k :: 0 <= k < |ix| ==> IdleNode(nodes[ix[k]]))
    && forall t :: t in times ==> AvailableAt(nodes, ix, t)
  }

  predicate IdleNode(n: Node) {
    n.activeRequests == 0 && n.conf.availability >= 100.0
  }

  predicate AvailableAt(nodes: seq<Node>, ix: seq<nat>, now: Time) {
    forall i :: 0 <= i < |nodes| ==> (Available(nodes[i], now) <==> i in ix)
  }

  function Adjusted(nodes: seq<Node>, ix: seq<nat>): (a: seq<int>)
    requires Indices(ix, |nodes|)
    ensures |a| == |ix| && forall k :: 0 <= k < |a| ==> a[k] == AdjustedWeight(nodes[ix[k]].conf)
  {
    seq(|ix|, k requires 0 <= k < |ix| => AdjustedWeight(nodes[ix[k]].conf))
  }

  function Weights(nodes: seq<Node>, ix: seq<nat>): (c: seq<int>)
    requires Indices(ix, |nodes|)
    ensures |c| == |ix| && forall k :: 0 <= k < |c| ==> c[k] == nodes[ix[k]].currentWeight
  {
    seq(|ix|, k requires 0 <= k < |ix| => nodes[ix[k]].currentWeight)
  }

  /** The steps of one request that is selected, served, released and marked
      successful. */
  ghost function Request(s: State, service: Service, now: Time): seq<Op> {
    var pick := OpSelect(service, {}, now);
    var c := Chosen(s, pick);
    if c.None? then [pick]
    else [pick, OpRelease(service.id, c.value.id), OpSuccess(service.id, c.value.id)]
  }

  /** One request of the service after the other at the given times: the states
      around them and the node IDs that served them. What else happens, on other
      services or to the queue, is of no concern. */
  ghost predicate Serving(service: Service, states: seq<State>, times: seq<Time>, ids: seq<int>) {
    && |states| == |times| + 1
    && |ids| == |times|
    && forall k {:trigger times[k]} :: 0 <= k < |times| ==> Answers(service, states[k], times[k], ids[k], states[k + 1])
  }

  ghost predicate Answers(service: Service, s: State, now: Time, id: int, s': State) {
    var c := Chosen(s, OpSelect(service, {}, now));
    && c.Some? && c.value.id == id
    && Current(s', service.id) == Current(Run(s, Request(s, service, now)), service.id)
  }

  /** Nothing has happened to the service. */
  predicate Untouched(sid: int, s: State, s': State) {
    Current(s', sid) == Current(s, sid)
  }

  lemma {:induction false} ForeignOpsLeaveUntouched(s: State, ops: seq<Op>, sid: int)
    requires forall j :: 0 <= j < |ops| ==> ServiceOf(ops[j]) != sid
    ensures Untouched(sid, s, Run(s, ops))
    decreases |ops|
  {
    hide Step;
    if ops != [] {
      ForeignOpsLeaveUntouched(s, ops[..|ops| - 1], sid);
      StepOnService(Run(s, ops[..|ops| - 1]), ops[|ops| - 1], sid);
    }
  }

  /** A request answers in this sense however its three calls are spread out, and
      whatever leaves the service alone goes on before, between and after them. */
  lemma RequestAmongOthers(service: Service, now: Time, s: State, s1: State, s2: State, s3: State, s': State)
    requires Untouched(service.id, s, s1) && Chosen(s1, OpSelect(service, {}, now)).Some?
    requires var id := Chosen(s1, OpSelect(service, {}, now)).value.id;
             && Untouched(service.id, Step(s1, OpSelect(service, {}, now)), s2)
             && Untouched(service.id, Step(s2, OpRelease(service.id, id)), s3)
             && Untouched(service.id, Step(s3, OpSuccess(service.id, id)), s')
    ensures Answers(service, s, now, Chosen(s1, OpSelect(service, {}, now)).value.id, s')
  {
    hide Step, Chosen, Run;
    var pick := OpSelect(service, {}, now);
    StepsAlike(s, s1, pick);
    var id := Chosen(s1, pick).value.id;
    StepsAlike(Step(s, pick), s2, OpRelease(service.id, id));
    StepsAlike(Step(Step(s, pick), OpRelease(service.id, id)), s3, OpSuccess(service.id, id));
    RequestSteps(s, service, now);
  }

  lemma {:induction false} TotalIsSum(nodes: seq<Node>, ix: seq<nat>)
    requires Indices(ix, |nodes|)
    ensures Total(nodes, ix) == Sum(Adjusted(nodes, ix))
    decreases |ix|
  {
    if ix != [] {
      TotalIsSum(nodes, ix[..|ix| - 1]);
      assert Adjusted(nodes, ix)[..|ix| - 1] == Adjusted(nodes, ix[..|ix| - 1]);
    }
  }

  /** The candidates are exactly the standing nodes ... */
  lemma StandingAreEligible(nodes: seq<Node>, ix: seq<nat>, now: Time)
    requires Indices(ix, |nodes|) && AvailableAt(nodes, ix, now)
    ensures AllIndices(nodes, {}, now) == ix
  {
    hide AllIndices, Available;
    forall i ensures i in AllIndices(nodes, {}, now) <==> i in ix {
      if i in ix {
        assert 0 <= i < |nodes|;
      }
    }
    SameIndices(AllIndices(nodes, {}, now), ix, |nodes|);
  }

  lemma IdleTie(a: Node, b: Node)
    requires IdleNode(a) && IdleNode(b)
    ensures LoadAtMost(a, b)
  {
  }

  /** ... and all of them tie. */
  lemma StandingTie(nodes: seq<Node>, ix: seq<nat>)
    requires Indices(ix, |nodes|) && forall k :: 0 <= k < |ix| ==> IdleNode(nodes[ix[k]])
    ensures LeastLoaded(nodes, ix, ix) == ix
  {
    hide LeastLoaded, LoadAtMost, IdleNode;
    forall i | i in ix ensures Minimal(nodes, ix, i) {
      forall k | 0 <= k < |ix| ensures LoadAtMost(nodes[i], nodes[ix[k]]) {
        IdleTie(nodes[i], nodes[ix[k]]);
      }
    }
    SameIndices(LeastLoaded(nodes, ix, ix), ix, |nodes|);
  }

  function Held(nodes: seq<Node>, ix: seq<nat>, w: nat): Node
    requires Indices(ix, |nodes|) && w < |ix|
  {
    Charged(Credited(nodes[ix[w]]), Sum(Adjusted(nodes, ix)))
  }

  /** Selection among standing nodes, written with bare numbers; `w` is a place in
      `ix`. */
  predicate TurnTaken(nodes: seq<Node>, ix: seq<nat>, w: nat, r: Selected)
    requires Indices(ix, |nodes|)
  {
    && w < |ix|
    && FirstMax(Plus(Weights(nodes, ix), Adjusted(nodes, ix)), w)
    && r == Selected(Bumped(nodes, ix)[ix[w] := Held(nodes, ix, w)], Some(ix[w]))
  }

  lemma WinnerIsFirstMax(nodes: seq<Node>, ix: seq<nat>) returns (w: nat)
    requires Indices(ix, |nodes|) && ix != []
    ensures w < |ix| && ix[w] == Winner(Bumped(nodes, ix), ix)
    ensures FirstMax(Plus(Weights(nodes, ix), Adjusted(nodes, ix)), w)
  {
    var bumped := Bumped(nodes, ix);
    var v := Winner(bumped, ix);
    w :| 0 <= w < |ix| && ix[w] == v;
    var c := Plus(Weights(nodes, ix), Adjusted(nodes, ix));
    forall j | 0 <= j < |ix| ensures c[j] < c[w] || (c[j] == c[w] && w <= j) {
      assert ix[j] in ix && ix[w] in ix;
      assert bumped[ix[j]] == Credited(nodes[ix[j]]) && bumped[ix[w]] == Credited(nodes[ix[w]]);
    }
  }

  lemma StandingSelection(nodes: seq<Node>, ix: seq<nat>, now: Time) returns (w: nat)
    requires Standing(nodes, ix, [now])
    ensures TurnTaken(nodes, ix, w, SelectFrom(nodes, {}, now))
  {
    StandingAreEligible(nodes, ix, now);
    StandingTie(nodes, ix);
    hide AllIndices, LeastLoaded, FirstMax, AdjustedWeight;
    w := WinnerIsFirstMax(nodes, ix);
    TotalIsSum(nodes, ix);
    assert ix[w] in ix;
  }

  /** The node list during requests: same configuration, standing between them. */
  predicate Steady(service: Service, ix: seq<nat>, times: seq<Time>, nodes: seq<Node>, nodes': seq<Node>) {
    && |nodes'| == |nodes|
    && Ready(service, ix, times, nodes')
    && forall i :: 0 <= i < |nodes| ==> nodes'[i].conf == nodes[i].conf
  }

  /** A list that matches its configuration, with distinct IDs, and stands. */
  predicate Ready(service: Service, ix: seq<nat>, times: seq<Time>, nodes: seq<Node>) {
    DistinctIds(nodes) && Matches(nodes, service.nodes) && Standing(nodes, ix, times)
  }

  /** One served request is one round-robin turn, and leaves the service ready. */
  lemma ReadyRequestIsTurn(s: State, service: Service, ix: seq<nat>, times: seq<Time>, now: Time) returns (w: nat)
    requires now in times && Ready(service, ix, times, Current(s, service.id))
    ensures var nodes := Current(s, service.id);
            var nodes' := Current(Run(s, Request(s, service, now)), service.id);
            && Steady(service, ix, times, nodes, nodes')
            && IsTurn(Adjusted(nodes, ix), Weights(nodes, ix), w, Weights(nodes', ix))
            && w < |ix|
            && Chosen(s, OpSelect(service, {}, now)) == Some(nodes[ix[w]].conf)
  {
    var nodes := Current(s, service.id);
    hide Matches, DistinctIds, Run, Chosen, Available, Request;
    w := StandingSelection(nodes, ix, now);
    RequestEffect(s, service, ix, times, now, w);
    SettledAfterRequest(service, ix, times, now, nodes, w);
    TurnedWeights(nodes, ix, w);
  }

  lemma NothingToRefresh(s: State, service: Service, now: Time)
    requires Matches(Current(s, service.id), service.nodes)
    ensures Refreshed(s, service) == s
    ensures var nodes, pick := Current(s, service.id), OpSelect(service, {}, now);
            var r := SelectFrom(nodes, {}, now);
            && Current(Step(s, pick), service.id) == r.nodes
            && Chosen(s, pick) == if r.pick.Some? then Some(nodes[r.pick.value].conf) else None
  {
    StepOnService(s, OpSelect(service, {}, now), service.id);
  }

  lemma RequestSteps(s: State, service: Service, now: Time)
    requires Chosen(s, OpSelect(service, {}, now)).Some?
    ensures var sid, id := service.id, Chosen(s, OpSelect(service, {}, now)).value.id;
            Run(s, Request(s, service, now))
            == Step(Step(Step(s, OpSelect(service, {}, now)), OpRelease(sid, id)), OpSuccess(sid, id))
  {
    var sid, id := service.id, Chosen(s, OpSelect(service, {}, now)).value.id;
    RunThree(s, OpSelect(service, {}, now), OpRelease(sid, id), OpSuccess(sid, id));
  }

  lemma RequestFrom(s: State, service: Service, now: Time, picked: seq<Node>, i: nat)
    requires i < |picked| && DistinctIds(picked)
    requires Current(Step(s, OpSelect(service, {}, now)), service.id) == picked
    requires Chosen(s, OpSelect(service, {}, now)) == Some(picked[i].conf)
    ensures Current(Run(s, Request(s, service, now)), service.id) == picked[i := Succeeded(Released(picked[i]))]
  {
    RequestSteps(s, service, now);
    FinishRequest(Step(s, OpSelect(service, {}, now)), service.id, i);
  }

  lemma Overwrite<T>(s: seq<T>, i: nat, x: T, y: T)
    requires i < |s|
    ensures s[i := x][i := y] == s[i := y]
  {
  }

  function Finished(nodes: seq<Node>, ix: seq<nat>, w: nat): seq<Node>
    requires Indices(ix, |nodes|) && w < |ix|
  {
    Bumped(nodes, ix)[ix[w] := Succeeded(Released(Held(nodes, ix, w)))]
  }

  lemma RequestEffect(s: State, service: Service, ix: seq<nat>, times: seq<Time>, now: Time, w: nat)
    requires now in times && Ready(service, ix, times, Current(s, service.id))
    requires TurnTaken(Current(s, service.id), ix, w, SelectFrom(Current(s, service.id), {}, now))
    ensures var nodes := Current(s, service.id);
            && Current(Run(s, Request(s, service, now)), service.id) == Finished(nodes, ix, w)
            && Chosen(s, OpSelect(service, {}, now)) == Some(nodes[ix[w]].conf)
  {
    hide Step, Run, Request, SelectFrom, Available, FirstMax, Sum, AdjustedWeight;
    var nodes := Current(s, service.id);
    var bumped, held := Bumped(nodes, ix), Held(nodes, ix, w);
    NothingToRefresh(s, service, now);
    SameConf(nodes, bumped[ix[w] := held]);
    RequestFrom(s, service, now, bumped[ix[w] := held], ix[w]);
    Overwrite(bumped, ix[w], held, Succeeded(Released(held)));
  }

  lemma FinishRequest(s: State, sid: int, w: nat)
    requires w < |Current(s, sid)| && DistinctIds(Current(s, sid))
    ensures var nodes := Current(s, sid);
            var id := nodes[w].conf.id;
            Current(Step(Step(s, OpRelease(sid, id)), OpSuccess(sid, id)), sid)
            == nodes[w := Succeeded(Released(nodes[w]))]
  {
    var nodes := Current(s, sid);
    var release, success := OpRelease(sid, nodes[w].conf.id), OpSuccess(sid, nodes[w].conf.id);
    FindsAt(nodes, w);
    StepOnService(s, release, sid);
    var s' := Step(s, release);
    assert Current(s', sid) == nodes[w := Released(nodes[w])];
    assert DistinctIds(Current(s', sid));
    FindsAt(Current(s', sid), w);
    StepOnService(s', success, sid);
  }

  lemma SettledAfterRequest(service: Service, ix: seq<nat>, times: seq<Time>, now: Time, nodes: seq<Node>, w: nat)
    requires now in times && Ready(service, ix, times, nodes) && w < |ix|
    ensures Steady(service, ix, times, nodes, Finished(nodes, ix, w))
  {
    hide Matches, DistinctIds, AdjustedWeight, Sum, Available;
    var nodes' := Finished(nodes, ix, w);
    assert IdleNode(nodes[ix[w]]) && ix[w] in ix;
    forall i | 0 <= i < |nodes|
      ensures nodes'[i].conf == nodes[i].conf && nodes'[i].activeRequests == nodes[i].activeRequests
      ensures forall t :: t in times ==> (Available(nodes'[i], t) <==> Available(nodes[i], t))
    {
      if i == ix[w] {
        HeldSettles(nodes[i], Sum(Adjusted(nodes, ix)));
        forall t | t in times ensures Available(nodes'[i], t) {
          ServedStaysAvailable(nodes[i], now, t, nodes'[i]);
        }
      } else {
        forall t | t in times ensures Available(nodes'[i], t) <==> Available(nodes[i], t) {
          CreditedAvailable(nodes[i], t);
        }
      }
    }
    SameConf(nodes, nodes');
  }

  lemma HeldSettles(n: Node, total: int)
    requires IdleNode(n)
    ensures var n' := Succeeded(Released(Charged(Credited(n), total)));
            n'.conf == n.conf && n'.activeRequests == 0 && n'.breaker.None? && n'.disabledUntil == 0
  {
  }

  lemma ServedStaysAvailable(n: Node, now: Time, t: Time, n': Node)
    requires Available(n, now) && n'.conf == n.conf
    requires n'.activeRequests == 0 && n'.breaker.None? && n'.disabledUntil == 0
    ensures Available(n', t)
  {
  }

  lemma CreditedAvailable(n: Node, t: Time)
    ensures Available(Credited(n), t) <==> Available(n, t)
  {
  }

  lemma SameConf(nodes: seq<Node>, nodes': seq<Node>)
    requires DistinctIds(nodes) && |nodes'| == |nodes|
    requires forall i :: 0 <= i < |nodes| ==> nodes'[i].conf == nodes[i].conf
    ensures DistinctIds(nodes')
    ensures forall conf :: Matches(nodes, conf) ==> Matches(nodes', conf)
  {
  }

  lemma TurnedWeights(nodes: seq<Node>, ix: seq<nat>, w: nat)
    requires Indices(ix, |nodes|) && w < |ix|
    requires FirstMax(Plus(Weights(nodes, ix), Adjusted(nodes, ix)), w)
    ensures IsTurn(Adjusted(nodes, ix), Weights(nodes, ix), w, Weights(Finished(nodes, ix, w), ix))
  {
    hide Sum, FirstMax, AdjustedWeight;
    var nodes' := Finished(nodes, ix, w);
    var c := Plus(Weights(nodes, ix), Adjusted(nodes, ix));
    var c' := c[w := Weights(nodes, ix)[w] + Adjusted(nodes, ix)[w] - Sum(Adjusted(nodes, ix))];
    forall k | 0 <= k < |ix| ensures Weights(nodes', ix)[k] == c'[k] {
      assert ix[k] in ix;
    }
    assert Weights(nodes', ix) == c';
  }

  lemma RunThree(s: State, x: Op, y: Op, z: Op)
    ensures Run(s, [x, y, z]) == Step(Step(Step(s, x), y), z)
  {
    assert [x] == [] + [x] && [x, y] == [x] + [y] && [x, y, z] == [x, y] + [z];
    RunSnoc(s, [], x);
    RunSnoc(s, [x], y);
    RunSnoc(s, [x, y], z);
  }

  predicate Serves(nodes: seq<Node>, ix: seq<nat>, ws: seq<nat>, ids: seq<int>)
    requires Indices(ix, |nodes|)
  {
    |ws| <= |ids| && forall k :: 0 <= k < |ws| ==> ws[k] < |ix| && ids[k] == nodes[ix[ws[k]]].conf.id
  }

  /** `cs` and `ws` are the weights and winners of the first `m` requests. */
  predicate Tracks(sid: int, states: seq<State>, ids: seq<int>, ix: seq<nat>, m: nat, cs: seq<seq<int>>, ws: seq<nat>)
    requires m < |states| && m <= |ids|
  {
    var nodes := Current(states[0], sid);
    && |ws| == m && Indices(ix, |nodes|)
    && Turns(Adjusted(nodes, ix), cs, ws)
    && (forall k :: 0 <= k <= m ==>
          var at := Current(states[k], sid);
          Indices(ix, |at|) && cs[k] == Weights(at, ix))
    && Serves(nodes, ix, ws, ids)
  }

  /** Nodes, weights and winners of a serving run, read off state by state. */
  lemma {:induction false} ServingIsRoundRobin(service: Service, states: seq<State>, times: seq<Time>, ids: seq<int>,
                                               ix: seq<nat>, m: nat)
      returns (cs: seq<seq<int>>, ws: seq<nat>)
    requires Serving(service, states, times, ids) && m <= |times|
    requires Ready(service, ix, times, Current(states[0], service.id))
    ensures Tracks(service.id, states, ids, ix, m, cs, ws)
    ensures Steady(service, ix, times, Current(states[0], service.id), Current(states[m], service.id))
    decreases m
  {
    hide IsTurn, AdjustedWeight, Matches, DistinctIds, IdleNode, AvailableAt, Sum;
    var sid, nodes := service.id, Current(states[0], service.id);
    if m == 0 {
      cs, ws := [Weights(nodes, ix)], [];
    } else {
      cs, ws := ServingIsRoundRobin(service, states, times, ids, ix, m - 1);
      var w := NextTurn(service, states, times, ids, ix, m - 1);
      SteadyAgain(service, ix, times, nodes, Current(states[m - 1], sid), Current(states[m], sid));
      cs, ws := TracksOn(sid, states, ids, ix, m - 1, cs, ws, w);
    }
  }

  lemma NextTurn(service: Service, states: seq<State>, times: seq<Time>, ids: seq<int>, ix: seq<nat>, k: nat)
      returns (w: nat)
    requires Serving(service, states, times, ids) && k < |times|
    requires Ready(service, ix, times, Current(states[k], service.id))
    ensures var nodes, nodes' := Current(states[k], service.id), Current(states[k + 1], service.id);
            && Steady(service, ix, times, nodes, nodes')
            && IsTurn(Adjusted(nodes, ix), Weights(nodes, ix), w, Weights(nodes', ix))
            && w < |ix| && ids[k] == nodes[ix[w]].conf.id
  {
    hide IsTurn, AdjustedWeight, Matches, DistinctIds, IdleNode, AvailableAt, Run, Request;
    assert Answers(service, states[k], times[k], ids[k], states[k + 1]);
    w := ReadyRequestIsTurn(states[k], service, ix, times, times[k]);
  }

  lemma SteadyAgain(service: Service, ix: seq<nat>, times: seq<Time>, nodes: seq<Node>, mid: seq<Node>,
                    nodes': seq<Node>)
    requires Indices(ix, |nodes|)
    requires Steady(service, ix, times, nodes, mid) && Steady(service, ix, times, mid, nodes')
    ensures Steady(service, ix, times, nodes, nodes') && Adjusted(mid, ix) == Adjusted(nodes, ix)
  {
    hide AdjustedWeight, Matches, DistinctIds, IdleNode, AvailableAt;
  }

  lemma TracksOn(sid: int, states: seq<State>, ids: seq<int>, ix: seq<nat>, m: nat, cs: seq<seq<int>>, ws: seq<nat>,
                 w: nat)
      returns (cs': seq<seq<int>>, ws': seq<nat>)
    requires m + 1 < |states| && m < |ids|
    requires Tracks(sid, states, ids, ix, m, cs, ws)
    requires var nodes, before, after := Current(states[0], sid), Current(states[m], sid), Current(states[m + 1], sid);
             && |before| == |nodes| && |after| == |nodes| && Adjusted(before, ix) == Adjusted(nodes, ix)
             && IsTurn(Adjusted(before, ix), Weights(before, ix), w, Weights(after, ix))
             && w < |ix| && ids[m] == nodes[ix[w]].conf.id
    ensures Tracks(sid, states, ids, ix, m + 1, cs', ws')
  {
    hide Sum, AdjustedWeight, IsTurn;
    cs', ws' := Appended(Adjusted(Current(states[0], sid), ix), cs, ws, w, Weights(Current(states[m + 1], sid), ix));
  }

  lemma Appended(a: seq<int>, cs: seq<seq<int>>, ws: seq<nat>, w: nat, c: seq<int>)
      returns (cs': seq<seq<int>>, ws': seq<nat>)
    requires Turns(a, cs, ws) && IsTurn(a, cs[|ws|], w, c)
    ensures cs' == cs + [c] && ws' == ws + [w] && Turns(a, cs', ws')
  {
    cs', ws' := cs + [c], ws + [w];
    forall k | 0 <= k < |ws'| ensures IsTurn(a, cs'[k], ws'[k], cs'[k + 1]) {
      if k < |ws| {
        assert IsTurn(a, cs[k], ws[k], cs[k + 1]);
      }
    }
  }

  function Occurrences(ids: seq<int>, id: int): nat {
    multiset(ids)[id]
  }

  lemma SameServer(nodes: seq<Node>, ix: seq<nat>, i: nat, j: nat)
    requires DistinctIds(nodes) && Indices(ix, |nodes|) && i < |ix| && j < |ix|
    ensures nodes[ix[i]].conf.id == nodes[ix[j]].conf.id <==> i == j
  {
  }

  /** Node IDs are distinct, so counting IDs is counting winners. */
  lemma {:induction false} CountById(nodes: seq<Node>, ix: seq<nat>, ws: seq<nat>, ids: seq<int>, i: nat)
    requires DistinctIds(nodes) && Indices(ix, |nodes|) && i < |ix|
    requires Serves(nodes, ix, ws, ids) && |ids| == |ws|
    ensures Occurrences(ids, nodes[ix[i]].conf.id) == Count(ws, i)
    decreases |ws|
  {
    hide DistinctIds, Count, Occurrences;
    if ws == [] {
      NoneCounted(i, nodes[ix[i]].conf.id);
    } else {
      var m := |ws| - 1;
      CountById(nodes, ix, ws[..m], ids[..m], i);
      SameServer(nodes, ix, i, ws[m]);
      CountLast(ws, i);
      OccurrencesLast(ids, nodes[ix[i]].conf.id);
    }
  }

  lemma NoneCounted(i: nat, id: int)
    ensures Count([], i) == 0 && Occurrences([], id) == 0
  {
  }

  lemma OccurrencesLast(ids: seq<int>, id: int)
    requires ids != []
    ensures Occurrences(ids, id) == Occurrences(ids[..|ids| - 1], id) + if ids[|ids| - 1] == id then 1 else 0
  {
    assert ids == ids[..|ids| - 1] + [ids[|ids| - 1]];
  }

  // ----- from any state, refreshed or not

  /** The service's node list as the next selection will find it. */
  function Listed(s: State, service: Service): seq<Node> {
    Current(Refreshed(s, service), service.id)
  }

  /** A request makes the same of a state and of the state refreshed. */
  lemma RequestRefreshes(s: State, service: Service, now: Time)
    ensures var r := Refreshed(s, service);
            && Refreshed(r, service) == r
            && Chosen(r, OpSelect(service, {}, now)) == Chosen(s, OpSelect(service, {}, now))
            && Request(r, service, now) == Request(s, service, now)
            && Run(r, Request(r, service, now)) == Run(s, Request(s, service, now))
  {
    hide SelectFrom, Rebuild, Matches;
    var r, pick := Refreshed(s, service), OpSelect(service, {}, now);
    RefreshedList(s, service);
    assert Refreshed(r, service) == r;
    assert Step(r, pick) == Step(s, pick);
    hide Step, Chosen, Refreshed;
    if Chosen(s, pick).Some? {
      RequestSteps(s, service, now);
      RequestSteps(r, service, now);
    } else {
      RunOne(s, pick);
      RunOne(r, pick);
    }
  }

  lemma RunOne(s: State, op: Op)
    ensures Run(s, [op]) == Step(s, op)
  {
    RunSnoc(s, [], op);
    assert [] + [op] == [op];
  }

  /** One served request, from any state, is one round-robin turn on the list the
      selection finds, and leaves the service ready. */
  lemma RequestIsTurn(s: State, service: Service, ix: seq<nat>, times: seq<Time>, now: Time) returns (w: nat)
    requires now in times && Ready(service, ix, times, Listed(s, service))
    ensures var nodes := Listed(s, service);
            var nodes' := Current(Run(s, Request(s, service, now)), service.id);
            && Steady(service, ix, times, nodes, nodes')
            && IsTurn(Adjusted(nodes, ix), Weights(nodes, ix), w, Weights(nodes', ix))
            && w < |ix|
            && Chosen(s, OpSelect(service, {}, now)) == Some(nodes[ix[w]].conf)
  {
    hide Run, Chosen, Request, Refreshed, Ready, IsTurn, Steady;
    RequestRefreshes(s, service, now);
    w := ReadyRequestIsTurn(Refreshed(s, service), service, ix, times, now);
  }

  /** A serving run, with the state it starts in refreshed. */
  function Started(service: Service, states: seq<State>): seq<State>
    requires states != []
  {
    [Refreshed(states[0], service)] + states[1..]
  }

  lemma ServingStarted(service: Service, states: seq<State>, times: seq<Time>, ids: seq<int>)
    requires Serving(service, states, times, ids)
    ensures Serving(service, Started(service, states), times, ids)
  {
    hide Run, Request, Chosen, Refreshed;
    var states' := Started(service, states);
    forall k | 0 <= k < |times| ensures Answers(service, states'[k], times[k], ids[k], states'[k + 1]) {
      assert Answers(service, states[k], times[k], ids[k], states[k + 1]);
      if k == 0 {
        RequestRefreshes(states[0], service, times[0]);
      }
    }
  }

  /** When the service is first looked at it stands at all the times, with the
      weights of the standing nodes 0. */
  predicate AtRest(s: State, service: Service, ix: seq<nat>, times: seq<Time>) {
    Ready(service, ix, times, Listed(s, service)) && Weights(Listed(s, service), ix) == Zeros(|ix|)
  }

  lemma TracksWindow(nodes: seq<Node>, ix: seq<nat>, ids: seq<int>, cs: seq<seq<int>>, ws: seq<nat>, start: nat,
                     total: nat, i: nat)
    requires DistinctIds(nodes) && Indices(ix, |nodes|) && i < |ix|
    requires |ws| == |ids| && Turns(Adjusted(nodes, ix), cs, ws) && cs[0] == Zeros(|ix|)
    requires Serves(nodes, ix, ws, ids)
    requires total == Sum(Adjusted(nodes, ix)) && start + total <= |ids|
    ensures Occurrences(ids[start..start + total], nodes[ix[i]].conf.id) == AdjustedWeight(nodes[ix[i]].conf)
  {
    hide Sum, IsTurn, AdjustedWeight, DistinctIds, Count, Occurrences;
    AnyPeriodIsFair(Adjusted(nodes, ix), cs, ws, start, i);
    CountById(nodes, ix, ws[start..start + total], ids[start..start + total], i);
  }

  /** The main theorem. A service answers requests one after the other, at any
      times, from any state whose list, once refreshed, has two or more nodes
      standing idle with weights 0. Then in every window of A consecutive requests
      (A the sum of the standing nodes' adjusted weights), wherever it starts, each
      of them serves exactly its adjusted weight. */
  lemma ExactlyProportionalShares(service: Service, states: seq<State>, times: seq<Time>, ids: seq<int>, ix: seq<nat>,
                                  start: nat, i: nat)
    requires Serving(service, states, times, ids) && AtRest(states[0], service, ix, times) && i < |ix|
    requires start + Sum(Adjusted(Listed(states[0], service), ix)) <= |times|
    ensures var nodes := Listed(states[0], service);
            var total := Sum(Adjusted(nodes, ix));
            && total >= |ix|
            && Occurrences(ids[start..start + total], nodes[ix[i]].conf.id) == AdjustedWeight(nodes[ix[i]].conf)
  {
    hide Sum, Answers, IsTurn, AdjustedWeight, DistinctIds, Matches;
    hide IdleNode, AvailableAt, Refreshed, Turns, Serves, Occurrences;
    var nodes := Listed(states[0], service);
    PositiveSum(Adjusted(nodes, ix));
    ServingStarted(service, states, times, ids);
    var cs, ws := ServingIsRoundRobin(service, Started(service, states), times, ids, ix, |times|);
    TracksWindow(nodes, ix, ids, cs, ws, start, Sum(Adjusted(nodes, ix)), i);
  }

  /** After any such window the weights are what they were before it; in
      particular every full period from rest ends with all of them at 0. */
  lemma PeriodRestoresWeights(service: Service, states: seq<State>, times: seq<Time>, ids: seq<int>, ix: seq<nat>,
                              start: nat)
    requires Serving(service, states, times, ids) && AtRest(states[0], service, ix, times)
    requires start + Sum(Adjusted(Listed(states[0], service), ix)) <= |times|
    ensures var total := Sum(Adjusted(Listed(states[0], service), ix));
            && total >= 0
            && var before, after := Listed(states[start], service), Listed(states[start + total], service);
            && Indices(ix, |before|) && Indices(ix, |after|)
            && Weights(after, ix) == Weights(before, ix)
  {
    hide Sum, Answers, IsTurn, AdjustedWeight, DistinctIds, IdleNode;
    hide AvailableAt, Rebuild, Matches, Refreshed, Turns, Serves;
    var states', a := Started(service, states), Adjusted(Listed(states[0], service), ix);
    PositiveSum(a);
    ServingStarted(service, states, times, ids);
    var cs, ws := ServingIsRoundRobin(service, states', times, ids, ix, |times|);
    Periodic(a, cs, ws, start);
    ListedLater(service, states, times, ids, ix, start);
    ListedLater(service, states, times, ids, ix, start + Sum(a));
  }

  /** Once a request has been served, refreshing changes nothing. */
  lemma ListedLater(service: Service, states: seq<State>, times: seq<Time>, ids: seq<int>, ix: seq<nat>, k: nat)
    requires Serving(service, states, times, ids) && AtRest(states[0], service, ix, times) && k <= |times|
    ensures Listed(states[k], service) == Current(Started(service, states)[k], service.id)
  {
    hide Answers, Matches, Standing, DistinctIds, IsTurn, Turns, Adjusted, Serves, Rebuild;
    ServingStarted(service, states, times, ids);
    var cs, ws := ServingIsRoundRobin(service, Started(service, states), times, ids, ix, k);
  }

  /** At every point of such a run no node is a full turn ahead of its share or
      n-1 turns behind it, and its weight says exactly by how much. */
  lemma SharesNeverDrift(service: Service, states: seq<State>, times: seq<Time>, ids: seq<int>, ix: seq<nat>, i: nat)
    requires Serving(service, states, times, ids) && AtRest(states[0], service, ix, times) && i < |ix|
    ensures var nodes, nodes' := Listed(states[0], service), Listed(states[|times|], service);
            var total := Sum(Adjusted(nodes, ix));
            && |nodes'| == |nodes|
            && nodes'[ix[i]].currentWeight
               == |times| * AdjustedWeight(nodes[ix[i]].conf) - total * Occurrences(ids, nodes[ix[i]].conf.id)
            && -total < nodes'[ix[i]].currentWeight < (|ix| - 1) * total
  {
    hide Sum, Answers, IsTurn, AdjustedWeight, DistinctIds, Matches;
    hide IdleNode, AvailableAt, Turns, Count, Occurrences, Refreshed;
    var nodes := Listed(states[0], service);
    ServingStarted(service, states, times, ids);
    var cs, ws := ServingIsRoundRobin(service, Started(service, states), times, ids, ix, |times|);
    ListedLater(service, states, times, ids, ix, |times|);
    DeviationBounded(Adjusted(nodes, ix), cs, ws, i);
    CountById(nodes, ix, ws, ids, i);
  }

  // ----- from start-up

  /** The places of the enabled nodes. */
  function Enabled(conf: seq<ServiceNode>, n: nat): (ix: seq<nat>)
    requires n <= |conf|
    ensures Indices(ix, n)
    ensures forall i :: i in ix <==> 0 <= i < n && conf[i].status == 1
  {
    if n == 0 then []
    else
      var rest := Enabled(conf, n - 1);
      if conf[n - 1].status == 1 then rest + [n - 1] else rest
  }

  /** A service the balancer has not seen yet is at rest, at any times: its list is
      built from the configuration with every weight 0. */
  lemma StartUpIsAtRest(s: State, service: Service, times: seq<Time>)
    requires service.id !in s.services && DistinctConf(service.nodes)
    requires var ix := Enabled(service.nodes, |service.nodes|);
             |ix| >= 2 && forall k :: 0 <= k < |ix| ==> service.nodes[ix[k]].availability >= 100.0
    ensures AtRest(s, service, Enabled(service.nodes, |service.nodes|), times)
    ensures |Listed(s, service)| == |service.nodes|
    ensures forall i :: 0 <= i < |service.nodes| ==> Listed(s, service)[i] == FreshNode(service.nodes[i])
  {
    hide Enabled;
    var nodes, ix := Listed(s, service), Enabled(service.nodes, |service.nodes|);
    RefreshedList(s, service);
    forall i | 0 <= i < |service.nodes| ensures nodes[i] == FreshNode(service.nodes[i]) {
      assert Previous([], service.nodes[i].id).None?;
    }
    forall t, i | t in times && 0 <= i < |nodes| ensures Available(nodes[i], t) <==> i in ix {
      FreshAvailable(service.nodes[i], t);
    }
    assert Weights(nodes, ix) == Zeros(|ix|);
  }

  lemma FreshAvailable(conf: ServiceNode, t: Time)
    ensures Available(FreshNode(conf), t) <==> conf.status == 1
  {
  }

  function ConfiguredWeights(service: Service): seq<int> {
    var ix := Enabled(service.nodes, |service.nodes|);
    seq(|ix|, k requires 0 <= k < |ix| => service.nodes[ix[k]].weight)
  }

  /** From start-up, with no assumption on any run-time state: requests served one
      after the other are shared among the enabled nodes of a service exactly in
      proportion to their weights. */
  lemma SharesFromStartUp(s: State, service: Service, states: seq<State>, times: seq<Time>, ids: seq<int>, start: nat,
                          i: nat)
    requires Serving(service, states, times, ids) && states[0] == s && service.id !in s.services
        && DistinctConf(service.nodes)
    requires var ix := Enabled(service.nodes, |service.nodes|);
             && |ix| >= 2 && i < |ix|
             && forall k :: 0 <= k < |ix| ==>
               service.nodes[ix[k]].availability == 100.0 && service.nodes[ix[k]].weight >= 1
    requires start + Sum(ConfiguredWeights(service)) <= |times|
    ensures var total, c := Sum(ConfiguredWeights(service)), service.nodes[Enabled(service.nodes, |service.nodes|)[i]];
            && total > 0
            && Occurrences(ids[start..start + total], c.id) == c.weight
  {
    hide Sum, Answers, IsTurn, AdjustedWeight, DistinctIds, Matches, IdleNode, AvailableAt, Refreshed, Enabled, AtRest;
    var ix := Enabled(service.nodes, |service.nodes|);
    StartUpIsAtRest(s, service, times);
    var nodes := Listed(s, service);
    forall k | 0 <= k < |ix| ensures AdjustedWeight(nodes[ix[k]].conf) == service.nodes[ix[k]].weight {
      AdjustedWeightFollowsAvailability(service.nodes[ix[k]], service.nodes[ix[k]]);
    }
    assert Adjusted(nodes, ix) == ConfiguredWeights(service);
    ExactlyProportionalShares(service, states, times, ids, ix, start, i);
  }
}
