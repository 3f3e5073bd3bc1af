/** The load balancer as it runs: node objects updated in place under one lock.
    Every method is proved to perform one step of the state machine in
    `Balancing`, so every theorem about its runs holds of these objects. */
module LoadBalancer {
  import opened Prelude
  import opened Nodes
  import opened Selection
  import opened Balancing
  import Availability

  class WeightedNode {
    var conf: ServiceNode
    var currentWeight: int
    var activeRequests: int
    var disabledUntil: Time
    var consecutiveFails: int
    var lastError: string
    var circuitBreaker: Option<Breaker>

    /** Where the node sits in the table; keeps node objects apart. */
    ghost const home: int
    ghost const slot: nat

    constructor (conf: ServiceNode, ghost home: int, ghost slot: nat)
      ensures State() == FreshNode(conf)
      ensures this.home == home && this.slot == slot
    {
      this.conf := conf;
      currentWeight, activeRequests, consecutiveFails := 0, 0, 0;
      disabledUntil, lastError, circuitBreaker := 0, "", None;
      this.home, this.slot := home, slot;
    }

    /** Copies the run-time fields of an earlier node object. */
    method TakeOver(source: WeightedNode)
      requires source != this
      modifies this
      ensures State() == Carried(old(source.State()), old(conf))
    {
      currentWeight := source.currentWeight;
      activeRequests := source.activeRequests;
      disabledUntil := source.disabledUntil;
      consecutiveFails := source.consecutiveFails;
      lastError := source.lastError;
      circuitBreaker := source.circuitBreaker;
    }

    /** Gives one slot back. */
    method Release()
      modifies this
      ensures State() == Released(old(State()))
    {
      if activeRequests > 0 {
        activeRequests := activeRequests - 1;
      }
    }

    method Fail(err: Option<string>, now: Time)
      modifies this
      ensures State() == Failed(old(State()), err, now)
    {
      if activeRequests > 0 {
        activeRequests := activeRequests - 1;
      }
      consecutiveFails := consecutiveFails + 1;
      disabledUntil := now + FAILURE_COOLDOWN;
      currentWeight := 0;
      circuitBreaker := Some(Breaker(Errors, now));
      if err.Some? {
        lastError := err.value;
      }
      var availability := conf.availability - 5.0;
      if availability < 0.0 {
        availability := 0.0;
      }
      conf := conf.(availability := availability);
    }

    /** `raised` tells whether the availability was still below 100. */
    method Succeed() returns (raised: bool)
      modifies this
      ensures State() == Succeeded(old(State()))
      ensures raised == (old(conf.availability) < 100.0)
    {
      if activeRequests > 0 {
        activeRequests := activeRequests - 1;
      }
      consecutiveFails := 0;
      disabledUntil := 0;
      lastError := "";
      circuitBreaker := None;
      raised := conf.availability < 100.0;
      if raised {
        var availability := conf.availability + 0.5;
        if availability > 100.0 {
          availability := 100.0;
        }
        conf := conf.(availability := availability);
      }
    }

    method Saturate(now: Time)
      modifies this
      ensures State() == Saturated(old(State()), now)
    {
      circuitBreaker := Some(Breaker(MaxConn, now));
      var availability := conf.availability - 3.0;
      if availability < 0.0 {
        availability := 0.0;
      }
      conf := conf.(availability := availability);
    }

    method Credit() returns (adjustedWeight: int)
      modifies this
      ensures State() == Credited(old(State())) && adjustedWeight == AdjustedWeight(old(conf))
    {
      adjustedWeight := AdjustedWeight(conf);
      currentWeight := currentWeight + adjustedWeight;
    }

    method Charge(totalWeight: int)
      modifies this
      ensures State() == Charged(old(State()), totalWeight)
    {
      currentWeight := currentWeight - totalWeight;
      activeRequests := activeRequests + 1;
    }

    function State(): Node
      reads this
    {
      Node(conf, currentWeight, activeRequests, disabledUntil, consecutiveFails, lastError, circuitBreaker)
    }
  }

  ghost function States(ns: seq<WeightedNode>): (r: seq<Node>)
    reads ns
    ensures |r| == |ns| && forall i :: 0 <= i < |ns| ==> r[i] == ns[i].State()
  {
    seq(|ns|, i requires 0 <= i < |ns| reads ns => ns[i].State())
  }

  ghost predicate Slotted(ns: seq<WeightedNode>, home: int) {
    forall i :: 0 <= i < |ns| ==> ns[i].home == home && ns[i].slot == i
  }

  /** `list` holds the nodes of `all` at the indices `ix`. */
  ghost predicate Slice(list: seq<WeightedNode>, all: seq<WeightedNode>, ix: seq<nat>) {
    && |list| == |ix|
    && forall k :: 0 <= k < |list| ==> ix[k] < |all| && list[k] == all[ix[k]]
  }

  lemma NothingSliced(all: seq<WeightedNode>)
    ensures Slice([], all, [])
  {
  }

  lemma SliceAt(list: seq<WeightedNode>, all: seq<WeightedNode>, ix: seq<nat>, k: nat)
    requires Slice(list, all, ix)
    ensures |ix| == |list| && (k < |list| ==> ix[k] < |all| && list[k] == all[ix[k]])
  {
  }

  lemma SliceNext(list: seq<WeightedNode>, all: seq<WeightedNode>, ix: seq<nat>, i: nat)
    requires Slice(list, all, ix) && i < |all|
    ensures Slice(list + [all[i]], all, ix + [i])
  {
  }

  // ----- selection.go

  lemma EligibleNext(nodes: seq<Node>, ix: seq<nat>, k: nat, now: Time)
    requires Indices(ix, |nodes|) && k < |ix|
    ensures Indices(ix[..k], |nodes|) && Indices(ix[..k + 1], |nodes|)
    ensures Eligible(nodes, ix[..k + 1], now)
            == if Available(nodes[ix[k]], now) then Eligible(nodes, ix[..k], now) + [ix[k]]
              else Eligible(nodes, ix[..k], now)
  {
    assert ix[..k + 1][..k] == ix[..k];
  }

  lemma EligibleNone(nodes: seq<Node>, now: Time)
    ensures Eligible(nodes, [], now) == []
  {
  }

  lemma AvailableMeans(n: Node, now: Time)
    ensures Available(n, now) <==>
            && n.conf.status == 1
            && !(n.breaker.Some? && IsActive(n.breaker, now))
            && !(n.disabledUntil != 0 && n.disabledUntil > now)
            && n.activeRequests < if n.conf.maxConn <= 0 then DEFAULT_MAX_CONN else n.conf.maxConn
  {
  }

  /** The available nodes of a list, in order. */
  method FilterAvailableNodes(nodes: seq<WeightedNode>, ghost all: seq<WeightedNode>, ghost ix: seq<nat>, now: Time)
      returns (active: seq<WeightedNode>, ghost ax: seq<nat>)
    requires Slice(nodes, all, ix) && Indices(ix, |all|)
    ensures Slice(active, all, ax)
    ensures ax == Eligible(States(all), ix, now)
  {
    hide Eligible, Available, IsActive, Slice;
    active, ax := [], [];
    NothingSliced(all);
    SliceAt(nodes, all, ix, 0);
    EligibleNone(States(all), now);
    for k := 0 to |nodes|
      invariant Indices(ix[..k], |all|)
      invariant Slice(active, all, ax)
      invariant ax == Eligible(States(all), ix[..k], now)
    {
      SliceAt(nodes, all, ix, k);
      var node := nodes[k];
      EligibleNext(States(all), ix, k, now);
      AvailableMeans(node.State(), now);
      if node.conf.status != 1 {
        continue;
      }
      if node.circuitBreaker.Some? && IsActive(node.circuitBreaker, now) {
        continue;
      }
      if node.disabledUntil != 0 && node.disabledUntil > now {
        continue;
      }
      var maxConn := node.conf.maxConn;
      if maxConn <= 0 {
        maxConn := DEFAULT_MAX_CONN;
      }
      if node.activeRequests >= maxConn {
        continue;
      }
      SliceNext(active, all, ax, ix[k]);
      active := active + [node];
      ax := ax + [ix[k]];
    }
    assert ix[..|nodes|] == ix;
  }

  /** -1, 0 or 1 as the first node is less, equally or more loaded. */
  method CompareNodeLoad(a: WeightedNode, b: WeightedNode) returns (c: int)
    ensures c == if !LoadAtMost(b.State(), a.State()) then -1 else if LoadAtMost(a.State(), b.State()) then 0 else 1
  {
    var left := a.activeRequests * NormalizedWeight(b.conf.weight);
    var right := b.activeRequests * NormalizedWeight(a.conf.weight);
    if left < right {
      c := -1;
    } else if left > right {
      c := 1;
    } else {
      c := 0;
    }
  }

  /** `cx` is exactly the minimisers of `pool`, in order. */
  ghost predicate Minimisers(nodes: seq<Node>, pool: seq<nat>, cx: seq<nat>) {
    && Indices(pool, |nodes|) && Indices(cx, |nodes|)
    && cx == LeastLoaded(nodes, pool, pool)
  }

  /** Compares a node with the first candidate and updates the candidates. */
  method CompareWithFirst(node: WeightedNode, candidates: seq<WeightedNode>, ghost all: seq<WeightedNode>,
                          ghost pool: seq<nat>, ghost x: nat, ghost cx: seq<nat>)
      returns (candidates': seq<WeightedNode>, ghost cx': seq<nat>)
    requires x < |all| && node == all[x] && Indices(pool, x) && pool != []
    requires candidates != [] && Slice(candidates, all, cx) && Minimisers(States(all), pool, cx)
    ensures candidates' != [] && Slice(candidates', all, cx') && Minimisers(States(all), pool + [x], cx')
  {
    hide LoadAtMost, LeastLoaded;
    candidates', cx' := candidates, cx;
    OnePassStep(States(all), pool, x);
    var c := CompareNodeLoad(node, candidates[0]);
    if c == -1 {
      candidates', cx' := [node], [x];
    } else if c == 0 {
      candidates', cx' := candidates + [node], cx + [x];
    }
  }

  lemma OnlyCandidate(nodes: seq<Node>, x: nat)
    requires x < |nodes|
    ensures Minimisers(nodes, [x], [x])
  {
    LoadTotal(nodes[x], nodes[x]);
    assert [x][..0] == [];
  }

  /** One pass that compares each node with the first candidate only; it ends with
      exactly the least loaded nodes, in order. */
  method LeastLoadedNodes(available: seq<WeightedNode>, ghost all: seq<WeightedNode>, ghost ax: seq<nat>)
      returns (candidates: seq<WeightedNode>, ghost cx: seq<nat>)
    requires Slice(available, all, ax) && Indices(ax, |all|) && available != []
    ensures Slice(candidates, all, cx) && candidates != []
    ensures Minimisers(States(all), ax, cx)
  {
    ghost var pool: seq<nat> := [];
    candidates, cx := [], [];
    for k := 0 to |available|
      invariant pool == ax[..k]
      invariant k == 0 ==> candidates == [] && cx == []
      invariant k > 0 ==> candidates != [] && Slice(candidates, all, cx) && Minimisers(States(all), pool, cx)
    {
      var node := available[k];
      PrefixIndices(ax, k, |all|);
      if |candidates| == 0 {
        candidates, cx := [node], [ax[k]];
        OnlyCandidate(States(all), ax[k]);
      } else {
        candidates, cx := CompareWithFirst(node, candidates, all, pool, ax[k], cx);
      }
      pool := pool + [ax[k]];
    }
    assert pool == ax;
  }

  lemma PrefixIndices(cx: seq<nat>, k: nat, n: nat)
    requires Indices(cx, n) && k < |cx|
    ensures Indices(cx[..k], n) && Indices(cx[..k], cx[k]) && Indices(cx[..k + 1], n) && cx[k] < n
    ensures cx[..k + 1] == cx[..k] + [cx[k]]
    ensures cx[k] !in cx[..k] && forall j :: j in cx[..k] ==> j < cx[k]
  {
  }

  /** Crediting one more candidate: weights, total and running best. */
  lemma TurnNext(nodes: seq<Node>, cx: seq<nat>, x: nat, b: nat)
    requires Indices(cx, |nodes|) && Indices(cx + [x], |nodes|) && x < |nodes| && x !in cx
    requires forall j :: j in cx ==> j < x
    requires cx != [] ==> IsWinner(Bumped(nodes, cx), cx, b)
    ensures Bumped(nodes, cx)[x] == nodes[x]
    ensures Bumped(nodes, cx + [x]) == Bumped(nodes, cx)[x := Credited(nodes[x])]
    ensures Total(nodes, cx + [x]) == Total(nodes, cx) + AdjustedWeight(nodes[x].conf)
    ensures if cx == [] || Credited(nodes[x]).currentWeight > Bumped(nodes, cx)[b].currentWeight
            then IsWinner(Bumped(nodes, cx + [x]), cx + [x], x)
            else IsWinner(Bumped(nodes, cx + [x]), cx + [x], b)
  {
    assert Bumped(nodes, cx + [x]) == Bumped(nodes, cx)[x := Credited(nodes[x])];
    WinnerNext(Bumped(nodes, cx), cx, x, Credited(nodes[x]), b);
    TotalNext(nodes, cx, x);
  }

  lemma TotalNext(nodes: seq<Node>, cx: seq<nat>, x: nat)
    requires Indices(cx, |nodes|) && Indices(cx + [x], |nodes|) && x < |nodes|
    ensures Total(nodes, cx + [x]) == Total(nodes, cx) + AdjustedWeight(nodes[x].conf)
  {
    assert (cx + [x])[..|cx|] == cx;
  }

  lemma NothingCredited(nodes: seq<Node>)
    ensures Bumped(nodes, []) == nodes && Total(nodes, []) == 0
  {
  }

  /** How the running best changes when one more candidate is credited. */
  lemma WinnerNext(bumped: seq<Node>, cx: seq<nat>, x: nat, n: Node, b: nat)
    requires Indices(cx, |bumped|) && Indices(cx + [x], |bumped|) && x < |bumped| && x !in cx
    requires forall j :: j in cx ==> j < x
    requires cx != [] ==> IsWinner(bumped, cx, b)
    ensures var bumped' := bumped[x := n];
            if cx == [] || n.currentWeight > bumped[b].currentWeight
            then IsWinner(bumped', cx + [x], x)
            else IsWinner(bumped', cx + [x], b)
  {
  }

  /** Selects one node of `nodes` (the ones of `all` not excluded). */
  method SelectNodeByLoad(nodes: seq<WeightedNode>, ghost all: seq<WeightedNode>, ghost ix: seq<nat>, ghost home: int,
                          now: Time)
      returns (chosen: Option<ServiceNode>)
    requires Slotted(all, home) && Slice(nodes, all, ix) && Indices(ix, |all|)
    modifies all
    ensures var r := Select(old(States(all)), Eligible(old(States(all)), ix, now));
            && States(all) == r.nodes
            && chosen == if r.pick.Some? then Some(old(States(all))[r.pick.value].conf) else None
  {
    ghost var s0 := States(all);
    var available, ax := FilterAvailableNodes(nodes, all, ix, now);
    if |available| == 0 {
      return None;
    }
    if |available| == 1 {
      available[0].activeRequests := available[0].activeRequests + 1;
      OneChanged(all, home, ax[0], s0);
      return Some(available[0].conf);
    }
    var candidates, cx := LeastLoadedNodes(available, all, ax);
    chosen := PickHeaviest(candidates, all, cx, home);
  }

  /** The weighted round-robin turn among the candidates. */
  method PickHeaviest(candidates: seq<WeightedNode>, ghost all: seq<WeightedNode>, ghost cx: seq<nat>, ghost home: int)
      returns (chosen: Option<ServiceNode>)
    requires Slotted(all, home) && Slice(candidates, all, cx) && Indices(cx, |all|) && candidates != []
    modifies all
    ensures var s0 := old(States(all));
            var w := Winner(Bumped(s0, cx), cx);
            && States(all) == Bumped(s0, cx)[w := Charged(Bumped(s0, cx)[w], Total(s0, cx))]
            && chosen == Some(s0[w].conf)
  {
    ghost var s0 := States(all);
    var best, totalWeight, b := CreditAll(candidates, all, cx, home);
    ghost var s1 := States(all);
    WinnerUnique(s1, cx, b, Winner(s1, cx));
    best.Charge(totalWeight);
    OneChanged(all, home, b, s1);
    assert s1[b].conf == s0[b].conf;
    chosen := Some(best.conf);
  }

  /** Credits every candidate its adjusted weight and finds the first of the
      heaviest on the way. */
  method CreditAll(candidates: seq<WeightedNode>, ghost all: seq<WeightedNode>, ghost cx: seq<nat>, ghost home: int)
      returns (best: WeightedNode, totalWeight: int, ghost b: nat)
    requires Slotted(all, home) && Slice(candidates, all, cx) && Indices(cx, |all|) && candidates != []
    modifies all
    ensures States(all) == Bumped(old(States(all)), cx)
    ensures totalWeight == Total(old(States(all)), cx)
    ensures b < |all| && best == all[b] && IsWinner(States(all), cx, b)
  {
    hide Bumped, Total, IsWinner;
    ghost var s0 := States(all);
    ghost var seen: seq<nat> := [];
    NothingCredited(s0);
    var found: WeightedNode? := null;
    b, totalWeight := 0, 0;
    for k := 0 to |candidates|
      invariant seen == cx[..k] && Indices(seen, |all|)
      invariant States(all) == Bumped(s0, seen)
      invariant totalWeight == Total(s0, seen)
      invariant k == 0 <==> found == null
      invariant k > 0 ==> b < |all| && found == all[b] && IsWinner(States(all), seen, b)
    {
      PrefixIndices(cx, k, |all|);
      var adjustedWeight := CreditNext(candidates[k], all, home, s0, seen, cx[k], b);
      totalWeight := totalWeight + adjustedWeight;
      if found == null || candidates[k].currentWeight > found.currentWeight {
        found, b := candidates[k], cx[k];
      }
      seen := seen + [cx[k]];
    }
    assert seen == cx;
    best := found;
  }

  method CreditNext(node: WeightedNode, ghost all: seq<WeightedNode>, ghost home: int, ghost s0: seq<Node>,
                    ghost seen: seq<nat>, ghost x: nat, ghost b: nat)
      returns (adjustedWeight: int)
    requires Slotted(all, home) && |s0| == |all| && x < |all| && node == all[x]
    requires Indices(seen, |all|) && Indices(seen + [x], |all|) && x !in seen && forall j :: j in seen ==> j < x
    requires States(all) == Bumped(s0, seen)
    requires seen != [] ==> IsWinner(States(all), seen, b)
    modifies node
    ensures States(all) == Bumped(s0, seen + [x])
    ensures Total(s0, seen + [x]) == Total(s0, seen) + adjustedWeight
    ensures if seen == [] || States(all)[x].currentWeight > States(all)[b].currentWeight
            then IsWinner(States(all), seen + [x], x)
            else IsWinner(States(all), seen + [x], b)
  {
    TurnNext(s0, seen, x, b);
    adjustedWeight := node.Credit();
    OneChanged(all, home, x, Bumped(s0, seen));
  }

  /** Node objects are distinct, so changing one changes one state. */
  lemma OneChanged(all: seq<WeightedNode>, home: int, i: nat, before: seq<Node>)
    requires Slotted(all, home) && i < |all| && |before| == |all|
    requires forall j :: 0 <= j < |all| && all[j] != all[i] ==> all[j].State() == before[j]
    ensures States(all) == before[i := all[i].State()]
  {
    assert forall j :: 0 <= j < |all| && all[j] == all[i] ==> j == all[j].slot == all[i].slot == i;
  }

  // ----- the table of services

  class Balancer {
    var runtimeNodes: map<int, seq<WeightedNode>>
    var availabilityQueue: map<int, real>
    const dbUpdater: bool

    constructor (dbUpdater: bool)
      ensures Valid() && View() == State(map[], map[], dbUpdater)
      ensures Repr() == {}
    {
      this.dbUpdater := dbUpdater;
      runtimeNodes, availabilityQueue := map[], map[];
    }

    ghost function Repr(): set<WeightedNode>
      reads this
    {
      set s, i | s in runtimeNodes && 0 <= i < |runtimeNodes[s]| :: runtimeNodes[s][i]
    }

    ghost predicate Valid()
      reads this
    {
      forall s :: s in runtimeNodes ==> Slotted(runtimeNodes[s], s)
    }

    /** The state-machine state these objects stand for. */
    ghost function View(): State
      reads this, Repr()
    {
      State(map s | s in runtimeNodes :: States(runtimeNodes[s]), availabilityQueue, dbUpdater)
    }

    /** The table holds as many nodes per service as `before` describes. */
    ghost predicate Shaped(before: map<int, seq<Node>>)
      reads this
    {
      && before.Keys == runtimeNodes.Keys
      && forall s :: s in runtimeNodes ==> |before[s]| == |runtimeNodes[s]|
    }

    /** Nodes of other services are other objects. */
    lemma OnlyService(sid: int, before: map<int, seq<Node>>)
      requires Valid() && sid in runtimeNodes && Shaped(before)
      requires forall s, j :: s in runtimeNodes && s != sid && 0 <= j < |runtimeNodes[s]| ==>
                 runtimeNodes[s][j].State() == before[s][j]
      ensures View().services == before[sid := States(runtimeNodes[sid])]
    {
      forall s | s in runtimeNodes && s != sid ensures States(runtimeNodes[s]) == before[s] {
      }
    }

    lemma OnlyNode(sid: int, i: nat, before: map<int, seq<Node>>)
      requires Valid() && Shaped(before) && sid in runtimeNodes && i < |runtimeNodes[sid]|
      requires forall s, j ::
                 s in runtimeNodes && 0 <= j < |runtimeNodes[s]| && runtimeNodes[s][j] != runtimeNodes[sid][i] ==>
                   runtimeNodes[s][j].State() == before[s][j]
      ensures View().services == before[sid := before[sid][i := runtimeNodes[sid][i].State()]]
    {
      assert Slotted(runtimeNodes[sid], sid);
      forall s, j | s in runtimeNodes && 0 <= j < |runtimeNodes[s]| && (s != sid || j != i)
        ensures runtimeNodes[s][j] != runtimeNodes[sid][i]
      {
        assert Slotted(runtimeNodes[s], s);
      }
      OnlyService(sid, before);
      assert States(runtimeNodes[sid]) == before[sid][i := runtimeNodes[sid][i].State()];
    }

    // ----- nodes.go

    method RuntimeNodesMatch(current: seq<WeightedNode>, nodes: seq<ServiceNode>) returns (same: bool)
      ensures same == Matches(States(current), nodes)
      ensures same <==>
              && |current| == |nodes|
              && forall i :: 0 <= i < |nodes| ==>
                   && current[i].conf.id == nodes[i].id && current[i].conf.url == nodes[i].url
                   && current[i].conf.weight == nodes[i].weight && current[i].conf.maxConn == nodes[i].maxConn
                   && current[i].conf.status == nodes[i].status
    {
      if |current| != |nodes| {
        return false;
      }
      for i := 0 to |nodes|
        invariant forall j :: 0 <= j < i ==> SameNode(States(current)[j], nodes[j])
      {
        if current[i].conf.id != nodes[i].id || current[i].conf.url != nodes[i].url
           || current[i].conf.weight != nodes[i].weight || current[i].conf.maxConn != nodes[i].maxConn
           || current[i].conf.status != nodes[i].status
        {
          assert !SameNode(States(current)[i], nodes[i]);
          return false;
        }
      }
      same := true;
    }

    /** The last node under each ID. */
    method IndexById(current: seq<WeightedNode>) returns (previous: map<int, WeightedNode>)
      ensures forall id :: id in previous <==> Previous(States(current), id).Some?
      ensures forall id :: id in previous ==>
                previous[id] in current && Previous(States(current), id) == Some(previous[id].State())
    {
      previous := map[];
      ghost var nodes := States(current);
      for k := 0 to |current|
        invariant forall id :: id in previous <==> Previous(nodes[..k], id).Some?
        invariant forall id :: id in previous ==>
                    previous[id] in current && Previous(nodes[..k], id) == Some(previous[id].State())
      {
        assert nodes[..k + 1][..k] == nodes[..k];
        previous := previous[current[k].conf.id := current[k]];
      }
      assert nodes[..|current|] == nodes;
    }

    /** New node objects for the new configuration, each taking over the run-time
        fields its ID had. */
    method RebuildRuntimeNodes(service: Service, current: seq<WeightedNode>) returns (newNodes: seq<WeightedNode>)
      ensures States(newNodes) == Rebuild(service.nodes, old(States(current)))
      ensures Slotted(newNodes, service.id)
      ensures forall i :: 0 <= i < |newNodes| ==> fresh(newNodes[i])
    {
      ghost var nodes := States(current);
      var previous := IndexById(current);
      newNodes := [];
      for i := 0 to |service.nodes|
        invariant |newNodes| == i && Slotted(newNodes, service.id)
        invariant forall j :: 0 <= j < i ==> fresh(newNodes[j])
        invariant forall j :: 0 <= j < i ==> newNodes[j].State() == Rebuilt(service.nodes[j], nodes)
      {
        var weightedNode := new WeightedNode(service.nodes[i], service.id, i);
        if service.nodes[i].id in previous {
          assert previous[service.nodes[i].id].State() == Previous(nodes, service.nodes[i].id).value;
          weightedNode.TakeOver(previous[service.nodes[i].id]);
        }
        assert weightedNode.State() == Rebuilt(service.nodes[i], nodes);
        newNodes := newNodes + [weightedNode];
      }
    }

    /** The service's nodes, rebuilt first when the configuration has changed. */
    method GetRuntimeNodes(service: Service) returns (nodes: seq<WeightedNode>)
      requires Valid()
      modifies this`runtimeNodes
      ensures Valid() && View() == Refreshed(old(View()), service)
      ensures fresh(Repr() - old(Repr()))
      ensures nodes == if service.id in runtimeNodes then runtimeNodes[service.id] else []
    {
      hide Matches, Rebuild;
      var current := if service.id in runtimeNodes then runtimeNodes[service.id] else [];
      assert States(current) == Current(View(), service.id);
      var same := RuntimeNodesMatch(current, service.nodes);
      if same {
        return current;
      }
      nodes := RebuildRuntimeNodes(service, current);
      Store(service.id, nodes);
    }

    method Store(sid: int, nodes: seq<WeightedNode>)
      requires Valid() && Slotted(nodes, sid)
      modifies this`runtimeNodes
      ensures Valid() && runtimeNodes == old(runtimeNodes)[sid := nodes]
      ensures View() == old(View()).(services := old(View()).services[sid := States(nodes)])
      ensures Repr() <= old(Repr()) + set i | 0 <= i < |nodes| :: nodes[i]
    {
      runtimeNodes := runtimeNodes[sid := nodes];
      assert View().services == old(View()).services[sid := States(nodes)];
      ghost var added: set<WeightedNode> := set i | 0 <= i < |nodes| :: nodes[i];
      forall o | o in Repr() ensures o in old(Repr()) + added {
        var s, i :| s in runtimeNodes && 0 <= i < |runtimeNodes[s]| && o == runtimeNodes[s][i];
        if s != sid {
          assert o == old(runtimeNodes)[s][i];
        }
      }
    }

    method ReleaseNodeRequest(serviceID: int, nodeID: int)
      requires Valid()
      modifies Repr()
      ensures Valid() && View() == Step(old(View()), OpRelease(serviceID, nodeID))
    {
      hide Released, Step;
      var nodes := if serviceID in runtimeNodes then runtimeNodes[serviceID] else [];
      for i := 0 to |nodes|
        invariant forall j :: 0 <= j < i ==> nodes[j].conf.id != nodeID
        invariant View() == old(View()) && runtimeNodes == old(runtimeNodes)
      {
        var node := nodes[i];
        if node.conf.id != nodeID {
          continue;
        }
        FoundFirst(View(), OpRelease(serviceID, nodeID), i);
        node.Release();
        OnlyNode(serviceID, i, old(View()).services);
        return;
      }
      FoundNone(View(), OpRelease(serviceID, nodeID));
    }

    // ----- health.go

    /** A failed request: gives its slot back, cools the node down for 15 s,
        resets its weight and lowers its availability. */
    method MarkNodeFailure(serviceID: int, nodeID: int, err: Option<string>, now: Time)
      requires Valid()
      modifies this`availabilityQueue, Repr()
      ensures Valid() && View() == Step(old(View()), OpFailure(serviceID, nodeID, err, now))
    {
      hide Failed, Step;
      var nodes := if serviceID in runtimeNodes then runtimeNodes[serviceID] else [];
      for i := 0 to |nodes|
        invariant forall j :: 0 <= j < i ==> nodes[j].conf.id != nodeID
        invariant View() == old(View()) && runtimeNodes == old(runtimeNodes)
      {
        var node := nodes[i];
        if node.conf.id != nodeID {
          continue;
        }
        FoundFirst(View(), OpFailure(serviceID, nodeID, err, now), i);
        node.Fail(err, now);
        OnlyNode(serviceID, i, old(View()).services);
        UpdateNodeAvailabilityToDB(node.conf.id, node.conf.availability);
        return;
      }
      FoundNone(View(), OpFailure(serviceID, nodeID, err, now));
    }

    /** A served request: gives its slot back, ends any cooldown and raises the
        availability towards 100. */
    method MarkNodeSuccess(serviceID: int, nodeID: int)
      requires Valid()
      modifies this`availabilityQueue, Repr()
      ensures Valid() && View() == Step(old(View()), OpSuccess(serviceID, nodeID))
    {
      hide Succeeded, Step;
      var nodes := if serviceID in runtimeNodes then runtimeNodes[serviceID] else [];
      for i := 0 to |nodes|
        invariant forall j :: 0 <= j < i ==> nodes[j].conf.id != nodeID
        invariant View() == old(View()) && runtimeNodes == old(runtimeNodes)
      {
        var node := nodes[i];
        if node.conf.id != nodeID {
          continue;
        }
        FoundFirst(View(), OpSuccess(serviceID, nodeID), i);
        var raised := node.Succeed();
        OnlyNode(serviceID, i, old(View()).services);
        if raised {
          UpdateNodeAvailabilityToDB(node.conf.id, node.conf.availability);
        }
        return;
      }
      FoundNone(View(), OpSuccess(serviceID, nodeID));
    }

    /** A request that timed out: opens the breaker and lowers the availability. */
    method MarkNodeMaxConn(serviceID: int, nodeID: int, now: Time)
      requires Valid()
      modifies this`availabilityQueue, Repr()
      ensures Valid() && View() == Step(old(View()), OpMaxConn(serviceID, nodeID, now))
    {
      hide Saturated, Step;
      var nodes := if serviceID in runtimeNodes then runtimeNodes[serviceID] else [];
      for i := 0 to |nodes|
        invariant forall j :: 0 <= j < i ==> nodes[j].conf.id != nodeID
        invariant View() == old(View()) && runtimeNodes == old(runtimeNodes)
      {
        var node := nodes[i];
        if node.conf.id != nodeID {
          continue;
        }
        FoundFirst(View(), OpMaxConn(serviceID, nodeID, now), i);
        node.Saturate(now);
        OnlyNode(serviceID, i, old(View()).services);
        UpdateNodeAvailabilityToDB(node.conf.id, node.conf.availability);
        return;
      }
      FoundNone(View(), OpMaxConn(serviceID, nodeID, now));
    }

    // ----- selection.go

    /** Selects a node outside `excluded` for the service, refreshing the node
        list from the configuration first. */
    method SelectNode(service: Service, excluded: set<int>, now: Time) returns (chosen: Option<ServiceNode>)
      requires Valid()
      modifies this, Repr()
      ensures Valid() && fresh(Repr() - old(Repr()))
      ensures View() == Step(old(View()), OpSelect(service, excluded, now))
      ensures chosen == Chosen(old(View()), OpSelect(service, excluded, now))
    {
      hide Select, Eligible, Included, Refreshed, Step, Chosen, Indices, Slice, Matches, Rebuild, SelectFrom;
      var all := GetRuntimeNodes(service);
      ghost var middle := View();
      ghost var s0 := States(all);
      assert s0 == Current(middle, service.id);
      SelectSteps(old(View()), OpSelect(service, excluded, now), s0);
      if |all| == 0 {
        return None;
      }
      var nodes, ix := ExcludeNodes(all, excluded);
      chosen := SelectNodeByLoad(nodes, all, ix, service.id, now);
      OnlyService(service.id, middle.services);
    }

    /** The nodes of a list whose IDs are not excluded. */
    method ExcludeNodes(all: seq<WeightedNode>, excluded: set<int>)
        returns (nodes: seq<WeightedNode>, ghost ix: seq<nat>)
      ensures Slice(nodes, all, ix)
      ensures ix == Included(States(all), excluded, |all|)
    {
      hide Included;
      nodes, ix := [], [];
      IncludedNone(States(all), excluded);
      for k := 0 to |all|
        invariant Slice(nodes, all, ix)
        invariant ix == Included(States(all), excluded, k)
      {
        var node := all[k];
        IncludedNext(States(all), excluded, k);
        if node.conf.id in excluded {
          continue;
        }
        nodes, ix := nodes + [node], ix + [k];
      }
    }

    // ----- availability.go

    method UpdateNodeAvailabilityToDB(nodeID: int, availability: real)
      requires Valid()
      modifies this`availabilityQueue
      ensures View() == Record(old(View()), nodeID, availability)
    {
      if !dbUpdater {
        return;
      }
      availabilityQueue := availabilityQueue[nodeID := availability];
    }

    /** `order` lists every queued node once: some order a map walk may take. */
    ghost predicate WalkOrder(order: seq<int>)
      reads this`availabilityQueue
    {
      && (forall i, j :: 0 <= i < j < |order| ==> order[i] != order[j])
      && (forall k :: 0 <= k < |order| ==> order[k] in availabilityQueue)
      && (forall id :: id in availabilityQueue ==> id in order)
    }

    /** Takes everything queued and leaves the queue empty. */
    method DrainAvailabilityQueue(order: seq<int>) returns (updates: seq<Availability.Update>)
      requires Valid() && WalkOrder(order)
      modifies this`availabilityQueue
      ensures Availability.Enumerates(updates, old(availabilityQueue))
      ensures availabilityQueue == map[]
      ensures Valid() && View() == old(View()).(queue := map[]) && Repr() == old(Repr())
    {
      updates := [];
      for i := 0 to |order|
        invariant availabilityQueue == old(availabilityQueue)
        invariant |updates| == i
        invariant forall k :: 0 <= k < i ==> updates[k] == Availability.Update(order[k], availabilityQueue[order[k]])
      {
        updates := updates + [Availability.Update(order[i], availabilityQueue[order[i]])];
      }
      forall id | id in availabilityQueue ensures Availability.Update(id, availabilityQueue[id]) in updates {
        var k :| 0 <= k < |order| && order[k] == id;
        assert updates[k] == Availability.Update(id, availabilityQueue[id]);
      }
      availabilityQueue := map[];
    }
  }

  lemma IncludedNone(nodes: seq<Node>, excluded: set<int>)
    ensures Included(nodes, excluded, 0) == []
  {
  }

  lemma IncludedNext(nodes: seq<Node>, excluded: set<int>, k: nat)
    requires k < |nodes|
    ensures Included(nodes, excluded, k + 1)
            == Included(nodes, excluded, k) + if nodes[k].conf.id in excluded then [] else [k]
  {
  }

  /** A selection step, in the order the method takes it. */
  lemma SelectSteps(s: State, op: Op, nodes: seq<Node>)
    requires op.OpSelect? && nodes == Current(Refreshed(s, op.service), op.service.id)
    ensures var m := Refreshed(s, op.service);
            var r := Select(nodes, Eligible(nodes, Included(nodes, op.excluded, |nodes|), op.now));
            && (nodes == [] ==> Step(s, op) == m && Chosen(s, op) == None)
            && (nodes != [] ==> Step(s, op) == m.(services := m.services[op.service.id := r.nodes]))
            && Chosen(s, op) == if r.pick.Some? then Some(nodes[r.pick.value].conf) else None
  {
    var m := Refreshed(s, op.service);
    if nodes == [] && op.service.id in m.services {
      assert m.services[op.service.id := []] == m.services;
    }
  }

  /** A step on the node found first. */
  lemma FoundFirst(s: State, op: Op, i: nat)
    requires !op.OpSelect? && i < |Current(s, op.sid)| && Current(s, op.sid)[i].conf.id == op.id
    requires forall j :: 0 <= j < i ==> Current(s, op.sid)[j].conf.id != op.id
    ensures op.sid in s.services
    ensures var n := Current(s, op.sid)[i];
            var n' := Touched(n, op);
            Step(s, op) == if Queues(n, op) then Record(WithNode(s, op.sid, i, n'), n'.conf.id, n'.conf.availability)
                           else WithNode(s, op.sid, i, n')
  {
    hide Touched;
    assert Find(Current(s, op.sid), op.id).Some?;
  }

  lemma FoundNone(s: State, op: Op)
    requires !op.OpSelect?
    requires forall j :: 0 <= j < |Current(s, op.sid)| ==> Current(s, op.sid)[j].conf.id != op.id
    ensures Step(s, op) == s
  {
    hide Touched;
  }
}
