/** Node selection over one service's node list: who is a candidate, who wins,
    and what selection does to the weights. Nodes are named by their index. */
module Selection {
  import opened Prelude
  import opened Nodes

  predicate Indices(ix: seq<nat>, n: nat) {
    && (forall k :: 0 <= k < |ix| ==> ix[k] < n)
    && (forall j, k :: 0 <= j < k < |ix| ==> ix[j] < ix[k])
  }

  lemma Extended(ix: seq<nat>, x: nat, n: nat)
    requires Indices(ix, x) && x < n
    ensures Indices(ix + [x], n) && Indices(ix, n)
  {
  }

  /** Everything before the last index is below it. */
  lemma Front(ix: seq<nat>, n: nat)
    requires Indices(ix, n) && ix != []
    ensures var front, last := ix[..|ix| - 1], ix[|ix| - 1];
            last < n && Indices(front, last) && Indices(front, n) && ix == front + [last] && last !in front
  {
  }

  lemma Below(r: seq<nat>, ix: seq<nat>, x: nat, n: nat)
    requires Indices(ix, x) && Indices(r, n)
    requires forall i :: i in r ==> i in ix
    ensures Indices(r, x)
  {
    forall k | 0 <= k < |r| ensures r[k] < x {
      assert r[k] in ix;
    }
  }

  /** Nodes outside the exclusion set, in list order. */
  function Included(nodes: seq<Node>, excluded: set<int>, n: nat): (ix: seq<nat>)
    requires n <= |nodes|
    ensures Indices(ix, n)
    ensures forall i :: i in ix <==> 0 <= i < n && nodes[i].conf.id !in excluded
  {
    if n == 0 then [] else
    var rest := Included(nodes, excluded, n - 1);
    if nodes[n - 1].conf.id in excluded then rest else rest + [n - 1]
  }

  /** The available ones among `ix`, in order. */
  function Eligible(nodes: seq<Node>, ix: seq<nat>, now: Time): (r: seq<nat>)
    requires Indices(ix, |nodes|)
    ensures Indices(r, |nodes|)
    ensures forall i :: i in r <==> i in ix && Available(nodes[i], now)
  {
    if ix == [] then [] else
    Front(ix, |nodes|);
    var last := ix[|ix| - 1];
    var rest := Eligible(nodes, ix[..|ix| - 1], now);
    Below(rest, ix[..|ix| - 1], last, |nodes|);
    Extended(rest, last, |nodes|);
    if Available(nodes[last], now) then rest + [last] else rest
  }

  predicate Minimal(nodes: seq<Node>, pool: seq<nat>, i: nat)
    requires Indices(pool, |nodes|) && i < |nodes|
  {
    forall k :: 0 <= k < |pool| ==> LoadAtMost(nodes[i], nodes[pool[k]])
  }

  /** The members of `ix` no member of `pool` is less loaded than, in order. */
  function LeastLoaded(nodes: seq<Node>, ix: seq<nat>, pool: seq<nat>): (r: seq<nat>)
    requires Indices(ix, |nodes|) && Indices(pool, |nodes|)
    ensures Indices(r, |nodes|)
    ensures forall i :: i in r <==> i in ix && Minimal(nodes, pool, i)
  {
    if ix == [] then [] else
    Front(ix, |nodes|);
    var last := ix[|ix| - 1];
    var rest := LeastLoaded(nodes, ix[..|ix| - 1], pool);
    Below(rest, ix[..|ix| - 1], last, |nodes|);
    Extended(rest, last, |nodes|);
    if Minimal(nodes, pool, last) then rest + [last] else rest
  }

  lemma HeadIsMember(ix: seq<nat>)
    ensures ix != [] ==> ix[0] in ix
  {
  }

  /** Two increasing index lists with the same members are the same list. */
  lemma {:induction false} SameIndices(a: seq<nat>, b: seq<nat>, n: nat)
    requires Indices(a, n) && Indices(b, n)
    requires forall i :: i in a <==> i in b
    ensures a == b
    decreases |a|
  {
    if a == [] {
      HeadIsMember(b);
    } else {
      assert a[|a| - 1] in b;
      assert b[|b| - 1] in a;
      Front(a, n);
      Front(b, n);
      var a', b' := a[..|a| - 1], b[..|b| - 1];
      forall i ensures i in a' <==> i in b' {
        assert i in a' <==> i in a && i != a[|a| - 1];
        assert i in b' <==> i in b && i != b[|b| - 1];
      }
      SameIndices(a', b', n);
    }
  }

  /** The single pass that compares each node with the first candidate only:
      after one more node the candidate list is again all the minimisers. */
  lemma OnePassStep(nodes: seq<Node>, pool: seq<nat>, x: nat)
    requires Indices(pool, x) && x < |nodes| && pool != []
    ensures Indices(pool, |nodes|) && Indices(pool + [x], |nodes|)
    ensures var c := LeastLoaded(nodes, pool, pool);
            && c != []
            && LeastLoaded(nodes, pool + [x], pool + [x])
               == if !LoadAtMost(nodes[c[0]], nodes[x]) then [x]
                  else if LoadAtMost(nodes[x], nodes[c[0]]) then c + [x]
                  else c
  {
    Extended(pool, x, |nodes|);
    SomeMinimal(nodes, pool);
    var c := LeastLoaded(nodes, pool, pool);
    var b := c[0];
    var wider := pool + [x];
    assert b in c;
    var expected := if !LoadAtMost(nodes[b], nodes[x]) then [x]
                    else if LoadAtMost(nodes[x], nodes[b]) then c + [x]
                    else c;
    forall i | i in wider
      ensures Minimal(nodes, wider, i) <==> i in expected
    {
      LoadTotal(nodes[b], nodes[x]);
      LoadTotal(nodes[x], nodes[x]);
      WiderMinimal(nodes, pool, x, i);
      if i in pool {
        AgainstMinimum(nodes, pool, b, i);
        LoadTotal(nodes[i], nodes[x]);
        if LoadAtMost(nodes[i], nodes[b]) && LoadAtMost(nodes[b], nodes[x]) {
          LoadTransitive(nodes[i], nodes[b], nodes[x]);
        }
        if LoadAtMost(nodes[b], nodes[i]) && LoadAtMost(nodes[i], nodes[x]) {
          LoadTransitive(nodes[b], nodes[i], nodes[x]);
        }
      } else {
        AgainstMinimum(nodes, pool, b, x);
      }
    }
    Below(c, pool, x, |nodes|);
    Extended(c, x, |nodes|);
    SameIndices(LeastLoaded(nodes, wider, wider), expected, |nodes|);
  }

  lemma WiderMinimal(nodes: seq<Node>, pool: seq<nat>, x: nat, i: nat)
    requires Indices(pool, x) && x < |nodes| && i < |nodes|
    ensures Indices(pool, |nodes|) && Indices(pool + [x], |nodes|)
    ensures Minimal(nodes, pool + [x], i) <==> Minimal(nodes, pool, i) && LoadAtMost(nodes[i], nodes[x])
  {
    Extended(pool, x, |nodes|);
    var wider := pool + [x];
    assert wider[|pool|] == x;
    assert forall k :: 0 <= k < |pool| ==> wider[k] == pool[k];
  }

  /** Being minimal is the same as being at most some known minimum. */
  lemma AgainstMinimum(nodes: seq<Node>, pool: seq<nat>, b: nat, i: nat)
    requires Indices(pool, |nodes|) && i < |nodes|
    requires b in pool && Minimal(nodes, pool, b)
    ensures Minimal(nodes, pool, i) <==> LoadAtMost(nodes[i], nodes[b])
  {
    if LoadAtMost(nodes[i], nodes[b]) {
      forall k | 0 <= k < |pool| ensures LoadAtMost(nodes[i], nodes[pool[k]]) {
        LoadTransitive(nodes[i], nodes[b], nodes[pool[k]]);
      }
    }
  }

  lemma {:induction false} SomeMinimal(nodes: seq<Node>, pool: seq<nat>)
    requires Indices(pool, |nodes|) && pool != []
    ensures LeastLoaded(nodes, pool, pool) != []
    decreases |pool|
  {
    var last := pool[|pool| - 1];
    var front := pool[..|pool| - 1];
    Front(pool, |nodes|);
    LoadTotal(nodes[last], nodes[last]);
    if front == [] {
      assert Minimal(nodes, pool, last);
    } else {
      SomeMinimal(nodes, front);
      var b := LeastLoaded(nodes, front, front)[0];
      assert b in LeastLoaded(nodes, front, front);
      LoadTotal(nodes[b], nodes[last]);
      WiderMinimal(nodes, front, last, b);
      WiderMinimal(nodes, front, last, last);
      AgainstMinimum(nodes, front, b, last);
      assert b in pool;
    }
  }

  // ----- smooth weighted round-robin over the tied candidates

  function Total(nodes: seq<Node>, ix: seq<nat>): (t: int)
    requires Indices(ix, |nodes|)
    ensures t >= |ix|
  {
    if ix == [] then 0
    else Total(nodes, ix[..|ix| - 1]) + AdjustedWeight(nodes[ix[|ix| - 1]].conf)
  }

  function Credited(n: Node): Node {
    n.(currentWeight := n.currentWeight + AdjustedWeight(n.conf))
  }

  function Bumped(nodes: seq<Node>, ix: seq<nat>): (r: seq<Node>)
    requires Indices(ix, |nodes|)
    ensures |r| == |nodes|
    ensures forall i :: 0 <= i < |nodes| ==> r[i] == if i in ix then Credited(nodes[i]) else nodes[i]
  {
    seq(|nodes|, i requires 0 <= i < |nodes| => if i in ix then Credited(nodes[i]) else nodes[i])
  }

  /** First among the members of `ix` with greatest current weight. */
  ghost predicate IsWinner(nodes: seq<Node>, ix: seq<nat>, w: nat)
    requires Indices(ix, |nodes|)
  {
    && w in ix
    && forall j :: j in ix ==>
         nodes[j].currentWeight < nodes[w].currentWeight
         || (nodes[j].currentWeight == nodes[w].currentWeight && w <= j)
  }

  lemma WinnerUnique(nodes: seq<Node>, ix: seq<nat>, v: nat, w: nat)
    requires Indices(ix, |nodes|) && IsWinner(nodes, ix, v) && IsWinner(nodes, ix, w)
    ensures v == w
  {
    assert v in ix && w in ix;
  }

  lemma {:induction false} WinnerExists(nodes: seq<Node>, ix: seq<nat>)
    requires Indices(ix, |nodes|) && ix != []
    ensures exists w: nat :: IsWinner(nodes, ix, w)
    decreases |ix|
  {
    var last, front := ix[|ix| - 1], ix[..|ix| - 1];
    Front(ix, |nodes|);
    if front == [] {
      assert IsWinner(nodes, ix, last);
    } else {
      WinnerExists(nodes, front);
      var w: nat :| IsWinner(nodes, front, w);
      assert forall j :: j in front ==> j < last;
      if nodes[last].currentWeight > nodes[w].currentWeight {
        assert IsWinner(nodes, ix, last);
      } else {
        assert IsWinner(nodes, ix, w);
      }
    }
  }

  ghost function Winner(nodes: seq<Node>, ix: seq<nat>): (w: nat)
    requires Indices(ix, |nodes|) && ix != []
    ensures IsWinner(nodes, ix, w)
  {
    WinnerExists(nodes, ix);
    var w: nat :| IsWinner(nodes, ix, w);
    w
  }

  datatype Selected = Selected(nodes: seq<Node>, pick: Option<nat>)

  /** A selection among eligible nodes. A lone eligible node is taken without
      touching any weight. */
  ghost function Select(nodes: seq<Node>, eligible: seq<nat>): (r: Selected)
    requires Indices(eligible, |nodes|)
    ensures |r.nodes| == |nodes|
    ensures r.pick.Some? <==> eligible != []
    ensures r.pick.Some? ==> r.pick.value in eligible
  {
    if eligible == [] then
      Selected(nodes, None)
    else if |eligible| == 1 then
      var i := eligible[0];
      Selected(nodes[i := nodes[i].(activeRequests := nodes[i].activeRequests + 1)], Some(i))
    else
      SomeMinimal(nodes, eligible);
      var tied := LeastLoaded(nodes, eligible, eligible);
      var bumped := Bumped(nodes, tied);
      var w := Winner(bumped, tied);
      assert w in eligible;
      Selected(bumped[w := Charged(bumped[w], Total(nodes, tied))], Some(w))
  }

  function Charged(n: Node, total: int): Node {
    n.(currentWeight := n.currentWeight - total, activeRequests := n.activeRequests + 1)
  }

  function AllIndices(nodes: seq<Node>, excluded: set<int>, now: Time): (ix: seq<nat>)
    ensures Indices(ix, |nodes|)
    ensures forall i :: i in ix <==>
              0 <= i < |nodes| && nodes[i].conf.id !in excluded && Available(nodes[i], now)
  {
    Eligible(nodes, Included(nodes, excluded, |nodes|), now)
  }

  ghost function SelectFrom(nodes: seq<Node>, excluded: set<int>, now: Time): (r: Selected)
    ensures |r.nodes| == |nodes|
    ensures r.pick.Some? ==>
              r.pick.value < |nodes|
              && nodes[r.pick.value].conf.id !in excluded
              && Available(nodes[r.pick.value], now)
  {
    Select(nodes, AllIndices(nodes, excluded, now))
  }

  /** A lone available node is taken as it is. */
  lemma LoneSelection(nodes: seq<Node>, i: nat, now: Time)
    requires i < |nodes| && forall j :: 0 <= j < |nodes| ==> (Available(nodes[j], now) <==> j == i)
    ensures SelectFrom(nodes, {}, now)
            == Selected(nodes[i := nodes[i].(activeRequests := nodes[i].activeRequests + 1)], Some(i))
  {
    hide AllIndices, LeastLoaded, Available, Total, Bumped;
    SameIndices(AllIndices(nodes, {}, now), [i], |nodes|);
  }

  // ----- weights are conserved

  function WeightSum(nodes: seq<Node>): int {
    if nodes == [] then 0
    else WeightSum(nodes[..|nodes| - 1]) + nodes[|nodes| - 1].currentWeight
  }

  lemma {:induction false} WeightSumUpdate(nodes: seq<Node>, i: nat, n: Node)
    requires i < |nodes|
    ensures WeightSum(nodes[i := n]) == WeightSum(nodes) + n.currentWeight - nodes[i].currentWeight
    decreases |nodes|
  {
    var front := nodes[..|nodes| - 1];
    if i == |nodes| - 1 {
      assert nodes[i := n][..|nodes| - 1] == front;
    } else {
      WeightSumUpdate(front, i, n);
      assert nodes[i := n][..|nodes| - 1] == front[i := n];
    }
  }

  lemma TotalLast(nodes: seq<Node>, ix: seq<nat>)
    requires Indices(ix, |nodes|) && ix != []
    ensures Indices(ix[..|ix| - 1], |nodes|)
    ensures Total(nodes, ix) == Total(nodes, ix[..|ix| - 1]) + AdjustedWeight(nodes[ix[|ix| - 1]].conf)
  {
    hide AdjustedWeight;
    Front(ix, |nodes|);
  }

  lemma NothingBumped(nodes: seq<Node>)
    ensures Bumped(nodes, []) == nodes && Total(nodes, []) == 0
  {
  }

  lemma BumpedLast(nodes: seq<Node>, ix: seq<nat>)
    requires Indices(ix, |nodes|) && ix != []
    ensures var last, front := ix[|ix| - 1], ix[..|ix| - 1];
            && last < |nodes| && Indices(front, |nodes|)
            && Bumped(nodes, front)[last] == nodes[last]
            && Bumped(nodes, ix) == Bumped(nodes, front)[last := Credited(nodes[last])]
  {
    hide Credited;
    Front(ix, |nodes|);
  }

  lemma {:induction false} BumpedSum(nodes: seq<Node>, ix: seq<nat>)
    requires Indices(ix, |nodes|)
    ensures WeightSum(Bumped(nodes, ix)) == WeightSum(nodes) + Total(nodes, ix)
    decreases |ix|
  {
    hide WeightSum, Bumped, Total, Indices, AdjustedWeight;
    if ix == [] {
      NothingBumped(nodes);
    } else {
      var last, front := ix[|ix| - 1], ix[..|ix| - 1];
      TotalLast(nodes, ix);
      BumpedLast(nodes, ix);
      BumpedSum(nodes, front);
      WeightSumUpdate(Bumped(nodes, front), last, Credited(nodes[last]));
    }
  }

  /** For every load pattern, exclusion set, availability and time: selection
      moves weight between nodes but creates and destroys none. */
  lemma SelectionConservesWeight(nodes: seq<Node>, excluded: set<int>, now: Time)
    ensures WeightSum(SelectFrom(nodes, excluded, now).nodes) == WeightSum(nodes)
  {
    hide WeightSum, AllIndices, LeastLoaded, Total;
    var e := AllIndices(nodes, excluded, now);
    if |e| == 1 {
      var i := e[0];
      WeightSumUpdate(nodes, i, nodes[i].(activeRequests := nodes[i].activeRequests + 1));
    } else if |e| > 1 {
      SomeMinimal(nodes, e);
      var tied := LeastLoaded(nodes, e, e);
      var bumped := Bumped(nodes, tied);
      var w := Winner(bumped, tied);
      BumpedSum(nodes, tied);
      WeightSumUpdate(bumped, w, Charged(bumped[w], Total(nodes, tied)));
    }
  }

  /** A selection among several eligible nodes is a turn among the tied ones. */
  lemma SelectsTied(nodes: seq<Node>, e: seq<nat>) returns (w: nat)
    requires Indices(e, |nodes|) && |e| > 1
    ensures var tied := LeastLoaded(nodes, e, e);
            && w < |nodes| && w in tied
            && Select(nodes, e)
               == Selected(Bumped(nodes, tied)[w := Charged(Bumped(nodes, tied)[w], Total(nodes, tied))], Some(w))
  {
    hide LeastLoaded, Total, Bumped;
    SomeMinimal(nodes, e);
    var tied := LeastLoaded(nodes, e, e);
    w := Winner(Bumped(nodes, tied), tied);
  }

  /** Selection raises exactly one node's active count, by one, and only there. */
  lemma SelectionTakesOneSlot(nodes: seq<Node>, excluded: set<int>, now: Time, i: nat)
    requires i < |nodes|
    ensures var r := SelectFrom(nodes, excluded, now);
            && r.nodes[i].activeRequests == nodes[i].activeRequests + (if r.pick == Some(i) then 1 else 0)
            && r.nodes[i] == nodes[i].(currentWeight := r.nodes[i].currentWeight,
                                       activeRequests := r.nodes[i].activeRequests)
  {
    var e := AllIndices(nodes, excluded, now);
    hide AllIndices, LeastLoaded, Total, Available, AdjustedWeight;
    if |e| > 1 {
      var w := SelectsTied(nodes, e);
      hide Select;
      var tied := LeastLoaded(nodes, e, e);
      assert Bumped(nodes, tied)[i] == if i in tied then Credited(nodes[i]) else nodes[i];
    }
  }

  /** What the winner is, in terms of the nodes before selection: with two or
      more eligible nodes it is least loaded among them; among those its weight
      plus adjusted weight is greatest; and it comes first of such. */
  lemma PickIsLeastLoadedThenHeaviestThenFirst(nodes: seq<Node>, excluded: set<int>, now: Time, j: nat)
    requires j in AllIndices(nodes, excluded, now)
    ensures var r := SelectFrom(nodes, excluded, now);
            && r.pick.Some?
            && var p := r.pick.value;
            && LoadAtMost(nodes[p], nodes[j])
            && (LoadAtMost(nodes[j], nodes[p]) && j != p ==>
                  var cp, cj := Credited(nodes[p]).currentWeight, Credited(nodes[j]).currentWeight;
                  cp > cj || (cp == cj && p < j))
  {
    var e := AllIndices(nodes, excluded, now);
    if |e| == 1 {
      assert j == e[0];
      LoadTotal(nodes[j], nodes[j]);
    } else {
      SomeMinimal(nodes, e);
      var tied := LeastLoaded(nodes, e, e);
      var bumped := Bumped(nodes, tied);
      var p := Winner(bumped, tied);
      assert Minimal(nodes, e, p);
      AgainstMinimum(nodes, e, p, j);
    }
  }
}
