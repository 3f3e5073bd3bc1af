/** Health checkers: status with hysteresis, driven by reports. */
module Health {
  import opened Prelude

  const INT32_MAX: int := 0x7fff_ffff

  /** `atomic.AddInt32` by one, wrapping. */
  function Increment32(x: int): int {
    if x == INT32_MAX then -INT32_MAX - 1 else x + 1
  }

  datatype Status = Healthy | Unhealthy

  class Checker {
    var status: Status
    var failCount: int
    var successCount: int
    const failThreshold: int
    const successThreshold: int

    /** All reports so far; true is an error. */
    ghost var history: seq<bool>

    constructor (failThreshold: int, successThreshold: int)
      requires failThreshold <= INT32_MAX && successThreshold <= INT32_MAX
      ensures Valid() && history == [] && status == Healthy
      ensures this.failThreshold == failThreshold && this.successThreshold == successThreshold
    {
      this.failThreshold, this.successThreshold := failThreshold, successThreshold;
      status, failCount, successCount := Healthy, 0, 0;
      history := [];
    }

    /** While it still matters, each counter is the length of the current run of
        its kind; a counter that no longer matters may wrap around. */
    ghost predicate Valid()
      reads this
    {
      && failThreshold <= INT32_MAX && successThreshold <= INT32_MAX
      && status == StatusAfter(history, Runs(failThreshold), Runs(successThreshold))
      && (status == Healthy ==> failCount == Trailing(history, true) && failCount < Runs(failThreshold))
      && (status == Unhealthy ==> successCount == Trailing(history, false) && successCount < Runs(successThreshold))
      && (Trailing(history, true) > 0 ==> successCount == 0)
      && (Trailing(history, false) > 0 ==> failCount == 0)
    }

    method Report(err: bool)
      requires Valid()
      modifies this
      ensures Valid() && history == old(history) + [err]
      ensures status == StatusAfter(history, Runs(failThreshold), Runs(successThreshold))
      ensures failThreshold >= 1 && successThreshold >= 1 ==>
                status == StatusAfter(history, failThreshold, successThreshold)
    {
      TrailingNext(history, err);
      StatusNext(history, err, Runs(failThreshold), Runs(successThreshold));
      history := history + [err];
      if err {
        failCount := Increment32(failCount);
        successCount := 0;
        if failCount >= failThreshold && status == Healthy {
          status := Unhealthy;
          failCount := 0;
        }
        return;
      }
      successCount := Increment32(successCount);
      failCount := 0;
      if successCount >= successThreshold && status == Unhealthy {
        status := Healthy;
        successCount := 0;
      }
    }
  }

  /** The registry: the first registration of a name stays, reports on unknown
      names do nothing, and unknown names are not healthy. */
  class Manager {
    var checkers: map<string, Checker>

    constructor ()
      ensures checkers == map[]
    {
      checkers := map[];
    }

    ghost predicate Valid()
      reads this, checkers.Values
    {
      && (forall name :: name in checkers ==> checkers[name].Valid())
      && forall a, b :: a in checkers && b in checkers && a != b ==> checkers[a] != checkers[b]
    }

    method Register(name: string, failThreshold: int, successThreshold: int)
      requires Valid() && failThreshold <= INT32_MAX && successThreshold <= INT32_MAX
      modifies this
      ensures Valid()
      ensures name in old(checkers) ==> checkers == old(checkers)
      ensures name !in old(checkers) ==>
                && checkers.Keys == old(checkers).Keys + {name}
                && (forall other :: other in old(checkers) ==> checkers[other] == old(checkers)[other])
                && fresh(checkers[name]) && checkers[name].history == [] && checkers[name].status == Healthy
                && checkers[name].failThreshold == failThreshold && checkers[name].successThreshold == successThreshold
    {
      if name in checkers {
        return;
      }
      var checker := new Checker(failThreshold, successThreshold);
      checkers := checkers[name := checker];
    }

    method Report(name: string, err: bool)
      requires Valid()
      modifies checkers.Values
      ensures Valid() && checkers == old(checkers)
      ensures forall other :: other in checkers && other != name ==>
                checkers[other].history == old(checkers[other].history)
                  && checkers[other].status == old(checkers[other].status)
      ensures name in checkers ==> checkers[name].history == old(checkers[name].history) + [err]
    {
      if name !in checkers {
        return;
      }
      checkers[name].Report(err);
    }

    /** Healthy exactly when no error run completed after the last success run. */
    method IsHealthy(name: string) returns (healthy: bool)
      requires Valid()
      ensures name !in checkers ==> !healthy
      ensures name in checkers ==>
                var c := checkers[name];
                healthy == (StatusAfter(c.history, Runs(c.failThreshold), Runs(c.successThreshold)) == Healthy)
      ensures name in checkers && checkers[name].failThreshold >= 1 && checkers[name].successThreshold >= 1 ==>
                var c := checkers[name];
                healthy == (StatusAfter(c.history, c.failThreshold, c.successThreshold) == Healthy)
    {
      if name !in checkers {
        return false;
      }
      healthy := checkers[name].status == Healthy;
    }
  }

  // ----- what a history means

  /** A threshold below one behaves like one. */
  function Runs(threshold: int): (n: int)
    ensures n >= 1
  {
    if threshold < 1 then 1 else threshold
  }

  /** Length of the run of `kind` that the history ends with. */
  function Trailing(h: seq<bool>, kind: bool): nat {
    if h == [] || h[|h| - 1] != kind then 0 else Trailing(h[..|h| - 1], kind) + 1
  }

  /** A run of `n` reports of `kind` completes with the k-th report. */
  ghost predicate Completes(h: seq<bool>, kind: bool, n: int, k: nat) {
    0 < n <= k + 1 <= |h| && forall i :: k - n < i <= k ==> h[i] == kind
  }

  /** The latest run to complete, of F errors or S successes, was an error run. */
  ghost predicate LastRunFailed(h: seq<bool>, f: int, s: int) {
    exists k: nat :: Completes(h, true, f, k) && forall j: nat :: j > k ==> !Completes(h, false, s, j)
  }

  ghost function StatusAfter(h: seq<bool>, f: int, s: int): Status {
    if LastRunFailed(h, f, s) then Unhealthy else Healthy
  }

  lemma TrailingNext(h: seq<bool>, x: bool)
    ensures Trailing(h + [x], x) == Trailing(h, x) + 1
    ensures Trailing(h + [x], !x) == 0
  {
    assert (h + [x])[..|h|] == h;
  }

  lemma {:induction false} TrailingMeans(h: seq<bool>, kind: bool)
    ensures Trailing(h, kind) <= |h|
    ensures forall i :: |h| - Trailing(h, kind) <= i < |h| ==> h[i] == kind
    ensures Trailing(h, kind) < |h| ==> h[|h| - 1 - Trailing(h, kind)] != kind
    decreases |h|
  {
    if h != [] && h[|h| - 1] == kind {
      TrailingMeans(h[..|h| - 1], kind);
    }
  }

  /** A run completes with the latest report exactly when it is long enough. */
  lemma CompletesNow(h: seq<bool>, kind: bool, n: int)
    requires h != [] && n >= 1
    ensures Completes(h, kind, n, |h| - 1) <==> Trailing(h, kind) >= n
  {
    TrailingMeans(h, kind);
    if Trailing(h, kind) < n <= |h| {
      BrokenRun(h, kind, n, |h| - 1 - Trailing(h, kind));
    }
  }

  lemma BrokenRun(h: seq<bool>, kind: bool, n: int, i: nat)
    requires |h| - n <= i < |h| && h[i] != kind
    ensures !Completes(h, kind, n, |h| - 1)
  {
  }

  lemma CompletesBefore(h: seq<bool>, x: bool, kind: bool, n: int, k: nat)
    requires k < |h|
    ensures Completes(h + [x], kind, n, k) <==> Completes(h, kind, n, k)
  {
    assert forall i :: 0 <= i < |h| ==> (h + [x])[i] == h[i];
  }

  /** How the verdict moves with one more report. */
  lemma StatusNext(h: seq<bool>, x: bool, f: int, s: int)
    requires f >= 1 && s >= 1
    ensures StatusAfter(h + [x], f, s)
            == if x && Trailing(h + [x], true) >= f then Unhealthy
               else if !x && Trailing(h + [x], false) >= s then Healthy
               else StatusAfter(h, f, s)
  {
    var h' := h + [x];
    CompletesNow(h', true, f);
    CompletesNow(h', false, s);
    TrailingNext(h, x);
    if Completes(h', true, f, |h|) {
      assert forall j: nat :: j > |h| ==> !Completes(h', false, s, j);
      assert LastRunFailed(h', f, s);
    } else if Completes(h', false, s, |h|) {
      assert forall k: nat :: Completes(h', true, f, k) ==> k < |h|;
    } else {
      NothingCompletes(h, x, f, s);
    }
  }

  lemma NothingCompletes(h: seq<bool>, x: bool, f: int, s: int)
    requires !Completes(h + [x], true, f, |h|) && !Completes(h + [x], false, s, |h|)
    ensures LastRunFailed(h + [x], f, s) <==> LastRunFailed(h, f, s)
  {
    var h' := h + [x];
    if LastRunFailed(h', f, s) {
      var k: nat :| Completes(h', true, f, k) && forall j: nat :: j > k ==> !Completes(h', false, s, j);
      CompletesBefore(h, x, true, f, k);
      forall j: nat | j > k ensures !Completes(h, false, s, j) {
        if j < |h| { CompletesBefore(h, x, false, s, j); }
      }
    }
    if LastRunFailed(h, f, s) {
      var k: nat :| Completes(h, true, f, k) && forall j: nat :: j > k ==> !Completes(h, false, s, j);
      CompletesBefore(h, x, true, f, k);
      forall j: nat | j > k ensures !Completes(h', false, s, j) {
        if j < |h| { CompletesBefore(h, x, false, s, j); }
      }
    }
  }

  function InARow(kind: bool, n: nat): (h: seq<bool>)
    ensures |h| == n && forall i :: 0 <= i < n ==> h[i] == kind
  {
    seq(n, _ => kind)
  }

  /** From a healthy status right after a success, or at the start, `n` errors in a row
      make it unhealthy exactly from the threshold registered for failures on; and the
      other way round with successes. */
  lemma {:induction false} ThresholdExactly(h: seq<bool>, kind: bool, failThreshold: int, successThreshold: int, n: nat)
    requires failThreshold >= 1 && successThreshold >= 1 && (h != [] ==> h[|h| - 1] != kind)
    requires StatusAfter(h, failThreshold, successThreshold) == if kind then Healthy else Unhealthy
    ensures Trailing(h + InARow(kind, n), kind) == n
    ensures var reached := n >= if kind then failThreshold else successThreshold;
            StatusAfter(h + InARow(kind, n), failThreshold, successThreshold)
            == if reached == kind then Unhealthy else Healthy
    decreases n
  {
    hide StatusAfter;
    if n == 0 {
      assert h + InARow(kind, 0) == h;
    } else {
      var before := h + InARow(kind, n - 1);
      ThresholdExactly(h, kind, failThreshold, successThreshold, n - 1);
      assert h + InARow(kind, n) == before + [kind];
      StatusNext(before, kind, failThreshold, successThreshold);
      TrailingNext(before, kind);
    }
  }

  /** A threshold below one is reached by the first report. */
  lemma LowThreshold(h: seq<bool>, failThreshold: int, successThreshold: int)
    ensures failThreshold < 1 ==> StatusAfter(h + [true], Runs(failThreshold), Runs(successThreshold)) == Unhealthy
    ensures successThreshold < 1 ==> StatusAfter(h + [false], Runs(failThreshold), Runs(successThreshold)) == Healthy
  {
    StatusNext(h, true, Runs(failThreshold), Runs(successThreshold));
    StatusNext(h, false, Runs(failThreshold), Runs(successThreshold));
    TrailingNext(h, true);
    TrailingNext(h, false);
  }
}
