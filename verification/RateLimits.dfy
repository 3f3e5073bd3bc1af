/** Both rate limiters as functions on one map from keys to entries, with and
    without the background sweeper, and what they admit over whole runs. */
module RateLimits {
  import opened Prelude

  type Key = seq<bv8>

  datatype Decision<+E> = Decision(entry: E, admitted: bool)

  /** One limiter: what a check does to the key's entry, when the sweeper drops an
      entry, and what is known of every entry at a time it has been touched by. */
  datatype Limiter<!E> = Limiter(
    check: (Option<E>, int, Time) -> Decision<E>,
    stale: (E, Time) -> bool,
    sound: (E, Time) -> bool)

  const SHARD_COUNT: int := 64

  /** FNV-1a, 32 bit. */
  function Fnv32a(key: Key): bv32 {
    if key == [] then 2166136261
    else (Fnv32a(key[..|key| - 1]) ^ (key[|key| - 1] as bv32)) * 16777619
  }

  function GetShard(key: Key): (i: nat)
    ensures i < SHARD_COUNT
  {
    Fnv32a(key) as int % SHARD_COUNT
  }

  /** A check, or the sweep of one shard. The sweeper reads the clock once and then
      takes the shards one by one, so checks come between them, and a shard may be
      swept with a reading much older than the checks before it. */
  datatype Event = Check(key: Key, limit: int, now: Time) | Sweep(shard: nat, read: Time)

  /** When the clock was read for an event. */
  function ReadAt(e: Event): Time {
    match e
    case Check(_, _, now) => now
    case Sweep(_, read) => read
  }

  /** The entries a sweep drops. */
  predicate Drops<E>(l: Limiter<E>, m: map<Key, E>, e: Event, key: Key) {
    e.Sweep? && key in m && GetShard(key) == e.shard && l.stale(m[key], e.read)
  }

  function Entry<E>(m: map<Key, E>, key: Key): Option<E> {
    if key in m then Some(m[key]) else None
  }

  /** A check with a non-positive limit neither limits nor leaves a trace. */
  function Admits<E>(l: Limiter<E>, m: map<Key, E>, e: Event): bool {
    e.Check? && (e.limit <= 0 || l.check(Entry(m, e.key), e.limit, e.now).admitted)
  }

  function Next<E>(l: Limiter<E>, m: map<Key, E>, e: Event, swept: bool): map<Key, E> {
    match e
    case Check(key, limit, now) =>
      if limit <= 0 then m else m[key := l.check(Entry(m, key), limit, now).entry]
    case Sweep(_, _) =>
      if swept then map k | k in m && !Drops(l, m, e, k) :: m[k] else m
  }

  /** The entries after a run, swept or never swept. */
  function After<E>(l: Limiter<E>, m: map<Key, E>, es: seq<Event>, swept: bool): map<Key, E>
    decreases |es|
  {
    if es == [] then m else After(l, Next(l, m, es[0], swept), es[1..], swept)
  }

  /** The decisions of a run, in order; a sweep decides nothing. */
  function Decisions<E>(l: Limiter<E>, m: map<Key, E>, es: seq<Event>, swept: bool): (ds: seq<bool>)
    ensures |ds| == |es|
    decreases |es|
  {
    if es == [] then []
    else [Admits(l, m, es[0])] + Decisions(l, Next(l, m, es[0], swept), es[1..], swept)
  }

  /** A run on a clock that never goes back: checks read it in order, from `from` on,
      and a sweep has read it before any check that comes after. */
  predicate Sorted(es: seq<Event>, from: Time) {
    && (forall j :: 0 <= j < |es| && es[j].Check? ==> from <= es[j].now)
    && forall i, j :: 0 <= i <= j < |es| && es[j].Check? ==> ReadAt(es[i]) <= es[j].now
  }

  /** The latest reading of a run. */
  function Latest(es: seq<Event>, from: Time): Time
    decreases |es|
  {
    if es == [] then from else Latest(es[1..], Later(from, es[0]))
  }

  function Later(t: Time, e: Event): Time {
    if ReadAt(e) > t then ReadAt(e) else t
  }

  lemma SortedRest(es: seq<Event>, from: Time)
    requires es != [] && Sorted(es, from)
    ensures Sorted(es[1..], Later(from, es[0]))
    ensures es[0].Check? ==> from <= es[0].now
  {
  }

  lemma SortedFrom(es: seq<Event>, from: Time)
    requires es != [] && Sorted(es, from)
    ensures Sorted(es[1..], if es[0].Check? then es[0].now else from)
    ensures es[0].Check? ==> from <= es[0].now
  {
  }

  // ----- sweeping and sharding are invisible

  /** What makes eviction safe: a stale entry decides, and leaves behind, exactly
      what a missing one does, now and at any later time. */
  ghost predicate Forgetful<E(!new)>(l: Limiter<E>) {
    && (forall e, t, u :: l.stale(e, t) && t <= u ==> l.stale(e, u))
    && (forall e, t, u :: l.sound(e, t) && t <= u ==> l.sound(e, u))
    && (forall limit, t {:trigger l.check(None, limit, t)} :: limit > 0 ==> l.sound(l.check(None, limit, t).entry, t))
    && (forall e, limit, t {:trigger l.check(Some(e), limit, t)} ::
          limit > 0 && l.sound(e, t) ==> l.sound(l.check(Some(e), limit, t).entry, t))
    && (forall e, limit, t {:trigger l.check(Some(e), limit, t)} ::
          limit > 0 && l.sound(e, t) && l.stale(e, t) ==> l.check(Some(e), limit, t) == l.check(None, limit, t))
  }

  /** The swept map is the unswept one without some stale entries. */
  ghost predicate Pruned<E(!new)>(l: Limiter<E>, swept: map<Key, E>, all: map<Key, E>, t: Time) {
    && (forall k :: k in swept ==> k in all && swept[k] == all[k])
    && (forall k :: k in all && k !in swept ==> l.stale(all[k], t))
    && (forall k :: k in all ==> l.sound(all[k], t))
  }

  lemma PrunedLater<E(!new)>(l: Limiter<E>, swept: map<Key, E>, all: map<Key, E>, t: Time, u: Time)
    requires Forgetful(l) && Pruned(l, swept, all, t) && t <= u
    ensures Pruned(l, swept, all, u)
  {
  }

  lemma PrunedStep<E(!new)>(l: Limiter<E>, swept: map<Key, E>, all: map<Key, E>, e: Event, t: Time)
    requires Forgetful(l) && Pruned(l, swept, all, t) && ReadAt(e) <= t && (e.Check? ==> e.now == t)
    ensures Admits(l, swept, e) == Admits(l, all, e)
    ensures Pruned(l, Next(l, swept, e, true), Next(l, all, e, false), t)
  {
    hide GetShard;
    if e.Check? && e.limit > 0 {
      var a, b := l.check(Entry(swept, e.key), e.limit, e.now), l.check(Entry(all, e.key), e.limit, e.now);
      assert a == b;
    }
  }

  lemma {:induction false} SameDecisions<E(!new)>(l: Limiter<E>, swept: map<Key, E>, all: map<Key, E>, es: seq<Event>,
                                                  t: Time)
    requires Forgetful(l) && Pruned(l, swept, all, t) && Sorted(es, t)
    ensures Decisions(l, swept, es, true) == Decisions(l, all, es, false)
    ensures Pruned(l, After(l, swept, es, true), After(l, all, es, false), Latest(es, t))
    decreases |es|
  {
    if es != [] {
      var u := Later(t, es[0]);
      SortedRest(es, t);
      PrunedLater(l, swept, all, t, u);
      PrunedStep(l, swept, all, es[0], u);
      SameDecisions(l, Next(l, swept, es[0], true), Next(l, all, es[0], false), es[1..], u);
    }
  }

  /** For every interleaving of checks over all keys and limits with sweeps of single
      shards, the swept limiter decides like one never swept. */
  lemma SweepsAreInvisible<E(!new)>(l: Limiter<E>, es: seq<Event>, from: Time)
    requires Forgetful(l) && Sorted(es, from)
    ensures Decisions(l, map[], es, true) == Decisions(l, map[], es, false)
  {
    SameDecisions(l, map[], map[], es, from);
  }

  // ----- the per-second limiter

  const WINDOW: int := SECOND
  const WINDOW_KEPT: int := 10 * SECOND

  datatype Counter = Counter(start: Time, count: int)

  function CheckWindow(c: Option<Counter>, limit: int, now: Time): Decision<Counter> {
    if c.None? || now - c.value.start >= WINDOW then Decision(Counter(now, 1), true)
    else if c.value.count >= limit then Decision(c.value, false)
    else Decision(c.value.(count := c.value.count + 1), true)
  }

  function PerSecond(): Limiter<Counter> {
    Limiter((c, limit, now) => CheckWindow(c, limit, now),
            (c: Counter, now) => now - c.start > WINDOW_KEPT,
            (c: Counter, now) => c.count >= 1)
  }

  lemma PerSecondForgets()
    ensures Forgetful(PerSecond())
  {
  }

  // ----- the per-minute limiter

  /** Tokens are counted in units of 1/(60 * 10^9) token, so that every nanosecond
      refills exactly `limit` units. */
  const TOKEN: int := 60 * SECOND
  const BUCKET_KEPT: int := 5 * MINUTE

  datatype Bucket = Bucket(tokens: int, last: Time)

  function Refilled(b: Bucket, limit: int, now: Time): int {
    var tokens := b.tokens + (now - b.last) * limit;
    if tokens > limit * TOKEN then limit * TOKEN else tokens
  }

  function CheckBucket(b: Option<Bucket>, limit: int, now: Time): Decision<Bucket> {
    var tokens := Refilled(if b.Some? then b.value else Bucket(limit * TOKEN, now), limit, now);
    if tokens < TOKEN then Decision(Bucket(tokens, now), false)
    else Decision(Bucket(tokens - TOKEN, now), true)
  }

  function PerMinute(): Limiter<Bucket> {
    Limiter((b, limit, now) => CheckBucket(b, limit, now),
            (b: Bucket, now) => now - b.last > BUCKET_KEPT,
            (b: Bucket, now) => b.tokens >= 0 && b.last <= now)
  }

  lemma RefillFacts(b: Bucket, limit: int, now: Time)
    requires limit > 0 && b.tokens >= 0 && b.last <= now
    ensures Refilled(b, limit, now) >= 0
    ensures now - b.last > BUCKET_KEPT ==> Refilled(b, limit, now) == limit * TOKEN
  {
    var elapsed := now - b.last;
    assert elapsed * limit >= 0;
    if elapsed > BUCKET_KEPT {
      assert elapsed * limit >= BUCKET_KEPT * limit;
    }
  }

  lemma BucketForgets(b: Bucket, limit: int, now: Time)
    requires limit > 0 && b.tokens >= 0 && b.last <= now
    ensures CheckBucket(Some(b), limit, now).entry.tokens >= 0 && CheckBucket(Some(b), limit, now).entry.last == now
    ensures now - b.last > BUCKET_KEPT ==> CheckBucket(Some(b), limit, now) == CheckBucket(None, limit, now)
  {
    RefillFacts(b, limit, now);
    assert 0 * limit == 0;
  }

  lemma PerMinuteForgets()
    ensures Forgetful(PerMinute())
  {
    hide CheckBucket;
    var l := PerMinute();
    forall limit, t | limit > 0 ensures l.sound(l.check(None, limit, t).entry, t) {
      FullBucketSound(limit, t);
      assert l.check(None, limit, t) == CheckBucket(None, limit, t);
    }
    forall e: Bucket, limit, t {:trigger l.check(Some(e), limit, t)} | limit > 0 && l.sound(e, t)
      ensures l.sound(l.check(Some(e), limit, t).entry, t)
      ensures l.stale(e, t) ==> l.check(Some(e), limit, t) == l.check(None, limit, t)
    {
      BucketForgets(e, limit, t);
      assert l.check(Some(e), limit, t) == CheckBucket(Some(e), limit, t);
      assert l.check(None, limit, t) == CheckBucket(None, limit, t);
    }
  }

  lemma FullBucketSound(limit: int, now: Time)
    requires limit > 0
    ensures var e := CheckBucket(None, limit, now).entry; e.tokens >= 0 && e.last == now
  {
    RefillFacts(Bucket(limit * TOKEN, now), limit, now);
  }

  // ----- what is admitted

  /** Admissions of one key. */
  function Count(es: seq<Event>, ds: seq<bool>, key: Key): nat
    requires |ds| == |es|
  {
    if es == [] then 0
    else Count(es[1..], ds[1..], key) + if es[0].Check? && es[0].key == key && ds[0] then 1 else 0
  }

  predicate FixedLimit(es: seq<Event>, key: Key, limit: int) {
    forall i :: 0 <= i < |es| && es[i].Check? && es[i].key == key ==> es[i].limit == limit
  }

  /** What one event does for the count of a key and for the key's entry. */
  lemma CountStep<E>(l: Limiter<E>, m: map<Key, E>, es: seq<Event>, key: Key, limit: int)
    requires es != [] && FixedLimit(es, key, limit) && limit > 0
    ensures FixedLimit(es[1..], key, limit)
    ensures var m', e := Next(l, m, es[0], false), es[0];
            var rest := Count(es[1..], Decisions(l, m', es[1..], false), key);
            var all := Count(es, Decisions(l, m, es, false), key);
            if e.Check? && e.key == key then
              var d := l.check(Entry(m, key), limit, e.now);
              Entry(m', key) == Some(d.entry) && all == rest + if d.admitted then 1 else 0
            else
              Entry(m', key) == Entry(m, key) && all == rest
  {
    var ds := Decisions(l, m, es, false);
    assert ds[1..] == Decisions(l, Next(l, m, es[0], false), es[1..], false);
  }

  // ----- token bound

  /** The most a key can spend at time `t`. */
  function Spendable(b: Option<Bucket>, limit: int, t: Time): int {
    if b.Some? then Refilled(b.value, limit, t) else limit * TOKEN
  }

  lemma SpendableLater(b: Option<Bucket>, limit: int, t: Time, u: Time)
    requires limit > 0 && t <= u
    ensures Spendable(b, limit, u) <= Spendable(b, limit, t) + (u - t) * limit
  {
    if b.Some? {
      assert (u - b.value.last) * limit == (t - b.value.last) * limit + (u - t) * limit;
    }
    assert (u - t) * limit >= 0;
  }

  lemma SpendableAfter(b: Option<Bucket>, limit: int, t: Time)
    requires limit > 0 && (b.Some? ==> b.value.tokens >= 0 && b.value.last <= t)
    ensures var d := CheckBucket(b, limit, t);
            Spendable(Some(d.entry), limit, t) == Spendable(b, limit, t) - if d.admitted then TOKEN else 0
  {
    if b.Some? {
      RefillFacts(b.value, limit, t);
    }
  }

  lemma {:induction false} TokensSpent(m: map<Key, Bucket>, es: seq<Event>, key: Key, limit: int, t: Time, end: Time)
    requires limit > 0 && FixedLimit(es, key, limit) && Sorted(es, t)
    requires t <= end && forall i :: 0 <= i < |es| && es[i].Check? ==> es[i].now <= end
    requires key in m ==> m[key].tokens >= 0 && m[key].last <= t
    ensures Count(es, Decisions(PerMinute(), m, es, false), key) * TOKEN
            <= Spendable(Entry(m, key), limit, t) + (end - t) * limit
    decreases |es|
  {
    hide Spendable;
    var b := Entry(m, key);
    if es == [] {
      SpendableNonNegative(b, limit, t, end);
    } else {
      var u := if es[0].Check? then es[0].now else t;
      SortedFrom(es, t);
      CountStep(PerMinute(), m, es, key, limit);
      SpendableLater(b, limit, t, u);
      assert (end - t) * limit == (u - t) * limit + (end - u) * limit;
      if es[0].Check? && es[0].key == key {
        SpendableAfter(b, limit, u);
        BucketSound(b, limit, u);
      }
      TokensSpent(Next(PerMinute(), m, es[0], false), es[1..], key, limit, u, end);
    }
  }

  lemma SpendableNonNegative(b: Option<Bucket>, limit: int, t: Time, end: Time)
    requires limit > 0 && t <= end && (b.Some? ==> b.value.tokens >= 0 && b.value.last <= t)
    ensures Spendable(b, limit, t) + (end - t) * limit >= 0
  {
    assert (end - t) * limit >= 0;
    if b.Some? {
      RefillFacts(b.value, limit, t);
    }
  }

  lemma BucketSound(b: Option<Bucket>, limit: int, t: Time)
    requires limit > 0 && (b.Some? ==> b.value.tokens >= 0 && b.value.last <= t)
    ensures var e := CheckBucket(b, limit, t).entry; e.tokens >= 0 && e.last == t
  {
    if b.Some? {
      RefillFacts(b.value, limit, t);
    }
  }

  /** Token-bucket bound, for the limiter with its sweeper: after any history,
      with any limits, a stretch of events from `t` to `end` in which the key's
      limit is fixed admits at most limit + limit * (end - t) / 60 s of them. */
  lemma TokenBucketBound(history: seq<Event>, es: seq<Event>, from: Time, key: Key, limit: int, t: Time, end: Time)
    requires limit > 0 && FixedLimit(es, key, limit) && t <= end
    requires Sorted(history, from) && Latest(history, from) <= t && Sorted(es, t)
    requires forall i :: 0 <= i < |es| && es[i].Check? ==> es[i].now <= end
    ensures var m := After(PerMinute(), map[], history, true);
            Count(es, Decisions(PerMinute(), m, es, true), key) * 60_000_000_000
              <= limit * 60_000_000_000 + limit * (end - t)
  {
    hide After, Decisions, Count, Forgetful;
    var l := PerMinute();
    PerMinuteForgets();
    SameDecisions(l, map[], map[], history, from);
    var m, r := After(l, map[], history, true), After(l, map[], history, false);
    PrunedLater(l, m, r, Latest(history, from), t);
    SameDecisions(l, m, r, es, t);
    TokensSpent(r, es, key, limit, t, end);
    assert Spendable(Entry(r, key), limit, t) <= limit * TOKEN;
    assert (end - t) * limit == limit * (end - t);
  }

  // ----- token bound on any clock

  /** The sweeper does not drop the key's entry during the run. */
  predicate Keeps<E>(l: Limiter<E>, m: map<Key, E>, es: seq<Event>, key: Key)
    decreases |es|
  {
    es == [] ||
    (&& !Drops(l, m, es[0], key)
     && Keeps(l, Next(l, m, es[0], true), es[1..], key))
  }

  /** Tokens measured against the clock: what no check can raise. */
  function Potential(b: Bucket, limit: int): int {
    b.tokens - b.last * limit
  }

  lemma PotentialFalls(b: Bucket, limit: int, now: Time)
    ensures var d := CheckBucket(Some(b), limit, now);
            && Potential(d.entry, limit) + (if d.admitted then TOKEN else 0) <= Potential(b, limit)
            && d.entry.last == now && (d.admitted ==> d.entry.tokens >= 0)
            && d.entry.tokens + (if d.admitted then TOKEN else 0) <= limit * TOKEN
  {
    assert (now - b.last) * limit == now * limit - b.last * limit;
  }

  lemma KeptStep(m: map<Key, Bucket>, es: seq<Event>, key: Key, limit: int)
    requires es != [] && FixedLimit(es, key, limit) && limit > 0 && Keeps(PerMinute(), m, es, key)
    ensures FixedLimit(es[1..], key, limit)
    ensures var l := PerMinute();
            var m', e := Next(l, m, es[0], true), es[0];
            var rest, all := Count(es[1..], Decisions(l, m', es[1..], true), key),
              Count(es, Decisions(l, m, es, true), key);
            && Keeps(l, m', es[1..], key)
            && if e.Check? && e.key == key then
                 var d := CheckBucket(Entry(m, key), limit, e.now);
                 Entry(m', key) == Some(d.entry) && all == (rest + if d.admitted then 1 else 0)
                   && Admits(l, m, e) == d.admitted
               else
                 Entry(m', key) == Entry(m, key) && all == rest
  {
    var l := PerMinute();
    assert Decisions(l, m, es, true)[1..] == Decisions(l, Next(l, m, es[0], true), es[1..], true);
  }

  /** The run ends with an admission of the key. */
  predicate EndsAdmitted(m: map<Key, Bucket>, es: seq<Event>, key: Key) {
    && es != [] && es[|es| - 1].Check? && es[|es| - 1].key == key
    && Decisions(PerMinute(), m, es, true)[|es| - 1]
  }

  lemma {:induction false} PotentialSpent(m: map<Key, Bucket>, es: seq<Event>, key: Key, limit: int)
    requires limit > 0 && FixedLimit(es, key, limit) && key in m && Keeps(PerMinute(), m, es, key)
    ensures var m' := After(PerMinute(), m, es, true);
            && key in m'
            && Count(es, Decisions(PerMinute(), m, es, true), key) * TOKEN
               <= Potential(m[key], limit) - Potential(m'[key], limit)
    ensures EndsAdmitted(m, es, key) ==>
              var m' := After(PerMinute(), m, es, true);
              key in m' && m'[key].last == es[|es| - 1].now && m'[key].tokens >= 0
    decreases |es|
  {
    hide Potential, CheckBucket, Keeps, Count;
    if es == [] {
      CountNone(key);
    } else {
      var e, m1 := es[0], Next(PerMinute(), m, es[0], true);
      KeptStep(m, es, key, limit);
      if e.Check? && e.key == key {
        PotentialFalls(m[key], limit, e.now);
      }
      PotentialSpent(m1, es[1..], key, limit);
    }
  }

  lemma CountNone(key: Key)
    ensures Count([], [], key) == 0
  {
  }

  /** Token-bucket bound with no assumption on the clock, which is read before the
      lock is taken and so may go back: as long as the key's bucket is not swept, a
      stretch that starts with a check at t1 and ends with an admission at t2 admits
      at most limit + limit * (t2 - t1) / 60 s. */
  lemma TokenBucketBoundOnAnyClock(m: map<Key, Bucket>, es: seq<Event>, key: Key, limit: int)
    requires limit > 0 && FixedLimit(es, key, limit) && es != [] && Keeps(PerMinute(), m, es, key)
    requires es[0].Check? && es[0].key == key && EndsAdmitted(m, es, key)
    ensures Count(es, Decisions(PerMinute(), m, es, true), key) * 60_000_000_000
            <= limit * 60_000_000_000 + limit * (es[|es| - 1].now - es[0].now)
  {
    hide CheckBucket, Keeps, Count, Potential, Decisions, After;
    var l := PerMinute();
    var m1 := Next(l, m, es[0], true);
    KeptStep(m, es, key, limit);
    FirstCheck(Entry(m, key), limit, es[0].now);
    FirstDecision(l, m, es);
    if es[1..] == [] {
      NothingDecided(l, m1);
      CountNone(key);
      assert limit * 0 == 0;
    } else {
      PotentialSpent(m1, es[1..], key, limit);
      PotentialBounds(m1[key], After(l, m1, es[1..], true)[key], limit);
    }
  }

  lemma NothingDecided<E>(l: Limiter<E>, m: map<Key, E>)
    ensures Decisions(l, m, [], true) == []
  {
  }

  lemma FirstDecision<E>(l: Limiter<E>, m: map<Key, E>, es: seq<Event>)
    requires es != []
    ensures Decisions(l, m, es, true)[0] == Admits(l, m, es[0])
    ensures Decisions(l, m, es, true)[1..] == Decisions(l, Next(l, m, es[0], true), es[1..], true)
  {
  }

  /** What can be spent between two states of a bucket, the second not overdrawn. */
  lemma PotentialBounds(a: Bucket, b: Bucket, limit: int)
    requires b.tokens >= 0
    ensures Potential(a, limit) - Potential(b, limit) <= a.tokens + limit * (b.last - a.last)
  {
    assert limit * (b.last - a.last) == b.last * limit - a.last * limit;
  }

  lemma FirstCheck(b: Option<Bucket>, limit: int, now: Time)
    requires limit > 0
    ensures var d := CheckBucket(b, limit, now);
            && d.entry.last == now && (d.admitted ==> d.entry.tokens >= 0)
            && d.entry.tokens + (if d.admitted then TOKEN else 0) <= limit * TOKEN
  {
  }

  // ----- window bound

  /** What a key can still get before `end`, one second after `begin`. */
  function Quota(c: Option<Counter>, limit: int, begin: Time): int {
    if c.None? then limit
    else
      var rest := if c.value.count < limit then limit - c.value.count else 0;
      if c.value.start >= begin then rest else rest + limit
  }

  lemma QuotaStep(c: Option<Counter>, limit: int, begin: Time, now: Time)
    requires limit > 0 && begin <= now < begin + WINDOW
    requires c.Some? ==> c.value.count >= 1
    ensures var d := CheckWindow(c, limit, now);
            d.entry.count >= 1
            && Quota(Some(d.entry), limit, begin) + (if d.admitted then 1 else 0) <= Quota(c, limit, begin)
  {
  }

  lemma {:induction false} QuotaSpent(m: map<Key, Counter>, es: seq<Event>, key: Key, limit: int, begin: Time)
    requires limit > 0 && FixedLimit(es, key, limit)
    requires forall i :: 0 <= i < |es| && es[i].Check? ==> begin <= es[i].now < begin + WINDOW
    requires key in m ==> m[key].count >= 1
    ensures Count(es, Decisions(PerSecond(), m, es, false), key) <= Quota(Entry(m, key), limit, begin)
    decreases |es|
  {
    if es != [] {
      CountStep(PerSecond(), m, es, key, limit);
      if es[0].Check? {
        QuotaStep(Entry(m, key), limit, begin, es[0].now);
      }
      QuotaSpent(Next(PerSecond(), m, es[0], false), es[1..], key, limit, begin);
    }
  }

  /** Fixed-window bound, for the limiter with its sweeper: after any history,
      every half-open interval of one second in which the key's limit is fixed
      admits at most 2 * limit - 1. */
  lemma WindowBound(history: seq<Event>, es: seq<Event>, from: Time, key: Key, limit: int, begin: Time)
    requires limit > 0 && FixedLimit(es, key, limit)
    requires Sorted(history, from) && Latest(history, from) <= begin && Sorted(es, begin)
    requires forall i :: 0 <= i < |es| && es[i].Check? ==> es[i].now < begin + 1_000_000_000
    ensures var m := After(PerSecond(), map[], history, true);
            Count(es, Decisions(PerSecond(), m, es, true), key) <= 2 * limit - 1
  {
    hide After, Decisions, Count, Pruned, Forgetful;
    var l := PerSecond();
    PerSecondForgets();
    SameDecisions(l, map[], map[], history, from);
    var m, r := After(l, map[], history, true), After(l, map[], history, false);
    PrunedLater(l, m, r, Latest(history, from), begin);
    SameDecisions(l, m, r, es, begin);
    QuotaSpent(r, es, key, limit, begin);
  }

  /** What a window still open admits: until it is a second old, at most what its
      count leaves of the limit, so never more than the limit in all. */
  lemma {:induction false} OneWindowAdmitsLimit(m: map<Key, Counter>, es: seq<Event>, key: Key, limit: int)
    requires limit > 0 && FixedLimit(es, key, limit) && key in m && m[key].count >= 1
    requires forall i :: 0 <= i < |es| && es[i].Check? ==> es[i].now < m[key].start + WINDOW
    ensures var n := Count(es, Decisions(PerSecond(), m, es, false), key);
            && m[key].count + n <= (if m[key].count > limit then m[key].count else limit)
            && Entry(After(PerSecond(), m, es, false), key) == Some(Counter(m[key].start, m[key].count + n))
    decreases |es|
  {
    if es != [] {
      CountStep(PerSecond(), m, es, key, limit);
      OneWindowAdmitsLimit(Next(PerSecond(), m, es[0], false), es[1..], key, limit);
    }
  }

  /** Windows of a key that replace one another start at least a second apart. */
  lemma {:induction false} WindowsStartApart(m: map<Key, Counter>, es: seq<Event>, key: Key)
    requires key in m
    ensures var c := Entry(After(PerSecond(), m, es, false), key);
            c.Some? && (c.value.start == m[key].start || c.value.start >= m[key].start + 1_000_000_000)
    decreases |es|
  {
    if es != [] {
      WindowsStartApart(Next(PerSecond(), m, es[0], false), es[1..], key);
    }
  }

  // ----- the window bound is reached

  function Burst(key: Key, limit: int, now: Time, n: nat): (es: seq<Event>)
    ensures |es| == n && forall i :: 0 <= i < n ==> es[i] == Check(key, limit, now)
  {
    seq(n, i => Check(key, limit, now))
  }

  lemma {:induction false} BurstAdmitted(m: map<Key, Counter>, key: Key, limit: int, now: Time, n: nat)
    requires limit > 0 && key in m && m[key].count >= 1
    requires m[key].start <= now < m[key].start + WINDOW && m[key].count + n <= limit
    ensures Count(Burst(key, limit, now, n), Decisions(PerSecond(), m, Burst(key, limit, now, n), false), key) == n
    decreases n
  {
    if n > 0 {
      var es := Burst(key, limit, now, n);
      CountStep(PerSecond(), m, es, key, limit);
      assert es[1..] == Burst(key, limit, now, n - 1);
      BurstAdmitted(Next(PerSecond(), m, es[0], false), key, limit, now, n - 1);
    }
  }

  lemma {:induction false} RunsJoin<E>(l: Limiter<E>, m: map<Key, E>, a: seq<Event>, b: seq<Event>, key: Key,
                                       swept: bool)
    ensures Count(a + b, Decisions(l, m, a + b, swept), key)
            == Count(a, Decisions(l, m, a, swept), key) + Count(b, Decisions(l, After(l, m, a, swept), b, swept), key)
    ensures After(l, m, a + b, swept) == After(l, After(l, m, a, swept), b, swept)
    decreases |a|
  {
    hide Next, Admits, Count, Decisions, After;
    if a == [] {
      assert a + b == b;
      NoEvent(l, m, key, swept);
    } else {
      assert (a + b)[1..] == a[1..] + b;
      FirstEvent(l, m, a, key, swept);
      FirstEvent(l, m, a + b, key, swept);
      RunsJoin(l, Next(l, m, a[0], swept), a[1..], b, key, swept);
    }
  }

  lemma NoEvent<E>(l: Limiter<E>, m: map<Key, E>, key: Key, swept: bool)
    ensures Decisions(l, m, [], swept) == [] && After(l, m, [], swept) == m && Count([], [], key) == 0
  {
  }

  lemma FirstEvent<E>(l: Limiter<E>, m: map<Key, E>, es: seq<Event>, key: Key, swept: bool)
    requires es != []
    ensures var m', e := Next(l, m, es[0], swept), es[0];
            && After(l, m, es, swept) == After(l, m', es[1..], swept)
            && Count(es, Decisions(l, m, es, swept), key)
               == Count(es[1..], Decisions(l, m', es[1..], swept), key)
                  + if e.Check? && e.key == key && Admits(l, m, e) then 1 else 0
  {
    hide Next, Admits;
    assert Decisions(l, m, es, swept)[1..] == Decisions(l, Next(l, m, es[0], swept), es[1..], swept);
  }

  lemma OneCheck(key: Key, limit: int)
    requires limit > 0
    ensures After(PerSecond(), map[], [Check(key, limit, 0)], true) == map[key := Counter(0, 1)]
  {
    var l, e := PerSecond(), Check(key, limit, 0);
    assert [e][1..] == [];
    assert l.check(None, limit, 0) == CheckWindow(None, limit, 0);
  }

  /** The bound is tight for every limit: one check, then the rest of its window
      just before it ends, then a whole new window, all admitted within a second. */
  lemma WindowBoundIsReached(key: Key, limit: int)
    requires limit > 0
    ensures var m := After(PerSecond(), map[], [Check(key, limit, 0)], true);
            var es := Burst(key, limit, WINDOW - 1, limit - 1) + Burst(key, limit, WINDOW, limit);
            && Sorted(es, WINDOW - 1) && FixedLimit(es, key, limit)
            && Count(es, Decisions(PerSecond(), m, es, true), key) == 2 * limit - 1
  {
    hide After, Decisions, Count;
    var l := PerSecond();
    var m := After(l, map[], [Check(key, limit, 0)], true);
    var a, b := Burst(key, limit, WINDOW - 1, limit - 1), Burst(key, limit, WINDOW, limit);
    OneCheck(key, limit);
    BurstAdmitted(m, key, limit, WINDOW - 1, limit - 1);
    OneWindowAdmitsLimit(m, a, key, limit);
    NewWindowAdmitted(After(l, m, a, false), key, limit);
    RunsJoin(l, m, a, b, key, false);
    PerSecondForgets();
    SameDecisions(l, m, m, a + b, WINDOW - 1);
  }

  lemma NewWindowAdmitted(m: map<Key, Counter>, key: Key, limit: int)
    requires limit > 0 && key in m && m[key].start == 0
    ensures var b := Burst(key, limit, WINDOW, limit);
            Count(b, Decisions(PerSecond(), m, b, false), key) == limit
  {
    var b := Burst(key, limit, WINDOW, limit);
    CountStep(PerSecond(), m, b, key, limit);
    assert b[1..] == Burst(key, limit, WINDOW, limit - 1);
    BurstAdmitted(Next(PerSecond(), m, b[0], false), key, limit, WINDOW, limit - 1);
  }

  // ----- a sweep against the clock

  lemma {:induction false} BucketBurst(m: map<Key, Bucket>, key: Key, limit: int, now: Time, n: nat)
    requires limit > 0 && key in m && m[key].last == now && n * TOKEN <= m[key].tokens <= limit * TOKEN
    ensures var l, es := PerMinute(), Burst(key, limit, now, n);
            && Count(es, Decisions(l, m, es, true), key) == n
            && After(l, m, es, true) == m[key := Bucket(m[key].tokens - n * TOKEN, now)]
    decreases n
  {
    hide Count, CheckBucket;
    var l, es := PerMinute(), Burst(key, limit, now, n);
    if n == 0 {
      CountNone(key);
    } else {
      var m' := Next(l, m, es[0], true);
      assert es[1..] == Burst(key, limit, now, n - 1);
      NothingDrops(l, m, es, key);
      KeptStep(m, es, key, limit);
      SpendOne(m[key], limit);
      BucketBurst(m', key, limit, now, n - 1);
    }
  }

  lemma SpendOne(b: Bucket, limit: int)
    requires TOKEN <= b.tokens <= limit * TOKEN
    ensures CheckBucket(Some(b), limit, b.last) == Decision(Bucket(b.tokens - TOKEN, b.last), true)
  {
    assert (b.last - b.last) * limit == 0;
  }

  lemma {:induction false} NothingDrops<E>(l: Limiter<E>, m: map<Key, E>, es: seq<Event>, key: Key)
    requires forall i :: 0 <= i < |es| ==> es[i].Check?
    ensures Keeps(l, m, es, key)
    decreases |es|
  {
    hide Next;
    if es != [] {
      NothingDrops(l, Next(l, m, es[0], true), es[1..], key);
    }
  }

  /** A whole burst of a key without a bucket. */
  lemma FreshBurst(key: Key, limit: int, now: Time)
    requires limit > 0
    ensures var l, es := PerMinute(), Burst(key, limit, now, limit);
            && Count(es, Decisions(l, map[], es, true), key) == limit
            && After(l, map[], es, true) == map[key := Bucket(0, now)]
  {
    hide Count, CheckBucket;
    var l, es := PerMinute(), Burst(key, limit, now, limit);
    var none: map<Key, Bucket> := map[];
    assert es[1..] == Burst(key, limit, now, limit - 1);
    NothingDrops(l, none, es, key);
    KeptStep(none, es, key, limit);
    SpendFirst(limit, now);
    assert l.check(None, limit, now) == CheckBucket(None, limit, now);
    var m' := Next(l, none, es[0], true);
    assert m' == map[key := Bucket(limit * TOKEN - TOKEN, now)];
    assert (limit - 1) * TOKEN == limit * TOKEN - TOKEN;
    BucketBurst(m', key, limit, now, limit - 1);
  }

  lemma SpendFirst(limit: int, now: Time)
    requires limit > 0
    ensures CheckBucket(None, limit, now) == Decision(Bucket(limit * TOKEN - TOKEN, now), true)
  {
    assert limit * TOKEN >= TOKEN;
    assert 0 * limit == 0;
  }

  /** The bucket must not be swept for the bound on any clock: for every limit, a
      burst at one moment, a sweep that reads the clock six minutes later, and a burst
      at the first moment again admit twice the limit in no time at all. */
  lemma SweepAgainstTheClock(key: Key, limit: int, now: Time)
    requires limit > 0
    ensures var es := Burst(key, limit, now, limit) + [Sweep(GetShard(key), now + 6 * MINUTE)]
        + Burst(key, limit, now, limit);
            Count(es, Decisions(PerMinute(), map[], es, true), key) == 2 * limit
  {
    hide Count, Decisions, After, GetShard, CheckBucket;
    var l, burst := PerMinute(), Burst(key, limit, now, limit);
    var sweep := [Sweep(GetShard(key), now + 6 * MINUTE)];
    var none: map<Key, Bucket> := map[];
    FreshBurst(key, limit, now);
    SweepsIt(key, now);
    RunsJoin(l, none, burst, sweep, key, true);
    RunsJoin(l, none, burst + sweep, burst, key, true);
  }

  lemma SweepsIt(key: Key, now: Time)
    ensures var l, m, sweep := PerMinute(), map[key := Bucket(0, now)], [Sweep(GetShard(key), now + 6 * MINUTE)];
            && After(l, m, sweep, true) == map[]
            && Count(sweep, Decisions(l, m, sweep, true), key) == 0
  {
    hide GetShard;
    var l, m, sweep := PerMinute(), map[key := Bucket(0, now)], Sweep(GetShard(key), now + 6 * MINUTE);
    assert Drops(l, m, sweep, key);
    assert Next(l, m, sweep, true) == map[];
    assert [sweep][1..] == [];
  }

  // ----- nothing is rejected without cause

  /** Admissions of a key among the events from `p` on and before `q`. */
  function Between(es: seq<Event>, ds: seq<bool>, key: Key, p: nat, q: nat): nat
    requires |ds| == |es| && p <= q <= |es|
  {
    Count(es[p..q], ds[p..q], key)
  }

  lemma SliceOfRest<A>(s: seq<A>, p: nat, q: nat)
    requires p <= q < |s|
    ensures s[p + 1..q + 1] == s[1..][p..q]
  {
    var a, b := s[p + 1..q + 1], s[1..][p..q];
    assert |a| == |b| && forall i :: 0 <= i < |a| ==> a[i] == b[i];
  }

  lemma BetweenRest(es: seq<Event>, ds: seq<bool>, key: Key, p: nat, q: nat)
    requires |ds| == |es| && p <= q < |es|
    ensures Between(es, ds, key, p + 1, q + 1) == Between(es[1..], ds[1..], key, p, q)
  {
    SliceOfRest(es, p, q);
    SliceOfRest(ds, p, q);
  }

  lemma BetweenFirst(es: seq<Event>, ds: seq<bool>, key: Key, q: nat)
    requires |ds| == |es| && q < |es|
    ensures Between(es, ds, key, 0, q + 1)
            == Between(es[1..], ds[1..], key, 0, q) + if es[0].Check? && es[0].key == key && ds[0] then 1 else 0
  {
    assert es[0..q + 1][1..] == es[1..][0..q];
    assert ds[0..q + 1][1..] == ds[1..][0..q];
  }

  lemma BetweenNone(es: seq<Event>, ds: seq<bool>, key: Key)
    requires |ds| == |es|
    ensures Between(es, ds, key, 0, 0) == 0
  {
  }

  lemma FirstDecided<E>(l: Limiter<E>, m: map<Key, E>, es: seq<Event>)
    requires es != []
    ensures var ds := Decisions(l, m, es, false);
            ds[0] == Admits(l, m, es[0]) && ds[1..] == Decisions(l, Next(l, m, es[0], false), es[1..], false)
  {
  }

  /** The admissions up to `q` are those of the run that stops there. */
  lemma {:induction false} BetweenStart<E>(l: Limiter<E>, m: map<Key, E>, es: seq<Event>, key: Key, q: nat)
    requires q <= |es|
    ensures Between(es, Decisions(l, m, es, false), key, 0, q) == Count(es[..q], Decisions(l, m, es[..q], false), key)
    ensures q < |es| ==> Decisions(l, m, es, false)[q] == Admits(l, After(l, m, es[..q], false), es[q])
    decreases q
  {
    hide Next, Admits, Decisions, After, Count, Between;
    NoEvent(l, m, key, false);
    if q == 0 {
      BetweenNone(es, Decisions(l, m, es, false), key);
      if es != [] {
        FirstDecided(l, m, es);
      }
    } else {
      assert es[..q][1..] == es[1..][..q - 1];
      FirstDecided(l, m, es);
      FirstEvent(l, m, es[..q], key, false);
      BetweenFirst(es, Decisions(l, m, es, false), key, q - 1);
      BetweenStart(l, Next(l, m, es[0], false), es[1..], key, q - 1);
    }
  }

  /** More than a full bucket and its refill between `base` and `t` can pay for. */
  predicate Exhausted(wanted: nat, limit: int, base: Time, t: Time) {
    wanted * 60_000_000_000 > limit * 60_000_000_000 + limit * (t - base)
  }

  /** The check at `q`, on top of the admissions since the check at `p`, is more than a
      bucket full at `p` can pay for. */
  predicate ExhaustedSince(es: seq<Event>, ds: seq<bool>, key: Key, limit: int, p: nat, q: nat)
    requires |ds| == |es| && p <= q < |es|
  {
    es[p].Check? && es[p].key == key && Exhausted(Between(es, ds, key, p, q) + 1, limit, ReadAt(es[p]), ReadAt(es[q]))
  }

  /** Some check before `q` is one to blame a rejection at `q` on. */
  predicate Unpaid(es: seq<Event>, ds: seq<bool>, key: Key, limit: int, q: nat)
    requires |ds| == |es| && q < |es|
  {
    exists p: nat :: p < q && ExhaustedSince(es, ds, key, limit, p, q)
  }

  /** The bucket was full at `base` and has never been capped since, with `n`
      admissions. */
  predicate Since(b: Bucket, limit: int, base: Time, n: nat) {
    b.tokens == limit * TOKEN + (b.last - base) * limit - n * TOKEN
  }

  /** One check of a bucket followed since `base`. */
  lemma SinceStep(b: Bucket, limit: int, base: Time, n: nat, now: Time)
    requires limit > 0 && Since(b, limit, base, n)
    ensures var d := CheckBucket(Some(b), limit, now);
            && d.entry.last == now
            && (!d.admitted ==> Exhausted(n + 1, limit, base, now))
            && (Since(d.entry, limit, base, if d.admitted then n + 1 else n)
                || (d.admitted && Since(d.entry, limit, now, 1)))
  {
    assert (now - b.last) * limit + (b.last - base) * limit == (now - base) * limit;
    assert (now - now) * limit == 0;
    assert limit * TOKEN >= TOKEN;
  }

  lemma SinceStart(limit: int, now: Time)
    requires limit > 0
    ensures var d := CheckBucket(None, limit, now); d.admitted && d.entry.last == now && Since(d.entry, limit, now, 1)
  {
    SpendFirst(limit, now);
    assert (now - now) * limit == 0;
  }

  lemma {:induction false} RejectionTraced(m: map<Key, Bucket>, es: seq<Event>, key: Key, limit: int, base: Time,
                                           n: nat, q: nat)
    requires limit > 0 && FixedLimit(es, key, limit) && key in m && Since(m[key], limit, base, n)
    requires q < |es| && es[q].Check? && es[q].key == key && !Decisions(PerMinute(), m, es, false)[q]
    ensures var ds := Decisions(PerMinute(), m, es, false);
            || Exhausted(n + Between(es, ds, key, 0, q) + 1, limit, base, ReadAt(es[q]))
            || Unpaid(es, ds, key, limit, q)
    decreases |es|
  {
    hide Since, CheckBucket, Between, Exhausted, Decisions, Unpaid;
    var l, e := PerMinute(), es[0];
    var m', ds := Next(l, m, e, false), Decisions(l, m, es, false);
    FirstDecided(l, m, es);
    CountStep(l, m, es, key, limit);
    var own := e.Check? && e.key == key;
    if own {
      SinceStep(m[key], limit, base, n, e.now);
      assert l.check(Some(m[key]), limit, e.now) == CheckBucket(Some(m[key]), limit, e.now);
    }
    if q == 0 {
      BetweenNone(es, ds, key);
    } else {
      var renewed := own && !Since(m'[key], limit, base, if ds[0] then n + 1 else n);
      var base' := if renewed then e.now else base;
      var n' := if renewed then 1 else if own && ds[0] then n + 1 else n;
      RejectionTraced(m', es[1..], key, limit, base', n', q - 1);
      BetweenFirst(es, ds, key, q - 1);
      if renewed && !Unpaid(es[1..], ds[1..], key, limit, q - 1) {
        BlameFirst(es, ds, key, limit, q);
      }
      BlameRest(es, ds, key, limit, q - 1);
    }
  }

  lemma BlameFirst(es: seq<Event>, ds: seq<bool>, key: Key, limit: int, q: nat)
    requires |ds| == |es| && 0 < q < |es| && es[0].Check? && es[0].key == key
    requires Exhausted(Between(es, ds, key, 0, q) + 1, limit, ReadAt(es[0]), ReadAt(es[q]))
    ensures Unpaid(es, ds, key, limit, q)
  {
    assert ExhaustedSince(es, ds, key, limit, 0, q);
  }

  lemma BlameRest(es: seq<Event>, ds: seq<bool>, key: Key, limit: int, q: nat)
    requires |ds| == |es| && q + 1 < |es|
    ensures Unpaid(es[1..], ds[1..], key, limit, q) ==> Unpaid(es, ds, key, limit, q + 1)
  {
    hide Between, Exhausted;
    var rest, decided := es[1..], ds[1..];
    if Unpaid(rest, decided, key, limit, q) {
      var p: nat :| p < q && ExhaustedSince(rest, decided, key, limit, p, q);
      BetweenRest(es, ds, key, p, q);
      assert ExhaustedSince(es, ds, key, limit, p + 1, q + 1);
    }
  }

  lemma {:induction false} RejectionHasCause(m: map<Key, Bucket>, es: seq<Event>, key: Key, limit: int, q: nat)
    requires limit > 0 && FixedLimit(es, key, limit) && key !in m
    requires q < |es| && es[q].Check? && es[q].key == key && !Decisions(PerMinute(), m, es, false)[q]
    ensures Unpaid(es, Decisions(PerMinute(), m, es, false), key, limit, q)
    decreases |es|
  {
    hide Since, CheckBucket, Between, Exhausted, Decisions, Unpaid;
    var l, e := PerMinute(), es[0];
    var m', ds := Next(l, m, e, false), Decisions(l, m, es, false);
    FirstDecided(l, m, es);
    CountStep(l, m, es, key, limit);
    var own := e.Check? && e.key == key;
    if own {
      SinceStart(limit, e.now);
      assert l.check(None, limit, e.now) == CheckBucket(None, limit, e.now);
    }
    assert q > 0;
    if own {
      RejectionTraced(m', es[1..], key, limit, e.now, 1, q - 1);
      BetweenFirst(es, ds, key, q - 1);
      if !Unpaid(es[1..], ds[1..], key, limit, q - 1) {
        BlameFirst(es, ds, key, limit, q);
      }
    } else {
      RejectionHasCause(m', es[1..], key, limit, q - 1);
    }
    BlameRest(es, ds, key, limit, q - 1);
  }

  lemma {:induction false} UnpaidIsRejected(m: map<Key, Bucket>, es: seq<Event>, key: Key, limit: int, t: Time, p: nat,
                                            q: nat)
    requires limit > 0 && FixedLimit(es, key, limit) && Sorted(es, t) && p < q < |es|
    requires key in m ==> m[key].tokens >= 0 && m[key].last <= t
    requires es[q].Check? && es[q].key == key
    requires ExhaustedSince(es, Decisions(PerMinute(), m, es, false), key, limit, p, q)
    ensures !Decisions(PerMinute(), m, es, false)[q]
    decreases p
  {
    hide CheckBucket, Between, Exhausted, Decisions, Count;
    var l, e := PerMinute(), es[0];
    var ds := Decisions(l, m, es, false);
    if p == 0 {
      if ds[q] {
        PaidFromStart(m, es, key, limit, t, q);
      }
    } else {
      var m' := Next(l, m, e, false);
      FirstDecided(l, m, es);
      CountStep(l, m, es, key, limit);
      SortedFrom(es, t);
      if e.Check? && e.key == key {
        BucketSound(Entry(m, key), limit, e.now);
      }
      BetweenRest(es, ds, key, p - 1, q - 1);
      UnpaidIsRejected(m', es[1..], key, limit, if e.Check? then e.now else t, p - 1, q - 1);
    }
  }

  lemma PaidFromStart(m: map<Key, Bucket>, es: seq<Event>, key: Key, limit: int, t: Time, q: nat)
    requires limit > 0 && FixedLimit(es, key, limit) && Sorted(es, t) && q < |es|
    requires key in m ==> m[key].tokens >= 0 && m[key].last <= t
    requires es[0].Check? && es[q].Check? && es[q].key == key
    requires Decisions(PerMinute(), m, es, false)[q]
    ensures var ds := Decisions(PerMinute(), m, es, false);
            !Exhausted(Between(es, ds, key, 0, q) + 1, limit, ReadAt(es[0]), ReadAt(es[q]))
  {
    hide CheckBucket, Between, Decisions, Count, After, Next, Admits;
    var l, begin, end := PerMinute(), es[0].now, es[q].now;
    var ds, a, b := Decisions(l, m, es, false), es[..q], [es[q]];
    assert es[..q + 1] == a + b;
    BetweenStart(l, m, es, key, q);
    RunsJoin(l, m, a, b, key, false);
    OnlyEvent(l, After(l, m, a, false), es[q], key);
    TokensSpent(m, a + b, key, limit, begin, end);
    assert Spendable(Entry(m, key), limit, begin) <= limit * TOKEN;
    assert (end - begin) * limit == limit * (end - begin);
  }

  lemma OnlyEvent<E>(l: Limiter<E>, m: map<Key, E>, e: Event, key: Key)
    requires e.Check? && e.key == key
    ensures Count([e], Decisions(l, m, [e], false), key) == if Admits(l, m, e) then 1 else 0
  {
    hide Next, Admits, Decisions, Count;
    assert [e][1..] == [];
    FirstEvent(l, m, [e], key, false);
    NoEvent(l, Next(l, m, e, false), key, false);
  }

  /** Exactly when the per-minute limiter with its sweeper rejects: the check is one
      more than a bucket full at some earlier check of the key, refilled at the full
      rate since, can pay for after the admissions in between. */
  lemma RejectedExactly(es: seq<Event>, from: Time, key: Key, limit: int, q: nat)
    requires limit > 0 && FixedLimit(es, key, limit) && Sorted(es, from)
    requires q < |es| && es[q].Check? && es[q].key == key
    ensures var ds := Decisions(PerMinute(), map[], es, true);
            !ds[q] <==> exists p: nat :: p < q && ExhaustedSince(es, ds, key, limit, p, q)
  {
    hide Decisions, ExhaustedSince;
    var l, none: map<Key, Bucket> := PerMinute(), map[];
    PerMinuteForgets();
    SweepsAreInvisible(l, es, from);
    var ds := Decisions(l, none, es, false);
    if !ds[q] {
      RejectionHasCause(none, es, key, limit, q);
    }
    if p: nat :| p < q && ExhaustedSince(es, ds, key, limit, p, q) {
      UnpaidIsRejected(none, es, key, limit, from, p, q);
    }
  }

  /** From the admission at `p` on, less than a second before the check at `q`, the
      key has had at least its limit. */
  predicate LimitReached(es: seq<Event>, ds: seq<bool>, key: Key, limit: int, p: nat, q: nat)
    requires |ds| == |es| && p <= q < |es|
  {
    && es[p].Check? && es[p].key == key && ds[p] && ReadAt(es[q]) - ReadAt(es[p]) < 1_000_000_000
    && Between(es, ds, key, p, q) >= limit
  }

  predicate WindowSpent(es: seq<Event>, ds: seq<bool>, key: Key, limit: int, q: nat)
    requires |ds| == |es| && q < |es|
  {
    exists p: nat :: p < q && LimitReached(es, ds, key, limit, p, q)
  }

  lemma WindowSpentFirst(es: seq<Event>, ds: seq<bool>, key: Key, limit: int, q: nat)
    requires |ds| == |es| && 0 < q < |es| && es[0].Check? && es[0].key == key && ds[0]
    requires ReadAt(es[q]) - ReadAt(es[0]) < 1_000_000_000 && Between(es, ds, key, 0, q) >= limit
    ensures WindowSpent(es, ds, key, limit, q)
  {
    assert LimitReached(es, ds, key, limit, 0, q);
  }

  lemma WindowSpentRest(es: seq<Event>, ds: seq<bool>, key: Key, limit: int, q: nat)
    requires |ds| == |es| && q + 1 < |es|
    ensures WindowSpent(es[1..], ds[1..], key, limit, q) ==> WindowSpent(es, ds, key, limit, q + 1)
  {
    hide Between;
    var rest, decided := es[1..], ds[1..];
    if WindowSpent(rest, decided, key, limit, q) {
      var p: nat :| p < q && LimitReached(rest, decided, key, limit, p, q);
      BetweenRest(es, ds, key, p, q);
      assert LimitReached(es, ds, key, limit, p + 1, q + 1);
    }
  }

  lemma {:induction false} WindowTraced(m: map<Key, Counter>, es: seq<Event>, key: Key, limit: int, q: nat)
    requires limit > 0 && FixedLimit(es, key, limit) && (key in m ==> m[key].count >= 1)
    requires q < |es| && es[q].Check? && es[q].key == key && !Decisions(PerSecond(), m, es, false)[q]
    ensures var ds := Decisions(PerSecond(), m, es, false);
            || WindowSpent(es, ds, key, limit, q)
            || (key in m && ReadAt(es[q]) - m[key].start < 1_000_000_000
                && m[key].count + Between(es, ds, key, 0, q) >= limit)
    decreases |es|
  {
    hide Between, Decisions, WindowSpent;
    var l, e := PerSecond(), es[0];
    var m', ds := Next(l, m, e, false), Decisions(l, m, es, false);
    FirstDecided(l, m, es);
    CountStep(l, m, es, key, limit);
    if q == 0 {
      BetweenNone(es, ds, key);
    } else {
      WindowTraced(m', es[1..], key, limit, q - 1);
      BetweenFirst(es, ds, key, q - 1);
      WindowSpentRest(es, ds, key, limit, q - 1);
      if e.Check? && e.key == key && ds[0] && m'[key] == Counter(e.now, 1)
         && ReadAt(es[q]) - e.now < 1_000_000_000 && Between(es, ds, key, 0, q) >= limit {
        WindowSpentFirst(es, ds, key, limit, q);
      }
    }
  }

  /** The per-second limiter with its sweeper rejects a check only when the key has
      been admitted at least `limit` times in less than the second before it. */
  lemma WindowRejectionHasCause(es: seq<Event>, from: Time, key: Key, limit: int, q: nat)
    requires limit > 0 && FixedLimit(es, key, limit) && Sorted(es, from)
    requires q < |es| && es[q].Check? && es[q].key == key && !Decisions(PerSecond(), map[], es, true)[q]
    ensures var ds := Decisions(PerSecond(), map[], es, true);
            exists p: nat :: p < q && LimitReached(es, ds, key, limit, p, q)
  {
    hide Decisions, LimitReached;
    PerSecondForgets();
    SweepsAreInvisible(PerSecond(), es, from);
    WindowTraced(map[], es, key, limit, q);
  }

  /** A limit that is not positive admits every check and leaves no entry behind. */
  lemma NoLimitNoTrace<E>(l: Limiter<E>, m: map<Key, E>, es: seq<Event>, q: nat, swept: bool)
    requires q < |es| && es[q].Check? && es[q].limit <= 0
    ensures Decisions(l, m, es, swept)[q]
    ensures After(l, m, es, swept) == After(l, m, es[..q] + es[q + 1..], swept)
    decreases q
  {
    hide Admits, Next;
    if q == 0 {
      assert es[..0] + es[1..] == es[1..];
      Unlimited(l, m, es[0], swept);
    } else {
      var rest := es[1..];
      assert (es[..q] + es[q + 1..])[1..] == rest[..q - 1] + rest[q..];
      NoLimitNoTrace(l, Next(l, m, es[0], swept), rest, q - 1, swept);
    }
  }

  lemma Unlimited<E>(l: Limiter<E>, m: map<Key, E>, e: Event, swept: bool)
    requires e.Check? && e.limit <= 0
    ensures Admits(l, m, e) && Next(l, m, e, swept) == m
  {
  }

  /** What a sweep leaves: the per-second counters of other shards and those at most
      ten seconds old, the per-minute buckets of other shards and those last checked at
      most five minutes ago. */
  lemma SweptExactly(c: map<Key, Counter>, b: map<Key, Bucket>, shard: nat, read: Time, key: Key)
    ensures var c' := Next(PerSecond(), c, Sweep(shard, read), true);
            && (key in c' <==> key in c && (Fnv32a(key) as int % 64 != shard || read - c[key].start <= 10_000_000_000))
            && (key in c' ==> c'[key] == c[key])
    ensures var b' := Next(PerMinute(), b, Sweep(shard, read), true);
            && (key in b' <==> key in b && (Fnv32a(key) as int % 64 != shard || read - b[key].last <= 300_000_000_000))
            && (key in b' ==> b'[key] == b[key])
  {
    hide Fnv32a;
  }

  /** Published values of the 32-bit FNV-1a hash: of nothing and of "a". */
  lemma HashVectors()
    ensures Fnv32a([]) == 0x811c9dc5 && Fnv32a([0x61]) == 0xe40c292c
  {
  }
}
