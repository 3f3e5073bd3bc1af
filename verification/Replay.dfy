/** Replay protection in two stages: the timestamp window, then a counter per nonce
    that expires. Times count from the Unix epoch. */
module Replay {
  import opened Prelude

  // ----- timestamp window

  const TWO_63: int := 0x8000_0000_0000_0000

  /** A signed 64-bit result. */
  function Wrap64(x: int): (r: int)
    ensures -TWO_63 <= r < TWO_63
  {
    (x + TWO_63) % (2 * TWO_63) - TWO_63
  }

  predicate Int64(x: int) { -TWO_63 <= x < TWO_63 }

  /** `Abs` on int64: the least value is its own negative. */
  function Abs64(x: int): int {
    if x < 0 then Wrap64(-x) else x
  }

  /** Integer division as Go does it, toward zero. */
  function Quotient(x: int, d: int): int
    requires d > 0
  {
    if x >= 0 then x / d else -(-x / d)
  }

  predicate IsDigit(c: char) { '0' <= c <= '9' }

  predicate AllDigits(s: string) {
    forall i :: 0 <= i < |s| ==> IsDigit(s[i])
  }

  function DigitValue(c: char): nat
    requires IsDigit(c)
  {
    c as int - '0' as int
  }

  function Digits(s: string): (n: nat)
    requires AllDigits(s)
  {
    if s == "" then 0
    else Digits(s[..|s| - 1]) * 10 + DigitValue(s[|s| - 1])
  }

  /** Decimal int64: an optional sign, at least one digit, in range. */
  function ParseInt(s: string): (r: Option<int>)
    ensures r.Some? ==> Int64(r.value)
  {
    var body := if s != "" && s[0] in {'+', '-'} then s[1..] else s;
    if body == "" || !AllDigits(body) then None
    else
      var n: int := Digits(body);
      var n := if s[0] == '-' then -n else n;
      if Int64(n) then Some(n) else None
  }

  /** Seconds of a timestamp header; 13 characters are taken as milliseconds. */
  function Seconds(timestamp: string): (r: Option<int>)
    ensures r.Some? ==> Int64(r.value)
  {
    var ts := ParseInt(timestamp);
    if ts.None? then None
    else if |timestamp| == 13 then Some(Quotient(ts.value, 1000)) else ts
  }

  /** Whole seconds of the clock. */
  function Unix(now: Time): int {
    now / SECOND
  }

  predicate InWindow(timestamp: string, now: Time, window: int) {
    var ts := Seconds(timestamp);
    ts.Some? && Abs64(Wrap64(Unix(now) - ts.value)) <= window
  }

  /** A clock and a window of sane size: seconds that leave room in an int64. */
  predicate Sane(now: Time, window: int) {
    0 <= Unix(now) < TWO_63 / 2 && 0 <= window < TWO_63 / 2
  }

  /** Exactly which requests the window accepts: those close in time, and, since the
      difference is an int64 whose least value is its own absolute value, those
      exactly 2^63 seconds apart. */
  lemma WindowMeaning(timestamp: string, now: Time, window: int)
    requires Sane(now, window)
    ensures InWindow(timestamp, now, window) <==>
            var ts := Seconds(timestamp);
            ts.Some? && (-window <= Unix(now) - ts.value <= window || Unix(now) - ts.value == TWO_63)
  {
    var ts := Seconds(timestamp);
    if ts.Some? {
      var d := Unix(now) - ts.value;
      assert -TWO_63 < d < TWO_63 + TWO_63 / 2;
      assert Wrap64(d) == if d >= TWO_63 then d - 2 * TWO_63 else d;
    }
  }

  /** So a fixed timestamp is accepted only within one stretch of 2W + 1 seconds. */
  lemma AcceptedTogether(timestamp: string, a: Time, b: Time, window: int)
    requires Sane(a, window) && Sane(b, window)
    requires InWindow(timestamp, a, window) && InWindow(timestamp, b, window)
    ensures b - a < (2 * window + 1) * SECOND
  {
    WindowMeaning(timestamp, a, window);
    WindowMeaning(timestamp, b, window);
    assert Unix(b) - Unix(a) <= 2 * window;
    assert b < (Unix(b) + 1) * SECOND && a >= Unix(a) * SECOND;
    assert (Unix(b) + 1) * SECOND - Unix(a) * SECOND == (Unix(b) - Unix(a) + 1) * SECOND;
  }

  // ----- nonce counter

  datatype Counter = Counter(count: int, expire: Option<Time>)

  type Store = map<string, Counter>

  predicate Alive(m: Store, key: string, now: Time) {
    key in m && (m[key].expire.Some? ==> now < m[key].expire.value)
  }

  /** The atomic script: INCR, then EXPIRE when the key is new or a refresh is
      asked for; a non-positive expiry deletes the key. */
  function IncrAndExpire(m: Store, key: string, now: Time, seconds: int, refresh: bool): (Store, int) {
    var current := if Alive(m, key, now) then m[key].count + 1 else 1;
    var kept := if Alive(m, key, now) then m[key].expire else None;
    if refresh || current == 1 then
      if seconds <= 0 then (m - {key}, current)
      else (m[key := Counter(current, Some(now + seconds * SECOND))], current)
    else (m[key := Counter(current, kept)], current)
  }

  /** The counters, as Redis holds them. */
  class Redis {
    var counters: Store

    constructor ()
      ensures counters == map[]
    {
      counters := map[];
    }

    method Incr(key: string, now: Time) returns (current: int)
      modifies this
      ensures current == if Alive(old(counters), key, now) then old(counters)[key].count + 1 else 1
      ensures var expire := if Alive(old(counters), key, now) then old(counters)[key].expire else None;
              counters == old(counters)[key := Counter(current, expire)]
    {
      if Alive(counters, key, now) {
        current := counters[key].count + 1;
        counters := counters[key := Counter(current, counters[key].expire)];
      } else {
        current := 1;
        counters := counters[key := Counter(1, None)];
      }
    }

    method Expire(key: string, now: Time, seconds: int)
      requires key in counters
      modifies this
      ensures counters == if seconds <= 0 then old(counters) - {key}
                          else old(counters)[key := Counter(old(counters)[key].count, Some(now + seconds * SECOND))]
    {
      if seconds <= 0 {
        counters := counters - {key};
      } else {
        counters := counters[key := Counter(counters[key].count, Some(now + seconds * SECOND))];
      }
    }

    method IncrThenExpire(key: string, now: Time, seconds: int, refresh: bool) returns (current: int)
      modifies this
      ensures (counters, current) == IncrAndExpire(old(counters), key, now, seconds, refresh)
    {
      current := Incr(key, now);
      if refresh || current == 1 {
        Expire(key, now, seconds);
        if seconds <= 0 {
          assert counters == old(counters) - {key};
        } else {
          assert counters == old(counters)[key := Counter(current, Some(now + seconds * SECOND))];
        }
      }
    }
  }

  // ----- requests that go through both stages

  /** One request: whose it is, its nonce and timestamp, when the window was checked
      and when the counter was advanced. */
  datatype Request = Request(secretID: string, nonce: string, timestamp: string, checked: Time, counted: Time)

  datatype Policy = Policy(prefix: string, window: int, limit: int, ttl: int, delay: int)

  function NonceKey(prefix: string, secretID: string, nonce: string): string {
    prefix + ":limit:nonce:" + secretID + ":" + nonce
  }

  function Key(p: Policy, r: Request): string {
    NonceKey(p.prefix, r.secretID, r.nonce)
  }

  /** Two identities without a colon share a counter only if they and their nonces
      are the same; with a colon they can. */
  lemma NonceKeySeparates(prefix: string, secretID: string, nonce: string, secretID': string, nonce': string)
    ensures ':' !in secretID + secretID' && NonceKey(prefix, secretID, nonce) == NonceKey(prefix, secretID', nonce') ==>
              secretID == secretID' && nonce == nonce'
    ensures NonceKey(prefix, "a:b", "c") == NonceKey(prefix, "a", "b:c")
  {
    var head := prefix + ":limit:nonce:";
    if ':' !in secretID + secretID' && NonceKey(prefix, secretID, nonce) == NonceKey(prefix, secretID', nonce') {
      var rest, rest' := secretID + ":" + nonce, secretID' + ":" + nonce';
      assert NonceKey(prefix, secretID, nonce) == head + rest && NonceKey(prefix, secretID', nonce') == head + rest';
      assert rest == (head + rest)[|head|..] && rest' == (head + rest')[|head|..];
      FirstColon(secretID, nonce, secretID', nonce');
    }
    assert "a:b" + ":" + "c" == "a" + ":" + "b:c";
    assert NonceKey(prefix, "a:b", "c") == head + ("a:b" + ":" + "c");
    assert NonceKey(prefix, "a", "b:c") == head + ("a" + ":" + "b:c");
  }

  lemma FirstColon(a: string, x: string, b: string, y: string)
    requires ':' !in a && ':' !in b && a + ":" + x == b + ":" + y
    ensures a == b && x == y
  {
    if |a| < |b| {
      ColonEarlier(a, x, b, y);
    } else if |b| < |a| {
      ColonEarlier(b, y, a, x);
    } else {
      var s, t := a + ":" + x, b + ":" + y;
      assert a == s[..|a|] && b == t[..|b|] && x == s[|a| + 1..] && y == t[|b| + 1..];
    }
  }

  lemma ColonEarlier(a: string, x: string, b: string, y: string)
    requires |a| < |b| && ':' !in b
    ensures a + ":" + x != b + ":" + y
  {
    assert (a + ":" + x)[|a|] == ':' && (b + ":" + y)[|a|] == b[|a|];
  }

  /** The request gets to the counter: its timestamp is accepted, and it names an
      identity and a nonce. */
  predicate Reaches(p: Policy, r: Request) {
    InWindow(r.timestamp, r.checked, p.window) && r.secretID != "" && r.nonce != ""
  }

  /** Requests in the order the counter sees them, each counted at most `delay`
      after its window check. Requests outside the window never get that far. */
  predicate Run(p: Policy, rs: seq<Request>) {
    && (forall i :: 0 <= i < |rs| ==>
          Sane(rs[i].checked, p.window) && rs[i].checked <= rs[i].counted <= rs[i].checked + p.delay)
    && (forall i, j :: 0 <= i <= j < |rs| ==> rs[i].counted <= rs[j].counted)
  }

  function NextStore(p: Policy, m: Store, r: Request): Store {
    if Reaches(p, r) then IncrAndExpire(m, Key(p, r), r.counted, p.ttl, false).0 else m
  }

  predicate Passes(p: Policy, m: Store, r: Request) {
    Reaches(p, r) && IncrAndExpire(m, Key(p, r), r.counted, p.ttl, false).1 <= p.limit
  }

  /** Both stages of one request, in middleware order. */
  method Admit(redis: Redis, p: Policy, r: Request) returns (ok: bool)
    modifies redis
    ensures ok == Passes(p, old(redis.counters), r)
    ensures redis.counters == NextStore(p, old(redis.counters), r)
  {
    if !InWindow(r.timestamp, r.checked, p.window) {
      return false;
    }
    if r.secretID == "" || r.nonce == "" {
      return false;
    }
    var count := redis.IncrThenExpire(Key(p, r), r.counted, p.ttl, false);
    ok := !(count > p.limit);
  }

  /** How often a counter lets a given timestamp through. */
  function PassedKey(p: Policy, m: Store, rs: seq<Request>, key: string, timestamp: string): nat
    decreases |rs|
  {
    if rs == [] then 0
    else
      var rest := PassedKey(p, NextStore(p, m, rs[0]), rs[1..], key, timestamp);
      if Passes(p, m, rs[0]) && Key(p, rs[0]) == key && rs[0].timestamp == timestamp then rest + 1 else rest
  }

  lemma RunRest(p: Policy, rs: seq<Request>)
    requires rs != [] && Run(p, rs)
    ensures Run(p, rs[1..])
    ensures forall i :: 0 <= i < |rs[1..]| ==> rs[0].counted <= rs[1..][i].counted
  {
  }

  function Cap(p: Policy): nat {
    if p.limit > 0 then p.limit else 0
  }

  /** All that can still get through the key before `end`. */
  function Left(p: Policy, m: Store, key: string, now: Time, end: Time): nat {
    if !Alive(m, key, now) then Cap(p)
    else
      var rest := if m[key].count < Cap(p) then Cap(p) - m[key].count else 0;
      if m[key].expire.Some? && m[key].expire.value < end then rest + Cap(p) else rest
  }

  predicate Positive(m: Store) {
    forall k :: k in m ==> m[k].count >= 1
  }

  lemma StaysPositive(p: Policy, m: Store, r: Request)
    requires Positive(m)
    ensures Positive(NextStore(p, m, r))
  {
  }

  /** One request, seen from an earlier moment `now`: it uses up what is left. */
  lemma LeftStep(p: Policy, m: Store, r: Request, key: string, now: Time, end: Time)
    requires p.ttl > 0 && Positive(m) && now <= r.counted < end <= now + p.ttl * SECOND
    ensures Left(p, NextStore(p, m, r), key, r.counted, end)
            + (if Passes(p, m, r) && Key(p, r) == key then 1 else 0) <= Left(p, m, key, now, end)
  {
    hide InWindow, NonceKey;
    assert p.ttl * SECOND > 0;
  }

  predicate Matches(p: Policy, r: Request, key: string, timestamp: string) {
    Key(p, r) == key && r.timestamp == timestamp && Reaches(p, r)
  }

  lemma {:induction false} NoneMatching(p: Policy, m: Store, rs: seq<Request>, key: string, timestamp: string)
    requires forall i :: 0 <= i < |rs| ==> !Matches(p, rs[i], key, timestamp)
    ensures PassedKey(p, m, rs, key, timestamp) == 0
    decreases |rs|
  {
    if rs != [] {
      assert !Matches(p, rs[0], key, timestamp);
      NoneMatching(p, NextStore(p, m, rs[0]), rs[1..], key, timestamp);
    }
  }

  /** Within one counter lifetime from `now`: at most what is left of the current
      counter, and one more. */
  lemma {:induction false} PassedWithinLifetime(p: Policy, m: Store, rs: seq<Request>, key: string, timestamp: string,
                                                now: Time, end: Time)
    requires p.ttl > 0 && end <= now + p.ttl * SECOND && Run(p, rs) && Positive(m)
    requires forall i :: 0 <= i < |rs| ==> now <= rs[i].counted
    requires forall i :: 0 <= i < |rs| && Matches(p, rs[i], key, timestamp) ==> rs[i].counted < end
    ensures PassedKey(p, m, rs, key, timestamp) <= Left(p, m, key, now, end)
    decreases |rs|
  {
    hide Matches, Left, NextStore, Positive;
    if rs != [] {
      RunRest(p, rs);
      if rs[0].counted >= end {
        NoneMatching(p, m, rs, key, timestamp);
      } else {
        var m' := NextStore(p, m, rs[0]);
        StaysPositive(p, m, rs[0]);
        LeftStep(p, m, rs[0], key, now, end);
        PassedWithinLifetime(p, m', rs[1..], key, timestamp, rs[0].counted, end);
      }
    }
  }

  /** Everything a timestamp lets through is counted within one lifetime of the
      first such request. */
  lemma CountedTogether(p: Policy, rs: seq<Request>, key: string, timestamp: string)
    requires rs != [] && Run(p, rs) && Matches(p, rs[0], key, timestamp)
    ensures forall i :: 0 <= i < |rs| && Matches(p, rs[i], key, timestamp) ==>
              rs[i].counted < rs[0].checked + (2 * p.window + 1) * SECOND + p.delay
  {
    forall i | 0 <= i < |rs| && Matches(p, rs[i], key, timestamp)
      ensures rs[i].counted < rs[0].checked + (2 * p.window + 1) * SECOND + p.delay
    {
      AcceptedTogether(timestamp, rs[0].checked, rs[i].checked, p.window);
    }
  }

  /** The counter outlives the window: what the two bounds below need. */
  predicate Outlives(p: Policy) {
    p.ttl > 0 && p.ttl * SECOND >= (2 * p.window + 1) * SECOND + p.delay
  }

  lemma {:induction false} KeyBounded(p: Policy, m: Store, rs: seq<Request>, key: string, timestamp: string)
    requires Run(p, rs) && Positive(m) && Outlives(p)
    ensures PassedKey(p, m, rs, key, timestamp) <= if Cap(p) > 0 then 2 * Cap(p) - 1 else 0
    decreases |rs|
  {
    hide NextStore;
    if rs != [] {
      if Matches(p, rs[0], key, timestamp) {
        CountedTogether(p, rs, key, timestamp);
        var end := rs[0].checked + (2 * p.window + 1) * SECOND + p.delay;
        PassedWithinLifetime(p, m, rs, key, timestamp, rs[0].counted, end);
      } else {
        RunRest(p, rs);
        StaysPositive(p, m, rs[0]);
        KeyBounded(p, NextStore(p, m, rs[0]), rs[1..], key, timestamp);
      }
    }
  }

  lemma {:induction false} SoleTimestampKeyBounded(p: Policy, m: Store, rs: seq<Request>, key: string,
                                                   timestamp: string)
    requires Run(p, rs) && Positive(m) && Outlives(p)
    requires key !in m
    requires forall i :: 0 <= i < |rs| && Key(p, rs[i]) == key && Reaches(p, rs[i]) ==> rs[i].timestamp == timestamp
    ensures PassedKey(p, m, rs, key, timestamp) <= Cap(p)
    decreases |rs|
  {
    if rs != [] {
      if Matches(p, rs[0], key, timestamp) {
        CountedTogether(p, rs, key, timestamp);
        var end := rs[0].checked + (2 * p.window + 1) * SECOND + p.delay;
        PassedWithinLifetime(p, m, rs, key, timestamp, rs[0].counted, end);
      } else {
        RunRest(p, rs);
        StaysPositive(p, m, rs[0]);
        SoleTimestampKeyBounded(p, NextStore(p, m, rs[0]), rs[1..], key, timestamp);
      }
    }
  }

  /** The request is this identity's, with this nonce and timestamp. */
  predicate Is(r: Request, secretID: string, nonce: string, timestamp: string) {
    r.secretID == secretID && r.nonce == nonce && r.timestamp == timestamp
  }

  /** How often an identity gets a nonce with a given timestamp through both stages. */
  function Passed(p: Policy, m: Store, rs: seq<Request>, secretID: string, nonce: string, timestamp: string): nat
    decreases |rs|
  {
    if rs == [] then 0
    else
      var rest := Passed(p, NextStore(p, m, rs[0]), rs[1..], secretID, nonce, timestamp);
      if Passes(p, m, rs[0]) && Is(rs[0], secretID, nonce, timestamp) then rest + 1 else rest
  }

  lemma {:induction false} PassedAtKey(p: Policy, m: Store, rs: seq<Request>, secretID: string, nonce: string,
                                       timestamp: string)
    ensures Passed(p, m, rs, secretID, nonce, timestamp)
            <= PassedKey(p, m, rs, NonceKey(p.prefix, secretID, nonce), timestamp)
    decreases |rs|
  {
    hide NonceKey, NextStore, Passes;
    if rs != [] {
      PassedAtKey(p, NextStore(p, m, rs[0]), rs[1..], secretID, nonce, timestamp);
    }
  }

  /** Replay bound: in any run, over all identities, nonces and timestamps, whatever
      the store held before, a fixed identity, nonce and timestamp get through both
      stages fewer times than twice the nonce limit, and never if that limit is not
      positive. */
  lemma ReplaysBounded(p: Policy, m: Store, rs: seq<Request>, secretID: string, nonce: string, timestamp: string)
    requires Run(p, rs) && Positive(m) && Outlives(p)
    ensures Passed(p, m, rs, secretID, nonce, timestamp) <= if Cap(p) > 0 then 2 * Cap(p) - 1 else 0
  {
    PassedAtKey(p, m, rs, secretID, nonce, timestamp);
    KeyBounded(p, m, rs, NonceKey(p.prefix, secretID, nonce), timestamp);
  }

  /** ... and at most the limit itself if the nonce starts unused and no other
      timestamp brings it to the counter. */
  lemma SoleTimestampBounded(p: Policy, m: Store, rs: seq<Request>, secretID: string, nonce: string, timestamp: string)
    requires Run(p, rs) && Positive(m) && Outlives(p)
    requires NonceKey(p.prefix, secretID, nonce) !in m
    requires forall i :: 0 <= i < |rs| && Key(p, rs[i]) == NonceKey(p.prefix, secretID, nonce) && Reaches(p, rs[i]) ==>
               rs[i].timestamp == timestamp
    ensures Passed(p, m, rs, secretID, nonce, timestamp) <= Cap(p)
  {
    PassedAtKey(p, m, rs, secretID, nonce, timestamp);
    SoleTimestampKeyBounded(p, m, rs, NonceKey(p.prefix, secretID, nonce), timestamp);
  }

  // ----- the replay bound is reached

  function StoreAfter(p: Policy, m: Store, rs: seq<Request>): Store
    decreases |rs|
  {
    if rs == [] then m else StoreAfter(p, NextStore(p, m, rs[0]), rs[1..])
  }

  function Again(r: Request, n: nat): (rs: seq<Request>)
    ensures |rs| == n && forall i :: 0 <= i < n ==> rs[i] == r
  {
    seq(n, _ => r)
  }

  lemma {:induction false} PassedAppend(p: Policy, m: Store, a: seq<Request>, b: seq<Request>,
                                        secretID: string, nonce: string, timestamp: string)
    ensures Passed(p, m, a + b, secretID, nonce, timestamp)
            == Passed(p, m, a, secretID, nonce, timestamp)
              + Passed(p, StoreAfter(p, m, a), b, secretID, nonce, timestamp)
    decreases |a|
  {
    hide NextStore, Passes;
    if a == [] {
      assert a + b == b;
    } else {
      assert (a + b)[1..] == a[1..] + b && (a + b)[0] == a[0];
      PassedAppend(p, NextStore(p, m, a[0]), a[1..], b, secretID, nonce, timestamp);
    }
  }

  /** As long as the counter lives and the limit is not reached, every repetition
      gets through. */
  lemma {:induction false} AgainPasses(p: Policy, m: Store, r: Request, n: nat)
    requires Reaches(p, r) && Alive(m, Key(p, r), r.counted) && 1 <= m[Key(p, r)].count
        && m[Key(p, r)].count + n <= p.limit
    ensures Passed(p, m, Again(r, n), r.secretID, r.nonce, r.timestamp) == n
    ensures var m' := StoreAfter(p, m, Again(r, n)); Key(p, r) in m' && m'[Key(p, r)].expire == m[Key(p, r)].expire
    decreases n
  {
    hide Reaches, NonceKey;
    if n > 0 {
      assert Again(r, n)[1..] == Again(r, n - 1);
      AgainPasses(p, NextStore(p, m, r), r, n - 1);
    }
  }

  lemma FirstPasses(p: Policy, m: Store, r: Request, n: nat)
    requires Reaches(p, r) && !Alive(m, Key(p, r), r.counted) && p.ttl > 0 && n + 1 <= p.limit
    ensures Passed(p, m, Again(r, n + 1), r.secretID, r.nonce, r.timestamp) == n + 1
    ensures StoreAfter(p, m, [r]) == m[Key(p, r) := Counter(1, Some(r.counted + p.ttl * SECOND))]
  {
    hide Reaches, NonceKey;
    assert p.ttl * SECOND > 0;
    assert Again(r, n + 1)[1..] == Again(r, n);
    AgainPasses(p, NextStore(p, m, r), r, n);
  }

  /** The nonce is first used with another timestamp, and the counter that starts
      then runs out in the middle of a burst. */
  lemma BurstAcrossExpiry(p: Policy, first: Request, before: Request, after: Request)
    requires p.limit > 0 && p.ttl > 0
    requires Reaches(p, first) && Reaches(p, before) && Reaches(p, after)
    requires Key(p, first) == Key(p, before) == Key(p, after)
    requires first.timestamp != before.timestamp && Is(before, after.secretID, after.nonce, after.timestamp)
    requires before.counted < first.counted + p.ttl * SECOND <= after.counted
    ensures var rs := [first] + Again(before, p.limit - 1) + Again(after, p.limit);
            Passed(p, map[], rs, after.secretID, after.nonce, after.timestamp) == 2 * p.limit - 1
  {
    hide Reaches, Passes, NextStore, NonceKey;
    var id, nonce, ts := after.secretID, after.nonce, after.timestamp;
    var m0: Store := map[];
    FirstPasses(p, m0, first, 0);
    var m1 := StoreAfter(p, m0, [first]);
    OtherTimestamp(p, m0, first, id, nonce, ts);
    AgainPasses(p, m1, before, p.limit - 1);
    var m2 := StoreAfter(p, m1, Again(before, p.limit - 1));
    FirstPasses(p, m2, after, p.limit - 1);
    StoreAppend(p, m0, [first], Again(before, p.limit - 1));
    PassedAppend(p, m0, [first] + Again(before, p.limit - 1), Again(after, p.limit), id, nonce, ts);
    PassedAppend(p, m0, [first], Again(before, p.limit - 1), id, nonce, ts);
  }

  lemma OtherTimestamp(p: Policy, m: Store, r: Request, secretID: string, nonce: string, timestamp: string)
    requires r.timestamp != timestamp
    ensures Passed(p, m, [r], secretID, nonce, timestamp) == 0
  {
    assert [r][1..] == [];
  }

  lemma {:induction false} StoreAppend(p: Policy, m: Store, a: seq<Request>, b: seq<Request>)
    ensures StoreAfter(p, m, a + b) == StoreAfter(p, StoreAfter(p, m, a), b)
    decreases |a|
  {
    hide NextStore;
    if a == [] {
      assert a + b == b;
    } else {
      assert (a + b)[1..] == a[1..] + b && (a + b)[0] == a[0];
      StoreAppend(p, NextStore(p, m, a[0]), a[1..], b);
    }
  }

  // ----- requests that reach it

  /** A number in decimal, the way a client writes it. */
  function Decimal(n: nat): (s: string)
    ensures s != "" && AllDigits(s)
  {
    var c := ('0' as int + n % 10) as char;
    if n < 10 then [c] else Decimal(n / 10) + [c]
  }

  lemma {:induction false} DigitsOfDecimal(n: nat)
    ensures Digits(Decimal(n)) == n
  {
    var s := Decimal(n);
    if n >= 10 {
      DigitsOfDecimal(n / 10);
      assert s[..|s| - 1] == Decimal(n / 10);
    } else {
      assert s[..|s| - 1] == "";
    }
  }

  /** A timestamp of `n` seconds: a leading zero keeps thirteen digits from being
      taken as milliseconds. */
  function Stamp(n: nat): string {
    if |Decimal(n)| == 13 then "0" + Decimal(n) else Decimal(n)
  }

  lemma {:induction false} LeadingZero(s: string)
    requires AllDigits(s)
    ensures Digits("0" + s) == Digits(s)
    decreases |s|
  {
    var z := "0" + s;
    if s == "" {
      assert z[..|z| - 1] == "";
    } else {
      assert z[..|z| - 1] == "0" + s[..|s| - 1] && z[|z| - 1] == s[|s| - 1];
      LeadingZero(s[..|s| - 1]);
    }
  }

  lemma SecondsOfStamp(n: nat)
    requires n < TWO_63
    ensures Seconds(Stamp(n)) == Some(n)
  {
    var s := Stamp(n);
    DigitsOfDecimal(n);
    LeadingZero(Decimal(n));
    assert IsDigit(s[0]) && AllDigits(s);
    assert ParseInt(s) == Some(n);
  }

  lemma StampAccepted(n: nat, now: Time, window: int)
    requires 0 <= window < TWO_63 / 2 && n < TWO_63 / 2 && Unix(now) == n
    ensures InWindow(Stamp(n), now, window)
  {
    SecondsOfStamp(n);
    WindowMeaning(Stamp(n), now, window);
  }

  function StampedAt(secretID: string, nonce: string, second: nat, now: Time): Request {
    Request(secretID, nonce, Stamp(second), now, now)
  }

  /** One request at the epoch, then a burst around the moment its counter expires. */
  function WorstCase(p: Policy, secretID: string, nonce: string): seq<Request>
    requires p.limit > 0 && p.ttl > 0
  {
    [StampedAt(secretID, nonce, 0, 1)]
    + Again(StampedAt(secretID, nonce, p.ttl, p.ttl * SECOND), p.limit - 1)
    + Again(StampedAt(secretID, nonce, p.ttl, p.ttl * SECOND + 1), p.limit)
  }

  /** The replay bound is tight: for every policy it is stated for, and every
      identity and nonce, these requests make a run and reach it. */
  lemma ReplayBoundIsReached(p: Policy, secretID: string, nonce: string)
    requires Outlives(p) && p.limit > 0 && 0 <= p.window < TWO_63 / 2 && p.ttl < TWO_63 / 2 && p.delay >= 0
    requires secretID != "" && nonce != ""
    ensures var rs := WorstCase(p, secretID, nonce);
            && Run(p, rs)
            && Passed(p, map[], rs, secretID, nonce, Stamp(p.ttl)) == 2 * p.limit - 1
  {
    hide InWindow, NonceKey, Decimal, Passed, Seconds, Unix, Stamp, Again;
    var first := StampedAt(secretID, nonce, 0, 1);
    var before, after := StampedAt(secretID, nonce, p.ttl, p.ttl * SECOND),
      StampedAt(secretID, nonce, p.ttl, p.ttl * SECOND + 1);
    UnixOf(0, 1);
    UnixOf(p.ttl, 0);
    UnixOf(p.ttl, 1);
    StampAccepted(0, 1, p.window);
    StampAccepted(p.ttl, p.ttl * SECOND, p.window);
    StampAccepted(p.ttl, p.ttl * SECOND + 1, p.window);
    SecondsOfStamp(0);
    SecondsOfStamp(p.ttl);
    assert first.timestamp != after.timestamp;
    BurstAcrossExpiry(p, first, before, after);
    BurstIsRun(p, first, before, after);
  }

  lemma BurstIsRun(p: Policy, first: Request, before: Request, after: Request)
    requires p.limit > 0 && Run(p, [first]) && Run(p, [before]) && Run(p, [after])
    requires first.counted <= before.counted <= after.counted
    ensures Run(p, [first] + Again(before, p.limit - 1) + Again(after, p.limit))
  {
    assert [first][0] == first && [before][0] == before && [after][0] == after;
  }

  lemma UnixOf(seconds: nat, rest: int)
    requires 0 <= rest < SECOND
    ensures Unix(seconds * SECOND + rest) == seconds
  {
  }

  // ----- what the window accepts, in digits

  function Zeros(k: nat): (s: string)
    ensures |s| == k && forall i :: 0 <= i < k ==> s[i] == '0'
  {
    seq(k, _ => '0')
  }

  lemma {:induction false} ZerosDecimal(k: nat, n: nat)
    ensures var s := Zeros(k) + Decimal(n);
            s != "" && AllDigits(s) && Digits(s) == n
    decreases k
  {
    hide Decimal, Digits;
    DigitsOfDecimal(n);
    if k == 0 {
      assert Zeros(0) + Decimal(n) == Decimal(n);
    } else {
      ZerosDecimal(k - 1, n);
      LeadingZero(Zeros(k - 1) + Decimal(n));
      assert Zeros(k) + Decimal(n) == "0" + (Zeros(k - 1) + Decimal(n));
    }
  }

  /** A number as it may be written: a sign or none, leading zeros, and its digits. */
  predicate Writes(s: string, sign: string, zeros: nat, n: nat) {
    sign in ["", "+", "-"] && s == sign + Zeros(zeros) + Decimal(n)
  }

  lemma WrittenNumber(s: string, sign: string, zeros: nat, n: nat)
    requires Writes(s, sign, zeros, n)
    ensures var v: int := if sign == "-" then 0 - n else n;
            ParseInt(s) == if Int64(v) then Some(v) else None
  {
    hide Digits, Decimal, Zeros;
    ZerosDecimal(zeros, n);
    var body := Zeros(zeros) + Decimal(n);
    assert s == sign + body;
    assert IsDigit(body[0]);
    if sign == "" {
      assert s == body;
    } else {
      assert s[0] == sign[0] && s[1..] == body;
    }
  }

  /** Exactly which numbers the window accepts, however they are written: as seconds,
      or, in thirteen characters, as milliseconds cut toward zero; in the range of an
      int64; at most `window` seconds from the clock, or 2^63 before it. */
  lemma WindowInNumbers(s: string, sign: string, zeros: nat, n: nat, now: Time, window: int)
    requires Writes(s, sign, zeros, n) && Sane(now, window)
    ensures InWindow(s, now, window) <==>
            var size := if |s| == 13 then n / 1000 else n;
            var apart := now / 1_000_000_000 - if sign == "-" then -size else size;
            && (if sign == "-" then n <= 0x8000_0000_0000_0000 else n < 0x8000_0000_0000_0000)
            && (-window <= apart <= window || apart == 0x8000_0000_0000_0000)
  {
    hide ParseInt, Writes, InWindow;
    WrittenNumber(s, sign, zeros, n);
    WindowMeaning(s, now, window);
  }

  /** Clients that send whole seconds, or milliseconds in thirteen digits. */
  lemma WindowInDecimal(n: nat, now: Time, window: int)
    requires n < 0x8000_0000_0000_0000 && Sane(now, window)
    ensures InWindow(Decimal(n), now, window) <==>
            var seconds := if 1_000_000_000_000 <= n < 10_000_000_000_000 then n / 1000 else n;
            -window <= now / 1_000_000_000 - seconds <= window
  {
    hide InWindow, Decimal;
    assert "" + Zeros(0) + Decimal(n) == Decimal(n);
    WindowInNumbers(Decimal(n), "", 0, n, now, window);
    DecimalLength(n, 12);
    DecimalLength(n, 13);
    assert Power10(12) == 1_000_000_000_000 && Power10(13) == 10_000_000_000_000;
  }

  function Power10(k: nat): nat {
    if k == 0 then 1 else 10 * Power10(k - 1)
  }

  lemma {:induction false} DecimalLength(n: nat, k: nat)
    requires k > 0
    ensures |Decimal(n)| > k <==> n >= Power10(k)
    decreases k
  {
    if n < 10 {
      PowerPositive(k - 1);
    } else if k > 1 {
      DecimalLength(n / 10, k - 1);
    }
  }

  lemma PowerPositive(k: nat)
    ensures Power10(k) >= 1
  {
  }

  /** Anything that is not a number is rejected. */
  lemma AcceptedIsNumber(s: string, now: Time, window: int)
    requires InWindow(s, now, window)
    ensures exists sign, zeros, n :: Writes(s, sign, zeros, n)
  {
    hide Digits, Decimal, Zeros;
    var body := if s != "" && s[0] in {'+', '-'} then s[1..] else s;
    var sign := if s != "" && s[0] in {'+', '-'} then [s[0]] else "";
    assert s == sign + body;
    var zeros, n := DigitsWritten(body);
    assert sign == "" || sign == "+" || sign == "-";
    assert s == sign + Zeros(zeros) + Decimal(n);
    assert Writes(s, sign, zeros, n);
  }

  lemma {:induction false} DigitsWritten(s: string) returns (zeros: nat, n: nat)
    requires s != "" && AllDigits(s)
    ensures s == Zeros(zeros) + Decimal(n)
    decreases |s|
  {
    var d := DigitValue(s[|s| - 1]);
    zeros, n := 0, d;
    if |s| > 1 {
      var front := s[..|s| - 1];
      zeros, n := DigitsWritten(front);
      assert s == front + [s[|s| - 1]];
      if n == 0 {
        zeros, n := zeros + 1, d;
      } else {
        n := 10 * n + d;
      }
    }
  }

  // ----- what the counter does, in numbers

  /** A first use lives for `seconds` and is counted as 1; a use that asks for it
      lives on for `seconds`; any other keeps its expiry. */
  lemma CounterMeaning(m: Store, key: string, now: Time, seconds: int, refresh: bool)
    ensures var (m', count) := IncrAndExpire(m, key, now, seconds, refresh);
            var live := key in m && (m[key].expire == None || now < m[key].expire.value);
            && count == (if live then m[key].count + 1 else 1)
            && (m' - {key} == m - {key})
            && (refresh || count == 1 ==>
                  if seconds <= 0 then key !in m'
                  else key in m' && m'[key] == Counter(count, Some(now + seconds * 1_000_000_000)))
            && (!refresh && count != 1 ==> key in m' && m'[key] == Counter(count, m[key].expire))
  {
  }

  /** Who passes: an accepted timestamp, an identity and a nonce, and a counter that is
      at most the limit with this use; a request turned away before the counter leaves
      no trace there. */
  lemma AdmitExactly(p: Policy, m: Store, r: Request)
    ensures var key := p.prefix + ":limit:nonce:" + r.secretID + ":" + r.nonce;
            var live := key in m && (m[key].expire == None || r.counted < m[key].expire.value);
            var counted := InWindow(r.timestamp, r.checked, p.window) && r.secretID != "" && r.nonce != "";
            && (Passes(p, m, r) <==> counted && (if live then m[key].count + 1 else 1) <= p.limit)
            && NextStore(p, m, r) == if counted then IncrAndExpire(m, key, r.counted, p.ttl, false).0 else m
  {
    hide InWindow;
  }

  // ----- the overflow

  lemma OneMoreDigit(s: string, c: char)
    requires IsDigit(c) && AllDigits(s)
    ensures Digits(s + [c]) == 10 * Digits(s) + DigitValue(c)
  {
    assert (s + [c])[..|s|] == s;
  }

  lemma FourMoreDigits(s: string, a: char, b: char, c: char, d: char)
    requires IsDigit(a) && IsDigit(b) && IsDigit(c) && IsDigit(d) && AllDigits(s)
    ensures Digits(s + [a, b, c, d])
            == 10000 * Digits(s) + 1000 * DigitValue(a) + 100 * DigitValue(b) + 10 * DigitValue(c) + DigitValue(d)
  {
    OneMoreDigit(s, a);
    OneMoreDigit(s + [a], b);
    OneMoreDigit(s + [a] + [b], c);
    OneMoreDigit(s + [a] + [b] + [c], d);
    assert s + [a, b, c, d] == s + [a] + [b] + [c] + [d];
  }

  lemma LeadingDigits()
    ensures Digits("092233720368") == 92233720368
  {
    hide Digits;
    NoDigits();
    FourMoreDigits("", '0', '9', '2', '2');
    assert "" + ['0', '9', '2', '2'] == "0922";
    FourMoreDigits("0922", '3', '3', '7', '2');
    assert "0922" + ['3', '3', '7', '2'] == "09223372";
    FourMoreDigits("09223372", '0', '3', '6', '8');
    assert "09223372" + ['0', '3', '6', '8'] == "092233720368";
  }

  lemma LargestInt64()
    ensures Digits("9223372036854775807") == TWO_63 - 1
  {
    hide Digits;
    LeadingDigits();
    FourMoreDigits("092233720368", '5', '4', '7', '7');
    assert "092233720368" + ['5', '4', '7', '7'] == "0922337203685477";
    FourMoreDigits("0922337203685477", '5', '8', '0', '7');
    assert "0922337203685477" + ['5', '8', '0', '7'] == "0" + "9223372036854775807";
    LeadingZero("9223372036854775807");
  }

  lemma NoDigits()
    ensures Digits("") == 0
  {
  }

  lemma NegativeSeconds(s: string)
    requires s != "" && |s| != 12 && AllDigits(s) && Digits(s) < TWO_63
    ensures Seconds("-" + s) == Some(0 - Digits(s))
  {
    hide Digits;
    assert ("-" + s)[1..] == s;
  }

  /** A timestamp 2^63 seconds before the clock is accepted by every window. */
  lemma DistantTimestampAccepted(window: int)
    requires 0 <= window < TWO_63 / 2
    ensures Seconds("-9223372036854775807") == Some(1 - TWO_63)
    ensures InWindow("-9223372036854775807", SECOND, window)
  {
    hide Digits, Seconds;
    var s := "9223372036854775807";
    assert "-" + s == "-9223372036854775807";
    LargestInt64();
    NegativeSeconds(s);
    WindowMeaning("-" + s, SECOND, window);
  }
}
