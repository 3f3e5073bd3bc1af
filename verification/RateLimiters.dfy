/** The rate limiters as they run: 64 shards of counters updated in place. Taken
    together the shards behave as the one map of `RateLimits`. */
module RateLimiters {
  import opened Prelude
  import opened RateLimits

  /** The shards as one map: every key sits in its own shard, and nowhere else. */
  ghost predicate Shards<E(!new)>(shards: seq<map<Key, E>>, content: map<Key, E>) {
    && |shards| == SHARD_COUNT
    && forall i, k :: 0 <= i < SHARD_COUNT ==>
         (k in shards[i] <==> i == GetShard(k) && k in content) && (k in shards[i] ==> shards[i][k] == content[k])
  }

  lemma ShardsPut<E(!new)>(shards: seq<map<Key, E>>, content: map<Key, E>, key: Key, e: E)
    requires Shards(shards, content)
    ensures var s := GetShard(key);
            Shards(shards[s := shards[s][key := e]], content[key := e])
    ensures key in content <==> key in shards[GetShard(key)]
    ensures key in content ==> shards[GetShard(key)][key] == content[key]
  {
    hide GetShard;
  }

  /** A shard without its stale entries. */
  function Fresh<E>(l: Limiter<E>, shard: map<Key, E>, read: Time): map<Key, E> {
    map k | k in shard && !l.stale(shard[k], read) :: shard[k]
  }

  lemma ShardsSwept<E(!new)>(l: Limiter<E>, shards: seq<map<Key, E>>, content: map<Key, E>, i: nat, read: Time)
    requires Shards(shards, content) && i < SHARD_COUNT
    ensures Shards(shards[i := Fresh(l, shards[i], read)], Next(l, content, Sweep(i, read), true))
  {
    hide GetShard;
  }

  predicate Sweeps(es: seq<Event>) {
    forall i :: 0 <= i < |es| && es[i].Sweep? ==> es[i].shard < SHARD_COUNT
  }

  /** The events of the first `n` shards of a pass. */
  function Pass(read: Time, between: seq<seq<Event>>, n: nat): seq<Event>
    requires n <= |between|
  {
    if n == 0 then [] else Pass(read, between, n - 1) + between[n - 1] + [Sweep(n - 1, read)]
  }

  lemma Starts<E>(l: Limiter<E>, m: map<Key, E>)
    ensures After(l, m, [], true) == m && Decisions(l, m, [], true) == []
  {
  }

  lemma OneEvent<E>(l: Limiter<E>, m: map<Key, E>, e: Event)
    ensures After(l, m, [e], true) == Next(l, m, e, true) && Decisions(l, m, [e], true) == [Admits(l, m, e)]
  {
    hide Next, Admits;
    assert [e][1..] == [];
  }

  lemma {:induction false} Joins<E>(l: Limiter<E>, m: map<Key, E>, a: seq<Event>, b: seq<Event>)
    ensures After(l, m, a + b, true) == After(l, After(l, m, a, true), b, true)
    ensures Decisions(l, m, a + b, true) == Decisions(l, m, a, true) + Decisions(l, After(l, m, a, true), b, true)
    decreases |a|
  {
    hide Next, Admits;
    if a == [] {
      assert a + b == b;
    } else {
      assert (a + b)[1..] == a[1..] + b;
      Joins(l, Next(l, m, a[0], true), a[1..], b);
    }
  }

  lemma OneMore<E>(l: Limiter<E>, m: map<Key, E>, es: seq<Event>, i: nat)
    requires i < |es|
    ensures var before := After(l, m, es[..i], true);
            && After(l, m, es[..i + 1], true) == Next(l, before, es[i], true)
            && Decisions(l, m, es[..i + 1], true) == Decisions(l, m, es[..i], true) + [Admits(l, before, es[i])]
  {
    hide Next, Admits, After, Decisions;
    Joins(l, m, es[..i], [es[i]]);
    OneEvent(l, After(l, m, es[..i], true), es[i]);
    assert es[..i] + [es[i]] == es[..i + 1];
  }

  /** The per-second limiter. */
  class LocalRateLimiter {
    const shards: array<map<Key, Counter>>

    /** All shards as one map. */
    ghost var content: map<Key, Counter>

    constructor ()
      ensures Valid() && content == map[] && fresh(shards)
    {
      shards := new map<Key, Counter>[SHARD_COUNT](_ => map[]);
      content := map[];
    }

    ghost predicate Valid()
      reads this, shards
    {
      shards.Length == SHARD_COUNT && Shards(shards[..], content)
    }

    method CheckQPS(key: Key, limit: int, now: Time) returns (ok: bool)
      requires Valid()
      modifies this`content, shards
      ensures Valid()
      ensures content == Next(PerSecond(), old(content), Check(key, limit, now), true)
      ensures ok == Admits(PerSecond(), old(content), Check(key, limit, now))
    {
      hide GetShard, Shards;
      if limit <= 0 {
        return true;
      }
      var s := GetShard(key);
      ghost var after := CheckWindow(Entry(content, key), limit, now).entry;
      ShardsPut(shards[..], content, key, after);
      if key !in shards[s] || now - shards[s][key].start >= SECOND {
        shards[s] := shards[s][key := Counter(now, 1)];
        ok := true;
      } else {
        var counter := shards[s][key];
        if counter.count >= limit {
          ok := false;
          assert shards[s][key := counter] == shards[s];
        } else {
          shards[s] := shards[s][key := counter.(count := counter.count + 1)];
          ok := true;
        }
      }
      content := content[key := after];
      assert shards[..] == old(shards[..])[s := old(shards[s])[key := after]];
    }

    /** The sweep of one shard, under its lock. */
    method SweepShard(i: nat, read: Time)
      requires Valid() && i < SHARD_COUNT
      modifies this`content, shards
      ensures Valid() && content == Next(PerSecond(), old(content), Sweep(i, read), true)
    {
      hide GetShard, Shards;
      ShardsSwept(PerSecond(), shards[..], content, i, read);
      var s := shards[i];
      shards[i] := map k | k in s && !(read - s[k].start > WINDOW_KEPT) :: s[k];
      assert shards[i] == Fresh(PerSecond(), s, read);
      content := Next(PerSecond(), content, Sweep(i, read), true);
      assert shards[..] == old(shards[..])[i := shards[i]];
    }

    /** Whatever is done to the limiter under a lock of one of its shards. */
    method Handle(e: Event) returns (ok: bool)
      requires Valid() && (e.Sweep? ==> e.shard < SHARD_COUNT)
      modifies this`content, shards
      ensures Valid() && content == Next(PerSecond(), old(content), e, true)
      ensures ok == Admits(PerSecond(), old(content), e)
    {
      ok := false;
      match e
      case Check(key, limit, now) => ok := CheckQPS(key, limit, now);
      case Sweep(shard, read) => SweepShard(shard, read);
    }

    /** A whole run, and its decisions. */
    method Serve(es: seq<Event>) returns (ds: seq<bool>)
      requires Valid() && Sweeps(es)
      modifies this`content, shards
      ensures Valid() && content == After(PerSecond(), old(content), es, true)
      ensures ds == Decisions(PerSecond(), old(content), es, true)
    {
      hide Next, Admits, Shards, After, Decisions;
      ds := [];
      Starts(PerSecond(), content);
      for i := 0 to |es|
        invariant Valid()
        invariant content == After(PerSecond(), old(content), es[..i], true)
        invariant ds == Decisions(PerSecond(), old(content), es[..i], true)
      {
        OneMore(PerSecond(), old(content), es, i);
        var ok := Handle(es[i]);
        ds := ds + [ok];
      }
      assert es[..|es|] == es;
    }

    /** One pass of the sweeper: reads the clock once, then takes the shards one after
        the other. `between` is what happens just before each of them. */
    method SweepShards(read: Time, between: seq<seq<Event>>)
      requires Valid() && |between| == SHARD_COUNT && forall i :: 0 <= i < SHARD_COUNT ==> Sweeps(between[i])
      modifies this`content, shards
      ensures Valid() && content == After(PerSecond(), old(content), Pass(read, between, SHARD_COUNT), true)
    {
      hide Next, Admits, Shards, After, Decisions, Sweeps;
      Starts(PerSecond(), content);
      for i := 0 to SHARD_COUNT
        invariant Valid()
        invariant content == After(PerSecond(), old(content), Pass(read, between, i), true)
      {
        Joins(PerSecond(), old(content), Pass(read, between, i), between[i]);
        var _ := Serve(between[i]);
        Joins(PerSecond(), old(content), Pass(read, between, i) + between[i], [Sweep(i, read)]);
        OneEvent(PerSecond(), content, Sweep(i, read));
        SweepShard(i, read);
      }
    }
  }

  /** The per-minute limiter. */
  class TokenBucket {
    const shards: array<map<Key, Bucket>>

    /** All shards as one map. */
    ghost var content: map<Key, Bucket>

    constructor ()
      ensures Valid() && content == map[] && fresh(shards)
    {
      shards := new map<Key, Bucket>[SHARD_COUNT](_ => map[]);
      content := map[];
    }

    ghost predicate Valid()
      reads this, shards
    {
      shards.Length == SHARD_COUNT && Shards(shards[..], content)
    }

    method CheckQPM(key: Key, limit: int, now: Time) returns (ok: bool)
      requires Valid()
      modifies this`content, shards
      ensures Valid()
      ensures content == Next(PerMinute(), old(content), Check(key, limit, now), true)
      ensures ok == Admits(PerMinute(), old(content), Check(key, limit, now))
    {
      hide GetShard, Shards;
      if limit <= 0 {
        return true;
      }
      var s := GetShard(key);
      ghost var after := CheckBucket(Entry(content, key), limit, now).entry;
      ShardsPut(shards[..], content, key, after);
      var b := if key in shards[s] then shards[s][key] else Bucket(limit * TOKEN, now);
      var elapsed := now - b.last;
      var tokens := b.tokens + elapsed * limit;
      if tokens > limit * TOKEN {
        tokens := limit * TOKEN;
      }
      ok := tokens >= TOKEN;
      if ok {
        tokens := tokens - TOKEN;
      }
      shards[s] := shards[s][key := Bucket(tokens, now)];
      content := content[key := after];
      assert shards[..] == old(shards[..])[s := old(shards[s])[key := after]];
    }

    /** The sweep of one shard, under its lock. */
    method SweepShard(i: nat, read: Time)
      requires Valid() && i < SHARD_COUNT
      modifies this`content, shards
      ensures Valid() && content == Next(PerMinute(), old(content), Sweep(i, read), true)
    {
      hide GetShard, Shards;
      ShardsSwept(PerMinute(), shards[..], content, i, read);
      var s := shards[i];
      shards[i] := map k | k in s && !(read - s[k].last > BUCKET_KEPT) :: s[k];
      assert shards[i] == Fresh(PerMinute(), s, read);
      content := Next(PerMinute(), content, Sweep(i, read), true);
      assert shards[..] == old(shards[..])[i := shards[i]];
    }

    /** Whatever is done to the limiter under a lock of one of its shards. */
    method Handle(e: Event) returns (ok: bool)
      requires Valid() && (e.Sweep? ==> e.shard < SHARD_COUNT)
      modifies this`content, shards
      ensures Valid() && content == Next(PerMinute(), old(content), e, true)
      ensures ok == Admits(PerMinute(), old(content), e)
    {
      ok := false;
      match e
      case Check(key, limit, now) => ok := CheckQPM(key, limit, now);
      case Sweep(shard, read) => SweepShard(shard, read);
    }

    /** A whole run, and its decisions. */
    method Serve(es: seq<Event>) returns (ds: seq<bool>)
      requires Valid() && Sweeps(es)
      modifies this`content, shards
      ensures Valid() && content == After(PerMinute(), old(content), es, true)
      ensures ds == Decisions(PerMinute(), old(content), es, true)
    {
      hide Next, Admits, Shards, After, Decisions;
      ds := [];
      Starts(PerMinute(), content);
      for i := 0 to |es|
        invariant Valid()
        invariant content == After(PerMinute(), old(content), es[..i], true)
        invariant ds == Decisions(PerMinute(), old(content), es[..i], true)
      {
        OneMore(PerMinute(), old(content), es, i);
        var ok := Handle(es[i]);
        ds := ds + [ok];
      }
      assert es[..|es|] == es;
    }

    /** One pass of the sweeper: reads the clock once, then takes the shards one after
        the other. `between` is what happens just before each of them. */
    method SweepShards(read: Time, between: seq<seq<Event>>)
      requires Valid() && |between| == SHARD_COUNT && forall i :: 0 <= i < SHARD_COUNT ==> Sweeps(between[i])
      modifies this`content, shards
      ensures Valid() && content == After(PerMinute(), old(content), Pass(read, between, SHARD_COUNT), true)
    {
      hide Next, Admits, Shards, After, Decisions, Sweeps;
      Starts(PerMinute(), content);
      for i := 0 to SHARD_COUNT
        invariant Valid()
        invariant content == After(PerMinute(), old(content), Pass(read, between, i), true)
      {
        Joins(PerMinute(), old(content), Pass(read, between, i), between[i]);
        var _ := Serve(between[i]);
        Joins(PerMinute(), old(content), Pass(read, between, i) + between[i], [Sweep(i, read)]);
        OneEvent(PerMinute(), content, Sweep(i, read));
        SweepShard(i, read);
      }
    }
  }

  /** Over any run from start-up, 64 locked shards swept one by one decide as one map
      that is never swept. */
  method ServePerSecond(es: seq<Event>, from: Time) returns (ds: seq<bool>)
    requires Sorted(es, from) && Sweeps(es)
    ensures ds == Decisions(PerSecond(), map[], es, false)
  {
    var limiter := new LocalRateLimiter();
    ds := limiter.Serve(es);
    PerSecondForgets();
    SweepsAreInvisible(PerSecond(), es, from);
  }

  method ServePerMinute(es: seq<Event>, from: Time) returns (ds: seq<bool>)
    requires Sorted(es, from) && Sweeps(es)
    ensures ds == Decisions(PerMinute(), map[], es, false)
  {
    var limiter := new TokenBucket();
    ds := limiter.Serve(es);
    PerMinuteForgets();
    SweepsAreInvisible(PerMinute(), es, from);
  }
}
