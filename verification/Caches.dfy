/** The read-through cache in front of the database: a local tier, a Redis tier and
    the table itself, shared by routes (stored and served as they are) and API keys
    (stored encrypted, served decrypted). Times count from the Unix epoch. */
module Caches {
  import opened Prelude

  /** A local entry; expiry 0 means never. */
  datatype Item<+V> = Item(value: V, expire: Time)

  /** What a Redis key can hold: a row, or the marker for a missing one. */
  datatype Stored<+V> = Row(value: V) | Empty

  datatype RedisItem<+V> = RedisItem(stored: Stored<V>, expire: Time)

  datatype Tiers<K, V> = Tiers(local: map<K, Item<V>>, redis: map<K, RedisItem<V>>, db: map<K, V>)

  /** `decode` turns a stored row into the one served; it fails on a row that
      cannot be decrypted. Routes use the identity. */
  datatype Config<!K, !V> = Config(localTTL: int, redisTTL: int, valid: K -> bool, decode: V -> Option<V>)

  const EMPTY_TTL: int := 5 * MINUTE

  /** What may go wrong during one read, and the random addition to the TTL. */
  datatype Luck = Luck(redisGetFails: bool, redisSetFails: bool, dbFails: bool, jitter: int)

  datatype Reply<+V> = Found(value: V) | NotFound | Error

  predicate Fits<K, V>(cfg: Config<K, V>, luck: Luck) {
    0 <= luck.jitter < cfg.redisTTL / 10
  }

  // ----- local tier

  predicate Expired<V>(it: Item<V>, now: Time) {
    it.expire > 0 && now > it.expire
  }

  predicate LocalHit<K, V>(s: Tiers<K, V>, key: K, now: Time) {
    key in s.local && !Expired(s.local[key], now)
  }

  function LocalSet<K, V>(local: map<K, Item<V>>, key: K, value: V, ttl: int, now: Time): map<K, Item<V>> {
    local[key := Item(value, if ttl > 0 then now + ttl else 0)]
  }

  function LocalSwept<K, V>(local: map<K, Item<V>>, now: Time): map<K, Item<V>> {
    map k | k in local && !Expired(local[k], now) :: local[k]
  }

  /** What is done to the local tier under its lock, one at a time. */
  datatype LocalOp<K, V> = SetOp(key: K, value: V, ttl: int, now: Time) | DeleteOp(key: K) | CleanupOp(now: Time)

  function LocalNext<K, V>(local: map<K, Item<V>>, op: LocalOp<K, V>): map<K, Item<V>> {
    match op
    case SetOp(key, value, ttl, now) => LocalSet(local, key, value, ttl, now)
    case DeleteOp(key) => local - {key}
    case CleanupOp(now) => LocalSwept(local, now)
  }

  function LocalAfter<K, V>(local: map<K, Item<V>>, ops: seq<LocalOp<K, V>>): map<K, Item<V>> {
    if ops == [] then local else LocalNext(LocalAfter(local, ops[..|ops| - 1]), ops[|ops| - 1])
  }

  // ----- Redis tier

  predicate Live<K, V>(redis: map<K, RedisItem<V>>, key: K, now: Time) {
    key in redis && now < redis[key].expire && redis[key].stored.Row?
  }

  function RedisSet<K, V>(redis: map<K, RedisItem<V>>, key: K, stored: Stored<V>, ttl: int, now: Time,
                          fails: bool): map<K, RedisItem<V>> {
    if fails then redis else redis[key := RedisItem(stored, now + ttl)]
  }

  // ----- reads

  /** Decodes a row and, if that works, serves it and keeps it locally. */
  function Serve<K, V>(cfg: Config<K, V>, s: Tiers<K, V>, key: K, raw: V, now: Time): (Tiers<K, V>, Reply<V>) {
    var v := cfg.decode(raw);
    if v.None? then (s, Error)
    else (s.(local := LocalSet(s.local, key, v.value, cfg.localTTL, now)), Found(v.value))
  }

  function ReadRow<K, V>(cfg: Config<K, V>, s: Tiers<K, V>, key: K, now: Time, luck: Luck): (Tiers<K, V>, Reply<V>) {
    if luck.dbFails then (s, Error)
    else if key !in s.db then
      (s.(redis := RedisSet(s.redis, key, Empty, EMPTY_TTL, now, luck.redisSetFails)), NotFound)
    else
      var ttl := cfg.redisTTL + luck.jitter;
      var stored := s.(redis := RedisSet(s.redis, key, Row(s.db[key]), ttl, now, luck.redisSetFails));
      Serve(cfg, stored, key, s.db[key], now)
  }

  function Read<K, V>(cfg: Config<K, V>, s: Tiers<K, V>, key: K, now: Time, luck: Luck): (Tiers<K, V>, Reply<V>) {
    if !cfg.valid(key) then (s, Error)
    else if key in s.local && !Expired(s.local[key], now) then (s, Found(s.local[key].value))
    else
      var s' := s.(local := s.local - {key});
      if !luck.redisGetFails && Live(s.redis, key, now) then Serve(cfg, s', key, s.redis[key].stored.value, now)
      else ReadRow(cfg, s', key, now, luck)
  }

  // ----- runs

  /** Everything that happens to the tiers, each at its time: reads, any change of
      the table, sweeps of the local tier, and the two halves of a clear of one key,
      of which the second can fail. Nothing keeps the halves together. */
  datatype Event<K, V> =
    | EvRead(now: Time, key: K, luck: Luck)
    | EvWrite(now: Time, rows: map<K, V>)
    | EvSweep(now: Time)
    | EvClearLocal(now: Time, key: K)
    | EvClearRedis(now: Time, key: K, fails: bool)

  function Next<K, V>(cfg: Config<K, V>, s: Tiers<K, V>, e: Event<K, V>): Tiers<K, V> {
    match e
    case EvRead(now, key, luck) => Read(cfg, s, key, now, luck).0
    case EvWrite(_, rows) => s.(db := rows)
    case EvSweep(now) => s.(local := LocalSwept(s.local, now))
    case EvClearLocal(_, key) => s.(local := s.local - {key})
    case EvClearRedis(_, key, fails) => if fails then s else s.(redis := s.redis - {key})
  }

  /** The tiers after a run. */
  function After<K, V>(cfg: Config<K, V>, s: Tiers<K, V>, es: seq<Event<K, V>>): Tiers<K, V> {
    if es == [] then s else Next(cfg, After(cfg, s, es[..|es| - 1]), es[|es| - 1])
  }

  lemma AfterSnoc<K, V>(cfg: Config<K, V>, s: Tiers<K, V>, es: seq<Event<K, V>>, e: Event<K, V>)
    ensures After(cfg, s, es + [e]) == Next(cfg, After(cfg, s, es), e)
  {
    assert (es + [e])[..|es|] == es;
  }

  /** States before, between and after the events of a run that starts with empty
      caches, on a clock that never goes back. */
  ghost predicate Behaviour<K(!new), V(!new)>(cfg: Config<K, V>, ss: seq<Tiers<K, V>>, es: seq<Event<K, V>>) {
    && |ss| == |es| + 1
    && ss[0].local == map[] && ss[0].redis == map[]
    && (forall k {:trigger es[k]} :: 0 <= k < |es| ==>
          ss[k + 1] == Next(cfg, ss[k], es[k]) && (es[k].EvRead? ==> Fits(cfg, es[k].luck)))
    && (forall k :: 0 <= k < |es| ==> es[k].now >= 0)
    && forall j, k :: 0 <= j <= k < |es| ==> es[j].now <= es[k].now
  }

  /** At the j-th event, `raw` was the row of `key` in the table. */
  ghost predicate WasRow<K, V>(ss: seq<Tiers<K, V>>, j: nat, key: K, raw: V) {
    j < |ss| && key in ss[j].db && ss[j].db[key] == raw
  }

  function Age<K, V>(cfg: Config<K, V>): int {
    cfg.redisTTL + cfg.redisTTL / 10
  }

  /** Where a Redis row comes from: the table, at an event before the n-th, less
      than 1.1 R before it expires. */
  ghost predicate RedisSourced<K(!new), V(!new)>(cfg: Config<K, V>, ss: seq<Tiers<K, V>>, es: seq<Event<K, V>>,
                                                 n: nat, key: K, it: RedisItem<V>) {
    it.stored.Row? ==>
      exists j: nat :: j < n <= |es| && WasRow(ss, j, key, it.stored.value) && it.expire < es[j].now + Age(cfg)
  }

  /** Where a local value comes from: a row of the table, decoded exactly once,
      less than L + 1.1 R before it expires. */
  ghost predicate LocalSourced<K(!new), V(!new)>(cfg: Config<K, V>, ss: seq<Tiers<K, V>>, es: seq<Event<K, V>>,
                                                 n: nat, key: K, it: Item<V>) {
    && it.expire > 0
    && exists j: nat, raw :: j < n <= |es| && WasRow(ss, j, key, raw) && cfg.decode(raw) == Some(it.value)
                             && it.expire < es[j].now + cfg.localTTL + Age(cfg)
  }

  ghost predicate Sourced<K(!new), V(!new)>(cfg: Config<K, V>, ss: seq<Tiers<K, V>>, es: seq<Event<K, V>>, n: nat)
    requires n < |ss|
  {
    && (forall key :: key in ss[n].local ==> LocalSourced(cfg, ss, es, n, key, ss[n].local[key]))
    && (forall key :: key in ss[n].redis ==> RedisSourced(cfg, ss, es, n, key, ss[n].redis[key]))
  }

  lemma RedisSourcedBy<K(!new), V(!new)>(cfg: Config<K, V>, ss: seq<Tiers<K, V>>, es: seq<Event<K, V>>, n: nat, key: K,
                                         it: RedisItem<V>, j: nat)
    requires it.stored.Row? ==> j < n <= |es| && WasRow(ss, j, key, it.stored.value) && it.expire < es[j].now + Age(cfg)
    ensures RedisSourced(cfg, ss, es, n, key, it)
  {
  }

  lemma LocalSourcedBy<K(!new), V(!new)>(cfg: Config<K, V>, ss: seq<Tiers<K, V>>, es: seq<Event<K, V>>, n: nat, key: K,
                                         it: Item<V>, j: nat, raw: V)
    requires j < n <= |es| && WasRow(ss, j, key, raw) && cfg.decode(raw) == Some(it.value)
    requires 0 < it.expire < es[j].now + cfg.localTTL + Age(cfg)
    ensures LocalSourced(cfg, ss, es, n, key, it)
  {
  }

  /** Served at `now`, and the table's row at some event no longer ago than the
      staleness bound. */
  ghost predicate Recent<K(!new), V(!new)>(cfg: Config<K, V>, ss: seq<Tiers<K, V>>, es: seq<Event<K, V>>, n: nat,
                                           key: K, value: V) {
    exists j: nat, raw :: j <= n < |es| && WasRow(ss, j, key, raw) && cfg.decode(raw) == Some(value)
                          && es[n].now - es[j].now < cfg.localTTL + Age(cfg)
  }

  lemma RecentBy<K(!new), V(!new)>(cfg: Config<K, V>, ss: seq<Tiers<K, V>>, es: seq<Event<K, V>>, n: nat, key: K,
                                   value: V, j: nat, raw: V)
    requires j <= n < |es| && WasRow(ss, j, key, raw) && cfg.decode(raw) == Some(value)
    requires es[n].now - es[j].now < cfg.localTTL + Age(cfg)
    ensures Recent(cfg, ss, es, n, key, value)
  {
  }

  lemma SourcedLater<K(!new), V(!new)>(cfg: Config<K, V>, ss: seq<Tiers<K, V>>, es: seq<Event<K, V>>, n: nat)
    requires n < |es|
    ensures forall key, it {:trigger LocalSourced(cfg, ss, es, n, key, it)} ::
              LocalSourced(cfg, ss, es, n, key, it) ==> LocalSourced(cfg, ss, es, n + 1, key, it)
    ensures forall key, it {:trigger RedisSourced(cfg, ss, es, n, key, it)} ::
              RedisSourced(cfg, ss, es, n, key, it) ==> RedisSourced(cfg, ss, es, n + 1, key, it)
  {
    forall key, it {:trigger LocalSourced(cfg, ss, es, n, key, it)} | LocalSourced(cfg, ss, es, n, key, it)
      ensures LocalSourced(cfg, ss, es, n + 1, key, it)
    {
      var j: nat, raw :| j < n <= |es| && WasRow(ss, j, key, raw) && cfg.decode(raw) == Some(it.value)
                         && it.expire < es[j].now + cfg.localTTL + Age(cfg);
      LocalSourcedBy(cfg, ss, es, n + 1, key, it, j, raw);
    }
    forall key, it {:trigger RedisSourced(cfg, ss, es, n, key, it)} | RedisSourced(cfg, ss, es, n, key, it)
      ensures RedisSourced(cfg, ss, es, n + 1, key, it)
    {
      if it.stored.Row? {
        var j: nat :| j < n <= |es| && WasRow(ss, j, key, it.stored.value) && it.expire < es[j].now + Age(cfg);
        RedisSourcedBy(cfg, ss, es, n + 1, key, it, j);
      }
    }
  }

  /** Serving a row that was in the table at event `j`, not too long ago. */
  lemma ServeSourced<K(!new), V(!new)>(cfg: Config<K, V>, ss: seq<Tiers<K, V>>, es: seq<Event<K, V>>, n: nat,
                                       s: Tiers<K, V>, key: K, raw: V, j: nat)
    requires cfg.localTTL > 0 && j <= n < |es| && WasRow(ss, j, key, raw)
    requires es[n].now >= 0 && es[n].now < es[j].now + Age(cfg)
    ensures var (s', reply) := Serve(cfg, s, key, raw, es[n].now);
            && s'.redis == s.redis && s'.db == s.db
            && (forall k :: k in s'.local && k != key ==> k in s.local && s'.local[k] == s.local[k])
            && (key in s'.local && !(key in s.local && s'.local[key] == s.local[key]) ==>
                  LocalSourced(cfg, ss, es, n + 1, key, s'.local[key]))
            && (reply.Found? ==> Recent(cfg, ss, es, n, key, reply.value))
  {
    var v := cfg.decode(raw);
    if v.Some? {
      LocalSourcedBy(cfg, ss, es, n + 1, key, Item(v.value, es[n].now + cfg.localTTL), j, raw);
      RecentBy(cfg, ss, es, n, key, v.value, j, raw);
    }
  }

  lemma ReadSourced<K(!new), V(!new)>(cfg: Config<K, V>, ss: seq<Tiers<K, V>>, es: seq<Event<K, V>>, n: nat)
    requires Behaviour(cfg, ss, es) && n < |es| && es[n].EvRead? && Sourced(cfg, ss, es, n)
    requires cfg.localTTL > 0 && cfg.redisTTL > 0
    ensures Sourced(cfg, ss, es, n + 1)
    ensures var reply := Read(cfg, ss[n], es[n].key, es[n].now, es[n].luck).1;
            reply.Found? ==> Recent(cfg, ss, es, n, es[n].key, reply.value)
  {
    hide LocalSourced, RedisSourced, Recent, Serve, WasRow;
    var s, key, now, luck := ss[n], es[n].key, es[n].now, es[n].luck;
    SourcedLater(cfg, ss, es, n);
    var s1 := s.(local := s.local - {key});
    if !cfg.valid(key) {
    } else if key in s.local && !Expired(s.local[key], now) {
      HitRecent(cfg, ss, es, n, key, s.local[key]);
    } else if !luck.redisGetFails && Live(s.redis, key, now) {
      var j := LiveSource(cfg, ss, es, n, key, s.redis[key]);
      ServeSourced(cfg, ss, es, n, s1, key, s.redis[key].stored.value, j);
    } else if !luck.dbFails && key in s.db {
      RowNow(ss, n, key);
      var it := RedisItem(Row(s.db[key]), now + cfg.redisTTL + luck.jitter);
      RedisSourcedBy(cfg, ss, es, n + 1, key, it, n);
      var ttl := cfg.redisTTL + luck.jitter;
      var s2 := s1.(redis := RedisSet(s.redis, key, Row(s.db[key]), ttl, now, luck.redisSetFails));
      ServeSourced(cfg, ss, es, n, s2, key, s.db[key], n);
    } else if !luck.dbFails {
      RedisSourcedBy(cfg, ss, es, n + 1, key, RedisItem(Empty, now + EMPTY_TTL), n);
    }
  }

  lemma RowNow<K, V>(ss: seq<Tiers<K, V>>, n: nat, key: K)
    requires n < |ss| && key in ss[n].db
    ensures WasRow(ss, n, key, ss[n].db[key])
  {
  }

  lemma HitRecent<K(!new), V(!new)>(cfg: Config<K, V>, ss: seq<Tiers<K, V>>, es: seq<Event<K, V>>, n: nat, key: K,
                                    it: Item<V>)
    requires n < |es| && LocalSourced(cfg, ss, es, n, key, it) && !Expired(it, es[n].now)
    ensures Recent(cfg, ss, es, n, key, it.value)
  {
    var j: nat, raw :| j < n <= |es| && WasRow(ss, j, key, raw) && cfg.decode(raw) == Some(it.value)
                       && it.expire < es[j].now + cfg.localTTL + Age(cfg);
    RecentBy(cfg, ss, es, n, key, it.value, j, raw);
  }

  lemma LiveSource<K(!new), V(!new)>(cfg: Config<K, V>, ss: seq<Tiers<K, V>>, es: seq<Event<K, V>>, n: nat, key: K,
                                     it: RedisItem<V>)
      returns (j: nat)
    requires n < |es| && RedisSourced(cfg, ss, es, n, key, it) && it.stored.Row? && es[n].now < it.expire
    ensures j <= n && WasRow(ss, j, key, it.stored.value) && es[n].now < es[j].now + Age(cfg)
  {
    j :| j < n <= |es| && WasRow(ss, j, key, it.stored.value) && it.expire < es[j].now + Age(cfg);
  }

  lemma {:induction false} AlwaysSourced<K(!new), V(!new)>(cfg: Config<K, V>, ss: seq<Tiers<K, V>>,
                                                           es: seq<Event<K, V>>, n: nat)
    requires Behaviour(cfg, ss, es) && n < |ss| && cfg.localTTL > 0 && cfg.redisTTL > 0
    ensures Sourced(cfg, ss, es, n)
  {
    hide LocalSourced, RedisSourced, Read, WasRow;
    if n > 0 {
      AlwaysSourced(cfg, ss, es, n - 1);
      assert ss[n] == Next(cfg, ss[n - 1], es[n - 1]);
      if es[n - 1].EvRead? {
        ReadSourced(cfg, ss, es, n - 1);
      } else {
        SourcedLater(cfg, ss, es, n - 1);
      }
    }
  }

  /** Bounded staleness. In every run, whatever is read, written, swept and
      cleared and whichever calls fail, a value served is a row the table held,
      decoded once, less than L + R + R/10 before. */
  lemma BoundedStaleness<K(!new), V(!new)>(cfg: Config<K, V>, ss: seq<Tiers<K, V>>, es: seq<Event<K, V>>, n: nat)
    requires Behaviour(cfg, ss, es) && n < |es| && es[n].EvRead?
    requires cfg.localTTL > 0 && cfg.redisTTL > 0
    requires Read(cfg, ss[n], es[n].key, es[n].now, es[n].luck).1.Found?
    ensures Recent(cfg, ss, es, n, es[n].key, Read(cfg, ss[n], es[n].key, es[n].now, es[n].luck).1.value)
  {
    AlwaysSourced(cfg, ss, es, n);
    ReadSourced(cfg, ss, es, n);
  }

  /** Redis only ever holds rows exactly as the table holds them (encrypted, for
      API keys); only the local tier holds decoded values. */
  lemma RedisHoldsTableRows<K(!new), V(!new)>(cfg: Config<K, V>, ss: seq<Tiers<K, V>>, es: seq<Event<K, V>>, n: nat,
                                              key: K)
    requires Behaviour(cfg, ss, es) && n < |ss| && cfg.localTTL > 0 && cfg.redisTTL > 0
    ensures key in ss[n].redis && ss[n].redis[key].stored.Row? ==>
              exists j: nat :: j < n && WasRow(ss, j, key, ss[n].redis[key].stored.value)
    ensures key in ss[n].local ==>
              exists j: nat, raw :: j < n && WasRow(ss, j, key, raw) && cfg.decode(raw) == Some(ss[n].local[key].value)
  {
    AlwaysSourced(cfg, ss, es, n);
    if key in ss[n].redis {
      assert RedisSourced(cfg, ss, es, n, key, ss[n].redis[key]);
    }
    if key in ss[n].local {
      assert LocalSourced(cfg, ss, es, n, key, ss[n].local[key]);
    }
  }

  // ----- how long a value is served

  /** No local entry, or one whose moment has passed. */
  predicate LocalMiss<K, V>(s: Tiers<K, V>, key: K, now: Time) {
    key in s.local ==> 0 < s.local[key].expire < now
  }

  /** No Redis entry, one whose moment has come, or the EMPTY marker. */
  predicate RedisMiss<K, V>(s: Tiers<K, V>, key: K, now: Time) {
    key in s.redis ==> s.redis[key].expire <= now || s.redis[key].stored.Empty?
  }

  /** What a sweep of the local tier drops: exactly the entries whose moment has
      passed. */
  lemma SweptLocallyExactly<K, V>(local: map<K, Item<V>>, now: Time, key: K)
    ensures key in LocalSwept(local, now) <==> key in local && (local[key].expire <= 0 || now <= local[key].expire)
    ensures key in LocalSwept(local, now) ==> LocalSwept(local, now)[key] == local[key]
  {
  }

  /** A key that is not valid is an error, and a local entry the answer; both leave
      the tiers alone. */
  lemma HitExactly<K, V>(cfg: Config<K, V>, s: Tiers<K, V>, key: K, now: Time, luck: Luck)
    requires !cfg.valid(key) || !LocalMiss(s, key, now)
    ensures Read(cfg, s, key, now, luck) == (s, if !cfg.valid(key) then Error else Found(s.local[key].value))
  {
  }

  /** What a read that gets past the local tier leaves behind. */
  lemma MissExactly<K, V>(cfg: Config<K, V>, s: Tiers<K, V>, key: K, now: Time, luck: Luck)
    requires cfg.valid(key) && LocalMiss(s, key, now)
    ensures var (s', reply) := Read(cfg, s, key, now, luck);
            && s'.db == s.db && s'.local - {key} == s.local - {key} && s'.redis - {key} == s.redis - {key}
            && (reply.Found? && cfg.localTTL > 0 ==>
                  key in s'.local && s'.local[key] == Item(reply.value, now + cfg.localTTL))
            && (!reply.Found? ==> key !in s'.local)
    ensures var (s', reply) := Read(cfg, s, key, now, luck);
            !RedisMiss(s, key, now) && !luck.redisGetFails ==>
              && s'.redis == s.redis
              && reply == match cfg.decode(s.redis[key].stored.value) case Some(v) => Found(v) case None => Error
    ensures var (s', reply) := Read(cfg, s, key, now, luck);
            RedisMiss(s, key, now) || luck.redisGetFails ==>
              && (luck.dbFails ==> reply == Error && s'.redis == s.redis)
              && (luck.redisSetFails ==> s'.redis == s.redis)
              && (!luck.dbFails && !luck.redisSetFails ==>
                    key in s'.redis && s'.redis[key] == if key in s.db
                                                        then RedisItem(Row(s.db[key]), now + cfg.redisTTL + luck.jitter)
                                                        else RedisItem(Empty, now + 300_000_000_000))
              && (!luck.dbFails && key !in s.db ==> reply == NotFound)
              && (!luck.dbFails && key in s.db ==>
                    reply == match cfg.decode(s.db[key]) case Some(v) => Found(v) case None => Error)
  {
  }

  predicate NotCleared<K(==), V>(e: Event<K, V>, key: K) {
    !(e.EvClearLocal? && e.key == key)
  }

  lemma HeldStep<K, V>(cfg: Config<K, V>, s: Tiers<K, V>, e: Event<K, V>, key: K, it: Item<V>)
    requires cfg.valid(key) && key in s.local && s.local[key] == it && e.now <= it.expire && NotCleared(e, key)
    ensures var s' := Next(cfg, s, e); key in s'.local && s'.local[key] == it
    ensures e.EvRead? && e.key == key ==> Read(cfg, s, key, e.now, e.luck) == (s, Found(it.value))
  {
  }

  lemma {:induction false} Held<K(!new), V(!new)>(cfg: Config<K, V>, ss: seq<Tiers<K, V>>, es: seq<Event<K, V>>,
                                                  m: nat, n: nat, key: K, it: Item<V>)
    requires Behaviour(cfg, ss, es) && m <= n < |es| && cfg.valid(key)
    requires key in ss[m].local && ss[m].local[key] == it && es[n].now <= it.expire
    requires forall k :: m <= k < n ==> NotCleared(es[k], key)
    ensures key in ss[n].local && ss[n].local[key] == it
    decreases n - m
  {
    hide Next, NotCleared;
    if m < n {
      HeldStep(cfg, ss[m], es[m], key, it);
      assert ss[m + 1] == Next(cfg, ss[m], es[m]);
      Held(cfg, ss, es, m + 1, n, key, it);
    }
  }

  /** A value that a read brings to the local tier is what every read of the key is
      answered with for the whole local TTL, whatever happens to Redis and the table
      and whichever of their calls fail, as long as the key is not cleared; and such
      reads change nothing. */
  lemma ServedForItsTTL<K(!new), V(!new)>(cfg: Config<K, V>, ss: seq<Tiers<K, V>>, es: seq<Event<K, V>>, n: nat, q: nat)
    requires Behaviour(cfg, ss, es) && n < q < |es| && es[n].EvRead? && es[q].EvRead? && es[q].key == es[n].key
    requires cfg.valid(es[n].key) && cfg.localTTL > 0 && LocalMiss(ss[n], es[n].key, es[n].now)
    requires Read(cfg, ss[n], es[n].key, es[n].now, es[n].luck).1.Found?
    requires es[q].now <= es[n].now + cfg.localTTL
    requires forall k :: n < k < q ==> NotCleared(es[k], es[n].key)
    ensures Read(cfg, ss[q], es[q].key, es[q].now, es[q].luck)
            == (ss[q], Read(cfg, ss[n], es[n].key, es[n].now, es[n].luck).1)
  {
    hide Read;
    var key, now := es[n].key, es[n].now;
    MissExactly(cfg, ss[n], key, now, es[n].luck);
    assert ss[n + 1] == Next(cfg, ss[n], es[n]);
    var it := Item(Read(cfg, ss[n], key, now, es[n].luck).1.value, now + cfg.localTTL);
    Held(cfg, ss, es, n + 1, q, key, it);
    HeldStep(cfg, ss[q], es[q], key, it);
  }

  /** The event neither deletes the key's Redis entry nor fails to read it. */
  predicate LeavesRedis<K(==), V>(e: Event<K, V>, key: K) {
    && !(e.EvClearRedis? && e.key == key && !e.fails)
    && !(e.EvRead? && e.key == key && e.luck.redisGetFails)
  }

  /** Redis holds the row, and the local tier nothing else. */
  ghost predicate Holds<K(!new), V(!new)>(s: Tiers<K, V>, key: K, raw: V, value: V, expire: Time) {
    && key in s.redis && s.redis[key] == RedisItem(Row(raw), expire)
    && (key in s.local ==> s.local[key].value == value)
  }

  lemma HoldsStep<K(!new), V(!new)>(cfg: Config<K, V>, s: Tiers<K, V>, e: Event<K, V>, key: K, raw: V, value: V,
                                    expire: Time)
    requires cfg.valid(key) && cfg.decode(raw) == Some(value) && Holds(s, key, raw, value, expire)
    requires e.now < expire && LeavesRedis(e, key)
    ensures Holds(Next(cfg, s, e), key, raw, value, expire)
    ensures e.EvRead? && e.key == key ==> Read(cfg, s, key, e.now, e.luck).1 == Found(value)
  {
  }

  lemma {:induction false} StillHolds<K(!new), V(!new)>(cfg: Config<K, V>, ss: seq<Tiers<K, V>>, es: seq<Event<K, V>>,
                                                        m: nat, n: nat, key: K, raw: V, value: V, expire: Time)
    requires Behaviour(cfg, ss, es) && m <= n < |es| && cfg.valid(key) && cfg.decode(raw) == Some(value)
    requires Holds(ss[m], key, raw, value, expire) && es[n].now < expire
    requires forall k :: m <= k < n ==> LeavesRedis(es[k], key)
    ensures Holds(ss[n], key, raw, value, expire)
    decreases n - m
  {
    hide Next, LeavesRedis, Holds;
    if m < n {
      HoldsStep(cfg, ss[m], es[m], key, raw, value, expire);
      assert ss[m + 1] == Next(cfg, ss[m], es[m]);
      StillHolds(cfg, ss, es, m + 1, n, key, raw, value, expire);
    }
  }

  /** A row that a read brings from the table to Redis answers every read of the key
      until its TTL and the random addition are over, whatever becomes of the table
      and of the local tier, as long as Redis can be read and the key is not deleted
      there. */
  lemma TableIsSpared<K(!new), V(!new)>(cfg: Config<K, V>, ss: seq<Tiers<K, V>>, es: seq<Event<K, V>>, n: nat, q: nat)
    requires Behaviour(cfg, ss, es) && n < q < |es| && es[n].EvRead? && es[q].EvRead? && es[q].key == es[n].key
    requires cfg.valid(es[n].key) && LocalMiss(ss[n], es[n].key, es[n].now) && RedisMiss(ss[n], es[n].key, es[n].now)
    requires !es[n].luck.dbFails && !es[n].luck.redisSetFails
    requires es[n].key in ss[n].db && cfg.decode(ss[n].db[es[n].key]).Some?
    requires es[q].now < es[n].now + cfg.redisTTL + es[n].luck.jitter
    requires forall k :: n < k <= q ==> LeavesRedis(es[k], es[n].key)
    ensures Read(cfg, ss[q], es[q].key, es[q].now, es[q].luck).1 == Found(cfg.decode(ss[n].db[es[n].key]).value)
  {
    hide Read, LeavesRedis;
    var key, now := es[n].key, es[n].now;
    var raw := ss[n].db[key];
    var value, expire := cfg.decode(raw).value, now + cfg.redisTTL + es[n].luck.jitter;
    MissExactly(cfg, ss[n], key, now, es[n].luck);
    assert ss[n + 1] == Next(cfg, ss[n], es[n]);
    LoadLocal(cfg, ss[n], key, now, es[n].luck);
    StillHolds(cfg, ss, es, n + 1, q, key, raw, value, expire);
    HoldsStep(cfg, ss[q], es[q], key, raw, value, expire);
  }

  lemma LoadLocal<K, V>(cfg: Config<K, V>, s: Tiers<K, V>, key: K, now: Time, luck: Luck)
    requires cfg.valid(key) && LocalMiss(s, key, now)
    ensures var (s', reply) := Read(cfg, s, key, now, luck);
            key in s'.local ==> reply == Found(s'.local[key].value)
  {
  }

  // ----- the EMPTY marker

  /** The same read, but leaving Redis alone when the table has no row. */
  function ReadUnmarked<K, V>(cfg: Config<K, V>, s: Tiers<K, V>, key: K, now: Time, luck: Luck)
      : (Tiers<K, V>, Reply<V>)
  {
    var (n, reply) := Read(cfg, s, key, now, luck);
    (if reply.NotFound? then n.(redis := s.redis) else n, reply)
  }

  function NextUnmarked<K, V>(cfg: Config<K, V>, s: Tiers<K, V>, e: Event<K, V>): Tiers<K, V> {
    if e.EvRead? then ReadUnmarked(cfg, s, e.key, e.now, e.luck).0 else Next(cfg, s, e)
  }

  function ReplyTo<K, V>(cfg: Config<K, V>, s: Tiers<K, V>, e: Event<K, V>): Option<Reply<V>> {
    if e.EvRead? then Some(Read(cfg, s, e.key, e.now, e.luck).1) else None
  }

  /** The replies of a run, with markers written and without. */
  function Replies<K, V>(cfg: Config<K, V>, s: Tiers<K, V>, es: seq<Event<K, V>>, marked: bool): seq<Option<Reply<V>>>
    decreases |es|
  {
    if es == [] then []
    else
      var next := if marked then Next(cfg, s, es[0]) else NextUnmarked(cfg, s, es[0]);
      [ReplyTo(cfg, s, es[0])] + Replies(cfg, next, es[1..], marked)
  }

  /** The read writes a marker over a live row: the Redis GET fails, the table has
      lost the row, and the Redis SET succeeds. */
  predicate Overwrites<K, V>(cfg: Config<K, V>, s: Tiers<K, V>, e: Event<K, V>) {
    && e.EvRead? && cfg.valid(e.key) && !LocalHit(s, e.key, e.now)
    && e.luck.redisGetFails && !e.luck.dbFails && !e.luck.redisSetFails
    && e.key !in s.db && Live(s.redis, e.key, e.now)
  }

  predicate NeverOverwrites<K, V>(cfg: Config<K, V>, s: Tiers<K, V>, es: seq<Event<K, V>>)
    decreases |es|
  {
    es == [] || (!Overwrites(cfg, s, es[0]) && NeverOverwrites(cfg, Next(cfg, s, es[0]), es[1..]))
  }

  predicate Timely<K, V>(es: seq<Event<K, V>>, from: Time) {
    && (forall k :: 0 <= k < |es| ==> from <= es[k].now)
    && forall j, k :: 0 <= j <= k < |es| ==> es[j].now <= es[k].now
  }

  function RowAt<K, V>(s: Tiers<K, V>, key: K): Option<RedisItem<V>> {
    if key in s.redis && s.redis[key].stored.Row? then Some(s.redis[key]) else None
  }

  /** The marked tiers are the unmarked ones with markers over some rows that have
      expired by `t`, or over nothing. */
  ghost predicate Covers<K(!new), V>(s: Tiers<K, V>, u: Tiers<K, V>, t: Time) {
    && s.local == u.local && s.db == u.db
    && forall k :: RowAt(s, k) == RowAt(u, k) || (RowAt(s, k).None? && RowAt(u, k).value.expire <= t)
  }

  lemma CoversKey<K(!new), V>(s: Tiers<K, V>, u: Tiers<K, V>, t: Time, key: K, now: Time)
    requires Covers(s, u, t) && t <= now
    ensures Live(s.redis, key, now) == Live(u.redis, key, now)
    ensures Live(s.redis, key, now) ==> s.redis[key] == u.redis[key]
  {
    assert RowAt(s, key) == RowAt(u, key) || (RowAt(s, key).None? && RowAt(u, key).value.expire <= t);
  }

  /** What a read writes to Redis, if anything. */
  function Written<K, V>(cfg: Config<K, V>, s: Tiers<K, V>, key: K, now: Time, luck: Luck): Option<RedisItem<V>> {
    if !cfg.valid(key) || LocalHit(s, key, now) || luck.dbFails || luck.redisSetFails
       || (!luck.redisGetFails && Live(s.redis, key, now))
    then None
    else if key in s.db then Some(RedisItem(Row(s.db[key]), now + (cfg.redisTTL + luck.jitter)))
    else Some(RedisItem(Empty, now + EMPTY_TTL))
  }

  lemma ReadWrites<K, V>(cfg: Config<K, V>, s: Tiers<K, V>, key: K, now: Time, luck: Luck)
    ensures var (n, reply), w := Read(cfg, s, key, now, luck), Written(cfg, s, key, now, luck);
            && n.redis == (if w.Some? then s.redis[key := w.value] else s.redis)
            && (reply.NotFound? ==> key !in s.db) && (reply.NotFound? && w.Some? ==> w.value.stored.Empty?)
            && (w.Some? && w.value.stored.Empty? ==> reply.NotFound?)
  {
  }

  /** Replies and the local tier depend on Redis through its live row alone. */
  lemma ReadSees<K, V>(cfg: Config<K, V>, s: Tiers<K, V>, u: Tiers<K, V>, key: K, now: Time, luck: Luck)
    requires s.local == u.local && s.db == u.db && Live(s.redis, key, now) == Live(u.redis, key, now)
    requires Live(s.redis, key, now) ==> s.redis[key] == u.redis[key]
    ensures var (n, reply), (n', reply') := Read(cfg, s, key, now, luck), Read(cfg, u, key, now, luck);
            reply == reply' && n.local == n'.local && n.db == n'.db == s.db
    ensures Written(cfg, s, key, now, luck) == Written(cfg, u, key, now, luck)
  {
  }

  lemma CoversRead<K(!new), V>(cfg: Config<K, V>, s: Tiers<K, V>, u: Tiers<K, V>, t: Time, e: Event<K, V>)
    requires Covers(s, u, t) && e.EvRead? && t <= e.now && !Overwrites(cfg, s, e)
    ensures var (n, reply) := Read(cfg, s, e.key, e.now, e.luck);
            var (n', reply') := ReadUnmarked(cfg, u, e.key, e.now, e.luck);
            && reply == reply' && n.local == n'.local && n.db == n'.db
            && (forall k :: k != e.key ==> RowAt(n, k) == RowAt(s, k) && RowAt(n', k) == RowAt(u, k))
            && (RowAt(n, e.key) == RowAt(n', e.key)
                || (RowAt(n, e.key).None? && RowAt(n', e.key).value.expire <= e.now))
  {
    hide Read;
    CoversKey(s, u, t, e.key, e.now);
    ReadSees(cfg, s, u, e.key, e.now, e.luck);
    ReadWrites(cfg, s, e.key, e.now, e.luck);
    ReadWrites(cfg, u, e.key, e.now, e.luck);
    assert RowAt(s, e.key) == RowAt(u, e.key) || (RowAt(s, e.key).None? && RowAt(u, e.key).value.expire <= t);
  }

  lemma CoversStep<K(!new), V>(cfg: Config<K, V>, s: Tiers<K, V>, u: Tiers<K, V>, t: Time, e: Event<K, V>)
    requires Covers(s, u, t) && t <= e.now && !Overwrites(cfg, s, e)
    ensures ReplyTo(cfg, s, e) == ReplyTo(cfg, u, e)
    ensures Covers(Next(cfg, s, e), NextUnmarked(cfg, u, e), e.now)
  {
    hide Read, Overwrites;
    if e.EvRead? {
      CoversRead(cfg, s, u, t, e);
    }
    var n, n' := Next(cfg, s, e), NextUnmarked(cfg, u, e);
    forall k ensures RowAt(n, k) == RowAt(n', k) || (RowAt(n, k).None? && RowAt(n', k).value.expire <= e.now) {
      assert RowAt(s, k) == RowAt(u, k) || (RowAt(s, k).None? && RowAt(u, k).value.expire <= t);
      if e.EvRead? && k != e.key {
        assert RowAt(n, k) == RowAt(s, k) && RowAt(n', k) == RowAt(u, k);
      }
    }
  }

  lemma {:induction false} MarkersCover<K(!new), V>(cfg: Config<K, V>, s: Tiers<K, V>, u: Tiers<K, V>, t: Time,
                                                    es: seq<Event<K, V>>)
    requires Covers(s, u, t) && Timely(es, t) && NeverOverwrites(cfg, s, es)
    ensures Replies(cfg, s, es, true) == Replies(cfg, u, es, false)
    decreases |es|
  {
    hide Covers, Next, NextUnmarked, ReplyTo, Overwrites;
    if es != [] {
      CoversStep(cfg, s, u, t, es[0]);
      MarkersCover(cfg, Next(cfg, s, es[0]), NextUnmarked(cfg, u, es[0]), es[0].now, es[1..]);
    }
  }

  /** The EMPTY marker changes no reply of any run in which it is never written over
      a live row: the run answers as one that writes no markers. */
  lemma MarkersAreInvisible<K(!new), V>(cfg: Config<K, V>, s: Tiers<K, V>, t: Time, es: seq<Event<K, V>>)
    requires Timely(es, t) && NeverOverwrites(cfg, s, es)
    ensures Replies(cfg, s, es, true) == Replies(cfg, s, es, false)
  {
    MarkersCover(cfg, s, s, t, es);
  }

  /** And it does change one as soon as it is: the next read that finds Redis working
      is answered differently with the marker and without. */
  lemma OverwritingMarkerShows<K(!new), V>(cfg: Config<K, V>, s: Tiers<K, V>, e: Event<K, V>)
    requires Overwrites(cfg, s, e)
    ensures var next := EvRead(e.now, e.key, Luck(false, false, false, 0));
            && ReplyTo(cfg, Next(cfg, s, e), next) == Some(NotFound)
            && ReplyTo(cfg, NextUnmarked(cfg, s, e), next)
               == Some(var v := cfg.decode(s.redis[e.key].stored.value); if v.None? then Error else Found(v.value))
  {
  }

  /** Events that lead there from empty caches: a row is read, deleted, and cleared
      from the local tier alone; one read that misses Redis marks it. */
  lemma MarkerOverLiveRow<K(!new), V(!new)>(cfg: Config<K, V>, key: K, row: V, now: Time)
    requires cfg.valid(key) && cfg.decode(row).Some? && cfg.redisTTL > 0
    ensures var s0 := Tiers(map[], map[], map[key := row]);
            var fine, blind := Luck(false, false, false, 0), Luck(true, false, false, 0);
            var s1 := Next(cfg, s0, EvRead(now, key, fine));
            var s2 := Next(cfg, s1, EvWrite(now, map[]));
            var s3 := Next(cfg, s2, EvClearLocal(now, key));
            && Overwrites(cfg, s3, EvRead(now, key, blind))
            && Read(cfg, Next(cfg, s3, EvRead(now, key, blind)), key, now, fine).1 == NotFound
            && Read(cfg, NextUnmarked(cfg, s3, EvRead(now, key, blind)), key, now, fine).1
               == Found(cfg.decode(row).value)
  {
  }

  // ----- the bound needs a positive local TTL

  /** With a non-positive local TTL a local entry never expires: a row served once
      is served for ever after, even when the table has long lost it. */
  lemma NonPositiveTTLIsStaleForever<K(!new), V(!new)>(cfg: Config<K, V>, key: K, raw: V, now: Time, later: Time,
                                                       luck: Luck)
    requires cfg.localTTL <= 0 && cfg.valid(key) && cfg.decode(raw).Some? && !luck.dbFails && now <= later
    ensures var s0 := Tiers(map[], map[], map[key := raw]);
            var (s1, first) := Read(cfg, s0, key, now, luck);
            var s2 := Next(cfg, s1, EvWrite(now, map[]));
            var s3 := Next(cfg, s2, EvSweep(later));
            && key !in s3.db
            && first == Found(cfg.decode(raw).value)
            && Read(cfg, s3, key, later, luck).1 == first
  {
  }

  // ----- clearing

  predicate Unread<K(==), V>(es: seq<Event<K, V>>, key: K) {
    forall i :: 0 <= i < |es| ==> !(es[i].EvRead? && es[i].key == key)
  }

  /** What a read of the table alone answers. */
  function TableReply<K, V>(cfg: Config<K, V>, s: Tiers<K, V>, key: K, luck: Luck): Reply<V> {
    if luck.dbFails then Error
    else if key !in s.db then NotFound
    else
      var v := cfg.decode(s.db[key]);
      if v.None? then Error else Found(v.value)
  }

  /** No local clear of the key, and nothing later than `t`. */
  predicate QuietUntil<K(==), V>(es: seq<Event<K, V>>, key: K, t: Time) {
    forall k :: 0 <= k < |es| ==> es[k].now <= t && !(es[k].EvClearLocal? && es[k].key == key)
  }

  /** Between two events with no read of the key, nothing brings it to either cache,
      and only a clear or a sweep of an expired entry takes it from the local one. */
  lemma {:induction false} QuietStretch<K(!new), V(!new)>(cfg: Config<K, V>, ss: seq<Tiers<K, V>>,
                                                          es: seq<Event<K, V>>, m: nat, n: nat, key: K)
    requires Behaviour(cfg, ss, es) && m <= n <= |es| && Unread(es[m..n], key) && key !in ss[m].redis
    ensures key !in ss[n].redis
    ensures key in ss[n].local ==> key in ss[m].local && ss[n].local[key] == ss[m].local[key]
    ensures forall t :: QuietUntil(es[m..n], key, t) && LocalHit(ss[m], key, t) ==> LocalHit(ss[n], key, t)
    decreases n - m
  {
    if m < n {
      assert es[m..n][0] == es[m];
      assert ss[m + 1] == Next(cfg, ss[m], es[m]);
      assert es[m..n][1..] == es[m + 1..n];
      QuietStretch(cfg, ss, es, m + 1, n, key);
    }
  }

  predicate LocalCleared<K(==), V>(es: seq<Event<K, V>>, key: K) {
    exists i :: 0 <= i < |es| && es[i].EvClearLocal? && es[i].key == key
  }

  lemma UnreadParts<K, V>(es: seq<Event<K, V>>, m: nat, c: nat, q: nat, key: K)
    requires m <= c < q <= |es| && Unread(es[m..q], key)
    ensures Unread(es[m..c], key) && Unread(es[c + 1..q], key)
  {
    assert forall i :: 0 <= i < c - m ==> es[m..c][i] == es[m..q][i];
    var rest := es[c + 1..q];
    forall i | 0 <= i < |rest| ensures !(rest[i].EvRead? && rest[i].key == key) {
      assert rest[i] == es[m..q][c + 1 - m + i];
    }
  }

  /** Exactly what the next read of a key answers after its Redis entry has been
      deleted by the event at `n`: the table's row of that moment, unless the local
      tier still held an entry when Redis was cleared that is neither expired nor
      cleared by then; then that entry. */
  lemma ReadAfterClear<K(!new), V(!new)>(cfg: Config<K, V>, ss: seq<Tiers<K, V>>, es: seq<Event<K, V>>, n: nat, q: nat)
    requires Behaviour(cfg, ss, es) && n < q < |es|
    requires es[n].EvClearRedis? && !es[n].fails && cfg.valid(es[n].key)
    requires es[q].EvRead? && es[q].key == es[n].key && Unread(es[n + 1..q], es[n].key)
    ensures var key, reply := es[q].key, Read(cfg, ss[q], es[q].key, es[q].now, es[q].luck).1;
            reply == if LocalHit(ss[n], key, es[q].now) && !LocalCleared(es[n + 1..q], key)
                     then Found(ss[n].local[key].value)
                     else TableReply(cfg, ss[q], key, es[q].luck)
  {
    hide Read;
    var key := es[q].key;
    assert ss[n + 1] == Next(cfg, ss[n], es[n]);
    QuietStretch(cfg, ss, es, n + 1, q, key);
    if LocalCleared(es[n + 1..q], key) {
      var i :| 0 <= i < |es[n + 1..q]| && es[n + 1..q][i].EvClearLocal? && es[n + 1..q][i].key == key;
      var c := n + 1 + i;
      assert es[c].EvClearLocal? && es[c].key == key;
      assert ss[c + 1] == Next(cfg, ss[c], es[c]);
      UnreadParts(es, n + 1, c, q, key);
      QuietStretch(cfg, ss, es, n + 1, c, key);
      QuietStretch(cfg, ss, es, c + 1, q, key);
    } else {
      var stretch := es[n + 1..q];
      forall k | 0 <= k < |stretch| ensures stretch[k].now <= es[q].now {
        assert stretch[k] == es[n + 1 + k];
      }
      assert QuietUntil(stretch, key, es[q].now);
    }
    ReadWithoutRedis(cfg, ss[q], key, es[q].now, es[q].luck);
  }

  lemma ReadWithoutRedis<K, V>(cfg: Config<K, V>, s: Tiers<K, V>, key: K, now: Time, luck: Luck)
    requires cfg.valid(key) && key !in s.redis
    ensures Read(cfg, s, key, now, luck).1
            == if LocalHit(s, key, now) then Found(s.local[key].value) else TableReply(cfg, s, key, luck)
  {
  }

  /** The event is a read that leaves the key in the local tier. */
  predicate Refills<K(==), V>(e: Event<K, V>, after: Tiers<K, V>, key: K) {
    e.EvRead? && e.key == key && key in after.local
  }

  lemma {:induction false} StaysOutOfLocal<K(!new), V(!new)>(cfg: Config<K, V>, ss: seq<Tiers<K, V>>,
                                                             es: seq<Event<K, V>>, m: nat, n: nat, key: K)
    requires Behaviour(cfg, ss, es) && m <= n <= |es| && key !in ss[m].local
    requires forall k :: m <= k < n ==> !Refills(es[k], ss[k + 1], key)
    ensures key !in ss[n].local
    decreases n - m
  {
    if m < n {
      StaysOutOfLocal(cfg, ss, es, m, n - 1, key);
      assert ss[n] == Next(cfg, ss[n - 1], es[n - 1]);
      assert !Refills(es[n - 1], ss[n - 1 + 1], key);
      if es[n - 1].EvRead? && es[n - 1].key != key {
        OtherKeysStay(cfg, ss[n - 1], es[n - 1], key);
      }
    }
  }

  lemma OtherKeysStay<K, V>(cfg: Config<K, V>, s: Tiers<K, V>, e: Event<K, V>, key: K)
    requires e.EvRead? && e.key != key
    ensures key in Next(cfg, s, e).local <==> key in s.local
  {
  }

  /** After a clear, local half at `m` and Redis half at `n`, the next read returns
      the row the table has then, whatever happens in between, provided no read
      between the halves refilled the local tier. */
  lemma ClearedReadsCurrent<K(!new), V(!new)>(cfg: Config<K, V>, ss: seq<Tiers<K, V>>, es: seq<Event<K, V>>, m: nat,
                                              n: nat, q: nat)
    requires Behaviour(cfg, ss, es) && m < n < q < |es|
    requires es[m].EvClearLocal? && es[n].EvClearRedis? && !es[n].fails && es[m].key == es[n].key
        && cfg.valid(es[n].key)
    requires es[q].EvRead? && es[q].key == es[n].key && Unread(es[n + 1..q], es[n].key)
    requires forall k :: m < k < n ==> !Refills(es[k], ss[k + 1], es[n].key)
    ensures Read(cfg, ss[q], es[q].key, es[q].now, es[q].luck).1 == TableReply(cfg, ss[q], es[q].key, es[q].luck)
  {
    hide Read;
    var key := es[q].key;
    assert ss[m + 1] == Next(cfg, ss[m], es[m]);
    StaysOutOfLocal(cfg, ss, es, m + 1, n, key);
    assert ss[n + 1] == Next(cfg, ss[n], es[n]);
    QuietStretch(cfg, ss, es, n + 1, q, key);
    ReadWithoutRedis(cfg, ss[q], key, es[q].now, es[q].luck);
  }

  /** The proviso is needed: a read that falls between the two halves of a clear
      takes the old row from Redis to the local tier, and the read after the clear,
      which reports success, serves it although the table has a new one. */
  lemma ReadBetweenHalvesKeepsOldRow<K(!new), V(!new)>(cfg: Config<K, V>, key: K, stale: V, current: V, now: Time,
                                                       luck: Luck)
    requires cfg.valid(key) && cfg.decode(stale).Some? && cfg.localTTL > 0 && cfg.redisTTL > 0 && now >= 0
    requires luck == Luck(false, false, false, 0)
    ensures var s0 := Tiers(map[], map[], map[key := stale]);
            var s1 := Next(cfg, s0, EvRead(now, key, luck));
            var s2 := Next(cfg, s1, EvWrite(now, map[key := current]));
            var s3 := Next(cfg, s2, EvClearLocal(now, key));
            var s4 := Next(cfg, s3, EvRead(now, key, luck));
            var s5 := Next(cfg, s4, EvClearRedis(now, key, false));
            && key !in s5.redis
            && Read(cfg, s5, key, now, luck).1 == Found(cfg.decode(stale).value)
  {
  }
}
