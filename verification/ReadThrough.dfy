/** The cache tiers as they run. `Read` is both route lookup (valid: a positive ID;
    decode: the identity) and API-key lookup (valid: a non-empty secret ID; decode:
    decryption). */
module ReadThrough {
  import opened Prelude
  import opened Caches

  /** The in-process cache. */
  class LocalCache<K(==), V> {
    var data: map<K, Item<V>>

    constructor ()
      ensures data == map[]
    {
      data := map[];
    }

    method Set(key: K, value: V, ttl: int, now: Time)
      modifies this
      ensures data == LocalSet(old(data), key, value, ttl, now)
    {
      var expire := 0;
      if ttl > 0 {
        expire := now + ttl;
      }
      data := data[key := Item(value, expire)];
    }

    /** An expired entry is a miss, and is dropped on the way: looked up under one
        lock and deleted under another, so that whatever the key holds by then goes.
        `between` is what happens to the cache in the gap. */
    method Get(key: K, now: Time, between: seq<LocalOp<K, V>>) returns (r: Option<V>)
      modifies this
      ensures r == if key in old(data) && !Expired(old(data)[key], now) then Some(old(data)[key].value) else None
      ensures data == if key in old(data) && Expired(old(data)[key], now) then LocalAfter(old(data), between) - {key}
                      else old(data)
    {
      if key !in data {
        return None;
      }
      var it := data[key];
      if it.expire > 0 && now > it.expire {
        for i := 0 to |between|
          invariant data == LocalAfter(old(data), between[..i])
        {
          assert between[..i + 1][..i] == between[..i];
          Perform(between[i]);
        }
        assert between[..|between|] == between;
        Delete(key);
        return None;
      }
      r := Some(it.value);
    }

    method Perform(op: LocalOp<K, V>)
      modifies this
      ensures data == LocalNext(old(data), op)
    {
      match op
      case SetOp(key, value, ttl, now) => Set(key, value, ttl, now);
      case DeleteOp(key) => Delete(key);
      case CleanupOp(now) => Cleanup(now);
    }

    method Delete(key: K)
      modifies this
      ensures data == old(data) - {key}
    {
      data := data - {key};
    }

    /** One tick of the cleanup worker. */
    method Cleanup(now: Time)
      modifies this
      ensures data == LocalSwept(old(data), now)
    {
      data := map k | k in data && !(data[k].expire > 0 && now > data[k].expire) :: data[k];
    }
  }

  class App<K(==), V> {
    const cfg: Config<K, V>
    const localCache: LocalCache<K, V>
    var redis: map<K, RedisItem<V>>
    var db: map<K, V>

    constructor (cfg: Config<K, V>, db: map<K, V>)
      ensures View() == Tiers(map[], map[], db) && this.cfg == cfg
      ensures fresh(localCache)
    {
      this.cfg, this.db, redis := cfg, db, map[];
      localCache := new LocalCache();
    }

    function View(): Tiers<K, V>
      reads this, localCache
    {
      Tiers(localCache.data, redis, db)
    }

    /** A Redis GET: nothing for a missing or expired key, and nothing either for
        the EMPTY marker. */
    method RedisGet(key: K, now: Time, fails: bool) returns (ok: bool, r: Option<V>)
      ensures ok == !fails
      ensures r == if !fails && Live(redis, key, now) then Some(redis[key].stored.value) else None
    {
      if fails {
        return false, None;
      }
      if key !in redis || now >= redis[key].expire {
        return true, None;
      }
      match redis[key].stored
      case Empty => return true, None;
      case Row(value) => return true, Some(value);
    }

    /** Decodes the row in place and keeps a copy of the result locally. */
    method DecodeAndCacheLocal(key: K, row: V, now: Time) returns (r: Option<V>)
      modifies localCache
      ensures (View(), if r.Some? then Found(r.value) else Error) == Serve(cfg, old(View()), key, row, now)
    {
      var info := cfg.decode(row);
      if info.None? {
        return None;
      }
      localCache.Set(key, info.value, cfg.localTTL, now);
      r := info;
    }

    method Get(key: K, now: Time, luck: Luck) returns (reply: Reply<V>)
      requires Fits(cfg, luck)
      modifies this`redis, localCache
      ensures (View(), reply) == Read(cfg, old(View()), key, now, luck)
    {
      if !cfg.valid(key) {
        return Error;
      }
      assert key !in localCache.data ==> localCache.data - {key} == localCache.data;
      var hit := localCache.Get(key, now, []);
      if hit.Some? {
        return Found(hit.value);
      }
      var _, cached := RedisGet(key, now, luck.redisGetFails);
      var served;
      if cached.Some? {
        served := DecodeAndCacheLocal(key, cached.value, now);
        return if served.Some? then Found(served.value) else Error;
      }
      if luck.dbFails {
        return Error;
      }
      if key !in db {
        if !luck.redisSetFails {
          redis := redis[key := RedisItem(Empty, now + EMPTY_TTL)];
        }
        return NotFound;
      }
      var row := db[key];
      if !luck.redisSetFails {
        redis := redis[key := RedisItem(Row(row), now + (cfg.redisTTL + luck.jitter))];
      }
      served := DecodeAndCacheLocal(key, row, now);
      reply := if served.Some? then Found(served.value) else Error;
    }

    /** Whatever else happens to the tiers. */
    method Handle(e: Event<K, V>)
      requires e.EvRead? ==> Fits(cfg, e.luck)
      modifies this`redis, this`db, localCache
      ensures View() == Next(cfg, old(View()), e)
    {
      match e
      case EvRead(now, key, luck) => var _ := Get(key, now, luck);
      case EvWrite(_, rows) => db := rows;
      case EvSweep(now) => localCache.Cleanup(now);
      case EvClearLocal(_, key) => localCache.Delete(key);
      case EvClearRedis(_, key, fails) => if !fails { redis := redis - {key}; }
    }

    /** Deletes the local entry, then the Redis entry, which may fail. `between` goes
        on after the first delete and before the second. */
    method ClearCache(key: K, between: seq<Event<K, V>>, now: Time, fails: bool) returns (ok: bool)
      requires forall e :: e in between && e.EvRead? ==> Fits(cfg, e.luck)
      modifies this`redis, this`db, localCache
      ensures ok == (cfg.valid(key) && !fails)
      ensures View() == if !cfg.valid(key) then old(View())
                        else After(cfg, old(View()), [EvClearLocal(now, key)] + between
                          + [EvClearRedis(now, key, fails)])
    {
      hide Next;
      if !cfg.valid(key) {
        return false;
      }
      ghost var log := [EvClearLocal(now, key)];
      AfterSnoc(cfg, View(), [], log[0]);
      assert [] + log == log;
      Handle(EvClearLocal(now, key));
      for i := 0 to |between|
        invariant log == [EvClearLocal(now, key)] + between[..i]
        invariant View() == After(cfg, old(View()), log)
      {
        AfterSnoc(cfg, old(View()), log, between[i]);
        Handle(between[i]);
        log := log + [between[i]];
      }
      AfterSnoc(cfg, old(View()), log, EvClearRedis(now, key, fails));
      Handle(EvClearRedis(now, key, fails));
      assert between[..|between|] == between;
      ok := !fails;
    }
  }
}
