/** The bounded time-to-live cache of lab4sem/4 (`CacheItem<T>` and `Cache<T>`).

    The wall clock is replaced by an explicit instant `now` (an integer number of ticks)
    given to every operation, and the time to live is a number of ticks. */
module TtlCache {

  /** `CacheItem<T>`: a stored value and the instant at which it was created. */
  datatype CacheItem<T> = CacheItem(value: T, createdAt: int)

  /** The exceptions `Save` and `Get` raise. */
  datatype CacheError =
    | KeyAlreadyExists            // ArgumentException from Save
    | SequenceContainsNoElements  // InvalidOperationException from First() on an empty dictionary
    | KeyNotFound                 // KeyNotFoundException: no entry for the key
    | KeyExpired                  // KeyNotFoundException: the entry had expired and was removed

  /** The outcome of `Save`, which returns nothing or throws. */
  datatype Outcome = Pass | Fail(error: CacheError)

  /** The outcome of `Get`, which returns a value or throws. */
  datatype Result<T> = Success(value: T) | Failure(error: CacheError)

  type Entries<T> = map<string, CacheItem<T>>

  /** An entry is expired once its age exceeds the time to live; an entry aged exactly the
      time to live is still alive. */
  predicate Expired<T>(item: CacheItem<T>, now: int, ttl: int) {
    now - item.createdAt > ttl
  }

  /** The entries the expiry sweep keeps at `now`. */
  function Live<T>(m: Entries<T>, now: int, ttl: int): (r: Entries<T>)
    ensures r.Keys <= m.Keys
    ensures forall k :: k in r ==> r[k] == m[k] && !Expired(m[k], now, ttl)
  {
    map k | k in m && !Expired(m[k], now, ttl) :: m[k]
  }

  /** `k` is an entry with the smallest creation time (the one `OrderBy(CreatedAt).First()`
      may pick; among equal creation times the dictionary's order decides). */
  predicate IsOldest<T>(m: Entries<T>, k: string) {
    k in m && forall k' :: k' in m ==> m[k].createdAt <= m[k'].createdAt
  }

  /** What `Save(key, value)` at `now` may do: `r` is its outcome and `m'` the dictionary it
      leaves behind, given the dictionary `m` it started from. */
  ghost predicate SaveStep<T>(m: Entries<T>, key: string, value: T, now: int, ttl: int,
                              maxItems: nat, r: Outcome, m': Entries<T>): (ok: bool)
    ensures ok && r == Pass ==> key !in m && key in m' && m'[key] == CacheItem(value, now)
    ensures ok && r.Fail? ==> key !in m' || m' == m
  {
    if key in m then
      r == Fail(KeyAlreadyExists) && m' == m
    else
      var swept := Live(m, now, ttl);
      if |swept| < maxItems then
        r == Pass && m' == swept[key := CacheItem(value, now)]
      else if swept == map[] then
        r == Fail(SequenceContainsNoElements) && m' == swept
      else
        r == Pass && exists victim :: IsOldest(swept, victim) &&
                                      m' == (swept - {victim})[key := CacheItem(value, now)]
  }

  /** What `Get(key)` at `now` does: its outcome and the dictionary it leaves behind. */
  function GetStep<T>(m: Entries<T>, key: string, now: int, ttl: int): (r: (Result<T>, Entries<T>))
    ensures r.1 == m || r.1 == m - {key}
    ensures r.0.Success? ==> key in m && r.0.value == m[key].value
  {
    if key !in m then (Failure(KeyNotFound), m)
    else if Expired(m[key], now, ttl) then (Failure(KeyExpired), m - {key})
    else (Success(m[key].value), m)
  }

  /** `Cache<T>`: a dictionary of entries with a fixed time to live and capacity. */
  class Cache<T> {
    const timeToLive: int
    const maxItems: nat
    var cache: Entries<T>

    /** The cache never holds more entries than its capacity. */
    ghost predicate Valid()
      reads this
    {
      |cache| <= maxItems
    }

    constructor (timeToLive: int, maxItems: nat)
      ensures this.timeToLive == timeToLive && this.maxItems == maxItems
      ensures cache == map[] && Valid()
    {
      this.timeToLive := timeToLive;
      this.maxItems := maxItems;
      cache := map[];
    }

    /** Stores `value` under a new `key`, first sweeping out expired entries and, when the
        cache is still full, evicting one oldest entry. */
    method Save(key: string, value: T, now: int) returns (r: Outcome)
      requires Valid()
      modifies this
      ensures SaveStep(old(cache), key, value, now, timeToLive, maxItems, r, cache)
      ensures Valid()
    {
      ghost var original := cache;
      if key in cache {
        return Fail(KeyAlreadyExists);
      }
      RemoveExpiredItems(now);
      if |cache| >= maxItems {
        if cache == map[] {
          return Fail(SequenceContainsNoElements);
        }
        OldestExists(cache);
        var oldestKey :| IsOldest(cache, oldestKey);
        cache := cache - {oldestKey};
      }
      cache := cache[key := CacheItem(value, now)];
      r := Pass;
      SaveKeepsBound(original, key, value, now, timeToLive, maxItems, r, cache);
    }

    /** Returns the value stored under `key` while it is alive; an expired entry is removed. */
    method Get(key: string, now: int) returns (r: Result<T>)
      requires Valid()
      modifies this
      ensures (r, cache) == GetStep(old(cache), key, now, timeToLive)
      ensures Valid()
    {
      if key in cache {
        var item := cache[key];
        if now - item.createdAt <= timeToLive {
          return Success(item.value);
        } else {
          cache := cache - {key};
          return Failure(KeyExpired);
        }
      } else {
        return Failure(KeyNotFound);
      }
    }

    /** Removes every expired entry, one key at a time. */
    method RemoveExpiredItems(now: int)
      modifies this
      ensures cache == Live(old(cache), now, timeToLive)
    {
      ghost var original := cache;
      var keysToRemove := set k | k in cache && Expired(cache[k], now, timeToLive);
      while keysToRemove != {}
        invariant keysToRemove <= original.Keys
        invariant cache.Keys == Live(original, now, timeToLive).Keys + keysToRemove
        invariant forall k :: k in cache ==> cache[k] == original[k]
        decreases keysToRemove
      {
        var k :| k in keysToRemove;
        cache := cache - {k};
        keysToRemove := keysToRemove - {k};
      }
    }
  }

  /** Every nonempty dictionary has an oldest entry, so eviction can always pick one. */
  lemma {:induction false} OldestExists<T>(m: Entries<T>)
    requires m != map[]
    ensures exists k :: IsOldest(m, k)
    decreases |m|
  {
    var k :| k in m;
    var rest := m - {k};
    assert forall k' :: k' in m ==> k' == k || k' in rest;
    if rest == map[] {
      assert IsOldest(m, k);
    } else {
      assert |rest| < |m|;
      OldestExists(rest);
      var j :| IsOldest(rest, j);
      if m[k].createdAt <= m[j].createdAt {
        assert IsOldest(m, k);
      } else {
        assert IsOldest(m, j);
      }
    }
  }

  /** The sweep keeps exactly the entries aged at most the time to live, unchanged. */
  lemma LiveExactly<T>(m: Entries<T>, now: int, ttl: int, k: string)
    ensures k in Live(m, now, ttl) <==> k in m && now - m[k].createdAt <= ttl
    ensures k in Live(m, now, ttl) ==> Live(m, now, ttl)[k] == m[k]
  {
  }

  /** When nothing has expired the sweep keeps everything; when everything has, nothing. */
  lemma LiveWhole<T>(m: Entries<T>, now: int, ttl: int)
    ensures (forall k :: k in m ==> !Expired(m[k], now, ttl)) ==> Live(m, now, ttl) == m
    ensures (forall k :: k in m ==> Expired(m[k], now, ttl)) ==> Live(m, now, ttl) == map[]
  {
  }

  /** The sweep never adds entries. */
  lemma {:induction false} LiveNoLarger<T>(m: Entries<T>, now: int, ttl: int)
    ensures |Live(m, now, ttl)| <= |m|
  {
    var live := Live(m, now, ttl);
    assert live.Keys <= m.Keys;
    SubsetCard(live.Keys, m.Keys);
  }

  lemma {:induction false} SubsetCard(a: set<string>, b: set<string>)
    requires a <= b
    ensures |a| <= |b|
    decreases |b|
  {
    if a != {} {
      var x :| x in a;
      SubsetCard(a - {x}, b - {x});
    }
  }

  /** A key that is already present, even one whose entry has expired, is refused before
      any sweep, and the dictionary is left as it was. */
  lemma SaveRejectsDuplicate<T>(m: Entries<T>, key: string, value: T, now: int, ttl: int,
                                maxItems: nat, r: Outcome, m': Entries<T>)
    requires key in m
    requires SaveStep(m, key, value, now, ttl, maxItems, r, m')
    ensures r == Fail(KeyAlreadyExists) && m' == m
  {
  }

  /** A Save of a new key fails only when the capacity is zero and nothing is left after the
      sweep to evict; it then inserts nothing, but the sweep has already happened. */
  lemma SaveFailsOnlyOnEmptyZeroCapacity<T>(m: Entries<T>, key: string, value: T, now: int,
                                            ttl: int, maxItems: nat, r: Outcome, m': Entries<T>)
    requires key !in m
    requires SaveStep(m, key, value, now, ttl, maxItems, r, m')
    ensures r.Fail? <==> maxItems == 0 && Live(m, now, ttl) == map[]
    ensures r.Fail? ==> r.error == SequenceContainsNoElements && m' == map[] && key !in m'
  {
  }

  /** A successful Save stores the value under the key, stamped with the current instant,
      and every other surviving entry is an unexpired entry of the old dictionary, unchanged. */
  lemma SaveStoresAndSweeps<T>(m: Entries<T>, key: string, value: T, now: int, ttl: int,
                               maxItems: nat, r: Outcome, m': Entries<T>)
    requires SaveStep(m, key, value, now, ttl, maxItems, r, m')
    requires r == Pass
    ensures key in m' && m'[key] == CacheItem(value, now)
    ensures forall k :: k in m' && k != key ==>
              k in m && now - m[k].createdAt <= ttl && m'[k] == m[k]
    ensures forall k :: k in m && Expired(m[k], now, ttl) ==> k !in m'
  {
  }

  /** After the sweep, a Save evicts one entry exactly when the count has reached the
      capacity, and the evicted entry is no younger than any entry that remains. */
  lemma {:induction false} SaveEvictsOldest<T>(m: Entries<T>, key: string, value: T, now: int,
                                               ttl: int, maxItems: nat, r: Outcome, m': Entries<T>)
    requires SaveStep(m, key, value, now, ttl, maxItems, r, m')
    requires r == Pass
    ensures |Live(m, now, ttl)| < maxItems ==> m'.Keys == Live(m, now, ttl).Keys + {key}
    ensures |Live(m, now, ttl)| >= maxItems ==>
              exists victim :: victim in Live(m, now, ttl) && victim !in m' &&
                               m'.Keys == Live(m, now, ttl).Keys - {victim} + {key} &&
                               forall k :: k in m' && k != key ==>
                                 m[victim].createdAt <= m'[k].createdAt
    ensures |m'| == if |Live(m, now, ttl)| < maxItems then |Live(m, now, ttl)| + 1
                    else |Live(m, now, ttl)|
  {
    var swept := Live(m, now, ttl);
    assert key !in m && key !in swept;
    if |swept| < maxItems {
      assert m'.Keys == swept.Keys + {key};
    } else {
      var victim :| IsOldest(swept, victim) &&
                    m' == (swept - {victim})[key := CacheItem(value, now)];
      EvictOne(swept, victim, key, CacheItem(value, now), m');
      assert m[victim] == swept[victim];
    }
  }

  /** Replacing the oldest entry by a new key keeps the count, and every entry that remains
      is no older than the one removed. */
  lemma EvictOne<T>(swept: Entries<T>, victim: string, key: string, item: CacheItem<T>,
                    m': Entries<T>)
    requires IsOldest(swept, victim) && key !in swept
    requires m' == (swept - {victim})[key := item]
    ensures victim !in m' && m'.Keys == swept.Keys - {victim} + {key} && |m'| == |swept|
    ensures forall k :: k in m' && k != key ==> swept[victim].createdAt <= m'[k].createdAt
  {
    assert m'.Keys == swept.Keys - {victim} + {key};
    assert |(swept - {victim}).Keys| == |swept| - 1;
  }

  /** A Save never takes the count above the capacity; with a capacity of at least one, a
      Save of a new key always succeeds. */
  lemma {:induction false} SaveKeepsBound<T>(m: Entries<T>, key: string, value: T, now: int,
                                             ttl: int, maxItems: nat, r: Outcome, m': Entries<T>)
    requires SaveStep(m, key, value, now, ttl, maxItems, r, m')
    requires |m| <= maxItems
    ensures maxItems >= 1 ==> r == Pass || key in m
    ensures |m'| <= maxItems
  {
    if key !in m {
      LiveNoLarger(m, now, ttl);
      if r == Pass {
        SaveEvictsOldest(m, key, value, now, ttl, maxItems, r, m');
      }
    }
  }

  /** A cache of capacity zero stays empty: every Save of a key into it fails, as
      `OrderBy(...).First()` finds nothing to evict. */
  lemma SaveZeroCapacity<T>(key: string, value: T, now: int, ttl: int, r: Outcome, m': Entries<T>)
    requires SaveStep(map[], key, value, now, ttl, 0, r, m')
    ensures r == Fail(SequenceContainsNoElements) && m' == map[]
  {
  }

  /** A value saved at `t0` is returned by a Get at any later `t1` up to `t0 + ttl`, and a
      Get after that reports it expired. */
  lemma SaveThenGet<T>(m: Entries<T>, key: string, value: T, t0: int, ttl: int,
                       maxItems: nat, m': Entries<T>, t1: int)
    requires SaveStep(m, key, value, t0, ttl, maxItems, Pass, m')
    ensures t1 - t0 <= ttl ==> GetStep(m', key, t1, ttl) == (Success(value), m')
    ensures t1 - t0 > ttl ==> GetStep(m', key, t1, ttl) == (Failure(KeyExpired), m' - {key})
  {
    SaveStoresAndSweeps(m, key, value, t0, ttl, maxItems, Pass, m');
  }

  /** Get never hands out an expired entry, and changes the dictionary only by removing the
      expired entry it was asked for. */
  lemma GetOnlyLive<T>(m: Entries<T>, key: string, now: int, ttl: int)
    ensures GetStep(m, key, now, ttl).0.Success? <==> key in m && now - m[key].createdAt <= ttl
    ensures GetStep(m, key, now, ttl).0.Success? ==>
              GetStep(m, key, now, ttl).0.value == m[key].value && GetStep(m, key, now, ttl).1 == m
    ensures GetStep(m, key, now, ttl).0.Failure? ==>
              GetStep(m, key, now, ttl).1 == m - {key} && key !in GetStep(m, key, now, ttl).1
  {
  }

  /** Two Gets of an expired key both fail: the first reports the expiry and removes the
      entry, the second finds no entry. */
  lemma GetExpiredTwice<T>(m: Entries<T>, key: string, now: int, later: int, ttl: int)
    requires key in m && Expired(m[key], now, ttl)
    ensures GetStep(m, key, now, ttl).0 == Failure(KeyExpired)
    ensures GetStep(GetStep(m, key, now, ttl).1, key, later, ttl) ==
              (Failure(KeyNotFound), m - {key})
  {
  }

  /** A Save of a new key when nothing has expired and there is room only adds the entry. */
  lemma SaveWithRoom<T>(m: Entries<T>, key: string, value: T, now: int, ttl: int,
                        maxItems: nat, r: Outcome, m': Entries<T>)
    requires key !in m && |m| < maxItems
    requires forall k :: k in m ==> !Expired(m[k], now, ttl)
    requires SaveStep(m, key, value, now, ttl, maxItems, r, m')
    ensures r == Pass && m' == m[key := CacheItem(value, now)] && |m'| == |m| + 1
  {
    LiveWhole(m, now, ttl);
  }

  /** A Save of a new key when nothing has expired, the cache is full and `v` is strictly
      the oldest entry evicts `v` and adds the new entry. */
  lemma {:induction false} SaveWhenFull<T>(m: Entries<T>, key: string, value: T, now: int,
                                           ttl: int, maxItems: nat, r: Outcome, m': Entries<T>,
                                           v: string)
    requires key !in m && |m| >= maxItems && v in m
    requires forall k :: k in m ==> !Expired(m[k], now, ttl)
    requires forall k :: k in m && k != v ==> m[v].createdAt < m[k].createdAt
    requires SaveStep(m, key, value, now, ttl, maxItems, r, m')
    ensures r == Pass && m' == (m - {v})[key := CacheItem(value, now)]
  {
    LiveWhole(m, now, ttl);
    var victim :| IsOldest(m, victim) && m' == (m - {victim})[key := CacheItem(value, now)];
    assert victim == v;
  }

  /** The demo program, first part: key1 to key3 are saved at 0, 1 and 2 ms into an empty
      cache of capacity three. */
  method DemoFill(c: Cache<string>) returns (saves: seq<Outcome>)
    requires c.timeToLive == 2000 && c.maxItems == 3 && c.cache == map[]
    modifies c
    ensures saves == [Pass, Pass, Pass]
    ensures c.cache == map["key1" := CacheItem("value1", 0), "key2" := CacheItem("value2", 1),
                           "key3" := CacheItem("value3", 2)]
  {
    ghost var m0 := c.cache;
    var s1 := c.Save("key1", "value1", 0);
    SaveWithRoom(m0, "key1", "value1", 0, 2000, 3, s1, c.cache);
    ghost var m1 := c.cache;
    var s2 := c.Save("key2", "value2", 1);
    SaveWithRoom(m1, "key2", "value2", 1, 2000, 3, s2, c.cache);
    ghost var m2 := c.cache;
    var s3 := c.Save("key3", "value3", 2);
    SaveWithRoom(m2, "key3", "value3", 2, 2000, 3, s3, c.cache);
    saves := [s1, s2, s3];
  }

  /** The demo program, continued: the three values are read back while alive; three seconds
      later key1 has expired, and reading it removes it. */
  method DemoFillAndExpire(c: Cache<string>) returns (early: seq<Result<string>>,
                                                      expired: Result<string>)
    requires c.timeToLive == 2000 && c.maxItems == 3
    requires c.cache == map["key1" := CacheItem("value1", 0), "key2" := CacheItem("value2", 1),
                            "key3" := CacheItem("value3", 2)]
    modifies c
    ensures early == [Success("value1"), Success("value2"), Success("value3")]
    ensures expired == Failure(KeyExpired)
    ensures c.cache == map["key2" := CacheItem("value2", 1), "key3" := CacheItem("value3", 2)]
  {
    var g1 := c.Get("key1", 3);
    var g2 := c.Get("key2", 4);
    var g3 := c.Get("key3", 5);
    early := [g1, g2, g3];
    expired := c.Get("key1", 3005);
  }

  /** The demo program, second part: key1 to key3 are saved again; the sweep clears the two
      expired entries. */
  method DemoRefill(c: Cache<string>) returns (saves: seq<Outcome>)
    requires c.timeToLive == 2000 && c.maxItems == 3
    requires c.cache == map["key2" := CacheItem("value2", 1), "key3" := CacheItem("value3", 2)]
    modifies c
    ensures saves == [Pass, Pass, Pass]
    ensures c.cache == map["key1" := CacheItem("value1", 3006), "key2" := CacheItem("value2", 3007),
                           "key3" := CacheItem("value3", 3008)]
  {
    LiveWhole(c.cache, 3006, 2000);
    var t1 := c.Save("key1", "value1", 3006);
    assert c.cache == map["key1" := CacheItem("value1", 3006)];
    var rest := DemoRefillRest(c);
    saves := [t1] + rest;
  }

  /** The demo program, second part continued: key2 and key3 join key1. */
  method DemoRefillRest(c: Cache<string>) returns (saves: seq<Outcome>)
    requires c.timeToLive == 2000 && c.maxItems == 3
    requires c.cache == map["key1" := CacheItem("value1", 3006)]
    modifies c
    ensures saves == [Pass, Pass]
    ensures c.cache == map["key1" := CacheItem("value1", 3006), "key2" := CacheItem("value2", 3007),
                           "key3" := CacheItem("value3", 3008)]
  {
    ghost var m1 := c.cache;
    var t2 := c.Save("key2", "value2", 3007);
    SaveWithRoom(m1, "key2", "value2", 3007, 2000, 3, t2, c.cache);
    ghost var m2 := c.cache;
    var t3 := c.Save("key3", "value3", 3008);
    SaveWithRoom(m2, "key3", "value3", 3008, 2000, 3, t3, c.cache);
    saves := [t2, t3];
  }

  /** The demo program, last part: key4 finds the cache full and evicts the oldest entry,
      key1. */
  method DemoEvict(c: Cache<string>) returns (saved: Outcome)
    requires c.timeToLive == 2000 && c.maxItems == 3
    requires c.cache == map["key1" := CacheItem("value1", 3006), "key2" := CacheItem("value2", 3007),
                            "key3" := CacheItem("value3", 3008)]
    modifies c
    ensures saved == Pass
    ensures c.cache == map["key2" := CacheItem("value2", 3007), "key3" := CacheItem("value3", 3008),
                           "key4" := CacheItem("value4", 3009)]
  {
    ghost var full := c.cache;
    assert |full| == 3;
    saved := c.Save("key4", "value4", 3009);
    SaveWhenFull(full, "key4", "value4", 3009, 2000, 3, saved, c.cache, "key1");
    EvictKey1(c.cache);
  }

  /** The dictionary the demo's eviction leaves: key1 replaced by key4. */
  lemma EvictKey1(m': Entries<string>)
    requires m' == (map["key1" := CacheItem("value1", 3006), "key2" := CacheItem("value2", 3007),
                        "key3" := CacheItem("value3", 3008)] - {"key1"})["key4" := CacheItem("value4", 3009)]
    ensures m' == map["key2" := CacheItem("value2", 3007), "key3" := CacheItem("value3", 3008),
                      "key4" := CacheItem("value4", 3009)]
  {
  }

  /** After the eviction key4, key2 and key3 can be read, key1 cannot. */
  method DemoReadAfterEvict(c: Cache<string>) returns (late: seq<Result<string>>)
    requires c.timeToLive == 2000 && c.maxItems == 3
    requires c.cache == map["key2" := CacheItem("value2", 3007), "key3" := CacheItem("value3", 3008),
                            "key4" := CacheItem("value4", 3009)]
    modifies c
    ensures late == [Success("value4"), Failure(KeyNotFound), Success("value2"), Success("value3")]
  {
    var h4 := c.Get("key4", 3010);
    var h1 := c.Get("key1", 3011);
    var h2 := c.Get("key2", 3012);
    var h3 := c.Get("key3", 3013);
    late := [h4, h1, h2, h3];
  }

  /** The whole demo program: time to live 2000 ticks (two seconds in milliseconds),
      capacity 3. */
  method DemoScenario() returns (fills: seq<Outcome>, early: seq<Result<string>>,
                                 expired: Result<string>, saves: seq<Outcome>,
                                 late: seq<Result<string>>)
    ensures fills == [Pass, Pass, Pass]
    ensures early == [Success("value1"), Success("value2"), Success("value3")]
    ensures expired == Failure(KeyExpired)
    ensures saves == [Pass, Pass, Pass, Pass]
    ensures late == [Success("value4"), Failure(KeyNotFound), Success("value2"), Success("value3")]
  {
    var c := new Cache<string>(2000, 3);
    fills := DemoFill(c);
    early, expired := DemoFillAndExpire(c);
    saves := DemoRefill(c);
    var t4 := DemoEvict(c);
    saves := saves + [t4];
    late := DemoReadAfterEvict(c);
  }
}
