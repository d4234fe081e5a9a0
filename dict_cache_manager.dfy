/**
 * The in-memory dictionary cache manager: an ordered dictionary from keys
 * to buckets of cache items, updated in place. Every method is proved to
 * leave the state the matching function of module CacheStore describes.
 */
module DictCacheManager {
  import opened Wrappers
  import opened OrderedKeys
  import opened CacheItems
  import opened CacheStore

  /** The error `cache_decorator` raises. */
  datatype CacheError = ValueError(message: string)

  /** The inner loop of `_clean`: the items of `bucket` whose `data()` is not None at `now`. */
  method ValidItems<V>(bucket: Bucket<V>, now: int) returns (validList: Bucket<V>)
    ensures validList == LiveItems(bucket, now)
  {
    validList := [];
    for j := 0 to |bucket|
      invariant validList == LiveItems(bucket[..j], now)
    {
      assert bucket[..j + 1][..j] == bucket[..j];
      if Data(bucket[j], now).Some? {
        validList := validList + [bucket[j]];
      }
    }
    assert bucket[..|bucket|] == bucket;
  }

  /**
   * The dictionary `_clean` builds from the key order `keys` and the
   * buckets `dict`: the keys with a live item, in order, with their live items.
   */
  method CleanedDict<V>(keys: seq<Key>, dict: map<Key, Bucket<V>>, now: int)
    returns (validOrder: seq<Key>, validBuckets: map<Key, Bucket<V>>)
    requires Store(keys, dict).Valid()
    ensures Store(validOrder, validBuckets) == AfterClean(Store(keys, dict), now)
  {
    ghost var st := Store(keys, dict);
    validOrder := [];
    validBuckets := map[];
    assert keys[..0] == [];
    for n := 0 to |keys|
      invariant CleanedUpTo(st, n, now, validOrder, validBuckets)
    {
      var key := keys[n];
      var validList := ValidItems(dict[key], now);
      CleanedUpToStep(st, n, now, validOrder, validBuckets);
      if |validList| > 0 {
        validOrder := validOrder + [key];
        validBuckets := validBuckets[key := validList];
      }
    }
    CleanedUpToAll(st, validOrder, validBuckets, now);
  }

  /** The list comprehension of `get_cache`: `item.data()` for each item of `bucket` whose `data()` is not None. */
  method ValidData<V>(bucket: Bucket<V>, now: int) returns (cacheList: seq<V>)
    ensures cacheList == LivePayloads(bucket, now)
  {
    cacheList := [];
    for i := 0 to |bucket|
      invariant cacheList == LivePayloads(bucket[..i], now)
    {
      assert bucket[..i + 1][..i] == bucket[..i];
      match Data(bucket[i], now)
      case Some(v) =>
        cacheList := cacheList + [v];
      case None =>
    }
    assert bucket[..|bucket|] == bucket;
  }

  class DictMemoryCacheManager<V(==)> {
    /** Settings of the base manager: the most keys kept and the life times in seconds. */
    const capacity: nat
    const defaultLifeTime: int
    const maxLifeTime: int

    /** The ordered dictionary: its key order (oldest first) and its buckets. */
    var order: seq<Key>
    var buckets: map<Key, Bucket<V>>

    function Model(): Store<V>
      reads this
    {
      Store(order, buckets)
    }

    ghost predicate Valid()
      reads this
    {
      Model().Valid()
    }

    constructor (capacity: nat, defaultLifeTime: int, maxLifeTime: int)
      ensures Valid() && Model() == EmptyStore()
      ensures this.capacity == capacity && this.defaultLifeTime == defaultLifeTime
      ensures this.maxLifeTime == maxLifeTime
    {
      this.capacity := capacity;
      this.defaultLifeTime := defaultLifeTime;
      this.maxLifeTime := maxLifeTime;
      order := [];
      buckets := map[];
    }

    /** `_size()`: the number of keys, not of items. */
    function Size(): (n: nat)
      reads this
      requires Valid()
      ensures n == |buckets|
    {
      DistinctCardinality(order);
      assert (set k | k in order) == buckets.Keys;
      |order|
    }

    /** `_is_valid_size`: the dictionary holds no more keys than the capacity. */
    predicate IsValidSize(): (r: bool)
      reads this
      requires Valid()
      ensures r <==> |buckets| <= capacity
      ensures r <==> WithinCapacity(Model(), capacity)
    {
      Size() <= capacity
    }

    /**
     * The item `CostumCacheItem(data, life_time)` at `now`; a missing life
     * time stands for the default life time of the cache.
     */
    function CustomItem(data: Option<V>, lifeTime: Option<int>, now: int): (item: Item<V>)
      ensures item.kind == Custom && item.payload == data
      ensures lifeTime.Some? ==> item.expiresAt == now + lifeTime.value
      ensures lifeTime.None? ==> item.expiresAt == now + defaultLifeTime
    {
      Item(Custom, data, now + if lifeTime.Some? then lifeTime.value else defaultLifeTime)
    }

    /** `_add_to_cache(key, item)`. */
    method AddToCache(key: Key, item: Item<V>) returns (status: CacheStatus)
      requires Valid()
      modifies this
      ensures Valid()
      ensures Model() == AfterAdd(old(Model()), key, item, capacity)
      ensures status == UPDATED
    {
      if key in buckets {
        buckets := buckets[key := buckets[key] + [item]];
        order := MoveToEnd(order, key);
        return UPDATED;
      } else {
        buckets := buckets[key := [item]];
        order := order + [key];
        assert Model().Valid();
        if !IsValidSize() {
          buckets := buckets - {order[0]};
          order := order[1..];
        }
        return UPDATED;
      }
    }

    /**
     * `cache_decorator(key, life_time)` applied to a function: registers one
     * function item, still without a value, under the key, or raises when
     * the key is None. The item is what the returned wrapper is bound to.
     */
    method CacheDecorator(key: Option<Key>, lifeTime: Option<int>, computation: FunctionId, now: int)
      returns (r: Result<Item<V>, CacheError>)
      requires Valid()
      modifies this
      ensures Valid()
      ensures key.None? ==> r == Failure(ValueError("key is None!")) && Model() == old(Model())
      ensures key.Some? ==> r.Success?
      ensures key.Some? ==> r.value.kind == Function(computation) && r.value.payload == None
      ensures key.Some? ==> r.value.expiresAt == now + EffectiveLifeTime(lifeTime, defaultLifeTime, maxLifeTime)
      ensures key.Some? ==> Model() == AfterAdd(old(Model()), key.value, r.value, capacity)
    {
      var effective := EffectiveLifeTime(lifeTime, defaultLifeTime, maxLifeTime);
      if key.Some? {
        var item := Item(Function(computation), None, now + effective);
        var _ := AddToCache(key.value, item);
        r := Success(item);
      } else {
        r := Failure(ValueError("key is None!"));
      }
    }

    /** `reset(keys)`. */
    method Reset(keys: Option<seq<Key>>) returns (status: CacheStatus)
      requires Valid()
      modifies this
      ensures Valid()
      ensures Model() == AfterReset(old(Model()), keys)
      ensures status == RESET
    {
      if keys.None? || |keys.value| == 0 {
        order, buckets := [], map[];
      } else {
        var ks := keys.value;
        ghost var done: set<Key> := {};
        WithoutNothing(order, {});
        for n := 0 to |ks|
          invariant forall k :: k in done <==> k in ks[..n]
          invariant Model() == Store(Without(old(order), done), old(buckets) - done)
          invariant Valid()
        {
          var key := ks[n];
          assert ks[..n + 1] == ks[..n] + [key];
          ResetStep(old(Model()), done, key);
          if key in buckets {
            buckets := buckets - {key};
            order := Without(order, {key});
          }
          done := done + {key};
        }
        assert ks[..|ks|] == ks;
        assert done == set k | k in ks;
      }
      return RESET;
    }

    /** `_clean()` at time `now`. */
    method Clean(now: int) returns (status: CacheStatus)
      requires Valid()
      modifies this
      ensures Valid()
      ensures Model() == AfterClean(old(Model()), now)
      ensures status == CLEANED
    {
      order, buckets := CleanedDict(order, buckets, now);
      return CLEANED;
    }

    /** `get_cache(key)` at time `now`. */
    method GetCache(key: Key, now: int) returns (r: Option<seq<V>>)
      requires Valid()
      modifies this
      ensures Valid()
      ensures Model() == AfterGet(old(Model()), key)
      ensures r == Lookup(old(Model()), key, now)
    {
      if key in buckets {
        order := MoveToEnd(order, key);
        var cacheList := ValidData(buckets[key], now);
        return if |cacheList| > 0 then Some(cacheList) else None;
      }
      return None;
    }

    /** `_update(key, data, life_time)` at time `now`. */
    method Update(key: Key, data: Option<V>, lifeTime: Option<int>, now: int) returns (updated: bool)
      requires Valid()
      modifies this
      ensures Valid()
      ensures Model() == AfterUpdate(old(Model()), key, CustomItem(data, lifeTime, now))
      ensures updated <==> key in old(buckets)
    {
      updated := false;
      if key in buckets {
        buckets := buckets[key := buckets[key] + [CustomItem(data, lifeTime, now)]];
        order := MoveToEnd(order, key);
        updated := true;
      }
    }

    /** `add_or_update(key, data, life_time)` at time `now`. */
    method AddOrUpdate(key: Key, data: Option<V>, lifeTime: Option<int>, now: int) returns (status: CacheStatus)
      requires Valid()
      modifies this
      ensures Valid()
      ensures Model() == AfterAdd(old(Model()), key, CustomItem(data, lifeTime, now), capacity)
      ensures status == UPDATED
    {
      status := AddToCache(key, CustomItem(data, lifeTime, now));
    }

    /** `remove(key, data)` at time `now`. */
    method Remove(key: Key, data: Option<V>, now: int) returns (status: CacheStatus)
      requires Valid()
      modifies this
      ensures Valid()
      ensures Model() == AfterRemove(old(Model()), key, data, now)
      ensures status == RemoveStatus(old(Model()), key, data, now)
    {
      if key in buckets {
        var selected: Option<nat> := None;
        var cacheList := buckets[key];
        var i := 0;
        while i < |cacheList|
          invariant i <= |cacheList|
          invariant forall j :: 0 <= j < i ==> Data(cacheList[j], now) != data
        {
          if Data(cacheList[i], now) == data {
            selected := Some(i);
            break;
          }
          i := i + 1;
        }
        if selected.Some? {
          var s := selected.value;
          buckets := buckets[key := cacheList[..s] + cacheList[s + 1..]];
          return REMOVED;
        }
      }
      return NONE;
    }

    /** `set_data(key, data, life_time)` at time `now`. */
    method SetData(key: Key, data: Option<V>, lifeTime: Option<int>, now: int) returns (status: CacheStatus)
      requires Valid()
      modifies this
      ensures Valid()
      ensures Model() == AfterSet(old(Model()), key, CustomItem(data, lifeTime, now))
      ensures status == SET
    {
      buckets := buckets[key := [CustomItem(data, lifeTime, now)]];
      order := MoveToEnd(order, key);
      return SET;
    }
  }
}
