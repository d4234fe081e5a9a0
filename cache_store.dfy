/**
 * The cache store as a value: the key order of the ordered dictionary
 * (oldest first) and the bucket of items under each key. Each function
 * below is the state one operation of the dictionary cache manager leaves
 * behind; the lemmas state what the operations promise.
 */
module CacheStore {
  import opened Wrappers
  import opened OrderedKeys
  import opened CacheItems

  type Bucket<V> = seq<Item<V>>

  /** The statuses the cache operations report. */
  datatype CacheStatus = ADDED | UPDATED | SET | REMOVED | NONE | RESET | CLEANED

  datatype Store<V> = Store(order: seq<Key>, buckets: map<Key, Bucket<V>>)
  {
    /** The order lists every key of the dictionary exactly once. */
    ghost predicate Valid() {
      Distinct(order) && forall k :: k in buckets <==> k in order
    }
  }

  function EmptyStore<V>(): (r: Store<V>)
    ensures r.Valid() && r.buckets == map[]
  {
    Store([], map[])
  }

  /** `popitem(last=False)`: the oldest key leaves with its bucket. */
  function EvictOldest<V>(st: Store<V>): (r: Store<V>)
    requires st.Valid() && st.order != []
    ensures r.Valid()
    ensures r.buckets.Keys == st.buckets.Keys - {st.order[0]}
  {
    Store(st.order[1..], st.buckets - {st.order[0]})
  }

  /** `_add_to_cache(k, item)`: append to an existing bucket, or open a new one and evict on overflow. */
  function AfterAdd<V>(st: Store<V>, k: Key, item: Item<V>, capacity: nat): (r: Store<V>)
    requires st.Valid()
    ensures r.Valid()
  {
    if k in st.buckets then
      Store(MoveToEnd(st.order, k), st.buckets[k := st.buckets[k] + [item]])
    else
      var grown := Store(st.order + [k], st.buckets[k := [item]]);
      assert grown.Valid();
      if |grown.order| <= capacity then grown else EvictOldest(grown)
  }

  /** `set_data(k, ...)`: the bucket becomes the one new item and the key the newest. */
  function AfterSet<V>(st: Store<V>, k: Key, item: Item<V>): (r: Store<V>)
    requires st.Valid()
    ensures r.Valid()
  {
    Store(MoveToEnd(st.order, k), st.buckets[k := [item]])
  }

  /** `_update(k, ...)`: append and promote when the key is present; nothing otherwise. */
  function AfterUpdate<V>(st: Store<V>, k: Key, item: Item<V>): (r: Store<V>)
    requires st.Valid()
    ensures r.Valid()
  {
    if k in st.buckets then
      Store(MoveToEnd(st.order, k), st.buckets[k := st.buckets[k] + [item]])
    else
      st
  }

  /** The state `get_cache(k)` leaves: a present key becomes the newest, no bucket changes. */
  function AfterGet<V>(st: Store<V>, k: Key): (r: Store<V>)
    requires st.Valid()
    ensures r.Valid() && r.buckets == st.buckets
  {
    if k in st.buckets then Store(MoveToEnd(st.order, k), st.buckets) else st
  }

  /** What `get_cache(k)` returns at `now`: the key's live values, or None when there are none. */
  function Lookup<V>(st: Store<V>, k: Key, now: int): (r: Option<seq<V>>)
    ensures r.Some? ==> r.value != []
    ensures r.Some? <==> k in st.buckets && exists i :: 0 <= i < |st.buckets[k]| && HasData(st.buckets[k][i], now)
  {
    if k in st.buckets then
      var bucket := st.buckets[k];
      var values := LivePayloads(bucket, now);
      assert values != [] ==> LiveItems(bucket, now)[0] in bucket;
      if |values| > 0 then Some(values) else None
    else
      None
  }

  /** Index of the first item of `bucket` whose `data()` equals `data` at `now`. */
  function FindData<V(==)>(bucket: Bucket<V>, data: Option<V>, now: int): (r: Option<nat>)
    ensures r.Some? ==> r.value < |bucket| && Data(bucket[r.value], now) == data
    ensures r.Some? ==> forall j :: 0 <= j < r.value ==> Data(bucket[j], now) != data
    ensures r.None? ==> forall j :: 0 <= j < |bucket| ==> Data(bucket[j], now) != data
  {
    if bucket == [] then None
    else if Data(bucket[0], now) == data then Some(0)
    else
      match FindData(bucket[1..], data, now)
      case Some(i) => Some(i + 1)
      case None => None
  }

  /** `remove(k, data)`: the first item whose `data()` equals `data` leaves the bucket. */
  function AfterRemove<V(==)>(st: Store<V>, k: Key, data: Option<V>, now: int): (r: Store<V>)
    requires st.Valid()
    ensures r.Valid()
  {
    if k in st.buckets then
      var bucket := st.buckets[k];
      match FindData(bucket, data, now)
      case Some(i) => Store(st.order, st.buckets[k := bucket[..i] + bucket[i + 1..]])
      case None => st
    else
      st
  }

  /** The status `remove(k, data)` reports. */
  function RemoveStatus<V(==)>(st: Store<V>, k: Key, data: Option<V>, now: int): (r: CacheStatus)
    ensures r == REMOVED || r == NONE
    ensures r == REMOVED <==> k in st.buckets && exists j :: 0 <= j < |st.buckets[k]| && Data(st.buckets[k][j], now) == data
  {
    if k in st.buckets && FindData(st.buckets[k], data, now).Some? then REMOVED else NONE
  }

  /** `reset(keys)`: no keys (None or empty) clears the store, otherwise the listed keys go. */
  function AfterReset<V>(st: Store<V>, keys: Option<seq<Key>>): (r: Store<V>)
    requires st.Valid()
    ensures r.Valid()
  {
    if keys.None? || |keys.value| == 0 then EmptyStore()
    else
      var gone := set k | k in keys.value;
      Store(Without(st.order, gone), st.buckets - gone)
  }

  /** One step of `reset(keys)`: popping `key` from the store with the keys `done` popped. */
  lemma ResetStep<V>(st: Store<V>, done: set<Key>, key: Key)
    requires st.Valid()
    ensures var cur := Store(Without(st.order, done), st.buckets - done);
      var next := if key in cur.buckets then Store(Without(cur.order, {key}), cur.buckets - {key}) else cur;
      && cur.Valid()
      && next == Store(Without(st.order, done + {key}), st.buckets - (done + {key}))
  {
    var cur := Store(Without(st.order, done), st.buckets - done);
    assert cur.Valid();
    if key in cur.buckets {
      WithoutTwice(st.order, done, {key});
      assert cur.buckets - {key} == st.buckets - (done + {key});
    } else {
      WithoutAbsent(st.order, done, key);
      assert cur.buckets == st.buckets - (done + {key});
    }
  }

  /** The keys with no live item at `now`. */
  function Expired<V>(st: Store<V>, now: int): set<Key> {
    set k | k in st.buckets && LiveItems(st.buckets[k], now) == []
  }

  /** `_clean()`: keep only live items, and only keys that still have one, in the old order. */
  function AfterClean<V>(st: Store<V>, now: int): (r: Store<V>)
    requires st.Valid()
    ensures r.Valid()
    ensures forall k :: k in r.buckets ==> r.buckets[k] != [] && forall i :: 0 <= i < |r.buckets[k]| ==> HasData(r.buckets[k][i], now)
  {
    var expired := Expired(st, now);
    Store(Without(st.order, expired), map k | k in st.buckets && k !in expired :: LiveItems(st.buckets[k], now))
  }

  /**
   * `_clean` has visited the first `n` keys of `st` and built `order` and
   * `buckets` from them: the visited keys with a live item, in order, with
   * their live items.
   */
  ghost predicate CleanedUpTo<V>(st: Store<V>, n: nat, now: int, order: seq<Key>, buckets: map<Key, Bucket<V>>) {
    && n <= |st.order|
    && order == Without(st.order[..n], Expired(st, now))
    && (forall k :: k in buckets <==> k in order)
    && (forall k :: k in buckets ==> k in st.buckets && buckets[k] == LiveItems(st.buckets[k], now))
  }

  /** Visiting the next key keeps it, with its live items, exactly when it has some. */
  lemma CleanedUpToStep<V>(st: Store<V>, n: nat, now: int, order: seq<Key>, buckets: map<Key, Bucket<V>>)
    requires st.Valid() && n < |st.order| && CleanedUpTo(st, n, now, order, buckets)
    ensures var key := st.order[n];
      var live := LiveItems(st.buckets[key], now);
      if |live| > 0 then CleanedUpTo(st, n + 1, now, order + [key], buckets[key := live])
      else CleanedUpTo(st, n + 1, now, order, buckets)
  {
    var key := st.order[n];
    var live := LiveItems(st.buckets[key], now);
    CleanedOrderStep(st, n, now, order);
    if |live| > 0 {
      var order', buckets' := order + [key], buckets[key := live];
      assert forall k :: k in buckets' <==> k in order';
      assert forall k :: k in buckets' ==> k in st.buckets && buckets'[k] == LiveItems(st.buckets[k], now);
      assert CleanedUpTo(st, n + 1, now, order', buckets');
    } else {
      assert CleanedUpTo(st, n + 1, now, order, buckets);
    }
  }

  lemma CleanedOrderStep<V>(st: Store<V>, n: nat, now: int, order: seq<Key>)
    requires st.Valid() && n < |st.order| && order == Without(st.order[..n], Expired(st, now))
    ensures var key := st.order[n];
      Without(st.order[..n + 1], Expired(st, now)) == if LiveItems(st.buckets[key], now) == [] then order else order + [key]
  {
    var key := st.order[n];
    assert st.order[..n + 1] == st.order[..n] + [key];
    WithoutSnoc(st.order[..n], key, Expired(st, now));
  }

  /** Having visited every key, `_clean` has built AfterClean. */
  lemma CleanedUpToAll<V>(st: Store<V>, order: seq<Key>, buckets: map<Key, Bucket<V>>, now: int)
    requires st.Valid() && CleanedUpTo(st, |st.order|, now, order, buckets)
    ensures Store(order, buckets) == AfterClean(st, now)
  {
    assert st.order[..|st.order|] == st.order;
    var r := AfterClean(st, now);
    assert buckets.Keys == r.buckets.Keys;
  }

  // ---------------------------------------------------------------------
  // What the operations promise
  // ---------------------------------------------------------------------

  /** The store holds at most `capacity` keys. */
  ghost predicate WithinCapacity<V>(st: Store<V>, capacity: nat) {
    |st.order| <= capacity
  }

  /** Adding under a present key appends to its bucket, makes it the newest and evicts nothing. */
  lemma AddToExistingKey<V>(st: Store<V>, k: Key, item: Item<V>, capacity: nat)
    requires st.Valid() && k in st.buckets
    ensures var r := AfterAdd(st, k, item, capacity);
      && r.buckets.Keys == st.buckets.Keys
      && r.buckets[k] == st.buckets[k] + [item]
      && (forall k' :: k' in st.buckets && k' != k ==> r.buckets[k'] == st.buckets[k'])
      && r.order[|r.order| - 1] == k
      && Without(r.order, {k}) == Without(st.order, {k})
  {
  }

  /**
   * Adding under a new key opens a one-item bucket at the newest position;
   * when the store then holds more than `capacity` keys, exactly the oldest
   * key is evicted and nothing else changes.
   */
  lemma AddNewKey<V>(st: Store<V>, k: Key, item: Item<V>, capacity: nat)
    requires st.Valid() && k !in st.buckets
    ensures var r := AfterAdd(st, k, item, capacity);
      var evicted := if |st.order| + 1 <= capacity then {} else {(st.order + [k])[0]};
      && r.order == Without(st.order + [k], evicted)
      && (forall k' :: k' in r.buckets <==> (k' in st.buckets || k' == k) && k' !in evicted)
      && (forall k' :: k' in r.buckets && k' != k ==> r.buckets[k'] == st.buckets[k'])
      && (k in r.buckets ==> r.buckets[k] == [item] && r.order[|r.order| - 1] == k)
      && (k in r.buckets <==> capacity > 0 || st.order != [])
  {
    var s := st.order + [k];
    assert Distinct(s);
    if |st.order| + 1 <= capacity {
      WithoutNothing(s, {});
    } else {
      WithoutFirst(s);
    }
  }

  /** `_add_to_cache` never leaves more keys than before or than the capacity, whichever is larger. */
  lemma AddKeepsCapacity<V>(st: Store<V>, k: Key, item: Item<V>, capacity: nat)
    requires st.Valid()
    ensures var r := AfterAdd(st, k, item, capacity);
      |r.order| <= if |st.order| <= capacity then capacity else |st.order|
  {
  }

  /** With room for one key, two adds under one key leave both items, in order, at the bucket's end. */
  lemma AddTwiceKeepsBoth<V>(st: Store<V>, k: Key, first: Item<V>, second: Item<V>, capacity: nat)
    requires st.Valid() && capacity >= 1
    ensures var r := AfterAdd(AfterAdd(st, k, first, capacity), k, second, capacity);
      k in r.buckets && r.buckets[k] == (if k in st.buckets then st.buckets[k] else []) + [first, second]
  {
    var before := if k in st.buckets then st.buckets[k] else [];
    assert before + [first] + [second] == before + [first, second];
    var mid := AfterAdd(st, k, first, capacity);
    if k in st.buckets {
      AddToExistingKey(st, k, first, capacity);
    } else {
      AddNewKey(st, k, first, capacity);
    }
    assert k in mid.buckets && mid.buckets[k] == before + [first];
    AddToExistingKey(mid, k, second, capacity);
  }

  /** Capacity 2: adding a third key to the store of keys `a`, `b` (see TwoKeysFit) evicts `a`. */
  lemma EvictionExample<V>(st: Store<V>, c: Key, item: Item<V>)
    requires st.Valid() && |st.order| == 2 && c !in st.buckets
    ensures var r := AfterAdd(st, c, item, 2);
      r.order == [st.order[1], c] && r.buckets.Keys == {st.order[1], c}
  {
    var grown := Store(st.order + [c], st.buckets[c := [item]]);
    assert grown.buckets.Keys == {st.order[0], st.order[1], c};
    assert (st.order + [c])[1..] == [st.order[1], c];
  }

  /** Capacity 2: adding A then B to an empty store keeps both. */
  lemma TwoKeysFit<V>(item: Item<V>)
    ensures AfterAdd(AfterAdd(EmptyStore(), "A", item, 2), "B", item, 2) == Store(["A", "B"], map["A" := [item], "B" := [item]])
  {
    var s1 := AfterAdd(EmptyStore(), "A", item, 2);
    assert s1 == Store(["A"], map["A" := [item]]);
    assert "B" !in s1.buckets;
  }

  /** `set_data` replaces the bucket by the one item, makes the key newest and never evicts. */
  lemma SetReplacesBucket<V>(st: Store<V>, k: Key, item: Item<V>)
    requires st.Valid()
    ensures var r := AfterSet(st, k, item);
      && r.buckets.Keys == st.buckets.Keys + {k}
      && r.buckets[k] == [item]
      && (forall k' :: k' in st.buckets && k' != k ==> r.buckets[k'] == st.buckets[k'])
      && r.order[|r.order| - 1] == k
      && Without(r.order, {k}) == Without(st.order, {k})
      && |r.order| == if k in st.buckets then |st.order| else |st.order| + 1
  {
  }

  /** Hence `set_data` can take a full store past its capacity. */
  lemma SetMayExceedCapacity<V>(st: Store<V>, k: Key, item: Item<V>, capacity: nat)
    requires st.Valid() && |st.order| == capacity && k !in st.buckets
    ensures !WithinCapacity(AfterSet(st, k, item), capacity)
  {
    SetReplacesBucket(st, k, item);
  }

  /** Reading a key right after `set_data` gives exactly the set value while it is live. */
  lemma SetThenGet<V>(st: Store<V>, k: Key, v: V, item: Item<V>, now: int)
    requires st.Valid() && Data(item, now) == Some(v)
    ensures Lookup(AfterSet(st, k, item), k, now) == Some([v])
  {
    assert [item][..0] == [];
    assert LivePayloads([item], now) == [v];
  }

  /** `_update` is `_add_to_cache` on a present key and does nothing on a missing one. */
  lemma UpdateIsAddWhenPresent<V>(st: Store<V>, k: Key, item: Item<V>, capacity: nat)
    requires st.Valid()
    ensures k in st.buckets ==> AfterUpdate(st, k, item) == AfterAdd(st, k, item, capacity)
    ensures k !in st.buckets ==> AfterUpdate(st, k, item) == st
  {
  }

  /**
   * `get_cache`: a missing key reads None and changes nothing; a present one
   * becomes the newest, keeps its bucket, and reads its live values in
   * bucket order, or None (never an empty list) when it has none.
   */
  lemma GetPromotes<V>(st: Store<V>, k: Key, now: int)
    requires st.Valid()
    ensures k !in st.buckets ==> Lookup(st, k, now) == None && AfterGet(st, k) == st
    ensures k in st.buckets ==>
      var r := AfterGet(st, k);
      && r.order[|r.order| - 1] == k
      && Without(r.order, {k}) == Without(st.order, {k})
      && r.buckets.Keys == st.buckets.Keys
      && Lookup(st, k, now) == (if LiveItems(st.buckets[k], now) == [] then None else Some(LivePayloads(st.buckets[k], now)))
  {
  }

  /** Two adds of live values under a fresh key read back as both values in order. */
  lemma AddTwiceThenGet<V>(st: Store<V>, k: Key, a: V, b: V, first: Item<V>, second: Item<V>, capacity: nat, now: int)
    requires st.Valid() && capacity >= 1 && k !in st.buckets
    requires Data(first, now) == Some(a) && Data(second, now) == Some(b)
    ensures Lookup(AfterAdd(AfterAdd(st, k, first, capacity), k, second, capacity), k, now) == Some([a, b])
  {
    var r := AfterAdd(AfterAdd(st, k, first, capacity), k, second, capacity);
    AddTwiceKeepsBoth(st, k, first, second, capacity);
    assert r.buckets[k] == [first, second];
    assert [first, second][..1] == [first] && [first][..0] == [];
    assert LivePayloads([first, second], now) == [a, b];
  }

  /**
   * `remove` keeps the key order and every key (even when the bucket
   * empties); it deletes exactly the first item whose `data()` equals the
   * argument, and changes nothing when no item matches.
   */
  lemma RemoveDeletesFirstMatch<V>(st: Store<V>, k: Key, data: Option<V>, now: int)
    requires st.Valid()
    ensures var r := AfterRemove(st, k, data, now);
      && r.order == st.order
      && r.buckets.Keys == st.buckets.Keys
      && (forall k' :: k' in st.buckets && k' != k ==> r.buckets[k'] == st.buckets[k'])
      && (RemoveStatus(st, k, data, now) == NONE ==> r == st)
      && (RemoveStatus(st, k, data, now) == REMOVED ==>
            var b := st.buckets[k];
            exists i :: 0 <= i < |b| && Data(b[i], now) == data
              && (forall j :: 0 <= j < i ==> Data(b[j], now) != data)
              && r.buckets[k] == b[..i] + b[i + 1..])
  {
    if RemoveStatus(st, k, data, now) == REMOVED {
      var i := FindData(st.buckets[k], data, now).value;
      assert Data(st.buckets[k][i], now) == data;
    }
  }

  /** Removing `a` from the bucket `[a, b, a]` leaves `[b, a]`. */
  lemma RemoveExample<V>(st: Store<V>, k: Key, a: Item<V>, b: Item<V>, now: int)
    requires st.Valid() && k in st.buckets && st.buckets[k] == [a, b, a]
    requires Data(b, now) != Data(a, now)
    ensures AfterRemove(st, k, Data(a, now), now).buckets[k] == [b, a]
    ensures RemoveStatus(st, k, Data(a, now), now) == REMOVED
  {
    assert FindData([a, b, a], Data(a, now), now) == Some(0);
  }

  /** `reset` with no keys leaves every key unreadable. */
  lemma ResetAllForgetsEverything<V>(st: Store<V>, keys: Option<seq<Key>>, k: Key, now: int)
    requires st.Valid() && (keys.None? || keys.value == [])
    ensures Lookup(AfterReset(st, keys), k, now) == None
    ensures AfterReset(st, keys).order == []
  {
  }

  /** `reset(keys)` deletes exactly the listed keys that are present; the rest keep order and bucket. */
  lemma ResetDeletesListed<V>(st: Store<V>, keys: seq<Key>)
    requires st.Valid() && keys != []
    ensures var r := AfterReset(st, Some(keys));
      && (forall k :: k in r.buckets <==> k in st.buckets && k !in keys)
      && (forall k :: k in r.buckets ==> r.buckets[k] == st.buckets[k])
      && r.order == Without(st.order, set k | k in keys)
  {
  }

  /** Resetting the same keys twice is resetting them once. */
  lemma ResetIdempotent<V>(st: Store<V>, keys: Option<seq<Key>>)
    requires st.Valid()
    ensures AfterReset(AfterReset(st, keys), keys) == AfterReset(st, keys)
  {
    if keys.Some? && |keys.value| > 0 {
      var gone := set k | k in keys.value;
      WithoutTwice(st.order, gone, gone);
      assert gone + gone == gone;
      assert (st.buckets - gone) - gone == st.buckets - gone;
    }
  }

  /**
   * `_clean` keeps exactly the keys that have a live item, in their old
   * order, each with its live items in bucket order.
   */
  lemma CleanKeepsLiveItems<V>(st: Store<V>, now: int)
    requires st.Valid()
    ensures var r := AfterClean(st, now);
      && (forall k :: k in r.buckets <==> k in st.buckets && exists i :: 0 <= i < |st.buckets[k]| && HasData(st.buckets[k][i], now))
      && r.order == Without(st.order, Expired(st, now))
      && forall k :: k in r.buckets ==> r.buckets[k] == LiveItems(st.buckets[k], now)
  {
    forall k | k in st.buckets && LiveItems(st.buckets[k], now) != []
      ensures LiveItems(st.buckets[k], now)[0] in st.buckets[k]
    {
    }
  }

  /** At a fixed time `_clean` is idempotent. */
  lemma CleanIdempotent<V>(st: Store<V>, now: int)
    requires st.Valid()
    ensures AfterClean(AfterClean(st, now), now) == AfterClean(st, now)
  {
    var c := AfterClean(st, now);
    forall k | k in c.buckets
      ensures LiveItems(c.buckets[k], now) == c.buckets[k]
    {
      LiveItemsOfLive(c.buckets[k], now);
    }
    assert Expired(c, now) == {};
    WithoutNothing(c.order, {});
    var cc := AfterClean(c, now);
    assert cc.order == c.order;
    assert cc.buckets == c.buckets;
  }

  /**
   * Every operation but `set_data` keeps the store within its capacity;
   * `_add_to_cache` restores it after an overflow of one key.
   */
  lemma CapacityPreserved<V>(st: Store<V>, capacity: nat, k: Key, item: Item<V>, data: Option<V>,
                             keys: Option<seq<Key>>, now: int)
    requires st.Valid() && WithinCapacity(st, capacity)
    ensures WithinCapacity(AfterAdd(st, k, item, capacity), capacity)
    ensures WithinCapacity(AfterUpdate(st, k, item), capacity)
    ensures WithinCapacity(AfterGet(st, k), capacity)
    ensures WithinCapacity(AfterRemove(st, k, data, now), capacity)
    ensures WithinCapacity(AfterReset(st, keys), capacity)
    ensures WithinCapacity(AfterClean(st, now), capacity)
  {
    assert WithinCapacity(AfterAdd(st, k, item, capacity), capacity) by {
      AddKeepsCapacity(st, k, item, capacity);
    }
    assert k in st.buckets ==> |MoveToEnd(st.order, k)| == |st.order| by {
      if k in st.buckets {
        assert k in st.order;
      }
    }
  }
}
