# Dictionary cache manager and cache signaller factory, in Dafny

This project models the in-memory cache of the BasisCore socket service:

- `DictMemoryCacheManager` keeps an ordered dictionary from string keys to
  *buckets* (lists of cache items). The key order is recency: the first key
  is the oldest, the last key was touched most recently. The manager appends
  to buckets and evicts the oldest key on overflow. It replaces buckets,
  reads with promotion, removes single values, resets keys and sweeps
  expired items. It also registers the item of a memoised function when a
  function is decorated.
- `create_signaler` chooses how remote cache resets arrive: through a
  RabbitMQ signaller, or not at all.

Files:

- `wrappers.dfy`: `Option` (Python's `None`) and `Result` (a raised error).
- `ordered_keys.dfy`: the key order of an `OrderedDict` as a sequence of
  distinct keys. `Without` models `pop` and `MoveToEnd` models
  `move_to_end`.
- `cache_items.dfy`: a cache item is a payload plus an expiry instant.
  `data()` is `Data(item, now)`: the payload before expiry, `None` after.
  It also holds the life-time rule of `cache_decorator`.
- `cache_store.dfy`: the dictionary as a value, `Store(order, buckets)`. It
  holds one function per operation giving the state that operation leaves,
  and the lemmas that state what the operations promise.
- `dict_cache_manager.dfy`: the class `DictMemoryCacheManager`. Its fields
  `order` and `buckets` are updated in place, step by step as the Python
  methods do. Each method is proved to leave exactly the state of the
  matching `CacheStore` function. The loops of `_clean` and of the list
  comprehension in `get_cache` are methods with loop invariants.
- `signaler_factory.dfy`: `create_signaler` as a pure function.

Modelling decisions:

- The clock is the parameter `now`. An item is live while `now < expiresAt`.
- A payload is an `Option<V>`, because Python's `None` is a possible value.
  A function item is created with payload `None`. So until its function
  has run, it has no `data()`: `get_cache` does not return it, and
  `_clean` drops it.
- `remove(key, data)` compares `item.data()` with `data`. An expired item
  has `data()` equal to `None`, so `remove(key, None)` removes the first
  expired item. The model keeps this.
- `_is_valid_size` (from the base class) is modelled as "number of keys ≤
  capacity". Line 30 reads `self._is_valid_size` without calling it, so the
  eviction rule assumes the base class declares it as a property. If it
  were an ordinary method, the bound method object would always be truthy,
  `not self._is_valid_size` would always be false, and no key would ever be
  evicted.
- A custom item created with a `None` life time uses the default life time
  of the cache. The docstrings at bclib/cache/dict_cache_manager.py:140 and
  :180 say so. Its expiry is `now + life time`.
- `add_or_update` always returns `UPDATED`, as the code does. Its docstring
  (line 143) promises `ADDED` for a new key. The model follows the code.
- `set_data` always returns `SET`, as the code does (line 189). Its docstring
  (lines 184-185) promises `UPDATED` when an existing item is overwritten.
  The model follows the code.
- `set_data` never checks the capacity. A full store can therefore grow
  past it (`SetMayExceedCapacity`). The size bound holds after every other
  operation (`CapacityPreserved`).
- Decorating twice with the same key appends a second function item. It
  does not replace the first one (`AddTwiceKeepsBoth`).

## Model

| member | source | states |
|---|---|---|
| `DictCacheManager.DictMemoryCacheManager.constructor` | bclib/cache/dict_cache_manager.py:13-15 | a new manager holds the empty ordered dictionary and keeps the given capacity and life times |
| `DictCacheManager.DictMemoryCacheManager.Size` | bclib/cache/dict_cache_manager.py:17-18 | `_size()` is the number of keys in the dictionary, not the number of items |
| `DictCacheManager.DictMemoryCacheManager.CustomItem` | bclib/cache/dict_cache_manager.py:145 | a custom item carries the given value and expires after the given life time, or after the default life time when none is given |
| `CacheItems.Data` | bclib/cache/dict_cache_manager.py:93 | an item's `data()` is not None exactly while it has not expired and holds a value, and then it is that value |
| `CacheStore.EvictOldest` | bclib/cache/dict_cache_manager.py:31 | `popitem(last=False)` removes exactly the oldest key and keeps the store a dictionary |
| `DictCacheManager.DictMemoryCacheManager.IsValidSize` | bclib/cache/dict_cache_manager.py:30 | the size is valid exactly when the dictionary holds no more entries than the capacity |
| `CacheStore.EmptyStore` | bclib/cache/dict_cache_manager.py:15 | a fresh `OrderedDict()` is a dictionary with no entries (also line 78) |
| `DictCacheManager.DictMemoryCacheManager.AddToCache` | bclib/cache/dict_cache_manager.py:20-32 | `_add_to_cache` leaves exactly the state `AfterAdd` describes and always returns `UPDATED` |
| `CacheStore.AfterAdd` | bclib/cache/dict_cache_manager.py:20-32 | adding to the store keeps it a dictionary: every key listed exactly once in the order |
| `CacheStore.AddToExistingKey` | bclib/cache/dict_cache_manager.py:24-27 | for a present key, the item goes at the end of its bucket and the key becomes newest; other keys keep their relative order and buckets, and no key is evicted |
| `CacheStore.AddNewKey` | bclib/cache/dict_cache_manager.py:28-32 | for a new key, a one-item bucket opens at the newest position; if the store then exceeds the capacity, exactly the oldest key is evicted and nothing else changes; the new key itself survives unless the store was empty and the capacity is 0 |
| `CacheStore.AddKeepsCapacity` | bclib/cache/dict_cache_manager.py:28-32 | after `_add_to_cache` the number of keys is at most the capacity or the previous number of keys, whichever is larger |
| `CacheStore.AddTwiceKeepsBoth` | bclib/cache/dict_cache_manager.py:20-32 | with capacity at least 1, two adds under one key leave both items at the end of its bucket, in call order |
| `CacheStore.TwoKeysFit` | bclib/cache/dict_cache_manager.py:28-32 | with capacity 2, adding A then B to an empty store keeps A then B |
| `CacheStore.EvictionExample` | bclib/cache/dict_cache_manager.py:29-31 | with capacity 2, adding a third key to a two-key store evicts the older key and keeps the other one, then the new one |
| `DictCacheManager.DictMemoryCacheManager.CacheDecorator` | bclib/cache/dict_cache_manager.py:48-55 | a None key fails with `ValueError("key is None!")` and registers nothing; otherwise exactly one function item, without a value, is added through `_add_to_cache`, with the effective life time |
| `CacheItems.EffectiveLifeTime` | bclib/cache/dict_cache_manager.py:48 | the effective life time is the default when none is given, else the requested one capped at the maximum (the smaller of the two) |
| `DictCacheManager.DictMemoryCacheManager.Reset` | bclib/cache/dict_cache_manager.py:77-83 | `reset` leaves exactly the state `AfterReset` describes and always returns `RESET` |
| `CacheStore.AfterReset` | bclib/cache/dict_cache_manager.py:77-82 | resetting keeps the store a dictionary |
| `CacheStore.ResetAllForgetsEverything` | bclib/cache/dict_cache_manager.py:77-78 | with no keys (None or empty) the store is emptied and no key can be read |
| `CacheStore.ResetDeletesListed` | bclib/cache/dict_cache_manager.py:79-82 | otherwise exactly the listed keys that are present are deleted; the other keys keep their buckets and relative order |
| `CacheStore.ResetIdempotent` | bclib/cache/dict_cache_manager.py:77-83 | resetting the same keys twice is the same as resetting them once |
| `DictCacheManager.DictMemoryCacheManager.Clean` | bclib/cache/dict_cache_manager.py:89-98 | `_clean` leaves exactly the state `AfterClean` describes and returns `CLEANED` |
| `DictCacheManager.CleanedDict` | bclib/cache/dict_cache_manager.py:89-96 | the nested loop builds exactly the cleaned dictionary |
| `DictCacheManager.ValidItems` | bclib/cache/dict_cache_manager.py:91-94 | the inner loop collects exactly the items whose `data()` is not None, in bucket order |
| `CacheItems.LiveItems` | bclib/cache/dict_cache_manager.py:92-94 | the kept items all have data, come from the bucket, and include every item of the bucket that has data |
| `CacheItems.LiveItemsAppend` | bclib/cache/dict_cache_manager.py:91-94 | the filter keeps bucket order and multiplicity: filtering two joined parts is filtering each part and joining the results |
| `CacheItems.LiveItemsOfLive` | bclib/cache/dict_cache_manager.py:92-94 | a bucket whose items all have data passes the filter unchanged |
| `CacheItems.LiveItemsIdempotent` | bclib/cache/dict_cache_manager.py:92-94 | filtering a bucket by liveness twice at one instant is filtering it once |
| `CacheStore.AfterClean` | bclib/cache/dict_cache_manager.py:89-97 | after the sweep every remaining bucket is non-empty and all its items have data |
| `CacheStore.CleanKeepsLiveItems` | bclib/cache/dict_cache_manager.py:89-97 | a key survives the sweep exactly when one of its items has data; survivors keep their relative order, and each bucket keeps exactly its live items in order |
| `CacheStore.CleanIdempotent` | bclib/cache/dict_cache_manager.py:89-98 | at a fixed time, sweeping twice is sweeping once |
| `DictCacheManager.DictMemoryCacheManager.GetCache` | bclib/cache/dict_cache_manager.py:114-121 | `get_cache` returns `Lookup` of the old state and leaves the state `AfterGet` describes |
| `DictCacheManager.ValidData` | bclib/cache/dict_cache_manager.py:116-119 | the list comprehension yields exactly the non-None `data()` values of the bucket, in order |
| `CacheItems.LivePayloadsAppend` | bclib/cache/dict_cache_manager.py:116-119 | the values read from two joined parts are the values of each part, joined in order |
| `CacheItems.LivePayloads` | bclib/cache/dict_cache_manager.py:116-119 | the values read are, position by position, the `data()` of the live items |
| `CacheStore.Lookup` | bclib/cache/dict_cache_manager.py:114-121 | the read is never an empty list; it is a list exactly when the key is present and one of its items has data |
| `CacheStore.AfterGet` | bclib/cache/dict_cache_manager.py:114-115 | reading never changes a bucket |
| `CacheStore.GetPromotes` | bclib/cache/dict_cache_manager.py:114-121 | an absent key reads None and changes nothing; a present key becomes newest, with the other keys in the same order, and reads its live values in bucket order, or None when none is live |
| `DictCacheManager.DictMemoryCacheManager.Update` | bclib/cache/dict_cache_manager.py:127-132 | `_update` returns whether the key was present and leaves exactly the state `AfterUpdate` describes |
| `CacheStore.AfterUpdate` | bclib/cache/dict_cache_manager.py:127-132 | updating keeps the store a dictionary |
| `CacheStore.UpdateIsAddWhenPresent` | bclib/cache/dict_cache_manager.py:127-132 | on a present key `_update` does what `_add_to_cache` does; on a missing key it changes nothing |
| `DictCacheManager.DictMemoryCacheManager.AddOrUpdate` | bclib/cache/dict_cache_manager.py:145 | `add_or_update` adds a custom item through `_add_to_cache` and returns `UPDATED`, even for a new key |
| `CacheStore.AddTwiceThenGet` | bclib/cache/dict_cache_manager.py:145 | two `add_or_update` calls of live values a then b under a fresh key read back as `[a, b]` |
| `DictCacheManager.DictMemoryCacheManager.Remove` | bclib/cache/dict_cache_manager.py:159-169 | `remove` leaves exactly the state `AfterRemove` describes and returns `RemoveStatus` |
| `CacheStore.FindData` | bclib/cache/dict_cache_manager.py:162-165 | the scan stops at the first item whose `data()` equals the argument; when it finds none, no item matches |
| `CacheStore.AfterRemove` | bclib/cache/dict_cache_manager.py:159-169 | removing keeps the store a dictionary |
| `CacheStore.RemoveStatus` | bclib/cache/dict_cache_manager.py:159-169 | the status is `REMOVED` exactly when the key is present and some item's `data()` equals the argument, else `NONE` |
| `CacheStore.RemoveDeletesFirstMatch` | bclib/cache/dict_cache_manager.py:159-169 | the key order and the set of keys never change (an emptied bucket stays); exactly the first matching item is deleted; with no match nothing changes |
| `CacheStore.RemoveExample` | bclib/cache/dict_cache_manager.py:162-168 | removing a from the bucket `[a, b, a]` leaves `[b, a]` |
| `DictCacheManager.DictMemoryCacheManager.SetData` | bclib/cache/dict_cache_manager.py:187-189 | `set_data` leaves exactly the state `AfterSet` describes and returns `SET` |
| `CacheStore.AfterSet` | bclib/cache/dict_cache_manager.py:187-188 | setting keeps the store a dictionary |
| `CacheStore.SetReplacesBucket` | bclib/cache/dict_cache_manager.py:187-189 | the bucket becomes exactly the one new item and the key becomes newest; other keys keep their buckets and order; nothing is evicted, so a new key adds one to the size |
| `CacheStore.SetMayExceedCapacity` | bclib/cache/dict_cache_manager.py:187-189 | setting a new key in a full store leaves more keys than the capacity |
| `CacheStore.SetThenGet` | bclib/cache/dict_cache_manager.py:187-189 | reading a key right after `set_data` of a live value v gives exactly `[v]` |
| `CacheStore.CapacityPreserved` | bclib/cache/dict_cache_manager.py:20-169 | every operation except `set_data` keeps the number of keys within the capacity |
| `OrderedKeys.MoveToEnd` | bclib/cache/dict_cache_manager.py:26 | `move_to_end` makes the key the last one, keeps the others in order and keeps the keys distinct |
| `OrderedKeys.Without` | bclib/cache/dict_cache_manager.py:82 | `pop` of keys keeps exactly the other keys, in order and distinct |
| `SignalerFactory.CreateSignaler` | src/cache/signaler/factory.py:7-18 | no options, or no "type" entry, gives `NoSignaler`; "rabbit" gives a `RabbitSignaller` built from the same options and callback; "none" gives `NoSignaler`; any other type fails with an error that names it |
| `SignalerFactory.CreateSignalerOutcomes` | src/cache/signaler/factory.py:9-16 | the factory fails exactly on a type other than "rabbit" and "none"; the RabbitMQ variant carries the given options and callback |
| `SignalerFactory.ChoiceIgnoresCallback` | src/cache/signaler/factory.py:9-13 | which variant is chosen, or whether the factory fails, depends on the options alone |

## Left out

- The memoised call (`wrapper` and `FunctionCacheItem.get_data`, bclib/cache/dict_cache_manager.py:57-61) runs arbitrary user code. The item classes are not part of this model. Only the registration is modelled; the function is an opaque handle and `CacheDecorator` returns the item it registers. The wrapper is not bound to that item: it reads the function's `cache` attribute on every call (line 59), and each decoration overwrites that attribute (line 52). So when one function object is decorated twice, both wrappers use the later item, while both items stay in the cache. The function attribute is not modelled. The refresh of that item in place when the function runs is not modelled.
- The item classes (`BaseCacheItem`, `CostumCacheItem`, `FunctionCacheItem`) and the base class `InMemoryCacheManager` are not part of this model. An item is a payload plus an expiry instant. Life-time clamping inside the item classes is not modelled, beyond the `min` of line 48.
- Time is the parameter `now`, fixed during one call. The source reads the clock each time it calls `data()`, so one call could observe an item expire between two reads.
- Items are values, not objects. `cache_list.remove(selected_item)` removes the item at the index of the first match, as it does in Python, where an earlier equal object would have matched earlier.
- The string default `"None"` of `cache_decorator`'s `life_time` (line 34) is not modelled. `min` would fail on it; the life time is an `Option<int>`.
- `CacheDecorator` merges the two Python stages, `cache_decorator(key, life_time)` and applying the returned decorator to a function, into one call.
- `SignalerFactory.CreateSignaler`: option values are strings. A non-string `"type"` value, which can match neither "rabbit" nor "none" and so fails, is not modelled. The error is the message text of the generic exception.
- The `RabbitSignaller` and `NoSignaler` classes and the RabbitMQ broker are network I/O. Only the factory's choice is modelled.
- Concurrency: the source code has no locking, so there is nothing to model.
- Process start-up, the dispatcher, request contexts and predicates (bclib/edge.py, bclib/dispatcher/routing_dispatcher.py, bclib/context/, src/context/, src/predicate/) and the test scripts are outside the cache core.
