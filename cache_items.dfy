/**
 * Cache items: what a bucket of the cache holds. A custom item carries a
 * value stored by the caller; a function item belongs to a decorated
 * (memoised) function and starts without a value. Either kind exposes its
 * value through `data()` until it expires.
 */
module CacheItems {
  import opened Wrappers

  /** An opaque handle standing for the decorated function. */
  type FunctionId = nat

  datatype ItemKind = Custom | Function(computation: FunctionId)

  /**
   * A cache item: its kind, its payload (None for Python's None, which is
   * also the payload of a function item that has not been called yet) and
   * the instant from which it is expired.
   */
  datatype Item<V> = Item(kind: ItemKind, payload: Option<V>, expiresAt: int)

  /** The item's `data()` at time `now`: its payload before it expires, None afterwards. */
  function Data<V>(item: Item<V>, now: int): (r: Option<V>)
    ensures r.Some? <==> now < item.expiresAt && item.payload.Some?
    ensures r.Some? ==> r == item.payload
  {
    if now < item.expiresAt then item.payload else None
  }

  /** `item.data() is not None`. */
  predicate HasData<V>(item: Item<V>, now: int) {
    Data(item, now).Some?
  }

  /** The items of `bucket` whose `data()` is not None at `now`, in bucket order. */
  function LiveItems<V>(bucket: seq<Item<V>>, now: int): (r: seq<Item<V>>)
    ensures |r| <= |bucket|
    ensures forall i :: 0 <= i < |r| ==> HasData(r[i], now) && r[i] in bucket
    ensures forall i :: 0 <= i < |bucket| && HasData(bucket[i], now) ==> bucket[i] in r
  {
    if bucket == [] then []
    else
      var init, last := bucket[..|bucket| - 1], bucket[|bucket| - 1];
      assert forall i :: 0 <= i < |bucket| - 1 ==> bucket[i] == init[i];
      if HasData(last, now) then LiveItems(init, now) + [last] else LiveItems(init, now)
  }

  /** The values `data()` yields for the items of `bucket` at `now`, in bucket order, Nones left out. */
  function LivePayloads<V>(bucket: seq<Item<V>>, now: int): (r: seq<V>)
    ensures |r| == |LiveItems(bucket, now)|
    ensures forall i :: 0 <= i < |r| ==> Data(LiveItems(bucket, now)[i], now) == Some(r[i])
  {
    if bucket == [] then []
    else
      var init, last := bucket[..|bucket| - 1], bucket[|bucket| - 1];
      match Data(last, now)
      case Some(v) => LivePayloads(init, now) + [v]
      case None => LivePayloads(init, now)
  }

  /**
   * The filter keeps bucket order and multiplicity: filtering a bucket made
   * of two parts is filtering each part and joining the results.
   */
  lemma {:induction false} LiveItemsAppend<V>(a: seq<Item<V>>, b: seq<Item<V>>, now: int)
    ensures LiveItems(a + b, now) == LiveItems(a, now) + LiveItems(b, now)
    decreases |b|
  {
    if b == [] {
      assert a + b == a;
    } else {
      var init, last := b[..|b| - 1], b[|b| - 1];
      assert (a + b)[..|a + b| - 1] == a + init;
      LiveItemsAppend(a, init, now);
    }
  }

  /** Likewise for the values read: those of two parts, joined in order. */
  lemma {:induction false} LivePayloadsAppend<V>(a: seq<Item<V>>, b: seq<Item<V>>, now: int)
    ensures LivePayloads(a + b, now) == LivePayloads(a, now) + LivePayloads(b, now)
    decreases |b|
  {
    if b == [] {
      assert a + b == a;
    } else {
      var init, last := b[..|b| - 1], b[|b| - 1];
      assert (a + b)[..|a + b| - 1] == a + init;
      LivePayloadsAppend(a, init, now);
    }
  }

  /** A single item passes the filter exactly when it has data. */
  lemma LiveItemsSingle<V>(x: Item<V>, now: int)
    ensures LiveItems([x], now) == if HasData(x, now) then [x] else []
  {
    assert [x][..0] == [];
  }

  /** A bucket whose items all have data is its own live part. */
  lemma {:induction false} LiveItemsOfLive<V>(bucket: seq<Item<V>>, now: int)
    requires forall i :: 0 <= i < |bucket| ==> HasData(bucket[i], now)
    ensures LiveItems(bucket, now) == bucket
  {
    if bucket != [] {
      var init := bucket[..|bucket| - 1];
      LiveItemsOfLive(init, now);
      assert init + [bucket[|bucket| - 1]] == bucket;
    }
  }

  /** Filtering by liveness twice at the same instant is filtering once. */
  lemma LiveItemsIdempotent<V>(bucket: seq<Item<V>>, now: int)
    ensures LiveItems(LiveItems(bucket, now), now) == LiveItems(bucket, now)
  {
    LiveItemsOfLive(LiveItems(bucket, now), now);
  }

  /**
   * The life time a decorated function's item gets: the requested one
   * capped at the maximum, or the default when none is requested.
   */
  function EffectiveLifeTime(lifeTime: Option<int>, defaultLifeTime: int, maxLifeTime: int): (r: int)
    ensures lifeTime.None? ==> r == defaultLifeTime
    ensures lifeTime.Some? ==> r <= lifeTime.value && r <= maxLifeTime
    ensures lifeTime.Some? ==> r == lifeTime.value || r == maxLifeTime
  {
    match lifeTime
    case Some(t) => if t <= maxLifeTime then t else maxLifeTime
    case None => defaultLifeTime
  }
}
