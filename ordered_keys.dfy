/**
 * The key order of an insertion-ordered dictionary (Python's OrderedDict):
 * a sequence of distinct keys, the oldest first and the most recently
 * touched last.
 */
module OrderedKeys {

  /** A cache key. */
  type Key = string

  /** No key occurs twice. */
  ghost predicate Distinct(s: seq<Key>) {
    forall i, j :: 0 <= i < j < |s| ==> s[i] != s[j]
  }

  /** `s` with every key of `ks` deleted; the remaining keys keep their relative order. */
  function Without(s: seq<Key>, ks: set<Key>): (r: seq<Key>)
    ensures forall x :: x in r <==> x in s && x !in ks
    ensures Distinct(s) ==> Distinct(r)
    ensures |r| <= |s|
  {
    if s == [] then []
    else
      var init, last := s[..|s| - 1], s[|s| - 1];
      assert forall x :: x in s <==> x in init || x == last;
      assert Distinct(s) ==> last !in init;
      if last in ks then Without(init, ks) else Without(init, ks) + [last]
  }

  /** `OrderedDict.move_to_end(k)`: `k` becomes the newest key, the others keep their order. */
  function MoveToEnd(s: seq<Key>, k: Key): (r: seq<Key>)
    ensures forall x :: x in r <==> x in s || x == k
    ensures Distinct(s) ==> Distinct(r)
    ensures |r| > 0 && r[|r| - 1] == k
    ensures Without(r, {k}) == Without(s, {k})
    ensures Distinct(s) ==> |r| == if k in s then |s| else |s| + 1
  {
    var rest := Without(s, {k});
    assert (rest + [k])[..|rest|] == rest;
    WithoutTwice(s, {k}, {k});
    assert {k} + {k} == {k};
    WithoutOneLength(s, k);
    rest + [k]
  }

  /** Deleting from a sequence extended by one key. */
  lemma WithoutSnoc(s: seq<Key>, x: Key, ks: set<Key>)
    ensures Without(s + [x], ks) == Without(s, ks) + if x in ks then [] else [x]
  {
    assert (s + [x])[..|s|] == s;
  }

  /** Deleting keys that do not occur changes nothing. */
  lemma {:induction false} WithoutNothing(s: seq<Key>, ks: set<Key>)
    requires forall x :: x in s ==> x !in ks
    ensures Without(s, ks) == s
  {
    if s != [] {
      var init, last := s[..|s| - 1], s[|s| - 1];
      assert init + [last] == s;
      assert forall x :: x in init ==> x in s;
      WithoutNothing(init, ks);
      WithoutSnoc(init, last, ks);
    }
  }

  /** Deleting `a` and then `b` is deleting `a + b` at once. */
  lemma {:induction false} WithoutTwice(s: seq<Key>, a: set<Key>, b: set<Key>)
    ensures Without(Without(s, a), b) == Without(s, a + b)
  {
    if s != [] {
      var init, last := s[..|s| - 1], s[|s| - 1];
      WithoutTwice(init, a, b);
      var w := Without(init, a);
      if last !in a {
        assert (w + [last])[..|w|] == w;
      }
    }
  }

  /** Deleting one more key that is already gone changes nothing. */
  lemma WithoutAbsent(s: seq<Key>, ks: set<Key>, k: Key)
    requires k !in Without(s, ks)
    ensures Without(s, ks + {k}) == Without(s, ks)
  {
    WithoutTwice(s, ks, {k});
    WithoutNothing(Without(s, ks), {k});
  }

  /** Deleting one key from distinct keys shortens them by one if it occurs, else not at all. */
  lemma {:induction false} WithoutOneLength(s: seq<Key>, k: Key)
    ensures Distinct(s) ==> |Without(s, {k})| == if k in s then |s| - 1 else |s|
  {
    if k !in s {
      WithoutNothing(s, {k});
    } else if Distinct(s) {
      var init, last := s[..|s| - 1], s[|s| - 1];
      assert forall x :: x in s <==> x in init || x == last;
      if last == k {
        assert k !in init;
        WithoutNothing(init, {k});
      } else {
        WithoutOneLength(init, k);
      }
    }
  }

  /** A sequence of distinct keys has as many elements as the set of its keys. */
  lemma {:induction false} DistinctCardinality(s: seq<Key>)
    requires Distinct(s)
    ensures |set x | x in s| == |s|
  {
    if s != [] {
      var init, last := s[..|s| - 1], s[|s| - 1];
      DistinctCardinality(init);
      assert (set x | x in s) == (set x | x in init) + {last};
      assert last !in (set x | x in init);
    }
  }

  /** Deleting the first of distinct keys is dropping it from the front. */
  lemma {:induction false} WithoutFirst(s: seq<Key>)
    requires Distinct(s) && s != []
    ensures Without(s, {s[0]}) == s[1..]
  {
    if |s| > 1 {
      var init := s[..|s| - 1];
      WithoutFirst(init);
      assert init[1..] + [s[|s| - 1]] == s[1..];
    }
  }
}
