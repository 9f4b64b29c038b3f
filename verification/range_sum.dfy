/**
 * The four range-sum functions of task1/main.py: the plain versions that work
 * on the array alone, and the memoised versions that consult and maintain an
 * `LruCache` keyed by the inclusive bounds (left, right) of a slice.
 *
 * The central invariant is `Consistent`: every cached (left, right) maps to
 * the sum of the CURRENT array slice it names.
 */
module RangeSum {
  import opened Wrappers
  import opened LruCache

  /** A cache key: the inclusive bounds (left, right) of a slice. */
  type Key = (int, int)

  /** Sum of a sequence, accumulated from the front as the source's loops do. */
  function Sum(s: seq<int>): int {
    if |s| == 0 then 0 else Sum(s[..|s| - 1]) + s[|s| - 1]
  }

  predicate InBounds(n: int, left: int, right: int) {
    0 <= left <= right < n
  }

  /** The true sum of `a[left..right]`, both ends included. */
  function SliceSum(a: seq<int>, left: int, right: int): int
    requires InBounds(|a|, left, right)
  {
    Sum(a[left..right + 1])
  }

  /** Whether the slice named by `k` contains the cell `index`. */
  predicate Covers(k: Key, index: int) {
    k.0 <= index <= k.1
  }

  /** Every cached slice lies inside the array and maps to its current sum. */
  predicate Consistent(a: seq<int>, c: Cache<Key>) {
    forall e :: e in c.entries ==> InBounds(|a|, e.0.0, e.0.1) && e.1 == SliceSum(a, e.0.0, e.0.1)
  }

  /** `range_sum_no_cache`: add up `a[left..right]` by a left-to-right scan. */
  method RangeSumNoCache(a: seq<int>, left: int, right: int) returns (s: int)
    requires InBounds(|a|, left, right)
    ensures s == SliceSum(a, left, right)
  {
    s := 0;
    var i := left;
    while i < right + 1
      invariant left <= i <= right + 1
      invariant s == Sum(a[left..i])
    {
      assert a[left..i + 1][..i - left] == a[left..i];
      s := s + a[i];
      i := i + 1;
    }
  }

  /** `update_no_cache`: a single point write. */
  function UpdateNoCache(a: seq<int>, index: int, value: int): (a': seq<int>)
    requires 0 <= index < |a|
    ensures |a'| == |a| && a'[index] == value
    ensures forall j :: 0 <= j < |a| && j != index ==> a'[j] == a[j]
  {
    a[index := value]
  }

  /**
   * `range_sum_with_cache`: answer from the cache on a hit; otherwise compute
   * the sum and store it. A stored `Miss` value is indistinguishable from a
   * miss, so it is recomputed and stored again.
   */
  function RangeSumWithCache(a: seq<int>, left: int, right: int, c: Cache<Key>): (r: (int, Cache<Key>))
    requires InBounds(|a|, left, right) && Valid(c)
    ensures Valid(r.1) && r.1.capacity == c.capacity
    ensures forall e :: e in r.1.entries ==> e in c.entries || e == ((left, right), r.0)
    ensures c.capacity > 0 ==> Lookup(r.1.entries, (left, right)) == Some(r.0)
  {
    var key := (left, right);
    var (cached, c1) := Get(c, key);
    if cached != Miss then
      LookupMember(c1.entries, (key, cached));
      (cached, c1)
    else
      var s := SliceSum(a, left, right);
      (s, Put(c1, key, s))
  }

  /** The keys of `ks` whose slices contain `index`, in order: the source's `to_delete` list. */
  function Covering(ks: seq<Key>, index: int): (r: seq<Key>)
    ensures forall k :: k in r <==> k in ks && Covers(k, index)
  {
    if |ks| == 0 then []
    else (if Covers(ks[0], index) then [ks[0]] else []) + Covering(ks[1..], index)
  }

  /** Delete each key of `ks` in turn. */
  function DeleteAll<K(==,!new)>(c: Cache<K>, ks: seq<K>): (r: Cache<K>)
    requires Valid(c)
    ensures Valid(r) && r.capacity == c.capacity
    ensures r.entries == Without(c.entries, (set k | k in ks))
    decreases |ks|
  {
    if |ks| == 0 then
      assert (set k | k in ks) == {};
      WithoutNothing(c.entries, {});
      c
    else
      var r := DeleteAll(Delete(c, ks[0]), ks[1..]);
      DeleteThenRest(c, ks);
      r
  }

  /** The reference result of invalidation: the entries whose slices miss `index`, in recency order. */
  function Survivors(es: seq<Entry<Key>>, index: int): (r: seq<Entry<Key>>)
    ensures |r| <= |es|
    ensures forall e :: e in r <==> e in es && !Covers(e.0, index)
  {
    if |es| == 0 then []
    else (if Covers(es[0].0, index) then [] else [es[0]]) + Survivors(es[1..], index)
  }

  /**
   * `update_with_cache`: write the cell, then take a snapshot of the cached
   * keys, collect those whose slices contain `index`, and delete them.
   */
  function UpdateWithCache(a: seq<int>, index: int, value: int, c: Cache<Key>): (r: (seq<int>, Cache<Key>))
    requires 0 <= index < |a| && Valid(c)
    ensures |r.0| == |a| && r.0[index] == value
    ensures forall j :: 0 <= j < |a| && j != index ==> r.0[j] == a[j]
    ensures Valid(r.1) && r.1.capacity == c.capacity
    ensures r.1.entries == Survivors(c.entries, index)
    ensures |r.1.entries| <= |c.entries|
  {
    var a' := UpdateNoCache(a, index, value);
    var snapshot := Keys(c);
    var doomed := Covering(snapshot, index);
    var c' := DeleteAll(c, doomed);
    InvalidationIsExact(c.entries, (set k | k in doomed), index);
    (a', c')
  }

  // ---------------------------------------------------------------------------
  // Lemmas
  // ---------------------------------------------------------------------------

  /**
   * `range_sum_with_cache` under the invariant: it answers the true sum, even
   * when that sum is the `Miss` sentinel, and leaves the invariant holding
   * with the queried slice cached.
   */
  lemma QueryAgreesWithScan(a: seq<int>, left: int, right: int, c: Cache<Key>)
    requires InBounds(|a|, left, right) && Valid(c) && Consistent(a, c)
    ensures RangeSumWithCache(a, left, right, c).0 == SliceSum(a, left, right)
    ensures Consistent(a, RangeSumWithCache(a, left, right, c).1)
  {
    var key := (left, right);
    var (cached, c1) := Get(c, key);
    if Contains(c, key) {
      var p := Position(c.entries, key);
      assert c.entries[p] in c.entries;
    }
  }

  /**
   * A genuinely stored `Miss` value is taken for a miss, recomputed to the same
   * value and stored again: the cache ends exactly as the lookup left it.
   */
  lemma StoredSentinelIsHarmless(a: seq<int>, left: int, right: int, c: Cache<Key>)
    requires InBounds(|a|, left, right) && Valid(c) && Consistent(a, c)
    requires Lookup(c.entries, (left, right)) == Some(Miss)
    ensures RangeSumWithCache(a, left, right, c) == (Miss, Get(c, (left, right)).1)
  {
    var key := (left, right);
    var p := Position(c.entries, key);
    assert c.entries[p] in c.entries;
    var c1 := Get(c, key).1;
    PutMostRecent(c1, key, Miss);
  }

  /**
   * Asking for the same slice twice in a row gives the same value both times,
   * and the lookup the second query starts with finds that value, so the
   * stored pair does not change. The second query is a hit unless the value
   * is the `Miss` sentinel, which `StoredSentinelIsHarmless` covers.
   */
  lemma RepeatedQueryIsStable(a: seq<int>, left: int, right: int, c: Cache<Key>)
    requires InBounds(|a|, left, right) && Valid(c) && Consistent(a, c) && c.capacity > 0
    ensures
      var (s, c1) := RangeSumWithCache(a, left, right, c);
      && Get(c1, (left, right)).0 == s
      && RangeSumWithCache(a, left, right, c1).0 == s
      && Lookup(RangeSumWithCache(a, left, right, c1).1.entries, (left, right)) == Some(s)
  {
    var key := (left, right);
    var (s, c1) := RangeSumWithCache(a, left, right, c);
    QueryAgreesWithScan(a, left, right, c);
    QueryAgreesWithScan(a, left, right, c1);
    assert Contains(c1, key);
  }

  /**
   * What `update_with_cache` does to the dictionary view: a slice containing
   * the written cell is no longer found, and every other slice keeps its
   * cached value.
   */
  lemma UpdateInvalidatesExactly(a: seq<int>, index: int, value: int, c: Cache<Key>, k: Key)
    requires 0 <= index < |a| && Valid(c)
    ensures Lookup(UpdateWithCache(a, index, value, c).1.entries, k) ==
      if Covers(k, index) then None else Lookup(c.entries, k)
  {
    var c' := UpdateWithCache(a, index, value, c).1;
    if Covers(k, index) {
      match Lookup(c'.entries, k)
      case Some(w) => LookupMember(c'.entries, (k, w));
      case None =>
    } else {
      SamePairsSameLookup(c'.entries, c.entries, k);
    }
  }

  /** `update_with_cache` keeps the invariant: the surviving sums stay true of the written array. */
  lemma UpdatePreservesConsistency(a: seq<int>, index: int, value: int, c: Cache<Key>)
    requires 0 <= index < |a| && Valid(c) && Consistent(a, c)
    ensures Consistent(UpdateWithCache(a, index, value, c).0, UpdateWithCache(a, index, value, c).1)
  {
    UpdateKeepsUncoveredSums(a, index, value, c, UpdateWithCache(a, index, value, c).1);
  }

  /** Deleting the first key and then the rest removes the whole key set. */
  lemma DeleteThenRest<K(!new)>(c: Cache<K>, ks: seq<K>)
    requires Valid(c) && |ks| > 0
    ensures Without(Delete(c, ks[0]).entries, (set k | k in ks[1..])) == Without(c.entries, (set k | k in ks))
  {
    DeleteFollowsOrderedDict(c, ks[0]);
    WithoutTwice(c.entries, {ks[0]}, (set k | k in ks[1..]));
    assert {ks[0]} + (set k | k in ks[1..]) == set k | k in ks;
  }

  /** Removing two key sets in turn removes their union. */
  lemma {:induction false} WithoutTwice<K(!new)>(es: seq<Entry<K>>, d1: set<K>, d2: set<K>)
    ensures Without(Without(es, d1), d2) == Without(es, d1 + d2)
    decreases |es|
  {
    if |es| > 0 {
      WithoutTwice(es[1..], d1, d2);
      if es[0].0 !in d1 {
        assert Without(es, d1) == [es[0]] + Without(es[1..], d1);
        assert Without(es, d1)[1..] == Without(es[1..], d1);
      }
    }
  }

  /**
   * Removing a set of keys that agrees with the containment test on every
   * stored key keeps exactly the survivors.
   */
  lemma {:induction false} InvalidationIsExact(es: seq<Entry<Key>>, dead: set<Key>, index: int)
    requires forall e :: e in es ==> (e.0 in dead <==> Covers(e.0, index))
    ensures Without(es, dead) == Survivors(es, index)
    decreases |es|
  {
    if |es| > 0 {
      assert es[0] in es;
      InvalidationIsExact(es[1..], dead, index);
    }
  }

  /** A point write keeps every cached sum true once the slices containing the cell are gone. */
  lemma UpdateKeepsUncoveredSums(a: seq<int>, index: int, value: int, c: Cache<Key>, c': Cache<Key>)
    requires 0 <= index < |a|
    requires forall e :: e in c'.entries ==> e in c.entries && !Covers(e.0, index)
    ensures Consistent(a, c) ==> Consistent(a[index := value], c')
  {
    if Consistent(a, c) {
      forall e | e in c'.entries
        ensures e.1 == SliceSum(a[index := value], e.0.0, e.0.1)
      {
        assert a[index := value][e.0.0..e.0.1 + 1] == a[e.0.0..e.0.1 + 1];
      }
    }
  }
}
