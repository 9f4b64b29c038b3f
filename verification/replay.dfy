/**
 * The replay loops `run_no_cache` and `run_with_cache` of task1/main.py, with
 * the timing stripped, and the theorem behind the checksum comparison in
 * `main`: both paths give the same answers and leave the same array.
 */
module Replay {
  import opened Wrappers
  import opened LruCache
  import opened RangeSum

  /** The capacity `run_with_cache` uses when none is given, and the one `main` passes. */
  const DefaultCapacity: nat := 1000

  /** One generated request: a slice query or a point write. */
  datatype Op = Range(left: int, right: int) | Update(index: int, value: int)

  /** The bounds the generator guarantees for an array of length `n`. */
  predicate Fits(op: Op, n: int) {
    match op
    case Range(l, r) => InBounds(n, l, r)
    case Update(i, _) => 0 <= i < n
  }

  predicate AllFit(ops: seq<Op>, n: int) {
    forall i :: 0 <= i < |ops| ==> Fits(ops[i], n)
  }

  function CountRanges(ops: seq<Op>): nat {
    if |ops| == 0 then 0 else (if ops[0].Range? then 1 else 0) + CountRanges(ops[1..])
  }

  /** The state of the uncached replay: the array and the answers so far (the checksum's inputs). */
  datatype Plain = Plain(arr: seq<int>, results: seq<int>)

  /** The state of the cached replay, with the hit and miss counters. */
  datatype Memo = Memo(arr: seq<int>, cache: Cache<Key>, results: seq<int>, hits: nat, misses: nat)

  /** One iteration of the loop in `run_no_cache`. */
  function StepNoCache(st: Plain, op: Op): (st': Plain)
    requires Fits(op, |st.arr|)
    ensures |st'.arr| == |st.arr|
    ensures |st'.results| == |st.results| + (if op.Range? then 1 else 0)
  {
    match op
    case Range(l, r) => Plain(st.arr, st.results + [SliceSum(st.arr, l, r)])
    case Update(i, v) => Plain(UpdateNoCache(st.arr, i, v), st.results)
  }

  function ReplayNoCache(st: Plain, ops: seq<Op>): (st': Plain)
    requires AllFit(ops, |st.arr|)
    ensures |st'.arr| == |st.arr|
    ensures |st'.results| == |st.results| + CountRanges(ops)
    decreases |ops|
  {
    if |ops| == 0 then st
    else
      assert Fits(ops[0], |st.arr|);
      ReplayNoCache(StepNoCache(st, ops[0]), ops[1..])
  }

  /** `run_no_cache`: replay every request against the array alone. */
  function RunNoCache(a: seq<int>, ops: seq<Op>): (st: Plain)
    requires AllFit(ops, |a|)
    ensures |st.arr| == |a| && |st.results| == CountRanges(ops)
  {
    ReplayNoCache(Plain(a, []), ops)
  }

  /**
   * One iteration of the loop in `run_with_cache`. A range request first looks
   * the key up itself (counting a hit on anything but `Miss`) and on a miss
   * calls `range_sum_with_cache`, which looks the key up a second time.
   */
  function StepWithCache(st: Memo, op: Op): (st': Memo)
    requires Fits(op, |st.arr|) && Valid(st.cache)
    ensures |st'.arr| == |st.arr| && Valid(st'.cache) && st'.cache.capacity == st.cache.capacity
    ensures st'.hits + st'.misses == st.hits + st.misses + (if op.Range? then 1 else 0)
  {
    match op
    case Range(l, r) =>
      var (v, c1) := Get(st.cache, (l, r));
      if v != Miss then
        st.(cache := c1, results := st.results + [v], hits := st.hits + 1)
      else
        var (v', c2) := RangeSumWithCache(st.arr, l, r, c1);
        st.(cache := c2, results := st.results + [v'], misses := st.misses + 1)
    case Update(i, v) =>
      var (a', c') := UpdateWithCache(st.arr, i, v, st.cache);
      st.(arr := a', cache := c')
  }

  function ReplayWithCache(st: Memo, ops: seq<Op>): (st': Memo)
    requires AllFit(ops, |st.arr|) && Valid(st.cache)
    ensures |st'.arr| == |st.arr| && Valid(st'.cache)
    ensures st'.hits + st'.misses == st.hits + st.misses + CountRanges(ops)
    decreases |ops|
  {
    if |ops| == 0 then st
    else
      assert Fits(ops[0], |st.arr|);
      ReplayWithCache(StepWithCache(st, ops[0]), ops[1..])
  }

  /** `run_with_cache`: replay every request through a fresh cache of the given capacity. */
  function RunWithCache(a: seq<int>, ops: seq<Op>, capacity: nat := DefaultCapacity): (st: Memo)
    requires AllFit(ops, |a|)
    ensures |st.arr| == |a| && Valid(st.cache)
    ensures st.hits + st.misses == CountRanges(ops)
  {
    ReplayWithCache(Memo(a, Empty(capacity), [], 0, 0), ops)
  }

  // ---------------------------------------------------------------------------
  // Equivalence of the two paths
  // ---------------------------------------------------------------------------

  /** One request gives the same answer and the same array on both paths, and keeps the invariant. */
  lemma StepsAgree(p: Plain, m: Memo, op: Op)
    requires p.arr == m.arr && p.results == m.results
    requires Fits(op, |p.arr|) && Valid(m.cache) && Consistent(m.arr, m.cache)
    ensures StepNoCache(p, op).arr == StepWithCache(m, op).arr
    ensures StepNoCache(p, op).results == StepWithCache(m, op).results
    ensures Consistent(StepWithCache(m, op).arr, StepWithCache(m, op).cache)
  {
    match op
    case Range(l, r) =>
      var key := (l, r);
      var (v, c1) := Get(m.cache, key);
      assert Consistent(m.arr, c1);
      if v != Miss {
        var i := Position(m.cache.entries, key);
        assert m.cache.entries[i] in m.cache.entries;
      } else {
        QueryAgreesWithScan(m.arr, l, r, c1);
      }
    case Update(i, v) =>
      UpdatePreservesConsistency(m.arr, i, v, m.cache);
  }

  /**
   * A range request repeated straight away through a cache of positive
   * capacity is answered with the true sum again, and is counted as a hit
   * exactly when that sum is not the `Miss` sentinel.
   */
  lemma RepeatIsHitUnlessSentinel(m: Memo, l: int, r: int)
    requires InBounds(|m.arr|, l, r) && Valid(m.cache) && Consistent(m.arr, m.cache) && m.cache.capacity > 0
    ensures
      var m1 := StepWithCache(m, Range(l, r));
      var m2 := StepWithCache(m1, Range(l, r));
      && m2.results == m1.results + [SliceSum(m.arr, l, r)]
      && (m2.hits == m1.hits + 1 <==> SliceSum(m.arr, l, r) != Miss)
  {
    var key, s := (l, r), SliceSum(m.arr, l, r);
    var m1 := StepWithCache(m, Range(l, r));
    StepsAgree(Plain(m.arr, m.results), m, Range(l, r));
    StepsAgree(Plain(m1.arr, m1.results), m1, Range(l, r));
    assert Lookup(m1.cache.entries, key) == Some(s) by {
      var (v, c1) := Get(m.cache, key);
      assert Consistent(m.arr, c1);
      if v != Miss {
        GetKeepsValues(m.cache, key, key);
        var i := Position(m.cache.entries, key);
        assert m.cache.entries[i] in m.cache.entries;
      } else {
        QueryAgreesWithScan(m.arr, l, r, c1);
      }
    }
  }

  lemma {:induction false} ReplaysAgree(p: Plain, m: Memo, ops: seq<Op>)
    requires p.arr == m.arr && p.results == m.results
    requires AllFit(ops, |p.arr|) && Valid(m.cache) && Consistent(m.arr, m.cache)
    ensures ReplayNoCache(p, ops).arr == ReplayWithCache(m, ops).arr
    ensures ReplayNoCache(p, ops).results == ReplayWithCache(m, ops).results
    decreases |ops|
  {
    if |ops| > 0 {
      assert Fits(ops[0], |p.arr|);
      StepsAgree(p, m, ops[0]);
      var p', m' := StepNoCache(p, ops[0]), StepWithCache(m, ops[0]);
      assert AllFit(ops[1..], |p'.arr|);
      ReplaysAgree(p', m', ops[1..]);
    }
  }

  /**
   * The property `main` checks by comparing checksums: on the same starting
   * array, the cached replay answers every range request exactly as the
   * uncached one, ends with the same array, and counts one hit or miss per
   * range request.
   */
  lemma CachedRunMatchesUncached(a: seq<int>, ops: seq<Op>, capacity: nat)
    requires AllFit(ops, |a|)
    ensures RunWithCache(a, ops, capacity).results == RunNoCache(a, ops).results
    ensures RunWithCache(a, ops, capacity).arr == RunNoCache(a, ops).arr
    ensures RunWithCache(a, ops, capacity).hits + RunWithCache(a, ops, capacity).misses == CountRanges(ops)
  {
    ReplaysAgree(Plain(a, []), Memo(a, Empty(capacity), [], 0, 0), ops);
  }
}
