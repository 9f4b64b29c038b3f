# Range-sum memoisation and a sliding-window rate limiter, in Dafny

This project models the two components of the repository and proves properties of them.

- **task1/main.py.** An `LRUCache` built on an ordered dictionary memoises range-sum queries over a mutable integer array.
  - A point update invalidates every cached slice `(l, r)` with `l <= index <= r`. It finds them by scanning a snapshot of the cache keys.
  - Two replay loops answer the same request stream with and without the cache. `main` compares their checksums.
- **task2/main.py.** `SlidingWindowRateLimiter` keeps, per user, a queue of the timestamps of recent messages. It lets a message through only while fewer than `max_requests` of them lie inside the last `window_size` time units. The first message is always let through.

Files:

- `wrappers.dfy`: `Option`.
- `lru_cache.dfy`: module `LruCache`. The ordered dictionary is a sequence of (key, value) pairs with distinct keys; index 0 is the least recently touched pair.
  - `Get`, `Put` and `Delete` are written as the sequence each method leaves.
  - The ordered-dictionary steps the methods take (`MoveToEnd`, `Assign`, `PopOldest`, `Without`) are defined separately. Lemmas prove the two descriptions agree.
  - `Lookup` is the dictionary view of the cache. The remaining lemmas say what each method does to it.
- `range_sum.dfy`: module `RangeSum`. It holds the four range-sum functions and the invariant `Consistent`: every cached `(l, r)` maps to the sum of the current slice `a[l..r]`.
- `replay.dfy`: module `Replay`. It holds the two replay loops with their timing removed, and the theorem that they give the same answers and the same array.
- `rate_limiter.dfy`: module `RateLimiter`. The limiter is an immutable value, and every operation takes the current time `now` as an argument. It also states the invariants the limiter keeps along any run: every queue non-empty and within the quota for any call times, and sorted as well when the clock does not go back.
- `scenarios.dfy`: module `Scenarios`. Two concrete runs, worked step by step.

The `-1` sentinel of `get` is kept as the code has it (`LruCache.Miss`).
- A cached sum that really is `-1` is taken for a miss, recomputed to `-1` and put back. `RangeSum.StoredSentinelIsHarmless` proves that the cache then ends exactly as the lookup left it.
- So answers stay correct. In `run_with_cache` such a query is counted as a miss rather than a hit.
- The capacity is any `nat`, and 0 is allowed, since `LRUCache` does not check it.
- With capacity 0, `put` adds the pair and `popitem(last=False)` removes it again at once, so the cache stays empty.

## Model

| member | source | states |
|---|---|---|
| LruCache.Empty | task1/main.py:10-12 | A new cache holds no key, keeps its capacity and satisfies the invariant (distinct keys, at most `capacity` pairs). |
| LruCache.Get | task1/main.py:14-18 | Absent key: answers `-1` and leaves the cache unchanged. Stored key: answers its stored value and moves its pair to the most recent end; the other pairs keep their order, the pairs are the same and the invariant holds. |
| LruCache.GetFollowsOrderedDict | task1/main.py:15-18 | On a stored key, `get` leaves exactly what `move_to_end` on the ordered dictionary leaves. |
| LruCache.GetKeepsValues | task1/main.py:14-18 | `get` changes recency only: every key, the looked-up one included, keeps the value it maps to. |
| LruCache.Put | task1/main.py:20-25 | The invariant holds afterwards, so the size never exceeds the capacity. On a stored key, the value is replaced, the pair moves to the most recent end and the size is unchanged. On a new key, the pair is appended if there is room; otherwise the least recent pair is dropped. Every pair afterwards is the new one or an old pair of another key. The key maps to the new value unless the capacity is 0. |
| LruCache.PutFollowsOrderedDict | task1/main.py:20-25 | `put` equals the ordered-dictionary steps: `move_to_end` for a stored key, then assignment in place or at the end, then `popitem(last=False)` when the size exceeds the capacity. |
| LruCache.PutChangesOnlyKey | task1/main.py:20-25 | After `put(k, v)`, every other key keeps its value. The one exception is the least recent key when `k` is new and the cache is full: that key, and only that key, is evicted. |
| LruCache.PutMostRecent | task1/main.py:20-25 | Putting back the most recent pair with its own value leaves the cache unchanged. |
| LruCache.Keys | task1/main.py:27-29 | The key snapshot lists the stored keys least recent first, one per pair. A key is in it exactly when a lookup finds a value for it, and on a valid cache no key appears twice. |
| LruCache.Delete | task1/main.py:31-33 | An absent key is a no-op. A stored key loses its pair and the size drops by one; the other pairs keep their relative order. The pairs afterwards are exactly the old pairs of other keys. |
| LruCache.DeleteFollowsOrderedDict | task1/main.py:31-33 | `delete` is the ordered dictionary's removal of the key: the pairs of every other key stay, in their order, whether or not the key was stored. |
| LruCache.DeleteForgetsOnlyKey | task1/main.py:31-33 | After `delete(k)`, `k` is not found and every other key keeps its value. |
| RangeSum.RangeSumNoCache | task1/main.py:61-66 | The left-to-right loop returns the sum of `a[left..right]`, both ends included. |
| RangeSum.UpdateNoCache | task1/main.py:69-71 | The write sets cell `index` to `value`, leaves every other cell alone and keeps the length. |
| RangeSum.RangeSumWithCache | task1/main.py:74-86 | The cache keeps its invariant and capacity. It gains at most the pair for `(left, right)` with the returned value. Afterwards `(left, right)` maps to the returned value unless the capacity is 0. |
| RangeSum.QueryAgreesWithScan | task1/main.py:74-86 | If every cached slice maps to its current sum, `range_sum_with_cache` returns exactly the uncached sum, and every cached slice still maps to its current sum afterwards. |
| RangeSum.StoredSentinelIsHarmless | task1/main.py:76-85 | A cached sum equal to the `-1` sentinel is taken for a miss and recomputed to `-1`. Putting it back leaves the cache exactly as the lookup left it. |
| RangeSum.RepeatedQueryIsStable | task1/main.py:74-86 | Repeating a query with no update in between gives the same value. The repeat's lookup finds that value, and the stored value does not change. This makes the repeat a hit unless the value is `-1`. |
| RangeSum.Covering | task1/main.py:94-97 | The `to_delete` list holds exactly the snapshot keys whose slices contain `index`. |
| RangeSum.DeleteAll | task1/main.py:99-100 | Deleting the listed keys one by one removes exactly the pairs of the listed keys and keeps the invariant. |
| RangeSum.UpdateWithCache | task1/main.py:89-100 | The array gets the point write. The cache keeps exactly the pairs whose slices miss `index`, in their recency order, and never grows. |
| RangeSum.UpdateInvalidatesExactly | task1/main.py:89-100 | After `update_with_cache`, a slice containing `index` is not found, and every other slice keeps its cached value. |
| RangeSum.UpdatePreservesConsistency | task1/main.py:89-100 | If every cached slice mapped to its current sum before the update, every cached slice maps to its sum in the written array afterwards. |
| RangeSum.InvalidationIsExact | task1/main.py:94-100 | Removing the collected keys leaves exactly the pairs whose slices miss `index`, whatever order the keys were collected in. |
| Replay.RunNoCache | task1/main.py:106-117 | The uncached replay gives one answer per range request and keeps the array length. |
| Replay.RunWithCache | task1/main.py:120-144 | The cached replay keeps the cache invariant and the array length. Every range request counts as exactly one hit or one miss. The capacity defaults to 1000, as in the source. |
| Replay.StepsAgree | task1/main.py:127-141 | One request gives the same answer and the same array on both paths, and every cached slice still maps to its current sum. |
| Replay.RepeatIsHitUnlessSentinel | task1/main.py:128-138 | A range request repeated straight away through a cache of positive capacity is answered with the true sum again. It counts as a hit exactly when that sum is not `-1`, as the `v != -1` test at line 132 decides. |
| Replay.ReplaysAgree | task1/main.py:106-144 | From equal arrays and a cache whose slices map to their current sums, any request sequence gives equal answer sequences and equal final arrays on both paths. |
| Replay.CachedRunMatchesUncached | task1/main.py:160-169 | On the same start array and any capacity, both runs give the same answer sequence and end with equal arrays, so the checksums `main` compares are equal. `hits + misses` equals the number of range requests. |
| RateLimiter.NewLimiter | task2/main.py:8-11 | A new limiter stores the two parameters, which default to 10 and 1. It satisfies, at every time, the invariant that `CleanupKeepsInv` and its companions preserve. |
| RateLimiter.CleanupWindow | task2/main.py:13-28 | Other users' entries are untouched and the parameters are kept. The user's queue never grows. A user with no queue, or an empty one, is left alone. Otherwise the user's entry exists afterwards exactly when its queue is non-empty. |
| RateLimiter.CleanupDropsExactlyExpired | task2/main.py:22-24 | On a sorted queue, cleanup keeps a suffix. Every dropped timestamp is at or before `now - window_size`, and every kept one is after it. |
| RateLimiter.DropExpiredCounts | task2/main.py:22-24 | On a sorted queue, the number of timestamps cleanup keeps is the number later than `now - window_size`. |
| RateLimiter.CleanupTwice | task2/main.py:49-52 | Cleaning up a second time at the same instant changes nothing. `record_message` and the `can_send_message` it calls both clean up. |
| RateLimiter.CanSendMessage | task2/main.py:30-42 | The answer is true exactly when, after cleanup, the user has no timestamps or fewer than `max_requests`. The state left is the cleaned-up one. |
| RateLimiter.CanSendIffRoomInWindow | task2/main.py:30-42 | On a sorted queue, a user may send exactly when the number of their messages inside the window is 0 or below `max_requests`. |
| RateLimiter.RecordMessage | task2/main.py:44-58 | It returns what `can_send_message` would. When allowed, the user's cleaned queue gains exactly `now` at its end. When refused, the state is the cleaned-up one. Other users and the parameters are untouched. |
| RateLimiter.FirstMessageAllowed | task2/main.py:37-40 | A user with no timestamp left inside the window is always let through, whatever `max_requests` is, and ends with the queue `[now]`. This covers a user without an entry as well as one whose window has emptied. |
| RateLimiter.RecordStaysWithinQuota | task2/main.py:52-56 | After an allowed `record_message`, the user's queue holds at most `max(max_requests, 1)` timestamps. |
| RateLimiter.TimeUntilNextAllowed | task2/main.py:60-78 | The wait is never negative and is 0 whenever sending is allowed. Otherwise it is `window_size - (now - oldest)` clamped at 0. The state left is the cleaned-up one. |
| RateLimiter.WaitIsZeroIffAllowed | task2/main.py:60-78 | In every state, the wait is 0 exactly when sending is allowed, and a refusal's wait is positive. Once no stored timestamp lies after `now`, a refusal's wait is also at most `window_size`. |
| RateLimiter.CleanupKeepsInv | task2/main.py:13-28 | Cleanup keeps the invariants: no empty queue, queues within the quota, sorted, and no timestamp after `now`. |
| RateLimiter.RecordKeepsInv | task2/main.py:44-58 | `record_message` at a time no earlier than the last one keeps all four invariants. |
| RateLimiter.RunKeepsShape | task2/main.py:13-78 | Along any sequence of calls, at any times, no user maps to an empty queue and every queue holds at most `max(max_requests, 1)` timestamps. Cleanup only shortens or removes a queue, and an append happens only when sending is allowed. |
| RateLimiter.CleanupKeepsShape | task2/main.py:18-28 | Cleanup at any time leaves no empty queue behind and grows no queue past the quota. |
| RateLimiter.RunKeepsInv | task2/main.py:30-78 | Along any sequence of calls whose times never go back, every queue also stays sorted and holds no timestamp after the last call's time, together with the two shape invariants. |
| Scenarios.EvictsLeastRecent | task1/main.py:14-25 | With capacity 2, putting A, B, C evicts A. Touching A with `get` before C is put evicts B instead. |
| Scenarios.LimiterScenario | task2/main.py:44-78 | With window 10 and limit 1: a first message at time 0 passes, and one at time 5 is refused with a wait of 5. One at time 10, from the state the refusal left, passes and leaves only itself queued, because the first has left the window. |

## Left out

- `make_queries` and `main`'s random workload, seeding and printing (task1/main.py:39-55, 147-175). The request stream is an arbitrary sequence of `Range(l, r)` / `Update(i, v)` values instead.
- Timing with `time.perf_counter`, the speed-up and the hit-rate figure. These are measurement and floating point.
- The XOR checksum. The theorem proves the two answer sequences equal, which implies equal checksums for any fold over them.
- Hashing and the internals of `OrderedDict`. The dictionary is an abstract sequence of pairs.
- `keys()` is modelled as a snapshot, as the `list(...)` copy at task1/main.py:95 makes it.
- Bounds checks the code does not perform. `0 <= left <= right < len(array)` and `0 <= index < len(array)` are preconditions, and the capacity is a `nat`.
- Reading the clock in task2. Every operation takes `now` as an integer argument. `record_message` reads the clock twice, once itself and once inside `can_send_message`; the model uses one `now` for both.
- Float timestamps and `max(0.0, …)`. Times and waits are integers.
- `test_rate_limiter` (task2/main.py:82-114), a demonstration built on `sleep`, `random` and `print`. `Scenarios.LimiterScenario` states the behaviour it illustrates with fixed times.
- Mutation in place and aliasing. Arrays, caches and limiters are values, and each operation returns the new value.
- RateLimiter.RunKeepsInv: proved for non-decreasing call times only. The code has no such guarantee, because `time.time()` can step backwards. Only the sortedness and no-future-timestamp invariants need that premise; `RateLimiter.RunKeepsShape` proves the other two for any call times.
