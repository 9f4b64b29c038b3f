/**
 * `SlidingWindowRateLimiter` of task2/main.py: per user, a queue of the
 * timestamps of the messages sent within the last `windowSize` time units,
 * and at most `maxRequests` of them before the user has to wait.
 *
 * Timestamps are integers and every operation takes the current time `now`
 * as an argument instead of reading the clock.
 */
module RateLimiter {

  type UserId = string

  datatype Limiter = Limiter(windowSize: int, maxRequests: int, requests: map<UserId, seq<int>>)

  const DefaultWindowSize: int := 10
  const DefaultMaxRequests: int := 1

  /** A limiter that has seen no message yet. */
  function NewLimiter(windowSize: int := DefaultWindowSize, maxRequests: int := DefaultMaxRequests): (st: Limiter)
    ensures st.windowSize == windowSize && st.maxRequests == maxRequests
    ensures forall now :: Inv(st, now)
  {
    Limiter(windowSize, maxRequests, map[])
  }

  /** The queue of `user`, empty when the user has no entry. */
  function QueueOf(st: Limiter, user: UserId): seq<int> {
    if user in st.requests then st.requests[user] else []
  }

  /** The longest queue the limiter allows: the first message is always let through. */
  function Quota(st: Limiter): int {
    if st.maxRequests > 1 then st.maxRequests else 1
  }

  predicate Sorted(q: seq<int>) {
    forall i, j :: 0 <= i < j < |q| ==> q[i] <= q[j]
  }

  /** Number of timestamps in `q` later than `start`: the messages still inside the window. */
  function CountAfter(q: seq<int>, start: int): nat {
    if |q| == 0 then 0 else (if q[0] > start then 1 else 0) + CountAfter(q[1..], start)
  }

  // ---------------------------------------------------------------------------
  // Operations
  // ---------------------------------------------------------------------------

  /**
   * How many times the `popleft` loop runs: the number of timestamps at the
   * front of `q` that are at or before `windowStart`.
   */
  function ExpiredPrefix(q: seq<int>, windowStart: int): (n: nat)
    ensures n <= |q|
    ensures forall i :: 0 <= i < n ==> q[i] <= windowStart
    ensures n < |q| ==> q[n] > windowStart
  {
    if |q| > 0 && q[0] <= windowStart then 1 + ExpiredPrefix(q[1..], windowStart) else 0
  }

  /** The queue the `popleft` loop leaves: a suffix of `q`. */
  function DropExpired(q: seq<int>, windowStart: int): seq<int> {
    q[ExpiredPrefix(q, windowStart)..]
  }

  /**
   * `_cleanup_window`: forget the user's timestamps that have left the window,
   * and the user's entry itself once nothing is left. A user with no entry, or
   * with an empty queue, is left alone.
   */
  function CleanupWindow(st: Limiter, user: UserId, currentTime: int): (st': Limiter)
    ensures st'.windowSize == st.windowSize && st'.maxRequests == st.maxRequests
    ensures st'.requests - {user} == st.requests - {user}
    ensures |QueueOf(st, user)| > 0 ==> (user in st'.requests <==> |QueueOf(st', user)| > 0)
    ensures |QueueOf(st', user)| <= |QueueOf(st, user)|
    ensures |QueueOf(st, user)| == 0 ==> st' == st
  {
    var q := QueueOf(st, user);
    if |q| == 0 then st
    else
      var windowStart := currentTime - st.windowSize;
      var kept := DropExpired(q, windowStart);
      if |kept| == 0 then st.(requests := st.requests - {user})
      else st.(requests := st.requests[user := kept])
  }

  /** `can_send_message`: after cleanup, a user with no queue may send; otherwise only below the limit. */
  function CanSendMessage(st: Limiter, user: UserId, now: int): (r: (bool, Limiter))
    ensures r.1 == CleanupWindow(st, user, now)
    ensures r.0 <==> |QueueOf(r.1, user)| == 0 || |QueueOf(r.1, user)| < st.maxRequests
  {
    var st' := CleanupWindow(st, user, now);
    if user !in st'.requests || |st'.requests[user]| == 0 then (true, st')
    else (|st'.requests[user]| < st'.maxRequests, st')
  }

  /**
   * `record_message`: clean up, ask `can_send_message`, and when sending is
   * allowed append `now` to the user's queue, creating the queue if needed.
   */
  function RecordMessage(st: Limiter, user: UserId, now: int): (r: (bool, Limiter))
    ensures r.0 == CanSendMessage(st, user, now).0
    ensures r.1.windowSize == st.windowSize && r.1.maxRequests == st.maxRequests
    ensures r.1.requests - {user} == st.requests - {user}
    ensures r.0 ==> QueueOf(r.1, user) == QueueOf(CleanupWindow(st, user, now), user) + [now]
    ensures !r.0 ==> r.1 == CleanupWindow(st, user, now)
  {
    var st1 := CleanupWindow(st, user, now);
    CleanupTwice(st, user, now);
    var allowed := CanSendMessage(st1, user, now).0;
    var st2 := CanSendMessage(st1, user, now).1;
    if allowed then
      var q := if user !in st2.requests then [] else st2.requests[user];
      (true, st2.(requests := st2.requests[user := q + [now]]))
    else (false, st2)
  }

  /**
   * `time_until_next_allowed`: after cleanup, 0 when sending is allowed;
   * otherwise how long until the oldest timestamp leaves the window, never
   * below 0.
   */
  function TimeUntilNextAllowed(st: Limiter, user: UserId, now: int): (r: (int, Limiter))
    ensures r.1 == CleanupWindow(st, user, now)
    ensures r.0 >= 0
    ensures CanSendMessage(st, user, now).0 ==> r.0 == 0
    ensures !CanSendMessage(st, user, now).0 ==>
      r.0 == Clamp(st.windowSize - (now - QueueOf(r.1, user)[0]))
  {
    var st' := CleanupWindow(st, user, now);
    if user !in st'.requests || |st'.requests[user]| == 0 then (0, st')
    else if |st'.requests[user]| < st'.maxRequests then (0, st')
    else
      var oldest := st'.requests[user][0];
      var wait := st'.windowSize - (now - oldest);
      (if wait > 0 then wait else 0, st')
  }

  /** `max(0, x)`. */
  function Clamp(x: int): (r: int)
    ensures r >= 0 && r >= x && (r == 0 || r == x)
  {
    if x > 0 then x else 0
  }

  // ---------------------------------------------------------------------------
  // Invariants
  // ---------------------------------------------------------------------------

  predicate NoEmptyQueues(st: Limiter) {
    forall u :: u in st.requests ==> |st.requests[u]| > 0
  }

  predicate WithinQuota(st: Limiter) {
    forall u :: u in st.requests ==> |st.requests[u]| <= Quota(st)
  }

  predicate SortedQueues(st: Limiter) {
    forall u :: u in st.requests ==> Sorted(st.requests[u])
  }

  /** No recorded timestamp lies after `now`. */
  predicate NotAfter(st: Limiter, now: int) {
    forall u, i :: u in st.requests && 0 <= i < |st.requests[u]| ==> st.requests[u][i] <= now
  }

  predicate Inv(st: Limiter, now: int) {
    NoEmptyQueues(st) && WithinQuota(st) && SortedQueues(st) && NotAfter(st, now)
  }

  // ---------------------------------------------------------------------------
  // Lemmas
  // ---------------------------------------------------------------------------

  /** What `_cleanup_window` leaves of the user's queue: the suffix after the expired prefix. */
  lemma CleanupKeepsSuffix(st: Limiter, user: UserId, currentTime: int)
    ensures QueueOf(CleanupWindow(st, user, currentTime), user) == DropExpired(QueueOf(st, user), currentTime - st.windowSize)
  {
  }

  /**
   * On a sorted queue, `_cleanup_window` drops exactly the leading timestamps
   * at or before `currentTime - windowSize`: what it keeps is a suffix whose
   * every timestamp is later than that.
   */
  lemma CleanupDropsExactlyExpired(st: Limiter, user: UserId, currentTime: int)
    requires Sorted(QueueOf(st, user))
    ensures
      var q, kept := QueueOf(st, user), QueueOf(CleanupWindow(st, user, currentTime), user);
      var ws := currentTime - st.windowSize;
      && kept == q[|q| - |kept|..]
      && (forall i :: 0 <= i < |q| - |kept| ==> q[i] <= ws)
      && (forall i :: 0 <= i < |kept| ==> kept[i] > ws)
  {
    var q, ws := QueueOf(st, user), currentTime - st.windowSize;
    var n := ExpiredPrefix(q, ws);
    CleanupKeepsSuffix(st, user, currentTime);
    DropExpiredExact(q, ws);
    forall i | 0 <= i < |q| - n
      ensures q[n..][i] > ws
    {
      assert q[n..][i] == q[n + i];
    }
  }

  /** Cleaning up twice at the same time is cleaning up once (`record_message` does exactly that). */
  lemma CleanupTwice(st: Limiter, user: UserId, now: int)
    ensures CleanupWindow(CleanupWindow(st, user, now), user, now) == CleanupWindow(st, user, now)
  {
    CleanupKeepsSuffix(st, user, now);
    var st1 := CleanupWindow(st, user, now);
    var q1 := QueueOf(st1, user);
    if |q1| > 0 {
      var ws := now - st.windowSize;
      assert q1[0] > ws;
      assert DropExpired(q1, ws) == q1;
      assert st1.requests[user := q1] == st1.requests;
    }
  }

  /**
   * On a sorted queue, `DropExpired` drops exactly the timestamps at or
   * before `windowStart`: everything it keeps is later, and everything later
   * is kept.
   */
  lemma DropExpiredExact(q: seq<int>, windowStart: int)
    requires Sorted(q)
    ensures forall i :: 0 <= i < |q| ==> (q[i] > windowStart <==> i >= ExpiredPrefix(q, windowStart))
  {
    var n := ExpiredPrefix(q, windowStart);
    forall i | 0 <= i < |q| && i >= n
      ensures q[i] > windowStart
    {
      assert q[n] <= q[i];
    }
  }

  /** On a sorted queue, what `DropExpired` keeps is exactly the messages still inside the window. */
  lemma {:induction false} DropExpiredCounts(q: seq<int>, windowStart: int)
    requires Sorted(q)
    ensures |DropExpired(q, windowStart)| == CountAfter(q, windowStart)
    decreases |q|
  {
    if |q| > 0 {
      DropExpiredCounts(q[1..], windowStart);
      if q[0] > windowStart {
        AllAfterCount(q, windowStart);
      }
    }
  }

  /** When every timestamp is later than `start`, all of them count. */
  lemma {:induction false} AllAfterCount(q: seq<int>, start: int)
    requires forall i :: 0 <= i < |q| ==> q[i] > start
    ensures CountAfter(q, start) == |q|
    decreases |q|
  {
    if |q| > 0 {
      AllAfterCount(q[1..], start);
    }
  }

  /**
   * `can_send_message` against the window itself: with a sorted queue, a user
   * may send exactly when no earlier message is still inside the window or
   * fewer than `maxRequests` are.
   */
  lemma CanSendIffRoomInWindow(st: Limiter, user: UserId, now: int)
    requires Sorted(QueueOf(st, user))
    ensures
      var inWindow := CountAfter(QueueOf(st, user), now - st.windowSize);
      CanSendMessage(st, user, now).0 <==> inWindow == 0 || inWindow < st.maxRequests
  {
    CleanupKeepsSuffix(st, user, now);
    DropExpiredCounts(QueueOf(st, user), now - st.windowSize);
  }

  /**
   * The first message of a user, or of one whose window has emptied, is always
   * let through, whatever `maxRequests` is, and leaves the queue `[now]`.
   */
  lemma FirstMessageAllowed(st: Limiter, user: UserId, now: int)
    requires |DropExpired(QueueOf(st, user), now - st.windowSize)| == 0
    ensures RecordMessage(st, user, now).0
    ensures RecordMessage(st, user, now).1.requests[user] == [now]
  {
    CleanupKeepsSuffix(st, user, now);
  }

  /**
   * `time_until_next_allowed` is 0 exactly when sending is allowed, in every
   * state; when it is not, the wait is positive, and at most the window size
   * once no stored timestamp lies after `now`.
   */
  lemma WaitIsZeroIffAllowed(st: Limiter, user: UserId, now: int)
    ensures TimeUntilNextAllowed(st, user, now).0 == 0 <==> CanSendMessage(st, user, now).0
    ensures !CanSendMessage(st, user, now).0 ==> 0 < TimeUntilNextAllowed(st, user, now).0
    ensures NotAfter(st, now) && !CanSendMessage(st, user, now).0 ==> TimeUntilNextAllowed(st, user, now).0 <= st.windowSize
  {
    CleanupKeepsSuffix(st, user, now);
    var st' := CleanupWindow(st, user, now);
    var q := QueueOf(st, user);
    if NotAfter(st, now) && !CanSendMessage(st, user, now).0 {
      var kept := QueueOf(st', user);
      assert kept == q[|q| - |kept|..];
      assert kept[0] == q[|q| - |kept|];
      assert kept[0] <= now;
    }
  }

  /**
   * After an allowed `record_message` the user's queue holds at most
   * `max(maxRequests, 1)` timestamps, whatever it held before.
   */
  lemma RecordStaysWithinQuota(st: Limiter, user: UserId, now: int)
    ensures RecordMessage(st, user, now).0 ==> |QueueOf(RecordMessage(st, user, now).1, user)| <= Quota(st)
  {
  }

  /** `_cleanup_window` keeps the invariant. */
  lemma CleanupKeepsInv(st: Limiter, user: UserId, now: int)
    requires Inv(st, now)
    ensures Inv(CleanupWindow(st, user, now), now)
  {
    CleanupKeepsSuffix(st, user, now);
    var st' := CleanupWindow(st, user, now);
    var q := QueueOf(st, user);
    var kept := QueueOf(st', user);
    SuffixKeepsOrder(q, ExpiredPrefix(q, now - st.windowSize), now);
    assert NoEmptyQueues(st') && WithinQuota(st');
    assert SortedQueues(st') && NotAfter(st', now) by {
      forall u | u in st'.requests
        ensures Sorted(st'.requests[u]) && forall i :: 0 <= i < |st'.requests[u]| ==> st'.requests[u][i] <= now
      {
        if u != user {
          assert u in st.requests - {user};
        }
      }
    }
  }

  /** A suffix of a sorted queue with no timestamp after `now` is sorted and has none either. */
  lemma SuffixKeepsOrder(q: seq<int>, n: nat, now: int)
    requires Sorted(q) && n <= |q|
    requires forall i :: 0 <= i < |q| ==> q[i] <= now
    ensures Sorted(q[n..])
    ensures forall i :: 0 <= i < |q[n..]| ==> q[n..][i] <= now
  {
    var s := q[n..];
    forall i, j | 0 <= i < j < |s|
      ensures s[i] <= s[j]
    {
      assert s[i] == q[n + i] && s[j] == q[n + j];
    }
    forall i | 0 <= i < |s|
      ensures s[i] <= now
    {
      assert s[i] == q[n + i];
    }
  }

  /**
   * `record_message` keeps the invariant when the clock has not gone back: the
   * queue gains `now` at its end and stays within the quota.
   */
  lemma RecordKeepsInv(st: Limiter, user: UserId, before: int, now: int)
    requires Inv(st, before) && before <= now
    ensures Inv(RecordMessage(st, user, now).1, now)
  {
    var st1 := CleanupWindow(st, user, now);
    assert Inv(st1, now) by {
      assert NotAfter(st, now);
      CleanupKeepsInv(st, user, now);
    }
    var r := RecordMessage(st, user, now);
    CleanupTwice(st, user, now);
    if r.0 {
      assert |QueueOf(st1, user)| + 1 <= Quota(st1);
      AppendKeepsInv(st1, user, now);
      assert r.1 == st1.(requests := st1.requests[user := QueueOf(st1, user) + [now]]);
    }
  }

  /** Appending `now` to a queue with room for it keeps the invariant at `now`. */
  lemma AppendKeepsInv(st: Limiter, user: UserId, now: int)
    requires Inv(st, now) && |QueueOf(st, user)| + 1 <= Quota(st)
    ensures Inv(st.(requests := st.requests[user := QueueOf(st, user) + [now]]), now)
  {
    var q := QueueOf(st, user);
    assert forall i :: 0 <= i < |q| ==> q[i] <= now;
    assert Sorted(q + [now]);
  }

  /** A call of the limiter's public interface, stamped with the time it is made. */
  datatype Call = CanSend(user: UserId, at: int) | Record(user: UserId, at: int) | WaitTime(user: UserId, at: int)

  /** The state a call leaves behind. */
  function Apply(st: Limiter, call: Call): Limiter {
    match call
    case CanSend(u, t) => CanSendMessage(st, u, t).1
    case Record(u, t) => RecordMessage(st, u, t).1
    case WaitTime(u, t) => TimeUntilNextAllowed(st, u, t).1
  }

  function Run(st: Limiter, calls: seq<Call>): Limiter
    decreases |calls|
  {
    if |calls| == 0 then st else Run(Apply(st, calls[0]), calls[1..])
  }

  /** Every call is made no earlier than the one before it, the first no earlier than `now`. */
  predicate ClockForward(now: int, calls: seq<Call>)
    decreases |calls|
  {
    |calls| == 0 || (now <= calls[0].at && ClockForward(calls[0].at, calls[1..]))
  }

  /** The time of the last call, `now` when there is none. */
  function LastTime(now: int, calls: seq<Call>): int {
    if |calls| == 0 then now else calls[|calls| - 1].at
  }

  /**
   * Along any run whose clock never goes back, no user maps to an empty
   * queue, every queue stays within the quota, and every queue stays sorted.
   */
  lemma {:induction false} RunKeepsInv(st: Limiter, now: int, calls: seq<Call>)
    requires Inv(st, now) && ClockForward(now, calls)
    ensures Inv(Run(st, calls), LastTime(now, calls))
    decreases |calls|
  {
    if |calls| > 0 {
      var c, rest := calls[0], calls[1..];
      var st' := Apply(st, c);
      assert Inv(st', c.at) by {
        StepKeepsInv(st, now, c);
      }
      assert Run(st, calls) == Run(st', rest);
      assert LastTime(c.at, rest) == LastTime(now, calls);
      RunKeepsInv(st', c.at, rest);
    }
  }

  /**
   * Whatever the call times, no user ever maps to an empty queue and every
   * queue stays within the quota: cleanup only shortens or removes a queue,
   * and a timestamp is appended only when sending is allowed.
   */
  lemma {:induction false} RunKeepsShape(st: Limiter, calls: seq<Call>)
    requires NoEmptyQueues(st) && WithinQuota(st)
    ensures NoEmptyQueues(Run(st, calls)) && WithinQuota(Run(st, calls))
    decreases |calls|
  {
    if |calls| > 0 {
      ApplyKeepsShape(st, calls[0]);
      RunKeepsShape(Apply(st, calls[0]), calls[1..]);
    }
  }

  /** One call, at any time, keeps every queue non-empty and within the quota. */
  lemma ApplyKeepsShape(st: Limiter, c: Call)
    requires NoEmptyQueues(st) && WithinQuota(st)
    ensures NoEmptyQueues(Apply(st, c)) && WithinQuota(Apply(st, c))
  {
    CleanupKeepsShape(st, c.user, c.at);
    if c.Record? {
      RecordStaysWithinQuota(st, c.user, c.at);
    }
  }

  /** `_cleanup_window` at any time keeps every queue non-empty and within the quota. */
  lemma CleanupKeepsShape(st: Limiter, user: UserId, now: int)
    requires NoEmptyQueues(st) && WithinQuota(st)
    ensures NoEmptyQueues(CleanupWindow(st, user, now)) && WithinQuota(CleanupWindow(st, user, now))
  {
    var st' := CleanupWindow(st, user, now);
    forall u | u in st'.requests
      ensures 0 < |st'.requests[u]| <= Quota(st')
    {
      if u != user {
        assert u in st.requests - {user};
      }
    }
  }

  /** One call made no earlier than `now` keeps the invariant, at the call's time. */
  lemma StepKeepsInv(st: Limiter, now: int, c: Call)
    requires Inv(st, now) && now <= c.at
    ensures Inv(Apply(st, c), c.at)
  {
    assert Inv(st, c.at);
    match c {
      case Record(u, t) => RecordKeepsInv(st, u, t, t);
      case CanSend(u, t) => CleanupKeepsInv(st, u, t);
      case WaitTime(u, t) => CleanupKeepsInv(st, u, t);
    }
  }
}
