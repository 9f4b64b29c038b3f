/**
 * Concrete runs of the two components, worked through step by step: the
 * eviction order of an `LRUCache` of capacity 2 and a short message sequence
 * through a `SlidingWindowRateLimiter`.
 */
module Scenarios {
  import opened LruCache
  import opened RateLimiter

  lemma PutA()
    ensures Put(Empty(2), 'A', 1) == Cache(2, [('A', 1)])
  {
  }

  lemma PutB()
    ensures Put(Cache(2, [('A', 1)]), 'B', 2) == Cache(2, [('A', 1), ('B', 2)])
  {
    assert KeysOf([('A', 1)]) == ['A'];
  }

  lemma PutC()
    ensures Put(Cache(2, [('A', 1), ('B', 2)]), 'C', 3) == Cache(2, [('B', 2), ('C', 3)])
  {
    assert KeysOf([('A', 1), ('B', 2)]) == ['A', 'B'];
  }

  lemma GetA()
    ensures Get(Cache(2, [('A', 1), ('B', 2)]), 'A') == (1, Cache(2, [('B', 2), ('A', 1)]))
  {
    var es := [('A', 1), ('B', 2)];
    assert KeysOf(es)[0] == 'A';
    assert Position(es, 'A') == 0;
    assert es[..0] + es[1..] + [es[0]] == [('B', 2), ('A', 1)];
  }

  lemma PutCAfterGet()
    ensures Put(Cache(2, [('B', 2), ('A', 1)]), 'C', 3) == Cache(2, [('A', 1), ('C', 3)])
  {
    assert KeysOf([('B', 2), ('A', 1)]) == ['B', 'A'];
  }

  /**
   * Capacity 2: putting A, B, C evicts A; touching A with `get` before C is
   * put evicts B instead.
   */
  lemma EvictsLeastRecent()
    ensures Put(Put(Put(Empty(2), 'A', 1), 'B', 2), 'C', 3).entries == [('B', 2), ('C', 3)]
    ensures Put(Get(Put(Put(Empty(2), 'A', 1), 'B', 2), 'A').1, 'C', 3).entries == [('A', 1), ('C', 3)]
  {
    PutA();
    PutB();
    PutC();
    GetA();
    PutCAfterGet();
  }

  lemma FirstRecord()
    ensures RecordMessage(NewLimiter(10, 1), "1", 0) == (true, Limiter(10, 1, map["1" := [0]]))
  {
    assert [] + [0] == [0];
  }

  lemma SecondRecordRefused()
    ensures RecordMessage(Limiter(10, 1, map["1" := [0]]), "1", 5) == (false, Limiter(10, 1, map["1" := [0]]))
  {
    var st := Limiter(10, 1, map["1" := [0]]);
    assert ExpiredPrefix([0], -5) == 0;
    assert st.requests["1" := [0]] == st.requests;
  }

  lemma WaitAfterRefusal()
    ensures TimeUntilNextAllowed(Limiter(10, 1, map["1" := [0]]), "1", 5) == (5, Limiter(10, 1, map["1" := [0]]))
  {
    var st := Limiter(10, 1, map["1" := [0]]);
    assert ExpiredPrefix([0], -5) == 0;
    assert st.requests["1" := [0]] == st.requests;
  }

  lemma RecordAfterWindow()
    ensures RecordMessage(Limiter(10, 1, map["1" := [0]]), "1", 10) == (true, Limiter(10, 1, map["1" := [10]]))
  {
    var st := Limiter(10, 1, map["1" := [0]]);
    assert ExpiredPrefix([0], 0) == 1;
    assert st.requests - {"1"} == map[];
    assert [] + [10] == [10];
  }

  /**
   * One user under the demonstration's settings, window 10 and limit 1:
   * the first message passes, a second one 5 time units later is refused with
   * 5 units left to wait, and one at time 10 passes because the first has left
   * the window.
   */
  lemma LimiterScenario()
    ensures RecordMessage(NewLimiter(10, 1), "1", 0).0
    ensures !RecordMessage(RecordMessage(NewLimiter(10, 1), "1", 0).1, "1", 5).0
    ensures TimeUntilNextAllowed(RecordMessage(RecordMessage(NewLimiter(10, 1), "1", 0).1, "1", 5).1, "1", 5).0 == 5
    ensures RecordMessage(RecordMessage(RecordMessage(NewLimiter(10, 1), "1", 0).1, "1", 5).1, "1", 10) == (true, Limiter(10, 1, map["1" := [10]]))
  {
    FirstRecord();
    SecondRecordRefused();
    WaitAfterRefusal();
    RecordAfterWindow();
  }
}
