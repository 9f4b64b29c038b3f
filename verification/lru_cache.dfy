/**
 * The `LRUCache` class of task1/main.py: a bounded key-to-value store kept in
 * recency order on top of an ordered dictionary.
 *
 * The ordered dictionary is a sequence of (key, value) pairs with distinct
 * keys. Index 0 holds the least recently touched pair and the last index the
 * most recently touched one, so `move_to_end` moves a pair to the back and
 * `popitem(last=False)` drops the front.
 *
 * `Get`, `Put` and `Delete` are written directly as the sequence each method
 * leaves behind. The ordered-dictionary primitives the methods call
 * (`MoveToEnd`, `Assign`, `PopOldest`, `Without`) are defined separately,
 * and the `...FollowsOrderedDict` lemmas prove the two descriptions agree.
 */
module LruCache {
  import opened Wrappers

  /** What `get` answers for an absent key. */
  const Miss: int := -1

  /** A stored (key, value) pair. */
  type Entry<K> = (K, int)

  datatype Cache<K> = Cache(capacity: nat, entries: seq<Entry<K>>)

  /** The keys of `es`, in the same order. */
  function KeysOf<K>(es: seq<Entry<K>>): (ks: seq<K>)
    ensures |ks| == |es|
    ensures forall i :: 0 <= i < |es| ==> ks[i] == es[i].0
  {
    seq(|es|, i requires 0 <= i < |es| => es[i].0)
  }

  predicate UniqueKeys<K(==,!new)>(es: seq<Entry<K>>) {
    forall i, j :: 0 <= i < j < |es| ==> es[i].0 != es[j].0
  }

  /** The representation invariant: no key twice, never more pairs than the capacity. */
  predicate Valid<K(==,!new)>(c: Cache<K>) {
    UniqueKeys(c.entries) && |c.entries| <= c.capacity
  }

  predicate Contains<K(==,!new)>(c: Cache<K>, k: K) {
    k in KeysOf(c.entries)
  }

  /** Index of the first pair with key `k`; `|es|` when there is none. */
  function Position<K(==,!new)>(es: seq<Entry<K>>, k: K): (p: nat)
    ensures p <= |es|
    ensures p < |es| ==> es[p].0 == k
    ensures forall j :: 0 <= j < p ==> es[j].0 != k
    ensures p < |es| <==> k in KeysOf(es)
  {
    if |es| == 0 then 0
    else if es[0].0 == k then 0
    else 1 + Position(es[1..], k)
  }

  /** The value stored under `k`, if any: the dictionary view of the entries. */
  function Lookup<K(==,!new)>(es: seq<Entry<K>>, k: K): Option<int> {
    var p := Position(es, k);
    if p < |es| then Some(es[p].1) else None
  }

  /** `LRUCache(capacity)`: a cache holding nothing. */
  function Empty<K(==,!new)>(capacity: nat): (c: Cache<K>)
    ensures Valid(c) && c.capacity == capacity
    ensures forall k :: !Contains(c, k)
  {
    Cache(capacity, [])
  }

  /**
   * `get`: the stored value, after promoting the key to most recent; the
   * sentinel `Miss` and no change at all when the key is absent.
   */
  function Get<K(==,!new)>(c: Cache<K>, k: K): (r: (int, Cache<K>))
    requires Valid(c)
    ensures Valid(r.1) && r.1.capacity == c.capacity
    ensures !Contains(c, k) ==> r.0 == Miss && r.1 == c
    ensures Contains(c, k) ==>
      var i := Position(c.entries, k);
      c.entries[i] == (k, r.0) && r.1.entries == c.entries[..i] + c.entries[i + 1..] + [(k, r.0)]
    ensures forall e :: e in r.1.entries <==> e in c.entries
    ensures Lookup(c.entries, k) == if Contains(c, k) then Some(r.0) else None
  {
    if !Contains(c, k) then (Miss, c)
    else
      var es, p := c.entries, Position(c.entries, k);
      CutFacts(es, p);
      FreshAppend(es[..p] + es[p + 1..], k, es[p].1, es);
      MoveToBackSameMembers(es, p);
      (es[p].1, Cache(c.capacity, es[..p] + es[p + 1..] + [es[p]]))
  }

  /**
   * `put`: insert or overwrite, promote the key to most recent, and drop the
   * least recent pair when the store has grown past its capacity.
   */
  function Put<K(==,!new)>(c: Cache<K>, k: K, v: int): (r: Cache<K>)
    requires Valid(c)
    ensures Valid(r) && r.capacity == c.capacity
    ensures Contains(c, k) ==>
      var i := Position(c.entries, k);
      |r.entries| == |c.entries| && r.entries == c.entries[..i] + c.entries[i + 1..] + [(k, v)]
    ensures !Contains(c, k) && |c.entries| < c.capacity ==> r.entries == c.entries + [(k, v)]
    ensures !Contains(c, k) && |c.entries| == c.capacity > 0 ==> r.entries == c.entries[1..] + [(k, v)]
    ensures !Contains(c, k) && c.capacity == 0 ==> r == c
    ensures forall e :: e in r.entries ==> e == (k, v) || (e in c.entries && e.0 != k)
    ensures c.capacity > 0 ==> Lookup(r.entries, k) == Some(v)
  {
    var es := c.entries;
    if Contains(c, k) then
      var p := Position(es, k);
      CutFacts(es, p);
      FreshAppend(es[..p] + es[p + 1..], k, v, es);
      Cache(c.capacity, es[..p] + es[p + 1..] + [(k, v)])
    else if c.capacity == 0 then c
    else
      NotStored(es, k);
      if |es| < c.capacity then
        FreshAppend(es, k, v, es);
        Cache(c.capacity, es + [(k, v)])
      else
        UniqueTail(es);
        FreshAppend(es[1..], k, v, es);
        Cache(c.capacity, es[1..] + [(k, v)])
  }

  /** `delete`: remove the key if present; an absent key is a no-op. */
  function Delete<K(==,!new)>(c: Cache<K>, k: K): (r: Cache<K>)
    requires Valid(c)
    ensures Valid(r) && r.capacity == c.capacity
    ensures !Contains(c, k) ==> r == c
    ensures Contains(c, k) ==>
      var i := Position(c.entries, k);
      |r.entries| == |c.entries| - 1 && r.entries == c.entries[..i] + c.entries[i + 1..]
    ensures forall e :: e in r.entries <==> e in c.entries && e.0 != k
  {
    var es := c.entries;
    if Contains(c, k) then
      var p := Position(es, k);
      CutFacts(es, p);
      Cache(c.capacity, es[..p] + es[p + 1..])
    else
      NotStored(es, k);
      c
  }

  /** `keys`: a snapshot of the stored keys, least recent first. */
  function Keys<K(==,!new)>(c: Cache<K>): (ks: seq<K>)
    ensures |ks| == |c.entries| && forall i :: 0 <= i < |ks| ==> ks[i] == c.entries[i].0
    ensures forall k :: k in ks <==> Lookup(c.entries, k).Some?
    ensures Valid(c) ==> forall i, j :: 0 <= i < j < |ks| ==> ks[i] != ks[j]
  {
    KeysOf(c.entries)
  }

  /** Whether `put` of `k` drops the least recent pair: `k` is new and the store is full. */
  predicate Evicts<K(==,!new)>(c: Cache<K>, k: K) {
    !Contains(c, k) && |c.entries| == c.capacity > 0
  }

  // ---------------------------------------------------------------------------
  // The ordered-dictionary primitives the methods are built from
  // ---------------------------------------------------------------------------

  /** The pairs of `es` whose keys are not in `dead`, in their original order. */
  function Without<K(==,!new)>(es: seq<Entry<K>>, dead: set<K>): (r: seq<Entry<K>>)
    ensures |r| <= |es|
    ensures forall e :: e in r <==> e in es && e.0 !in dead
  {
    if |es| == 0 then []
    else if es[0].0 in dead then Without(es[1..], dead)
    else [es[0]] + Without(es[1..], dead)
  }

  /** `move_to_end`: unlink the pair with key `k` and append it at the back. */
  function MoveToEnd<K(==,!new)>(es: seq<Entry<K>>, k: K): seq<Entry<K>>
    requires k in KeysOf(es)
  {
    Without(es, {k}) + [(k, es[Position(es, k)].1)]
  }

  /** Dictionary assignment: overwrite the value in place when `k` is present, else append. */
  function Assign<K(==,!new)>(es: seq<Entry<K>>, k: K, v: int): seq<Entry<K>> {
    if |es| == 0 then [(k, v)]
    else if es[0].0 == k then [(k, v)] + es[1..]
    else [es[0]] + Assign(es[1..], k, v)
  }

  /** The `len(cache) > capacity` check followed by `popitem(last=False)`. */
  function PopOldest<K>(es: seq<Entry<K>>, capacity: nat): seq<Entry<K>> {
    if |es| > capacity then es[1..] else es
  }

  /** `put` as the ordered-dictionary steps it takes, one after the other. */
  function OrderedDictPut<K(==,!new)>(c: Cache<K>, k: K, v: int): seq<Entry<K>> {
    var moved := if Contains(c, k) then MoveToEnd(c.entries, k) else c.entries;
    PopOldest(Assign(moved, k, v), c.capacity)
  }

  /** On a stored key, `get` is `move_to_end`. */
  lemma GetFollowsOrderedDict<K(!new)>(c: Cache<K>, k: K)
    requires Valid(c) && Contains(c, k)
    ensures Get(c, k).1.entries == MoveToEnd(c.entries, k)
  {
    MoveToEndShape(c.entries, Position(c.entries, k), 0);
  }

  /** `put` is `move_to_end` (for a stored key), assignment, then eviction of the oldest pair. */
  lemma PutFollowsOrderedDict<K(!new)>(c: Cache<K>, k: K, v: int)
    requires Valid(c)
    ensures Put(c, k, v).entries == OrderedDictPut(c, k, v)
  {
    if Contains(c, k) {
      PutStoredFollowsOrderedDict(c, k, v);
    } else {
      PutNewFollowsOrderedDict(c, k, v);
    }
  }

  lemma PutStoredFollowsOrderedDict<K(!new)>(c: Cache<K>, k: K, v: int)
    requires Valid(c) && Contains(c, k)
    ensures Put(c, k, v).entries == OrderedDictPut(c, k, v)
  {
    var es, p := c.entries, Position(c.entries, k);
    MoveToEndShape(es, p, v);
    assert |Assign(MoveToEnd(es, k), k, v)| == |es|;
  }

  lemma PutNewFollowsOrderedDict<K(!new)>(c: Cache<K>, k: K, v: int)
    requires Valid(c) && !Contains(c, k)
    ensures Put(c, k, v).entries == OrderedDictPut(c, k, v)
  {
    var es := c.entries;
    AssignShape(es, k, v);
    assert Assign(es, k, v) == es + [(k, v)];
    if |es| == c.capacity > 0 {
      assert (es + [(k, v)])[1..] == es[1..] + [(k, v)];
    }
  }

  /** `delete` of a stored key is `del`, which keeps every pair of the other keys. */
  lemma DeleteFollowsOrderedDict<K(!new)>(c: Cache<K>, k: K)
    requires Valid(c)
    ensures Delete(c, k).entries == Without(c.entries, {k})
  {
    if Contains(c, k) {
      WithoutOne(c.entries, Position(c.entries, k));
    } else {
      NotStored(c.entries, k);
      WithoutNothing(c.entries, {k});
    }
  }

  // ---------------------------------------------------------------------------
  // The dictionary view: what each method does to `Lookup`
  // ---------------------------------------------------------------------------

  /** Putting back the most recent pair unchanged leaves the cache as it is. */
  lemma PutMostRecent<K(!new)>(c: Cache<K>, k: K, v: int)
    requires Valid(c) && |c.entries| > 0 && c.entries[|c.entries| - 1] == (k, v)
    ensures Put(c, k, v) == c
  {
    var es := c.entries;
    var last := |es| - 1;
    assert es[last] in es;
    LookupMember(es, (k, v));
    assert Position(es, k) == last;
    assert es[..last] + es[last + 1..] + [(k, v)] == es;
  }

  /** `get` changes recency only: every key keeps the value it had. */
  lemma GetKeepsValues<K(!new)>(c: Cache<K>, k: K, other: K)
    requires Valid(c)
    ensures Lookup(Get(c, k).1.entries, other) == Lookup(c.entries, other)
  {
    SamePairsSameLookup(Get(c, k).1.entries, c.entries, other);
  }

  /** After `delete`, the key is absent and every other key keeps its value. */
  lemma DeleteForgetsOnlyKey<K(!new)>(c: Cache<K>, k: K, other: K)
    requires Valid(c)
    ensures Lookup(Delete(c, k).entries, other) == if other == k then None else Lookup(c.entries, other)
  {
    var r := Delete(c, k);
    match Lookup(r.entries, other)
    case Some(w) => LookupMember(r.entries, (other, w)); LookupMember(c.entries, (other, w));
    case None =>
      if other != k {
        match Lookup(c.entries, other)
        case Some(w) => LookupMember(c.entries, (other, w)); LookupMember(r.entries, (other, w));
        case None =>
      }
  }

  /**
   * After `put` of `k`, every other key keeps its value, except the least
   * recent key when `put` evicts it.
   */
  lemma PutChangesOnlyKey<K(!new)>(c: Cache<K>, k: K, v: int, other: K)
    requires Valid(c) && other != k
    ensures Lookup(Put(c, k, v).entries, other) ==
      if Evicts(c, k) && other == c.entries[0].0 then None else Lookup(c.entries, other)
  {
    if Contains(c, k) {
      PutOverwriteKeepsOthers(c, k, v, other);
    } else if Evicts(c, k) {
      if other == c.entries[0].0 {
        PutEvictForgetsOldest(c, k, v);
      } else {
        PutEvictKeepsOthers(c, k, v, other);
      }
    } else if c.capacity > 0 {
      PutAppendKeepsOthers(c, k, v, other);
    }
  }

  lemma PutOverwriteKeepsOthers<K(!new)>(c: Cache<K>, k: K, v: int, other: K)
    requires Valid(c) && other != k && Contains(c, k)
    ensures Lookup(Put(c, k, v).entries, other) == Lookup(c.entries, other)
  {
    LookupAfterCut(c.entries, Position(c.entries, k), v, other);
  }

  lemma PutEvictForgetsOldest<K(!new)>(c: Cache<K>, k: K, v: int)
    requires Valid(c) && Evicts(c, k)
    ensures Lookup(Put(c, k, v).entries, c.entries[0].0) == None
  {
    LookupAfterEviction(c.entries, (k, v));
  }

  lemma PutEvictKeepsOthers<K(!new)>(c: Cache<K>, k: K, v: int, other: K)
    requires Valid(c) && other != k && Evicts(c, k) && other != c.entries[0].0
    ensures Lookup(Put(c, k, v).entries, other) == Lookup(c.entries, other)
  {
    LookupAfterDropFront(c.entries, (k, v), other);
  }

  lemma PutAppendKeepsOthers<K(!new)>(c: Cache<K>, k: K, v: int, other: K)
    requires Valid(c) && other != k && !Contains(c, k) && |c.entries| < c.capacity
    ensures Lookup(Put(c, k, v).entries, other) == Lookup(c.entries, other)
  {
    LookupAfterAppend(c.entries, (k, v), other);
  }

  /** Moving the pair at `p` to the back with value `v` does not change the lookup of another key. */
  lemma LookupAfterCut<K(!new)>(es: seq<Entry<K>>, p: nat, v: int, other: K)
    requires UniqueKeys(es) && p < |es| && other != es[p].0
    ensures Lookup(es[..p] + es[p + 1..] + [(es[p].0, v)], other) == Lookup(es, other)
  {
    CutFacts(es, p);
    FreshAppend(es[..p] + es[p + 1..], es[p].0, v, es);
    PairsAfterCut(es, p, (es[p].0, v), other);
    SamePairsSameLookup(es[..p] + es[p + 1..] + [(es[p].0, v)], es, other);
  }

  /** Dropping the front pair and appending `x` does not change the lookup of a third key. */
  lemma LookupAfterDropFront<K(!new)>(es: seq<Entry<K>>, x: Entry<K>, other: K)
    requires |es| > 0 && other != es[0].0 && other != x.0
    requires UniqueKeys(es) && UniqueKeys(es[1..] + [x])
    ensures Lookup(es[1..] + [x], other) == Lookup(es, other)
  {
    PairsAfterDropFront(es, x, other);
    SamePairsSameLookup(es[1..] + [x], es, other);
  }

  /** Appending `x` does not change the lookup of another key. */
  lemma LookupAfterAppend<K(!new)>(es: seq<Entry<K>>, x: Entry<K>, other: K)
    requires other != x.0
    requires UniqueKeys(es) && UniqueKeys(es + [x])
    ensures Lookup(es + [x], other) == Lookup(es, other)
  {
    assert forall w :: (other, w) in es + [x] <==> (other, w) in es;
    SamePairsSameLookup(es + [x], es, other);
  }

  /** After evicting the front pair and appending `x`, the evicted key is not found. */
  lemma LookupAfterEviction<K(!new)>(es: seq<Entry<K>>, x: Entry<K>)
    requires |es| > 0 && x.0 != es[0].0
    requires UniqueKeys(es) && UniqueKeys(es[1..] + [x])
    ensures Lookup(es[1..] + [x], es[0].0) == None
  {
    PairsAfterEviction(es, x);
    match Lookup(es[1..] + [x], es[0].0)
    case Some(w) => LookupMember(es[1..] + [x], (es[0].0, w));
    case None =>
  }

  /** Cutting out position `p` and appending `x` keeps every pair of a third key. */
  lemma PairsAfterCut<K(!new)>(es: seq<Entry<K>>, p: nat, x: Entry<K>, other: K)
    requires p < |es| && other != es[p].0 && other != x.0
    ensures forall w :: (other, w) in es[..p] + es[p + 1..] + [x] <==> (other, w) in es
  {
    var r := es[..p] + es[p + 1..] + [x];
    forall w
      ensures (other, w) in r <==> (other, w) in es
    {
      if (other, w) in es {
        var j :| 0 <= j < |es| && es[j] == (other, w);
        assert r[if j < p then j else j - 1] == es[j];
      }
      if (other, w) in r {
        var j :| 0 <= j < |r| && r[j] == (other, w);
        assert es[if j < p then j else j + 1] == r[j];
      }
    }
  }

  /** Dropping the front pair and appending `x` keeps every pair of a third key. */
  lemma PairsAfterDropFront<K(!new)>(es: seq<Entry<K>>, x: Entry<K>, other: K)
    requires |es| > 0 && other != es[0].0 && other != x.0
    ensures forall w :: (other, w) in es[1..] + [x] <==> (other, w) in es
  {
    var r := es[1..] + [x];
    forall w
      ensures (other, w) in r <==> (other, w) in es
    {
      if (other, w) in es {
        var j :| 0 <= j < |es| && es[j] == (other, w);
        assert r[j - 1] == es[j];
      }
      if (other, w) in r {
        var j :| 0 <= j < |r| && r[j] == (other, w);
        assert es[j + 1] == r[j];
      }
    }
  }

  /** After evicting the front entry, no pair of its key is left. */
  lemma PairsAfterEviction<K(!new)>(es: seq<Entry<K>>, x: Entry<K>)
    requires UniqueKeys(es) && |es| > 0 && x.0 != es[0].0
    ensures forall w :: (es[0].0, w) !in es[1..] + [x]
  {
    var r := es[1..] + [x];
    forall j | 0 <= j < |r|
      ensures r[j].0 != es[0].0
    {
      if j < |r| - 1 {
        assert r[j] == es[j + 1];
      }
    }
  }

  /** Two unique-keyed sequences holding the same pairs for key `k` answer its lookup alike. */
  lemma SamePairsSameLookup<K(!new)>(es1: seq<Entry<K>>, es2: seq<Entry<K>>, k: K)
    requires UniqueKeys(es1) && UniqueKeys(es2)
    requires forall w :: (k, w) in es1 <==> (k, w) in es2
    ensures Lookup(es1, k) == Lookup(es2, k)
  {
    match Lookup(es1, k)
    case Some(w) => LookupMember(es1, (k, w)); LookupMember(es2, (k, w));
    case None =>
      match Lookup(es2, k)
      case Some(w) => LookupMember(es2, (k, w)); LookupMember(es1, (k, w));
      case None =>
  }

  // ---------------------------------------------------------------------------
  // Lemmas about the representation
  // ---------------------------------------------------------------------------

  /** With unique keys, `Lookup` finds exactly the stored pairs. */
  lemma LookupMember<K(!new)>(es: seq<Entry<K>>, e: Entry<K>)
    requires UniqueKeys(es)
    ensures Lookup(es, e.0) == Some(e.1) <==> e in es
  {
    if e in es {
      var i :| 0 <= i < |es| && es[i] == e;
      assert Position(es, e.0) == i;
    }
  }

  /** A key missing from the keys is on no pair. */
  lemma NotStored<K(!new)>(es: seq<Entry<K>>, k: K)
    requires k !in KeysOf(es)
    ensures forall i :: 0 <= i < |es| ==> es[i].0 != k
    ensures forall e :: e in es ==> e.0 != k
  {
    forall i | 0 <= i < |es|
      ensures es[i].0 != k
    {
      assert KeysOf(es)[i] == es[i].0;
    }
  }

  /** Dropping the front pair keeps keys unique. */
  lemma UniqueTail<K(!new)>(es: seq<Entry<K>>)
    requires UniqueKeys(es) && |es| > 0
    ensures UniqueKeys(es[1..])
  {
    var tail := es[1..];
    forall a, b | 0 <= a < b < |tail|
      ensures tail[a].0 != tail[b].0
    {
      assert tail[a] == es[a + 1] && tail[b] == es[b + 1];
    }
  }

  /**
   * The pair at `p` cut out of a unique-keyed sequence: the rest keeps unique
   * keys and holds exactly the pairs of the other keys.
   */
  lemma CutFacts<K(!new)>(es: seq<Entry<K>>, p: nat)
    requires UniqueKeys(es) && p < |es|
    ensures UniqueKeys(es[..p] + es[p + 1..])
    ensures forall e :: e in es[..p] + es[p + 1..] <==> e in es && e.0 != es[p].0
    ensures es[p].0 !in KeysOf(es[..p] + es[p + 1..])
  {
    var rest := es[..p] + es[p + 1..];
    forall i | 0 <= i < |rest|
      ensures rest[i] == es[if i < p then i else i + 1]
    {
    }
    forall e | e in es && e.0 != es[p].0
      ensures e in rest
    {
      var j :| 0 <= j < |es| && es[j] == e;
      assert rest[if j < p then j else j - 1] == e;
    }
    forall i | 0 <= i < |rest|
      ensures KeysOf(rest)[i] != es[p].0
    {
      assert rest[i] == es[if i < p then i else i + 1];
    }
  }

  /** `front + [(k, v)]` has unique keys, maps `k` to `v`, and otherwise holds pairs of `whole` for other keys. */
  predicate FreshAppended<K(==,!new)>(front: seq<Entry<K>>, k: K, v: int, whole: seq<Entry<K>>) {
    && UniqueKeys(front + [(k, v)])
    && Lookup(front + [(k, v)], k) == Some(v)
    && (forall e :: e in front + [(k, v)] ==> e == (k, v) || (e in whole && e.0 != k))
  }

  /** Appending a key that `front` lacks to a unique-keyed `front` drawn from `whole`. */
  lemma FreshAppend<K(!new)>(front: seq<Entry<K>>, k: K, v: int, whole: seq<Entry<K>>)
    requires UniqueKeys(front) && k !in KeysOf(front)
    requires forall e :: e in front ==> e in whole
    ensures FreshAppended(front, k, v, whole)
  {
    NotStored(front, k);
    var r := front + [(k, v)];
    forall a, b | 0 <= a < b < |r|
      ensures r[a].0 != r[b].0
    {
      if b == |r| - 1 {
        assert r[a] == front[a];
      }
    }
    forall e | e in r && e != (k, v)
      ensures e in whole && e.0 != k
    {
      var i :| 0 <= i < |r| && r[i] == e;
      assert r[i] == front[i];
    }
    LookupMember(r, (k, v));
  }

  /** Moving one element of a sequence to its back keeps the same elements. */
  lemma MoveToBackSameMembers<T>(s: seq<T>, p: nat)
    requires p < |s|
    ensures forall e :: e in s[..p] + s[p + 1..] + [s[p]] <==> e in s
  {
    assert s == s[..p] + [s[p]] + s[p + 1..];
    assert multiset(s[..p] + s[p + 1..] + [s[p]]) == multiset(s);
  }

  /** Removing no key present leaves the pairs as they are. */
  lemma {:induction false} WithoutNothing<K(!new)>(es: seq<Entry<K>>, dead: set<K>)
    requires forall i :: 0 <= i < |es| ==> es[i].0 !in dead
    ensures Without(es, dead) == es
    decreases |es|
  {
    if |es| > 0 {
      WithoutNothing(es[1..], dead);
    }
  }

  /** With unique keys, removing the key at index `i` cuts out exactly that pair. */
  lemma {:induction false} WithoutOne<K(!new)>(es: seq<Entry<K>>, i: nat)
    requires UniqueKeys(es) && i < |es|
    ensures Without(es, {es[i].0}) == es[..i] + es[i + 1..]
    decreases i
  {
    var tail := es[1..];
    if i == 0 {
      assert forall j :: 0 <= j < |tail| ==> tail[j].0 != es[0].0 by {
        forall j | 0 <= j < |tail|
          ensures tail[j].0 != es[0].0
        {
          assert tail[j] == es[j + 1];
        }
      }
      WithoutNothing(tail, {es[0].0});
    } else {
      UniqueTail(es);
      assert tail[i - 1] == es[i] && es[0].0 != es[i].0;
      WithoutOne(tail, i - 1);
      assert es[..i] + es[i + 1..] == [es[0]] + (tail[..i - 1] + tail[i..]);
    }
  }

  /** Assignment to a key found at position `p` overwrites that pair; to an absent key it appends. */
  lemma {:induction false} AssignShape<K(!new)>(es: seq<Entry<K>>, k: K, v: int)
    ensures Position(es, k) < |es| ==> Assign(es, k, v) == es[Position(es, k) := (k, v)]
    ensures Position(es, k) == |es| ==> Assign(es, k, v) == es + [(k, v)]
    decreases |es|
  {
    if |es| > 0 && es[0].0 != k {
      AssignShape(es[1..], k, v);
      assert es == [es[0]] + es[1..];
    }
  }

  /** A key absent from `a` is found in `a + b` only past `a`. */
  lemma {:induction false} PositionPast<K(!new)>(a: seq<Entry<K>>, b: seq<Entry<K>>, k: K)
    requires k !in KeysOf(a)
    ensures Position(a + b, k) == |a| + Position(b, k)
    decreases |a|
  {
    if |a| > 0 {
      assert Position(a, k) == |a|;
      assert a[0].0 != k;
      assert Position(a[1..], k) == |a| - 1;
      assert (a + b)[0] == a[0];
      assert (a + b)[1..] == a[1..] + b;
      PositionPast(a[1..], b, k);
      assert Position(a + b, k) == 1 + Position(a[1..] + b, k);
    } else {
      assert a + b == b;
    }
  }

  /** `move_to_end` of the key at position `p`, and assignment right after it. */
  lemma MoveToEndShape<K(!new)>(es: seq<Entry<K>>, p: nat, v: int)
    requires UniqueKeys(es) && p < |es|
    ensures MoveToEnd(es, es[p].0) == es[..p] + es[p + 1..] + [es[p]]
    ensures Assign(MoveToEnd(es, es[p].0), es[p].0, v) == es[..p] + es[p + 1..] + [(es[p].0, v)]
  {
    var k := es[p].0;
    assert Position(es, k) == p;
    WithoutOne(es, p);
    CutFacts(es, p);
    var rest := es[..p] + es[p + 1..];
    assert k !in KeysOf(rest);
    PositionPast(rest, [es[p]], k);
    AssignShape(rest + [es[p]], k, v);
  }
}
