/**
 * The duplicate-open cache: a process-wide table from (sender, message id,
 * subject, client IP) to the time that key was last recorded. Times are whole
 * microseconds, the resolution of the clock readings being compared.
 */
module Dedup {

  /** The cache key `(sender, email_id, subject, ip)`. */
  datatype Key = Key(sender: string, emailId: string, subject: string, ip: string)

  /** `CACHE_TIMEOUT`: five minutes, in microseconds. */
  const Window: int := 5 * 60 * 1_000_000

  /** The check under the lock: the key was recorded less than a window before `now`. */
  predicate IsDuplicate(cache: map<Key, int>, key: Key, now: int) {
    key in cache && now - cache[key] < Window
  }

  /**
   * The table after one check-and-mark: a duplicate leaves it as it was,
   * anything else sets the key's entry to `now`. Nothing is ever removed.
   */
  function Mark(cache: map<Key, int>, key: Key, now: int): map<Key, int> {
    if IsDuplicate(cache, key, now) then cache else cache[key := now]
  }

  /**
   * A duplicate leaves the whole table unchanged; any other fetch makes the
   * key's entry `now` and changes no other entry; no key is ever dropped.
   */
  lemma MarkEffect(cache: map<Key, int>, key: Key, now: int)
    ensures cache.Keys <= Mark(cache, key, now).Keys
    ensures IsDuplicate(cache, key, now) ==> Mark(cache, key, now) == cache
    ensures !IsDuplicate(cache, key, now) ==>
              var r := Mark(cache, key, now);
              r.Keys == cache.Keys + {key} && r[key] == now
              && forall k :: k in cache && k != key ==> r[k] == cache[k]
  {
  }

  /** After a recorded open at `t`, the same key is a duplicate at every `t2` in `[t, t + Window)`. */
  lemma SuppressedWithinWindow(cache: map<Key, int>, key: Key, t: int, t2: int)
    requires !IsDuplicate(cache, key, t)
    requires t <= t2 < t + Window
    ensures IsDuplicate(Mark(cache, key, t), key, t2)
  {
  }

  /** `OPEN_CACHE` with the `with lock:` block of `track_open` as one atomic method. */
  class OpenCache {
    var entries: map<Key, int>

    constructor ()
      ensures entries == map[]
    {
      entries := map[];
    }

    method CheckAndMark(key: Key, now: int) returns (dup: bool)
      modifies this
      ensures dup == IsDuplicate(old(entries), key, now)
      ensures entries == Mark(old(entries), key, now)
    {
      if key in entries && now - entries[key] < Window {
        return true;
      }
      entries := entries[key := now];
      return false;
    }
  }

  /** One fetch of the beacon as the cache sees it: its key and the clock reading. */
  datatype Hit = Hit(key: Key, now: int)

  /** The table after a run of fetches, starting from `cache`. */
  function Replay(cache: map<Key, int>, hits: seq<Hit>): map<Key, int>
    decreases |hits|
  {
    if hits == [] then cache
    else
      var last := hits[|hits| - 1];
      Mark(Replay(cache, hits[..|hits| - 1]), last.key, last.now)
  }

  /** Fetch `j` of a run from process start is recorded (logged, and notified if the sender is known). */
  predicate Recorded(hits: seq<Hit>, j: int)
    requires 0 <= j < |hits|
  {
    !IsDuplicate(Replay(map[], hits[..j]), hits[j].key, hits[j].now)
  }

  lemma ReplayStep(cache: map<Key, int>, hits: seq<Hit>, n: int)
    requires 0 <= n < |hits|
    ensures Replay(cache, hits[..n + 1]) == Mark(Replay(cache, hits[..n]), hits[n].key, hits[n].now)
  {
    assert hits[..n + 1][..n] == hits[..n];
  }

  /** The cache's key set never shrinks: there is no eviction. */
  lemma {:induction false} ReplayKeepsKeys(cache: map<Key, int>, hits: seq<Hit>)
    ensures cache.Keys <= Replay(cache, hits).Keys
    decreases |hits|
  {
    if hits != [] {
      ReplayKeepsKeys(cache, hits[..|hits| - 1]);
    }
  }

  /**
   * Once fetch `i` is recorded, the stored time for its key is never below
   * fetch `i`'s time: every later recorded fetch of the key is at least a
   * window later than the entry it replaces.
   */
  lemma {:induction false} StoredNotBefore(hits: seq<Hit>, i: int, n: int)
    requires 0 <= i < n <= |hits|
    requires Recorded(hits, i)
    ensures hits[i].key in Replay(map[], hits[..n])
    ensures Replay(map[], hits[..n])[hits[i].key] >= hits[i].now
    decreases n
  {
    var key := hits[i].key;
    var before := Replay(map[], hits[..n - 1]);
    var h := hits[n - 1];
    ReplayStep(map[], hits, n - 1);
    if n - 1 > i {
      StoredNotBefore(hits, i, n - 1);
      if h.key == key && !IsDuplicate(before, key, h.now) {
        assert h.now - before[key] >= Window;
      }
    }
  }

  /**
   * Within one window at most one fetch per key is recorded: two recorded
   * fetches of the same key are at least `Window` apart, whatever the clock
   * readings (even ones that go backwards).
   */
  lemma AtMostOncePerWindow(hits: seq<Hit>, i: int, j: int)
    requires 0 <= i < j < |hits|
    requires hits[i].key == hits[j].key
    requires Recorded(hits, i) && Recorded(hits, j)
    ensures hits[j].now - hits[i].now >= Window
  {
    StoredNotBefore(hits, i, j);
  }

  /** A stored time is the time of an earlier fetch of that key; keys come only from fetches. */
  lemma {:induction false} StoredFromSomeHit(hits: seq<Hit>, n: int, key: Key)
    requires 0 <= n <= |hits|
    requires key in Replay(map[], hits[..n])
    ensures exists i :: 0 <= i < n && hits[i].key == key && Replay(map[], hits[..n])[key] == hits[i].now
    decreases n
  {
    assert n > 0;
    ReplayStep(map[], hits, n - 1);
    var before := Replay(map[], hits[..n - 1]);
    if hits[n - 1].key == key && !IsDuplicate(before, key, hits[n - 1].now) {
      assert Replay(map[], hits[..n])[key] == hits[n - 1].now;
    } else {
      StoredFromSomeHit(hits, n - 1, key);
    }
  }

  /**
   * A fetch that is at least a window after every earlier fetch of its key
   * (in particular the first fetch of a key) is recorded as a new open.
   */
  lemma NewAfterWindow(hits: seq<Hit>, j: int)
    requires 0 <= j < |hits|
    requires forall i :: 0 <= i < j && hits[i].key == hits[j].key ==> hits[j].now - hits[i].now >= Window
    ensures Recorded(hits, j)
  {
    var cache := Replay(map[], hits[..j]);
    if hits[j].key in cache {
      StoredFromSomeHit(hits, j, hits[j].key);
    }
  }

  /** The positions of the recorded fetches among the first `n` of a run, in increasing order. */
  function RecordedIndices(hits: seq<Hit>, n: int): (r: seq<int>)
    requires 0 <= n <= |hits|
    ensures forall p :: 0 <= p < |r| ==> 0 <= r[p] < n && Recorded(hits, r[p])
    ensures forall p, q :: 0 <= p < q < |r| ==> r[p] < r[q]
    ensures forall i :: 0 <= i < n && Recorded(hits, i) ==> i in r
    decreases n
  {
    if n == 0 then [] else RecordedIndices(hits, n - 1) + (if Recorded(hits, n - 1) then [n - 1] else [])
  }

  /** Later fetches do not change which of the earlier ones were recorded. */
  lemma {:induction false} RecordedIndicesExtend(hits: seq<Hit>, h: Hit, n: int)
    requires 0 <= n <= |hits|
    ensures RecordedIndices(hits + [h], n) == RecordedIndices(hits, n)
    decreases n
  {
    if n > 0 {
      RecordedIndicesExtend(hits, h, n - 1);
      assert (hits + [h])[..n - 1] == hits[..n - 1];
    }
  }

  /** Of the recorded fetches, in order, two with the same key are at least a window apart. */
  lemma RecordedOncePerWindow(hits: seq<Hit>, n: int, p: int, q: int)
    requires 0 <= n <= |hits|
    requires 0 <= p < q < |RecordedIndices(hits, n)|
    requires hits[RecordedIndices(hits, n)[p]].key == hits[RecordedIndices(hits, n)[q]].key
    ensures hits[RecordedIndices(hits, n)[q]].now - hits[RecordedIndices(hits, n)[p]].now >= Window
  {
    var r := RecordedIndices(hits, n);
    AtMostOncePerWindow(hits, r[p], r[q]);
  }
}
