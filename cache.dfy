/**
 * The TTL cache engine of cache/mycache.go: a map from string keys to
 * entries, guarded by one mutex, with an optional eviction callback.
 *
 * The mutex is the flag `locked`. A public operation needs it free (taking a
 * held lock blocks forever in a single-threaded run); the lock-free
 * variants `set`, `get` and `delete` need it held. Unlocking a free mutex is
 * a fatal error in Go; `unlockFaults` counts such unlocks. The callback is
 * identified by a number, and every call made to it is appended to
 * `notices`.
 */
module TtlCache {
  import opened Wrappers
  import opened Numeric
  import opened Entry

  /** The errors the cache returns, one per message in the source. */
  datatype CacheError =
    | AlreadyExists(key: string)   // Add: "item %s already exists"
    | DoesNotExist(key: string)    // Replace: "item %s do not exists"
    | NotFound(key: string)        // Increment, Decrement: "item %s not found"
    | NotNumeric(key: string)      // Increment: "item %s is not numeric"
    | NotAnInteger(key: string)    // Decrement: "The value for %s is not an integer"

  type CallbackId = nat

  /** One call of the eviction callback `callback` with a key and its value. */
  datatype Notice = Notice(callback: CallbackId, key: string, obj: Value)

  /** A pair collected by DeleteExpired for notification after unlocking. */
  datatype KeyAndValue = KeyAndValue(key: string, value: Value)

  /** The absolute time GetWithExpiration reports: Go's zero Time, or an instant. */
  datatype Time = ZeroTime | UnixNanos(ns: int)

  /**
   * The entries of m that are not expired at time now: a sub-map of m whose
   * keys, together with the expired keys, make up all of m's keys.
   */
  function Unexpired(m: map<string, Item>, now: int): (live: map<string, Item>)
    ensures live.Keys <= m.Keys && forall k :: k in live ==> live[k] == m[k]
    ensures forall k :: k in live ==> !live[k].Expired(now)
    ensures live.Keys + ExpiredKeys(m, now) == m.Keys
  {
    map k | k in m && !m[k].Expired(now) :: m[k]
  }

  /** The keys of m whose entries are expired at time now. */
  function ExpiredKeys(m: map<string, Item>, now: int): set<string> {
    set k | k in m && m[k].Expired(now)
  }

  /**
   * The live view never holds more entries than the map, and holds as many
   * exactly when nothing in the map has expired: ItemCount counts expired
   * entries that Items leaves out.
   */
  lemma {:induction false} UnexpiredSize(m: map<string, Item>, now: int)
    ensures |Unexpired(m, now)| + |ExpiredKeys(m, now)| == |m|
    ensures |Unexpired(m, now)| == |m| <==> ExpiredKeys(m, now) == {}
  {
    var live := Unexpired(m, now);
    assert m.Keys == live.Keys + ExpiredKeys(m, now);
    assert live.Keys !! ExpiredKeys(m, now);
    assert |m.Keys| == |live.Keys| + |ExpiredKeys(m, now)|;
  }

  /**
   * The pairs the sweep collects: none when no callback is registered;
   * otherwise each key of m expired at time now exactly once, with its value.
   */
  ghost predicate SweptPairs(pairs: seq<KeyAndValue>, m: map<string, Item>, now: int, registered: bool) {
    if !registered then pairs == [] else
      && (forall i :: 0 <= i < |pairs| ==>
            pairs[i].key in m && m[pairs[i].key].Expired(now) && pairs[i].value == m[pairs[i].key].obj)
      && (forall i, j :: 0 <= i < j < |pairs| ==> pairs[i].key != pairs[j].key)
      && (forall k :: k in m && m[k].Expired(now) ==> exists i :: 0 <= i < |pairs| && pairs[i].key == k)
  }

  /** The key and value each call of a batch carries, in order. */
  function PairsOf(batch: seq<Notice>): seq<KeyAndValue> {
    seq(|batch|, i requires 0 <= i < |batch| => KeyAndValue(batch[i].key, batch[i].obj))
  }

  /** The callback calls made for a list of collected pairs, in order. */
  function NoticesFor(cb: CallbackId, pairs: seq<KeyAndValue>): (r: seq<Notice>)
    ensures forall i :: 0 <= i < |r| ==> r[i].callback == cb
    ensures PairsOf(r) == pairs
  {
    seq(|pairs|, i requires 0 <= i < |pairs| => Notice(cb, pairs[i].key, pairs[i].value))
  }

  /**
   * The calls DeleteExpired makes to the callback: none when no callback is
   * registered; otherwise calls of that callback whose keys and values are
   * the pairs a sweep collects.
   */
  ghost predicate SweepNotices(batch: seq<Notice>, m: map<string, Item>, now: int, cb: Option<CallbackId>) {
    if cb.None? then batch == [] else
      && (forall i :: 0 <= i < |batch| ==> batch[i].callback == cb.value)
      && SweptPairs(PairsOf(batch), m, now, true)
  }

  /** The keys the notices of batch carry. */
  function NoticeKeys(batch: seq<Notice>): set<string> {
    set i | 0 <= i < |batch| :: batch[i].key
  }

  lemma {:induction false} DistinctNoticeKeys(batch: seq<Notice>)
    requires forall i, j :: 0 <= i < j < |batch| ==> batch[i].key != batch[j].key
    ensures |NoticeKeys(batch)| == |batch|
  {
    if batch != [] {
      var init, last := batch[..|batch| - 1], batch[|batch| - 1];
      DistinctNoticeKeys(init);
      assert NoticeKeys(batch) == NoticeKeys(init) + {last.key};
      assert last.key !in NoticeKeys(init);
    }
  }

  /**
   * With a callback registered, a sweep makes exactly as many calls as
   * there are expired entries, one per expired key.
   */
  lemma {:induction false} SweepNoticesCount(batch: seq<Notice>, m: map<string, Item>, now: int, cb: CallbackId)
    requires SweepNotices(batch, m, now, Some(cb))
    ensures NoticeKeys(batch) == ExpiredKeys(m, now)
    ensures |batch| == |ExpiredKeys(m, now)|
  {
    var pairs := PairsOf(batch);
    forall k | k in ExpiredKeys(m, now) ensures k in NoticeKeys(batch) {
      var i :| 0 <= i < |pairs| && pairs[i].key == k;
      assert batch[i].key == k;
    }
    forall k | k in NoticeKeys(batch) ensures k in ExpiredKeys(m, now) {
      var i :| 0 <= i < |batch| && batch[i].key == k;
      assert pairs[i].key == k;
    }
    forall i, j | 0 <= i < j < |batch| ensures batch[i].key != batch[j].key {
      assert pairs[i].key != pairs[j].key;
    }
    DistinctNoticeKeys(batch);
  }

  class Cache {
    var defaultExpiration: int
    var items: map<string, Item>
    var locked: bool
    var unlockFaults: nat
    var onEvicted: Option<CallbackId>
    var notices: seq<Notice>

    /**
     * `newCache`: a default duration of 0 is rewritten as -1 (no expiration);
     * the entries are taken as given, as NewFrom passes them.
     */
    constructor (d: int, m: map<string, Item>)
      ensures defaultExpiration == (if d == 0 then NoExpiration else d)
      ensures items == m && !locked && unlockFaults == 0
      ensures onEvicted == None && notices == []
    {
      defaultExpiration := if d == 0 then -1 else d;
      items := m;
      locked := false;
      unlockFaults := 0;
      onEvicted := None;
      notices := [];
    }

    method Lock()
      requires !locked
      modifies this`locked
      ensures locked
    {
      locked := true;
    }

    method Unlock()
      modifies this`locked, this`unlockFaults
      ensures !locked
      ensures unlockFaults == old(unlockFaults) + (if old(locked) then 0 else 1)
    {
      if !locked {
        unlockFaults := unlockFaults + 1;
      }
      locked := false;
    }

    /** A call of the registered eviction callback. */
    method Evict(key: string, v: Value)
      requires onEvicted.Some?
      modifies this`notices
      ensures notices == old(notices) + [Notice(onEvicted.value, key, v)]
    {
      notices := notices + [Notice(onEvicted.value, key, v)];
    }

    /** `set`: overwrite key with the caller already holding the lock. */
    method SetLocked(key: string, val: Value, d: int, now: int)
      requires locked
      modifies this`items
      ensures items == old(items)[key := Item(val, ExpirationFor(d, defaultExpiration, now))]
    {
      var e := 0;
      var ttl := d;
      if ttl == DefaultExpiration {
        ttl := defaultExpiration;
      }
      if ttl > 0 {
        e := now + ttl;
      }
      items := items[key := Item(val, e)];
    }

    /**
     * `Set`: overwrite key unconditionally; no other key changes and no
     * eviction notice is produced.
     */
    method Set(key: string, val: Value, d: int, now: int)
      requires !locked
      modifies this`items, this`locked, this`unlockFaults
      ensures items == old(items)[key := Item(val, ExpirationFor(d, defaultExpiration, now))]
      ensures !locked && unlockFaults == old(unlockFaults)
    {
      Lock();
      SetLocked(key, val, d, now);
      Unlock();
    }

    /** `SetDefault`: Set with the default duration. */
    method SetDefault(key: string, val: Value, now: int)
      requires !locked
      modifies this`items, this`locked, this`unlockFaults
      ensures items == old(items)[key := Item(val, ExpirationFor(DefaultExpiration, defaultExpiration, now))]
      ensures !locked && unlockFaults == old(unlockFaults)
    {
      Set(key, val, DefaultExpiration, now);
    }

    /**
     * `get`: the lock-free lookup used by Add and Replace. It finds key when
     * present and live by the `> 0` test.
     */
    function GetLocked(key: string, now: int): (r: Option<Value>)
      requires locked
      reads this
      ensures r.Some? <==> key in items && items[key].LiveForGet(now)
      ensures r.Some? ==> r.value == items[key].obj
    {
      if key !in items then None
      else if items[key].expiration > 0 && now > items[key].expiration then None
      else Some(items[key].obj)
    }

    /**
     * `Add`: fails, changing nothing, when key holds an entry `get` sees as
     * live; otherwise writes exactly as Set does.
     */
    method Add(key: string, val: Value, d: int, now: int) returns (err: Option<CacheError>)
      requires !locked
      modifies this`items, this`locked, this`unlockFaults
      ensures err.Some? <==> key in old(items) && old(items)[key].LiveForGet(now)
      ensures err.Some? ==> err.value == AlreadyExists(key) && items == old(items)
      ensures err.None? ==> items == old(items)[key := Item(val, ExpirationFor(d, defaultExpiration, now))]
      ensures !locked && unlockFaults == old(unlockFaults)
    {
      Lock();
      if GetLocked(key, now).Some? {
        Unlock();
        return Some(AlreadyExists(key));
      }
      SetLocked(key, val, d, now);
      Unlock();
      return None;
    }

    /**
     * `Replace`: fails, changing nothing, unless key holds an entry `get`
     * sees as live; otherwise writes exactly as Set does.
     */
    method Replace(key: string, val: Value, d: int, now: int) returns (err: Option<CacheError>)
      requires !locked
      modifies this`items, this`locked, this`unlockFaults
      ensures err.Some? <==> !(key in old(items) && old(items)[key].LiveForGet(now))
      ensures err.Some? ==> err.value == DoesNotExist(key) && items == old(items)
      ensures err.None? ==> items == old(items)[key := Item(val, ExpirationFor(d, defaultExpiration, now))]
      ensures !locked && unlockFaults == old(unlockFaults)
    {
      Lock();
      if GetLocked(key, now).None? {
        Unlock();
        return Some(DoesNotExist(key));
      }
      SetLocked(key, val, d, now);
      Unlock();
      return None;
    }

    /** `Get`: the stored value exactly when key is present and not expired. */
    method Get(key: string, now: int) returns (r: Option<Value>)
      requires !locked
      ensures r.Some? <==> key in items && !items[key].Expired(now)
      ensures r.Some? ==> r.value == items[key].obj
    {
      if key !in items || items[key].Expired(now) {
        return None;
      }
      return Some(items[key].obj);
    }

    /**
     * `GetWithExpiration`: like `get`, and also the expiration instant,
     * which is the zero Time for an entry whose expiration is not positive.
     */
    method GetWithExpiration(key: string, now: int) returns (r: Option<Value>, t: Time)
      requires !locked
      ensures r.Some? <==> key in items && items[key].LiveForGet(now)
      ensures r.Some? ==> r.value == items[key].obj
      ensures t.UnixNanos? <==> r.Some? && items[key].expiration > 0
      ensures t.UnixNanos? ==> t.ns == items[key].expiration && now <= t.ns
    {
      if key !in items {
        return None, ZeroTime;
      }
      var item := items[key];
      if item.expiration > 0 {
        if now > item.expiration {
          return None, ZeroTime;
        }
        return Some(item.obj), UnixNanos(item.expiration);
      }
      return Some(item.obj), ZeroTime;
    }

    /**
     * `Increment`: adds n to a live numeric entry, keeping its kind and
     * expiration. Its two failure branches return without unlocking, so the
     * cache stays locked and every later operation blocks.
     */
    method Increment(key: string, n: Int64, now: int) returns (err: Option<CacheError>)
      requires !locked
      modifies this`items, this`locked, this`unlockFaults
      ensures key !in old(items) || old(items)[key].Expired(now) ==>
        err == Some(NotFound(key)) && items == old(items) && locked
      ensures key in old(items) && !old(items)[key].Expired(now) && Incremented(old(items)[key].obj, n).None? ==>
        err == Some(NotNumeric(key)) && items == old(items) && locked
      ensures key in old(items) && !old(items)[key].Expired(now) && Incremented(old(items)[key].obj, n).Some? ==>
        && err.None? && !locked
        && items == old(items)[key := Item(Incremented(old(items)[key].obj, n).value, old(items)[key].expiration)]
      ensures unlockFaults == old(unlockFaults)
    {
      Lock();
      if key !in items || items[key].Expired(now) {
        return Some(NotFound(key));
      }
      var item := items[key];
      var r := Incremented(item.obj, n);
      if r.None? {
        return Some(NotNumeric(key));
      }
      items := items[key := Item(r.value, item.expiration)];
      Unlock();
      return None;
    }

    /**
     * `Decrement`: subtracts n from a live numeric entry, keeping its kind
     * and expiration, and releases the lock on every path.
     */
    method Decrement(key: string, n: Int64, now: int) returns (err: Option<CacheError>)
      requires !locked
      modifies this`items, this`locked, this`unlockFaults
      ensures key !in old(items) || old(items)[key].Expired(now) ==>
        err == Some(NotFound(key)) && items == old(items)
      ensures key in old(items) && !old(items)[key].Expired(now) && Decremented(old(items)[key].obj, n).None? ==>
        err == Some(NotAnInteger(key)) && items == old(items)
      ensures key in old(items) && !old(items)[key].Expired(now) && Decremented(old(items)[key].obj, n).Some? ==>
        && err.None?
        && items == old(items)[key := Item(Decremented(old(items)[key].obj, n).value, old(items)[key].expiration)]
      ensures !locked && unlockFaults == old(unlockFaults)
    {
      Lock();
      if key !in items || items[key].Expired(now) {
        Unlock();
        return Some(NotFound(key));
      }
      var item := items[key];
      var r := Decremented(item.obj, n);
      if r.None? {
        Unlock();
        return Some(NotAnInteger(key));
      }
      items := items[key := Item(r.value, item.expiration)];
      Unlock();
      return None;
    }

    /**
     * `delete`: removes key, with the caller holding the lock, and returns
     * its value only when a callback is registered and key was present.
     */
    method DeleteLocked(key: string) returns (v: Option<Value>)
      requires locked
      modifies this`items
      ensures items == old(items) - {key}
      ensures v == if onEvicted.Some? && key in old(items) then Some(old(items)[key].obj) else None
    {
      if onEvicted.Some? && key in items {
        v := Some(items[key].obj);
        items := items - {key};
        return;
      }
      items := items - {key};
      v := None;
    }

    /**
     * `Delete`: removes key, expired or not, and after unlocking calls the
     * callback with the prior value exactly when one is registered and key
     * was present.
     */
    method Delete(key: string)
      requires !locked
      modifies this`items, this`locked, this`unlockFaults, this`notices
      ensures items == old(items) - {key}
      ensures notices == old(notices) +
        (if onEvicted.Some? && key in old(items) then [Notice(onEvicted.value, key, old(items)[key].obj)] else [])
      ensures !locked && unlockFaults == old(unlockFaults)
    {
      Lock();
      var v := DeleteLocked(key);
      Unlock();
      if v.Some? {
        Evict(key, v.value);
      }
    }

    /**
     * The scan of DeleteExpired, run with the lock held: removes every entry
     * expired at time now and, when a callback is registered, collects each
     * removed key with its value.
     */
    method SweepLocked(now: int) returns (evicted: seq<KeyAndValue>)
      requires locked
      modifies this`items
      ensures items == Unexpired(old(items), now)
      ensures SweptPairs(evicted, old(items), now, onEvicted.Some?)
    {
      evicted := [];
      ghost var start := items;
      var pending := items.Keys;
      while pending != {}
        invariant pending <= start.Keys
        invariant items == map k | k in start && (k in pending || !start[k].Expired(now)) :: start[k]
        invariant onEvicted.None? ==> evicted == []
        invariant forall i :: 0 <= i < |evicted| ==>
          && evicted[i].key in start && evicted[i].key !in pending
          && start[evicted[i].key].Expired(now) && evicted[i].value == start[evicted[i].key].obj
        invariant forall i, j :: 0 <= i < j < |evicted| ==> evicted[i].key != evicted[j].key
        invariant onEvicted.Some? ==> forall k :: k in start && k !in pending && start[k].Expired(now) ==>
          exists i :: 0 <= i < |evicted| && evicted[i].key == k
        decreases pending
      {
        var key :| key in pending;
        ghost var before := evicted;
        if items[key].Expired(now) {
          var v := DeleteLocked(key);
          if v.Some? {
            evicted := evicted + [KeyAndValue(key, v.value)];
          }
        }
        pending := pending - {key};
        forall k | onEvicted.Some? && k in start && k !in pending && start[k].Expired(now)
          ensures exists i :: 0 <= i < |evicted| && evicted[i].key == k
        {
          if k == key {
            assert evicted[|evicted| - 1].key == k;
          } else {
            var i :| 0 <= i < |before| && before[i].key == k;
            assert evicted[i].key == k;
          }
        }
      }
      assert items == Unexpired(start, now);
    }

    /** The notification loop of DeleteExpired: one callback call per collected pair, in order. */
    method NotifyEvicted(evicted: seq<KeyAndValue>)
      requires |evicted| > 0 ==> onEvicted.Some?
      modifies this`notices
      ensures |evicted| > 0 ==> notices == old(notices) + NoticesFor(onEvicted.value, evicted)
      ensures |evicted| == 0 ==> notices == old(notices)
    {
      var i := 0;
      while i < |evicted|
        invariant 0 <= i <= |evicted|
        invariant |notices| == |old(notices)| + i && notices[..|old(notices)|] == old(notices)
        invariant forall j :: 0 <= j < i ==>
          notices[|old(notices)| + j] == Notice(onEvicted.value, evicted[j].key, evicted[j].value)
      {
        Evict(evicted[i].key, evicted[i].value);
        i := i + 1;
      }
    }

    /**
     * `DeleteExpired`: removes exactly the expired entries, then calls the
     * callback once per removed entry. It unlocks explicitly and again in a
     * deferred call, so every sweep ends with one unlock of a free mutex.
     */
    method DeleteExpired(now: int)
      requires !locked
      modifies this`items, this`locked, this`unlockFaults, this`notices
      ensures items == Unexpired(old(items), now)
      ensures |old(notices)| <= |notices| && notices[..|old(notices)|] == old(notices)
      ensures SweepNotices(notices[|old(notices)|..], old(items), now, onEvicted)
      ensures !locked && unlockFaults == old(unlockFaults) + 1
    {
      Lock();
      var evicted := SweepLocked(now);
      Unlock();
      NotifyEvicted(evicted);
      assert notices[|old(notices)|..] == if onEvicted.Some? then NoticesFor(onEvicted.value, evicted) else [];
      Unlock();
    }

    /** `OnEvicted`: installs f, replacing any earlier callback (None clears it). */
    method OnEvicted(f: Option<CallbackId>)
      requires !locked
      modifies this`onEvicted, this`locked, this`unlockFaults
      ensures onEvicted == f
      ensures !locked && unlockFaults == old(unlockFaults)
    {
      Lock();
      onEvicted := f;
      Unlock();
    }

    /** `Items`: a fresh map holding exactly the entries not expired at time now. */
    method Items(now: int) returns (m: map<string, Item>)
      requires !locked
      ensures forall k :: k in m <==> k in items && !items[k].Expired(now)
      ensures forall k :: k in m ==> m[k] == items[k]
      ensures m == Unexpired(items, now)
    {
      m := map[];
      var pending := items.Keys;
      while pending != {}
        invariant pending <= items.Keys
        invariant forall k :: k in m <==> k in items && k !in pending && !items[k].Expired(now)
        invariant forall k :: k in m ==> m[k] == items[k]
        decreases pending
      {
        var key :| key in pending;
        if !items[key].Expired(now) {
          m := m[key := items[key]];
        }
        pending := pending - {key};
      }
    }

    /** `ItemCount`: the size of the map, expired entries included. */
    method ItemCount() returns (n: nat)
      requires !locked
      ensures n == |items|
    {
      n := |items|;
    }

    /** `Flush`: empties the map without calling the callback. */
    method Flush()
      requires !locked
      modifies this`items, this`locked, this`unlockFaults
      ensures items == map[] && !locked && unlockFaults == old(unlockFaults)
    {
      Lock();
      items := map[];
      Unlock();
    }
  }
}
