/**
 * Short runs of the cache and of the request store against their
 * contracts, each on a freshly built object.
 */
module Scenarios {
  import opened Wrappers
  import opened Numeric
  import opened Entry
  import opened TtlCache
  import RequestContext

  /** A second Add of a live key fails and the first value stays. */
  method AddTwice() returns (first: Option<CacheError>, second: Option<CacheError>, got: Option<Value>)
    ensures first == None && second == Some(AlreadyExists("k"))
    ensures got == Some(Other(1))
  {
    var c := new Cache(0, map[]);
    first := c.Add("k", Other(1), DefaultExpiration, 100);
    second := c.Add("k", Other(2), DefaultExpiration, 100);
    got := c.Get("k", 100);
  }

  /**
   * An entry set with a duration of 5 is found up to 5 nanoseconds later and
   * not after; one set with NoExpiration is still found much later.
   */
  method ExpiryOverTime() returns (atEnd: Option<Value>, after: Option<Value>, forever: Option<Value>)
    ensures atEnd == Some(Other(1)) && after == None && forever == Some(Other(2))
  {
    var c := new Cache(0, map[]);
    c.Set("a", Other(1), 5, 100);
    c.Set("b", Other(2), NoExpiration, 100);
    atEnd := c.Get("a", 105);
    after := c.Get("a", 106);
    forever := c.Get("b", 1_000_000_000);
  }

  /** Set 10, Increment by 5 gives 15, Decrement by 20 gives -5, and the kind stays int. */
  method CounterRoundTrip() returns (afterInc: Option<Value>, afterDec: Option<Value>)
    ensures afterInc == Some(Integer(Int, 15)) && afterDec == Some(Integer(Int, -5))
  {
    var c := new Cache(0, map[]);
    c.Set("n", Integer(Int, 10), DefaultExpiration, 0);
    var e1 := c.Increment("n", 5, 0);
    afterInc := c.Get("n", 0);
    var e2 := c.Decrement("n", 20, 0);
    afterDec := c.Get("n", 0);
  }

  /**
   * Increment of a missing key reports NotFound and leaves the mutex held,
   * so no further operation can run; Decrement of a missing key releases it
   * and can be repeated.
   */
  method MissingKeyLocks() returns (inc: Option<CacheError>, dec1: Option<CacheError>, dec2: Option<CacheError>, stuck: bool)
    ensures dec1 == Some(NotFound("x")) && dec2 == Some(NotFound("x"))
    ensures inc == Some(NotFound("x")) && stuck
  {
    var c := new Cache(0, map[]);
    dec1 := c.Decrement("x", 1, 0);
    dec2 := c.Decrement("x", 1, 0);
    inc := c.Increment("x", 1, 0);
    stuck := c.locked;
  }

  /** Increment of a non-numeric value reports NotNumeric, keeps the value, and leaves the mutex held. */
  method NotNumericKeepsValue() returns (err: Option<CacheError>, stored: Item, stuck: bool)
    ensures err == Some(NotNumeric("s")) && stored == Item(Other(3), 0) && stuck
  {
    var c := new Cache(0, map["s" := Item(Other(3), 0)]);
    err := c.Increment("s", 1, 0);
    stored := c.items["s"];
    stuck := c.locked;
  }

  /**
   * With a callback registered, Delete of a present key calls it once with
   * the prior value; Flush of the remaining entries calls it not at all.
   */
  method DeleteNotifiesFlushDoesNot() returns (afterDelete: seq<Notice>, afterFlush: seq<Notice>, count: nat)
    ensures afterDelete == [Notice(7, "a", Other(1))]
    ensures afterFlush == afterDelete && count == 0
  {
    var c := new Cache(0, map[]);
    c.OnEvicted(Some(7));
    c.Set("a", Other(1), DefaultExpiration, 0);
    assert c.items == map["a" := Item(Other(1), 0)] && c.notices == [];
    c.Set("b", Other(2), DefaultExpiration, 0);
    assert c.items == map["a" := Item(Other(1), 0), "b" := Item(Other(2), 0)];
    c.Delete("a");
    assert c.items == map["b" := Item(Other(2), 0)];
    assert c.notices == [Notice(7, "a", Other(1))];
    c.Delete("zzz");
    assert c.notices == [Notice(7, "a", Other(1))];
    afterDelete := c.notices;
    c.Flush();
    afterFlush := c.notices;
    count := c.ItemCount();
  }

  /**
   * A sweep removes the entry that lapsed, keeps the other, notifies once,
   * and ends with an unlock of a free mutex. In Go that second unlock is a
   * fatal error, so the state read after DeleteExpired here is the state the
   * sweep leaves behind, not one a running program would go on to observe.
   */
  method SweepOnce() returns (count: nat, log: seq<Notice>, faults: nat)
    ensures count == 1 && log == [Notice(7, "old", Other(1))] && faults == 1
  {
    var start := map["old" := Item(Other(1), 50), "new" := Item(Other(2), 500)];
    var c := new Cache(0, start);
    c.OnEvicted(Some(7));
    assert ExpiredKeys(start, 100) == {"old"};
    assert Unexpired(start, 100) == map["new" := Item(Other(2), 500)];
    c.DeleteExpired(100);
    count := c.ItemCount();
    log := c.notices;
    faults := c.unlockFaults;
    assert log == log[0..];
    SweepNoticesCount(log, start, 100, 7);
    assert log[0].key == "old";
  }

  /**
   * An entry with a negative expiration, as NewFrom may supply, is invisible
   * to Get while Add still refuses the key.
   */
  method NegativeExpirationSplit() returns (got: Option<Value>, added: Option<CacheError>)
    ensures got == None && added == Some(AlreadyExists("k"))
  {
    var c := new Cache(0, map["k" := Item(Other(1), -1)]);
    got := c.Get("k", 0);
    added := c.Add("k", Other(2), DefaultExpiration, 0);
  }

  /**
   * Two Sets for one request keep the first timestamp; Get and GetOK then
   * see the value, and Purge with a positive age removes that request only
   * once its stamp is old enough.
   */
  method RequestLifecycle() returns (v: RequestContext.Any, found: bool, stamp: int, kept: nat, dropped: nat)
    ensures v == RequestContext.Ref(2) && found && stamp == 10
    ensures kept == 0 && dropped == 1
  {
    var ctx := new RequestContext.Context();
    ctx.Set(1, RequestContext.Ref(0), RequestContext.Ref(1), 10);
    ctx.Set(1, RequestContext.Ref(0), RequestContext.Ref(2), 20);
    v := ctx.Get(1, RequestContext.Ref(0));
    var w;
    w, found := ctx.GetOK(1, RequestContext.Ref(0));
    stamp := ctx.datat[1];
    assert ctx.datat == map[1 := 10];
    kept := ctx.Purge(10, 20);
    assert RequestContext.Stale(map[1 := 10], 10) == {};
    assert ctx.datat == map[1 := 10];
    dropped := ctx.Purge(5, 20);
    assert RequestContext.Stale(map[1 := 10], 15) == {1};
  }
}
