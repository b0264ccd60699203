/**
 * The per-request attribute store of context/context.go: the package-level
 * tables `data` (request to its key/value map) and `datat` (request to the
 * Unix second its map was created), held here as the fields of one object.
 * Requests are opaque identities; the clock is the parameter `now`.
 */
module RequestContext {
  import opened Wrappers

  /** The identity of an `*http.Request`. */
  type Request = nat

  /** An `interface{}` key or value: nil, or an opaque non-nil value. */
  datatype Any = Nil | Ref(id: nat)

  /** The requests whose maps were created before min. */
  function Stale(datat: map<Request, int>, min: int): set<Request> {
    set r | r in datat && datat[r] < min
  }

  /** The entries of t whose request is not stale at min by the timestamps in datat. */
  function KeepFresh<T>(t: map<Request, T>, datat: map<Request, int>, min: int): map<Request, T> {
    map r | r in t && r in datat && datat[r] >= min :: t[r]
  }

  /**
   * The entries of t that a Purge still in progress has kept: those not yet
   * visited and those not stale at min.
   */
  function Survivors<T>(t: map<Request, T>, datat: map<Request, int>, pending: set<Request>, min: int): map<Request, T> {
    map r | r in t && r in datat && (r in pending || datat[r] >= min) :: t[r]
  }

  lemma SurvivorsStep<T>(t: map<Request, T>, datat: map<Request, int>, pending: set<Request>, min: int, r: Request)
    requires r in pending && r in datat
    ensures datat[r] < min ==> Survivors(t, datat, pending - {r}, min) == Survivors(t, datat, pending, min) - {r}
    ensures datat[r] >= min ==> Survivors(t, datat, pending - {r}, min) == Survivors(t, datat, pending, min)
  {
  }

  lemma SurvivorsDone<T>(t: map<Request, T>, datat: map<Request, int>, min: int)
    ensures Survivors(t, datat, {}, min) == KeepFresh(t, datat, min)
  {
  }

  /**
   * Purge's count and what it keeps add up to what was there: the stale
   * requests and the kept ones partition the requests.
   */
  lemma {:induction false} PurgePartition(datat: map<Request, int>, min: int)
    ensures |Stale(datat, min)| + |KeepFresh(datat, datat, min)| == |datat|
    ensures Stale(datat, min) !! KeepFresh(datat, datat, min).Keys
  {
    var kept := KeepFresh(datat, datat, min);
    assert datat.Keys == Stale(datat, min) + kept.Keys;
    assert Stale(datat, min) !! kept.Keys;
    assert |datat.Keys| == |Stale(datat, min)| + |kept.Keys|;
  }

  class Context {
    var data: map<Request, map<Any, Any>>
    var datat: map<Request, int>

    /** Every request with an attribute map has a timestamp, and no other has one. */
    ghost predicate Valid()
      reads this
    {
      data.Keys == datat.Keys
    }

    /** The tables as the package initialises them: both empty. */
    constructor ()
      ensures Valid() && data == map[] && datat == map[]
    {
      data := map[];
      datat := map[];
    }

    /** `Get`: the value of key in r's map; nil when r has no map or the key is missing. */
    method Get(r: Request, key: Any) returns (v: Any)
      ensures r in data && key in data[r] ==> v == data[r][key]
      ensures !(r in data && key in data[r]) ==> v == Nil
    {
      if r in data {
        var ctx := data[r];
        return if key in ctx then ctx[key] else Nil;
      }
      return Nil;
    }

    /** `GetOK`: the value of key in r's map and whether it is there. */
    method GetOK(r: Request, key: Any) returns (v: Any, found: bool)
      ensures found <==> r in data && key in data[r]
      ensures found ==> v == data[r][key]
      ensures !found ==> v == Nil
    {
      if r in data {
        var ctx := data[r];
        if key in ctx {
          return ctx[key], true;
        }
        return Nil, false;
      }
      return Nil, false;
    }

    /** `GetAll`: a copy of r's map, or None (Go's nil map) when r has none. */
    method GetAll(r: Request) returns (m: Option<map<Any, Any>>)
      ensures m.Some? <==> r in data
      ensures m.Some? ==> m.value == data[r]
    {
      if r !in data {
        return None;
      }
      var ctx := data[r];
      var copy: map<Any, Any> := map[];
      var pending := ctx.Keys;
      while pending != {}
        invariant pending <= ctx.Keys
        invariant copy.Keys == ctx.Keys - pending
        invariant forall k :: k in copy ==> copy[k] == ctx[k]
        decreases pending
      {
        var k :| k in pending;
        copy := copy[k := ctx[k]];
        pending := pending - {k};
      }
      return Some(copy);
    }

    /**
     * `Set`: stores val under key in r's map. The first Set for r creates
     * the map and stamps it with now; later ones keep the stamp. Other
     * requests are untouched.
     */
    method Set(r: Request, key: Any, val: Any, now: int)
      requires Valid()
      modifies this
      ensures Valid()
      ensures r in old(data) ==> data == old(data)[r := old(data)[r][key := val]] && datat == old(datat)
      ensures r !in old(data) ==> data == old(data)[r := map[key := val]] && datat == old(datat)[r := now]
    {
      if r !in data {
        data := data[r := map[]];
        datat := datat[r := now];
      }
      data := data[r := data[r][key := val]];
    }

    /** `Delete`: removes key from r's map only, keeping r's stamp; nothing when r is unknown. */
    method Delete(r: Request, key: Any)
      requires Valid()
      modifies this
      ensures Valid()
      ensures data == if r in old(data) then old(data)[r := old(data)[r] - {key}] else old(data)
      ensures datat == old(datat)
    {
      if r in data {
        data := data[r := data[r] - {key}];
      }
    }

    /** `Clear` and the lock-free `clear`: forgets r in both tables. */
    method Clear(r: Request)
      requires Valid()
      modifies this
      ensures Valid()
      ensures data == old(data) - {r} && datat == old(datat) - {r}
    {
      data := data - {r};
      datat := datat - {r};
    }

    /**
     * `Purge`: with maxAge <= 0 empties both tables and returns how many
     * requests there were; otherwise removes exactly the requests stamped
     * before now - maxAge and returns how many it removed.
     */
    method Purge(maxAge: int, now: int) returns (cnt: nat)
      requires Valid()
      modifies this
      ensures Valid()
      ensures maxAge <= 0 ==> cnt == |old(data)| && data == map[] && datat == map[]
      ensures maxAge > 0 ==>
        && cnt == |Stale(old(datat), now - maxAge)|
        && data == KeepFresh(old(data), old(datat), now - maxAge)
        && datat == KeepFresh(old(datat), old(datat), now - maxAge)
    {
      cnt := 0;
      if maxAge <= 0 {
        cnt := |data|;
        data := map[];
        datat := map[];
        return;
      }
      var min := now - maxAge;
      ghost var startData, startT := data, datat;
      ghost var removed: set<Request> := {};
      var pending := datat.Keys;
      while pending != {}
        invariant Valid()
        invariant pending <= startT.Keys
        invariant datat == Survivors(startT, startT, pending, min)
        invariant data == Survivors(startData, startT, pending, min)
        invariant removed == Stale(startT, min) - pending
        invariant cnt == |removed|
        decreases pending
      {
        var r :| r in pending;
        SurvivorsStep(startT, startT, pending, min, r);
        SurvivorsStep(startData, startT, pending, min, r);
        if datat[r] < min {
          cnt := cnt + 1;
          Clear(r);
          removed := removed + {r};
        }
        pending := pending - {r};
      }
      SurvivorsDone(startT, startT, min);
      SurvivorsDone(startData, startT, min);
    }
  }
}
