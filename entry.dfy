/**
 * The cache's stored values and entries (`Item` in cache/mycache.go): what
 * an entry holds, when it counts as expired, and what Increment and
 * Decrement turn a stored value into.
 */
module Entry {
  import opened Wrappers
  import opened Numeric

  datatype FloatKind = Float32 | Float64

  /** One float adjustment, recorded rather than computed. */
  datatype FloatStep = Plus(delta: Int64) | Minus(delta: Int64)

  /**
   * A stored `interface{}` value. Integers carry their Go kind; a float keeps
   * its kind, an identity for its starting value and the adjustments applied
   * to it (float rounding is not modelled); anything else, nil included, is
   * an opaque value identified by `id`.
   */
  datatype Object =
    | Integer(kind: IntKind, value: int)
    | Float(fkind: FloatKind, start: nat, steps: seq<FloatStep>)
    | Other(id: nat)

  /** Go's types guarantee that an integer of a kind fits that kind. */
  predicate WellFormed(o: Object) {
    o.Integer? ==> InRange(o.kind, o.value)
  }

  type Value = o: Object | WellFormed(o) witness Other(0)

  /**
   * An entry: the value and its absolute expiration in Unix nanoseconds;
   * 0 means it never expires.
   */
  datatype Item = Item(obj: Value, expiration: int) {

    /** `Item.Expired`: any nonzero expiration, negative ones included, lapses once now passes it. */
    predicate Expired(now: int) {
      expiration != 0 && now > expiration
    }

    /** The test of the lock-free `get` and of GetWithExpiration: only a positive expiration lapses. */
    predicate LiveForGet(now: int) {
      !(expiration > 0 && now > expiration)
    }
  }

  /** The two expiry tests agree on every entry whose expiration is not negative. */
  lemma ExpiryTestsAgree(it: Item, now: int)
    requires it.expiration >= 0
    ensures it.Expired(now) <==> !it.LiveForGet(now)
  {
  }

  /**
   * An entry with a negative expiration (supplied through NewFrom, or
   * written by a Set, Add or Replace whose expiry lies past the year 2262,
   * where Go's int64 nanosecond count wraps) is expired for Get, Increment, Decrement, Items and DeleteExpired, yet live
   * for `get`, GetWithExpiration, Add and Replace.
   */
  lemma ExpiryTestsDisagreeOnNegative(it: Item, now: int)
    requires it.expiration < 0 && now > it.expiration
    ensures it.Expired(now) && it.LiveForGet(now)
  {
  }

  /** The sentinel durations of cache/mycache.go. */
  const NoExpiration: int := -1
  const DefaultExpiration: int := 0

  /**
   * The duration that Set and set actually apply: the default sentinel is
   * replaced by the cache's default.
   */
  function EffectiveTtl(d: int, defaultTtl: int): int {
    if d == DefaultExpiration then defaultTtl else d
  }

  /** The absolute expiration Set and set compute at time now. */
  function ExpirationFor(d: int, defaultTtl: int, now: int): int {
    var ttl := EffectiveTtl(d, defaultTtl);
    if ttl > 0 then now + ttl else 0
  }

  /**
   * An entry written at time now with duration d is expired at a later time
   * t exactly when its effective duration is positive and has elapsed; a
   * non-positive duration, the NoExpiration sentinel included, never lapses.
   * Without int64 overflow (timestamps here are unbounded), such an entry's
   * expiration is never negative, so both expiry tests agree on it.
   */
  lemma WrittenEntryLifetime(v: Value, d: int, defaultTtl: int, now: int, t: int)
    requires defaultTtl != 0 && now >= 0
    ensures var it := Item(v, ExpirationFor(d, defaultTtl, now));
      var ttl := EffectiveTtl(d, defaultTtl);
      && it.expiration >= 0
      && (it.Expired(t) <==> ttl > 0 && t > now + ttl)
      && (it.LiveForGet(t) <==> !it.Expired(t))
      && (d == NoExpiration ==> !it.Expired(t))
  {
  }

  /**
   * The value Increment stores: for an integer kind, the delta converted to
   * that kind (Go's `int8(n)` and the like) added with wraparound, which is
   * the exact sum reduced to the kind's width; for a float, the same kind
   * with the addition recorded; None when the value is not numeric.
   */
  function Incremented(o: Value, n: Int64): (r: Option<Value>)
    ensures r.None? <==> o.Other?
    ensures o.Integer? ==> r == Some(Integer(o.kind, Wrap(o.kind, o.value + n)))
    ensures o.Float? ==> r.Some? && r.value.Float? && r.value.fkind == o.fkind
  {
    match o
    case Integer(k, v) =>
      ConvertedSum(k, v, n);
      WrapFacts(k, v + n);
      Some(Integer(k, Wrap(k, v + Wrap(k, n))))
    case Float(fk, s, steps) => Some(Float(fk, s, steps + [Plus(n)]))
    case Other(_) => None
  }

  /** The value Decrement stores: the same as Incremented, with subtraction. */
  function Decremented(o: Value, n: Int64): (r: Option<Value>)
    ensures r.None? <==> o.Other?
    ensures o.Integer? ==> r == Some(Integer(o.kind, Wrap(o.kind, o.value - n)))
    ensures o.Float? ==> r.Some? && r.value.Float? && r.value.fkind == o.fkind
  {
    match o
    case Integer(k, v) =>
      ConvertedDifference(k, v, n);
      WrapFacts(k, v - n);
      Some(Integer(k, Wrap(k, v - Wrap(k, n))))
    case Float(fk, s, steps) => Some(Float(fk, s, steps + [Minus(n)]))
    case Other(_) => None
  }

  /**
   * On an integer value, Decrement by n undoes Increment by n and the other
   * way round, for every kind and every delta, overflow included.
   */
  lemma {:induction false} IncrementDecrementInverse(o: Value, n: Int64)
    requires o.Integer?
    ensures Incremented(o, n).Some? && Decremented(Incremented(o, n).value, n) == Some(o)
    ensures Decremented(o, n).Some? && Incremented(Decremented(o, n).value, n) == Some(o)
  {
    AddSubtractInverse(o.kind, o.value, n);
  }

  /** A uint8 holding 255 wraps to 0 when incremented by 1, and back when decremented. */
  lemma Uint8Wraps()
    ensures Incremented(Integer(Uint8, 255), 1) == Some(Integer(Uint8, 0))
    ensures Decremented(Integer(Uint8, 0), 1) == Some(Integer(Uint8, 255))
  {
  }

  /** An int holding 10, incremented by 5, holds 15; decremented by 20 it then holds -5. */
  lemma IntCounterExample()
    ensures Incremented(Integer(Int, 10), 5) == Some(Integer(Int, 15))
    ensures Decremented(Integer(Int, 15), 20) == Some(Integer(Int, -5))
  {
  }
}
