/**
 * Go's fixed-width integer kinds, as the cache's Increment and Decrement see
 * them. `int`, `uint` and `uintptr` are taken to be 64 bits wide.
 */
module Numeric {

  datatype IntKind =
    | Int | Int8 | Int16 | Int32 | Int64
    | Uint | Uintptr | Uint8 | Uint16 | Uint32 | Uint64

  /** The delta passed to Increment and Decrement is a Go `int64`. */
  type Int64 = x: int | -0x8000_0000_0000_0000 <= x < 0x8000_0000_0000_0000

  predicate Signed(k: IntKind) {
    k.Int? || k.Int8? || k.Int16? || k.Int32? || k.Int64?
  }

  /** 2 to the power of the kind's width. */
  function Modulus(k: IntKind): nat {
    match k
    case Int8 | Uint8 => 0x100
    case Int16 | Uint16 => 0x1_0000
    case Int32 | Uint32 => 0x1_0000_0000
    case _ => 0x1_0000_0000_0000_0000
  }

  /** The least value of the kind: -2^(w-1) when signed, 0 otherwise. */
  function MinValue(k: IntKind): int {
    if Signed(k) then -(Modulus(k) / 2) else 0
  }

  predicate InRange(k: IntKind, x: int) {
    MinValue(k) <= x < MinValue(k) + Modulus(k)
  }

  /** x and y leave the same remainder modulo 2^w. */
  predicate Congruent(k: IntKind, x: int, y: int) {
    x % Modulus(k) == y % Modulus(k)
  }

  /**
   * Reduction to the kind's width, two's complement for signed kinds: what a
   * Go conversion from int64 and every fixed-width + and - do to the exact
   * mathematical result.
   */
  function Wrap(k: IntKind, x: int): int {
    var u := x % Modulus(k);
    if Signed(k) && u >= Modulus(k) / 2 then u - Modulus(k) else u
  }

  lemma {:induction false} ProductBounds(m: int, t: int)
    requires m > 0
    ensures t >= 1 ==> m * t >= m
    ensures t <= -1 ==> m * t <= -m
  {
    if t >= 1 {
      assert m * t == m * (t - 1) + m;
      assert m * (t - 1) >= 0;
    } else if t <= -1 {
      assert m * t == m * (t + 1) - m;
      assert m * (t + 1) <= 0;
    }
  }

  /** Quotient and remainder of a division by m > 0 are unique. */
  lemma {:induction false} DivisionUnique(m: int, c: int, s: int, c2: int, s2: int)
    requires m > 0 && 0 <= s < m && 0 <= s2 < m && m * c + s == m * c2 + s2
    ensures c == c2 && s == s2
  {
    assert m * (c - c2) == s2 - s;
    ProductBounds(m, c - c2);
  }

  /** Adding a multiple of m does not change the remainder. */
  lemma {:induction false} ModShift(m: int, x: int, q: int)
    requires m > 0
    ensures (x + m * q) % m == x % m
  {
    var y := x + m * q;
    assert y == m * (y / m) + y % m;
    assert x == m * (x / m) + x % m;
    assert y == m * (x / m + q) + x % m;
    DivisionUnique(m, y / m, y % m, x / m + q, x % m);
  }

  /** Numbers with equal remainders differ by a multiple of m. */
  lemma {:induction false} SameRemainder(m: int, a: int, b: int) returns (q: int)
    requires m > 0 && a % m == b % m
    ensures a == b + m * q
  {
    q := a / m - b / m;
    assert a == m * (a / m) + a % m;
    assert b == m * (b / m) + b % m;
    assert m * q == m * (a / m) - m * (b / m);
  }

  /** Wrap yields a value of the kind with the same remainder modulo 2^w as x. */
  lemma {:induction false} WrapFacts(k: IntKind, x: int)
    ensures InRange(k, Wrap(k, x))
    ensures Congruent(k, x, Wrap(k, x))
  {
    var m, u := Modulus(k), x % Modulus(k);
    DivisionUnique(m, 0, u, u / m, u % m);
    ModShift(m, u - m, 1);
  }

  /**
   * Wrap is the one value of the kind congruent to its argument: any y of
   * the kind with the same remainder modulo 2^w as x is Wrap(k, x).
   */
  lemma {:induction false} WrapUnique(k: IntKind, x: int, y: int)
    requires InRange(k, y) && Congruent(k, x, y)
    ensures y == Wrap(k, x)
  {
    var r := Wrap(k, x);
    WrapFacts(k, x);
    var q := SameRemainder(Modulus(k), y, r);
    ProductBounds(Modulus(k), q);
  }

  /** Congruent arguments wrap to the same value. */
  lemma {:induction false} WrapCongruent(k: IntKind, x: int, y: int)
    requires Congruent(k, x, y)
    ensures Wrap(k, x) == Wrap(k, y)
  {
    WrapFacts(k, y);
    WrapUnique(k, x, Wrap(k, y));
  }

  /**
   * Converting the delta to the kind first (Go's `int8(n)`) and then adding
   * with wraparound gives the exact sum reduced to the kind's width.
   */
  lemma {:induction false} ConvertedSum(k: IntKind, v: int, n: int)
    ensures Wrap(k, v + Wrap(k, n)) == Wrap(k, v + n)
  {
    var m, c := Modulus(k), Wrap(k, n);
    WrapFacts(k, n);
    var q := SameRemainder(m, c, n);
    ModShift(m, v + n, q);
    WrapCongruent(k, v + c, v + n);
  }

  /** The same for subtraction (Go's `v - int8(n)`). */
  lemma {:induction false} ConvertedDifference(k: IntKind, v: int, n: int)
    ensures Wrap(k, v - Wrap(k, n)) == Wrap(k, v - n)
  {
    var m, c := Modulus(k), Wrap(k, n);
    WrapFacts(k, n);
    var q := SameRemainder(m, n, c);
    ModShift(m, v - n, q);
    WrapCongruent(k, v - c, v - n);
  }

  /** A value already of the kind is left alone by Wrap. */
  lemma {:induction false} WrapInRange(k: IntKind, x: int)
    requires InRange(k, x)
    ensures Wrap(k, x) == x
  {
    WrapUnique(k, x, x);
  }

  /**
   * Adding n and then subtracting n (or the other way round) with wraparound
   * gives back any value of the kind.
   */
  lemma {:induction false} AddSubtractInverse(k: IntKind, v: int, n: int)
    requires InRange(k, v)
    ensures Wrap(k, Wrap(k, v + n) - n) == v
    ensures Wrap(k, Wrap(k, v - n) + n) == v
  {
    var m, a, b := Modulus(k), Wrap(k, v + n), Wrap(k, v - n);
    WrapFacts(k, v + n);
    var p := SameRemainder(m, a, v + n);
    ModShift(m, v, p);
    WrapUnique(k, a - n, v);
    WrapFacts(k, v - n);
    var q := SameRemainder(m, b, v - n);
    ModShift(m, v, q);
    WrapUnique(k, b + n, v);
  }
}
