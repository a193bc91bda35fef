/** The few pieces of the Kotlin language and runtime that the exercises rely on. */
module Kotlin {

  /** Kotlin's `Int`: a 32-bit two's-complement integer. */
  newtype Int32 = x: int | -0x8000_0000 <= x < 0x8000_0000

  /** How a call ended: it returned a value, or it threw an exception. */
  datatype Outcome<+R, +E> = Returned(value: R) | Threw(error: E)

  /** Kotlin's unary minus on `Int`: two's-complement negation, which wraps,
      so that `-Int.MIN_VALUE == Int.MIN_VALUE`. The result is the one `Int`
      that adds to `x` to a multiple of 2^32. */
  function Neg(x: Int32): (r: Int32)
    ensures (r as int + x as int) % 0x1_0000_0000 == 0
  {
    if x == -0x8000_0000 then x else -x
  }

  function Abs(x: int): (r: nat)
    ensures r == x || r == -x
  {
    if x < 0 then -x else x
  }

  /** The sign of an integer: -1, 0 or 1. */
  function Sign(x: int): (s: int)
    ensures s == -1 || s == 0 || s == 1
    ensures (s < 0 <==> x < 0) && (s == 0 <==> x == 0)
  {
    if x < 0 then -1 else if x == 0 then 0 else 1
  }

  /** Kotlin's `%` on integers. It truncates toward zero, so a non-zero
      remainder carries the sign of the dividend, unlike Dafny's `%`,
      whose remainder is never negative. */
  function Rem(a: int, b: int): (r: int)
    requires b != 0
    ensures Abs(r) < Abs(b)
    ensures a >= 0 ==> r >= 0
    ensures a < 0 ==> r <= 0
    ensures (a - r) % b == 0
  {
    var m := Abs(a) % Abs(b);
    RemainderDivides(a, b, m);
    if a < 0 then -m else m
  }

  lemma RemainderDivides(a: int, b: int, m: int)
    requires b != 0 && m == Abs(a) % Abs(b)
    ensures (a - (if a < 0 then -m else m)) % b == 0
  {
    var q := Abs(a) / Abs(b);
    assert Abs(a) == Abs(b) * q + m;
    var k := if (a < 0) == (b < 0) then q else -q;
    assert Abs(b) * q == b * (if b < 0 then -q else q);
    if a < 0 {
      assert a - -m == -(Abs(b) * q);
    } else {
      assert a - m == Abs(b) * q;
    }
    assert a - (if a < 0 then -m else m) == b * k;
    MultipleMod(b, k);
  }

  /** A multiple of `b` leaves no remainder. */
  lemma MultipleMod(b: int, k: int)
    requires b != 0
    ensures (b * k) % b == 0
  {
    var x := b * k;
    var q, r := x / b, x % b;
    assert x == b * q + r;
    assert r == b * (k - q);
    if k - q != 0 {
      AtLeastOnce(b, k - q);
      assert false;
    }
  }

  lemma AtLeastOnce(b: int, n: int)
    requires b != 0 && n != 0
    ensures Abs(b * n) >= Abs(b)
  {
    var c, m := Abs(b), Abs(n);
    assert Abs(b * n) == c * m by {
      if b < 0 && n < 0 { assert b * n == (-b) * (-n); }
      else if b < 0 { assert b * n == -((-b) * n); }
      else if n < 0 { assert b * n == -(b * (-n)); }
    }
    NatMulAtLeast(c, m);
  }

  lemma {:induction false} NatMulAtLeast(c: nat, m: nat)
    requires m > 0
    ensures c * m >= c
    decreases m
  {
    if m > 1 {
      NatMulAtLeast(c, m - 1);
      assert c * m == c * (m - 1) + c;
    }
  }

  /** Kotlin's closed range `first..last`, whose `in` operator is used by `when`. */
  datatype IntRange = IntRange(first: int, last: int) {
    predicate Contains(x: int) {
      first <= x <= last
    }
  }
}
