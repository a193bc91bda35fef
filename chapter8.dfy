/** Chapter8.kt: accounts ordered by their `BigDecimal` balance, through the
    recursive type bound `Account4<E : Account4<E>> : Comparable<E>`. */
module Chapter8 {
  import opened Kotlin

  function Pow10(n: nat): (p: nat)
    ensures p >= 1
  {
    if n == 0 then 1 else 10 * Pow10(n - 1)
  }

  lemma {:induction false} Pow10Add(m: nat, n: nat)
    ensures Pow10(m + n) == Pow10(m) * Pow10(n)
    decreases m
  {
    if m > 0 {
      Pow10Add(m - 1, n);
      assert Pow10(m + n) == 10 * Pow10(m - 1 + n);
    }
  }

  /** The exact number `n` times ten to the power `-s`. */
  function Scaled(n: int, s: int): real {
    if s >= 0 then n as real / Pow10(s) as real else (n * Pow10(-s)) as real
  }

  /** `java.math.BigDecimal`: an unscaled integer and a scale, standing for
      `unscaled * 10^-scale`. The scale may be negative. Two values of different
      scale may stand for the same number (2.0 and 2.00). */
  datatype BigDecimal = BigDecimal(unscaled: int, scale: int) {

    /** The number this decimal stands for. */
    function Value(): real {
      Scaled(unscaled, scale)
    }

    /** The unscaled value brought to the finer scale `s`. */
    function Aligned(s: int): int
      requires s >= scale
    {
      unscaled * Pow10(s - scale)
    }

    /** `BigDecimal.compareTo`: both operands are brought to the finer of the
        two scales and the integers compared; the result is -1, 0 or 1. */
    function CompareTo(other: BigDecimal): (c: int)
      ensures c == -1 || c == 0 || c == 1
    {
      var s := if scale >= other.scale then scale else other.scale;
      Sign(Aligned(s) - other.Aligned(s))
    }
  }

  /** Multiplying the unscaled value by `10^k` while raising the scale by `k`
      leaves the number unchanged. */
  lemma AlignKeepsValue(n: int, s: int, k: nat)
    ensures Scaled(n * Pow10(k), s + k) == Scaled(n, s)
  {
    if s >= 0 {
      AlignFraction(n, s, k);
    } else if s + k >= 0 {
      AlignAcrossZero(n, s, k);
    } else {
      AlignWhole(n, s, k);
    }
  }

  lemma AlignFraction(n: int, s: nat, k: nat)
    ensures Scaled(n * Pow10(k), s + k) == Scaled(n, s)
  {
    var p, q := Pow10(s), Pow10(k);
    Pow10Add(s, k);
    FractionCancel(n, p, q);
  }

  lemma FractionCancel(n: int, p: nat, q: nat)
    requires p >= 1 && q >= 1
    ensures (n * q) as real / (p * q) as real == n as real / p as real
  {
    CastMul(n, q);
    CastMul(p, q);
    DivCancel(n as real, p as real, q as real);
  }

  lemma AlignAcrossZero(n: int, s: int, k: nat)
    requires s < 0 <= s + k
    ensures Scaled(n * Pow10(k), s + k) == Scaled(n, s)
  {
    var p, q := Pow10(-s), Pow10(s + k);
    Pow10Add(-s, s + k);
    WholeCancel(n, p, q);
  }

  lemma WholeCancel(n: int, p: nat, q: nat)
    requires q >= 1
    ensures (n * (p * q)) as real / q as real == (n * p) as real
  {
    MulAssoc(n, p, q);
    CastMul(n * p, q);
    DivCancel((n * p) as real, 1.0, q as real);
  }

  lemma AlignWhole(n: int, s: int, k: nat)
    requires s + k < 0
    ensures Scaled(n * Pow10(k), s + k) == Scaled(n, s)
  {
    Pow10Add(k, -(s + k));
    MulAssoc(n, Pow10(k), Pow10(-(s + k)));
  }

  lemma MulAssoc(a: int, b: int, c: int)
    ensures a * (b * c) == (a * b) * c
  {
  }

  lemma CastMul(a: int, b: int)
    ensures (a * b) as real == a as real * b as real
  {
  }

  lemma DivCancel(n: real, p: real, q: real)
    requires p > 0.0 && q > 0.0
    ensures (n * q) / (p * q) == n / p
  {
    var r := n / p;
    assert r * p == n;
    assert r * (p * q) == n * q;
  }

  /** At a fixed scale, the number follows the unscaled integer. */
  lemma ScaledMonotone(n: int, m: int, s: int)
    requires n < m
    ensures Scaled(n, s) < Scaled(m, s)
  {
    if s >= 0 {
      DivMonotone(n as real, m as real, Pow10(s) as real);
    } else {
      MulMonotone(n, m, Pow10(-s));
    }
  }

  lemma DivMonotone(a: real, b: real, p: real)
    requires a < b && p > 0.0
    ensures a / p < b / p
  {
    assert (a / p) * p == a;
    assert (b / p) * p == b;
  }

  lemma MulMonotone(n: int, m: int, p: nat)
    requires n < m && p >= 1
    ensures n * p < m * p
  {
    NatMulAtLeast(p, m - n);
    assert p * (m - n) == m * p - n * p;
  }

  /** `compareTo` is exact: its result is the sign of the difference of the
      two numbers, whatever their scales. */
  lemma {:induction false} CompareToMatchesValue(x: BigDecimal, y: BigDecimal)
    ensures x.CompareTo(y) == -1 <==> x.Value() < y.Value()
    ensures x.CompareTo(y) == 0 <==> x.Value() == y.Value()
    ensures x.CompareTo(y) == 1 <==> x.Value() > y.Value()
  {
    var s := if x.scale >= y.scale then x.scale else y.scale;
    var a, b := x.Aligned(s), y.Aligned(s);
    AlignKeepsValue(x.unscaled, x.scale, s - x.scale);
    AlignKeepsValue(y.unscaled, y.scale, s - y.scale);
    assert x.Value() == Scaled(a, s);
    assert y.Value() == Scaled(b, s);
    if a < b {
      ScaledMonotone(a, b, s);
    } else if b < a {
      ScaledMonotone(b, a, s);
    }
  }

  /** `SavingsAccount4` and `TradingAccount4`, the two data classes of Main.kt
      that implement `Account4`. */
  datatype Account4 =
    | SavingsAccount4(balance: BigDecimal, interestRate: BigDecimal)
    | TradingAccount4(balance: BigDecimal, margin: bool)
  {
    /** The interface's default `compareTo`: the balances alone decide. */
    function CompareTo(other: Account4): (c: int)
      ensures c == -1 || c == 0 || c == 1
    {
      balance.CompareTo(other.balance)
    }
  }

  /** The sign of `a.compareTo(b)` is the sign of `a.balance - b.balance`. */
  lemma CompareToMatchesBalance(a: Account4, b: Account4)
    ensures a.CompareTo(b) < 0 <==> a.balance.Value() < b.balance.Value()
    ensures a.CompareTo(b) == 0 <==> a.balance.Value() == b.balance.Value()
    ensures a.CompareTo(b) > 0 <==> a.balance.Value() > b.balance.Value()
  {
    CompareToMatchesValue(a.balance, b.balance);
  }

  lemma CompareToReflexive(a: Account4)
    ensures a.CompareTo(a) == 0
  {
    CompareToMatchesBalance(a, a);
  }

  lemma CompareToAntisymmetric(a: Account4, b: Account4)
    ensures a.CompareTo(b) == -b.CompareTo(a)
  {
    CompareToMatchesBalance(a, b);
    CompareToMatchesBalance(b, a);
  }

  lemma CompareToTransitive(a: Account4, b: Account4, c: Account4)
    requires a.CompareTo(b) <= 0 && b.CompareTo(c) <= 0
    ensures a.CompareTo(c) <= 0
  {
    CompareToMatchesBalance(a, b);
    CompareToMatchesBalance(b, c);
    CompareToMatchesBalance(a, c);
  }

  /** Only the balance takes part: accounts of equal balance compare alike
      against every account, whatever their interest rate or margin. */
  lemma CompareToIgnoresOtherFields(a: Account4, b: Account4, c: Account4)
    requires a.balance == b.balance
    ensures a.CompareTo(b) == 0
    ensures a.CompareTo(c) == b.CompareTo(c) && c.CompareTo(a) == c.CompareTo(b)
  {
    CompareToReflexive(a);
  }

  /** The ordering ignores the scale too: a balance of 2.0 and one of 2.00
      compare as equal, although the two data-class values differ. */
  lemma CompareToIgnoresScale(rate: BigDecimal)
    ensures SavingsAccount4(BigDecimal(20, 1), rate) != SavingsAccount4(BigDecimal(200, 2), rate)
    ensures SavingsAccount4(BigDecimal(20, 1), rate).CompareTo(SavingsAccount4(BigDecimal(200, 2), rate)) == 0
    ensures TradingAccount4(BigDecimal(5, 0), true).CompareTo(TradingAccount4(BigDecimal(-5, -1), false)) == 1
  {
    assert Pow10(1) == 10;
  }
}
