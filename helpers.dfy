/** The small pure helpers declared inside `main` in Main.kt: `isSingleDigit`,
    `Int.isOdd`, `shouldEqual`, and the two upper-bounded `min` functions. */
module Helpers {
  import opened Kotlin
  import Chapter8

  // ----- isSingleDigit: a `when` over the range -9..9 -----

  /** The body is the source's `when (x) { in -9..9 -> true; else -> false }`. */
  function IsSingleDigit(x: Int32): (b: bool)
    ensures b <==> -9 <= x <= 9
  {
    if IntRange(-9, 9).Contains(x as int) then true else false
  }

  /** How many decimal digits `n` is written with. */
  function DecimalDigits(n: nat): (d: nat)
    ensures d >= 1
    ensures n >= 10 ==> d >= 2
  {
    if n < 10 then 1 else 1 + DecimalDigits(n / 10)
  }

  /** The name's promise: a single digit is exactly what is written with one
      decimal digit, ignoring the sign. */
  lemma SingleDigitHasOneDecimalDigit(x: Int32)
    ensures IsSingleDigit(x) <==> DecimalDigits(Abs(x as int)) == 1
  {
  }

  // ----- Int.isOdd: `this % 2 != 0` with Kotlin's truncating remainder -----

  function IsOdd(x: Int32): (b: bool)
    ensures b <==> (x as int) % 2 == 1
  {
    Rem(x as int, 2) != 0
  }

  /** Testing `!= 0` rather than `== 1` is what makes negative odd numbers
      odd: their Kotlin remainder is -1. */
  lemma NegativeOddRemainder()
    ensures Rem(-3, 2) == -1
    ensures IsOdd(-3) && IsOdd(-1) && !IsOdd(-4) && !IsOdd(0)
    ensures !IsOdd(4)
  {
  }

  /** Oddness does not depend on the sign, `Int.MIN_VALUE` (which negates to
      itself) included. */
  lemma OddIgnoresSign(x: Int32)
    ensures IsOdd(Neg(x)) == IsOdd(x)
  {
  }

  // ----- shouldEqual: an infix assertion that throws on mismatch -----

  /** The `RuntimeException("$this was not equal to $other")`, carrying the two
      values its message is built from. */
  datatype NotEqual<T> = NotEqual(receiver: T, other: T)

  function ShouldEqual<T(==)>(receiver: T, other: T): (o: Outcome<(), NotEqual<T>>)
    ensures o.Returned? <==> receiver == other
    ensures o.Threw? ==> o.error == NotEqual(receiver, other)
  {
    if receiver != other then Threw(NotEqual(receiver, other)) else Returned(())
  }

  /** The assertion passes or fails the same way whichever side is the receiver. */
  lemma ShouldEqualSymmetric<T>(a: T, b: T)
    ensures ShouldEqual(a, b).Returned? == ShouldEqual(b, a).Returned?
    ensures ShouldEqual(a, a) == Returned(())
  {
  }

  /** The commented-out usage `"egg" shouldEqual "toast"` throws. */
  lemma EggIsNotToast()
    ensures ShouldEqual("egg", "toast") == Threw(NotEqual("egg", "toast"))
  {
  }

  // ----- min and minSerializable: the smaller of two Comparable values -----

  /** `compareTo` of a `Comparable<T>`, as the function it is. The contract of
      `Comparable` asks that it be antisymmetric in sign. */
  ghost predicate IsComparison<T(!new)>(compareTo: (T, T) -> int) {
    forall x, y :: Sign(compareTo(x, y)) == -Sign(compareTo(y, x))
  }

  function Min<T>(first: T, second: T, compareTo: (T, T) -> int): (r: T)
    ensures compareTo(first, second) <= 0 ==> r == first
    ensures compareTo(first, second) > 0 ==> r == second
    ensures r == first || r == second
  {
    var k := compareTo(first, second);
    if k <= 0 then first else second
  }

  /** The multiple bound `T : Serializable` adds no operation, and the body
      makes the same comparison as `min`. */
  function MinSerializable<T>(first: T, second: T, compareTo: (T, T) -> int): (r: T)
    ensures compareTo(first, second) <= 0 ==> r == first
    ensures compareTo(first, second) > 0 ==> r == second
    ensures r == first || r == second
  {
    Min(first, second, compareTo)
  }

  /** Under a comparison that keeps `Comparable`'s contract, `min` returns a
      value that is at most each argument. */
  lemma MinIsLowerBound<T(!new)>(first: T, second: T, compareTo: (T, T) -> int)
    requires IsComparison(compareTo)
    ensures compareTo(Min(first, second, compareTo), first) <= 0
    ensures compareTo(Min(first, second, compareTo), second) <= 0
  {
    var r := Min(first, second, compareTo);
    assert Sign(compareTo(first, first)) == -Sign(compareTo(first, first));
    assert Sign(compareTo(second, second)) == -Sign(compareTo(second, second));
    assert Sign(compareTo(first, second)) == -Sign(compareTo(second, first));
  }

  /** With `Account4.compareTo`, `min` picks an account with the lowest balance,
      and the first one on a tie. */
  lemma MinOfAccounts(first: Chapter8.Account4, second: Chapter8.Account4)
    ensures var r := Min(first, second, (x: Chapter8.Account4, y: Chapter8.Account4) => x.CompareTo(y));
      r.balance.Value() <= first.balance.Value() && r.balance.Value() <= second.balance.Value()
      && (first.balance.Value() == second.balance.Value() ==> r == first)
  {
    Chapter8.CompareToMatchesBalance(first, second);
  }
}
