# ProKotlin helpers, modelled in Dafny

ProKotlin is a set of Kotlin learning exercises. Nearly all of it is commentary
and console output. The logic that carries a contract is a handful of small
helpers declared inside `main` in `Main.kt`, the substring predicate returned by
`Chapter5.bar()`, and the balance ordering of `Account4` in `Chapter8.kt`. This
project models those and proves what they promise.

- `kotlin.dfy`, module `Kotlin`: what the helpers need from the language. That is
  the 32-bit `Int` with its wrapping negation, an `Outcome` for a call that
  returned or threw, Kotlin's truncating `%`, and the closed range `a..b`.
- `memoize.dfy`, module `Memoize`: `memoize(fn)`. `Cache` and `GetOrPut` give the
  value-level meaning of one `getOrPut` call, and `Run` does the same for a series of
  calls. The class `Memoizer` is the closure with the table it captured. Its method
  `Apply` updates the table in place and keeps a ghost count of how many times
  `fn` has run.
- `resource.dfy`, module `ResourceUse`: `withResource`. A `Resource` has a
  `closed` flag and a ghost history of uses and closes.
- `helpers.dfy`, module `Helpers`: `isSingleDigit`, `Int.isOdd`, `shouldEqual`,
  `min` and `minSerializable`.
- `chapter5.dfy`, module `Chapter5`: `bar()` and the `String.contains` it calls,
  built on a first-occurrence `indexOf`.
- `chapter8.dfy`, module `Chapter8`: `BigDecimal` as an unscaled integer and a
  scale, its exact `compareTo`, and the two account data classes with
  `Account4.compareTo`.

## Model

| member | source | states |
|---|---|---|
| `Kotlin.Rem` | ProKotlin/src/main/kotlin/Main.kt:141 | Kotlin's `%`: the remainder is smaller than the divisor in magnitude, takes the sign of the dividend, and differs from the dividend by a multiple of the divisor |
| `Helpers.IsSingleDigit` | ProKotlin/src/main/kotlin/Main.kt:49-54 | the `when` over `-9..9` is true exactly when -9 <= x <= 9 |
| `Helpers.SingleDigitHasOneDecimalDigit` | ProKotlin/src/main/kotlin/Main.kt:49-54 | `isSingleDigit(x)` holds exactly when the magnitude of x is written with one decimal digit |
| `Helpers.IsOdd` | ProKotlin/src/main/kotlin/Main.kt:141 | `x % 2 != 0` with the truncating remainder holds exactly when x is not divisible by 2, negative x included |
| `Helpers.NegativeOddRemainder` | ProKotlin/src/main/kotlin/Main.kt:141-142 | the Kotlin remainder of -3 by 2 is -1, so -3 and -1 are odd while -4, 0 and 4 are not |
| `Helpers.OddIgnoresSign` | ProKotlin/src/main/kotlin/Main.kt:141 | `isOdd(-x) == isOdd(x)` for every `Int`, with Kotlin's wrapping negation, so also at `Int.MIN_VALUE`, which negates to itself |
| `Helpers.ShouldEqual` | ProKotlin/src/main/kotlin/Main.kt:187-190 | returns normally exactly when the two values are equal; otherwise it throws an error that carries both values |
| `Helpers.ShouldEqualSymmetric` | ProKotlin/src/main/kotlin/Main.kt:187-190 | the outcome does not depend on which side is the receiver, and a value always equals itself |
| `Helpers.EggIsNotToast` | ProKotlin/src/main/kotlin/Main.kt:192 | `"egg" shouldEqual "toast"` throws |
| `Helpers.Min` | ProKotlin/src/main/kotlin/Main.kt:300-303 | returns `first` when `first.compareTo(second) <= 0` (ties included) and `second` otherwise; the result is always one of the two |
| `Helpers.MinSerializable` | ProKotlin/src/main/kotlin/Main.kt:306-310 | the same choice as `min`, under the extra `Serializable` bound |
| `Helpers.MinIsLowerBound` | ProKotlin/src/main/kotlin/Main.kt:300-303 | for any comparison that is antisymmetric in sign, the result compares `<= 0` against both arguments |
| `Helpers.MinOfAccounts` | ProKotlin/src/main/kotlin/Main.kt:300-303 | `min` over accounts by `compareTo` picks one with the lowest balance, and the first account on equal balances |
| `ResourceUse.Resource.Close` | ProKotlin/src/main/kotlin/Main.kt:158 | `close()` leaves the resource closed and adds one close to its history |
| `ResourceUse.WithResource` | ProKotlin/src/main/kotlin/Main.kt:154-160 | the outcome is `fn(resource)`, whether it returned or threw; the resource ends closed; its history gains exactly one use followed by exactly one close |
| `ResourceUse.ThrowingUseStillCloses` | ProKotlin/src/main/kotlin/Main.kt:154-160 | when `fn` throws, the exception reaches the caller and the resource has been closed exactly once |
| `ResourceUse.ReturningUse` | ProKotlin/src/main/kotlin/Main.kt:154-160 | when `fn` returns a value, `withResource` returns that value and the resource is closed |
| `Memoize.GetOrPut` | ProKotlin/src/main/kotlin/Main.kt:176-178 | the result is the stored value of `a`, which is `fn(a)` on a miss; only key `a` can be added; no existing entry changes; `fn` runs only on a miss |
| `Memoize.GetOrPutAgrees` | ProKotlin/src/main/kotlin/Main.kt:175-178 | from a consistent cache, a call returns exactly `fn(a)` and the cache stays consistent |
| `Memoize.GetOrPutHit` | ProKotlin/src/main/kotlin/Main.kt:176-177 | a call on a cached key returns the stored value and leaves table and call count unchanged |
| `Memoize.GetOrPutIdempotent` | ProKotlin/src/main/kotlin/Main.kt:176-178 | calling twice with the same key yields the same result and state as calling once |
| `Memoize.RunReturnsFn` | ProKotlin/src/main/kotlin/Main.kt:175-178 | over any series of calls on a consistent cache, the i-th result is `fn` of the i-th key |
| `Memoize.RunKeepsCache` | ProKotlin/src/main/kotlin/Main.kt:174-178 | over any series of calls the cache stays consistent, its key set becomes the old keys plus the keys asked for, and no existing entry is replaced |
| `Memoize.RunCallsOncePerKey` | ProKotlin/src/main/kotlin/Main.kt:176-177 | from an empty table, `fn` runs as many times as there are distinct keys among the calls |
| `Memoize.RepeatedKeyCallsOnce` | ProKotlin/src/main/kotlin/Main.kt:176-177 | asking n > 0 times for one key returns `fn(a)` each time and runs `fn` once |
| `Memoize.Memoizer.constructor` | ProKotlin/src/main/kotlin/Main.kt:173-174 | `memoize(fn)` starts with an empty table and no calls of `fn` |
| `Memoize.Memoizer.Apply` | ProKotlin/src/main/kotlin/Main.kt:175-179 | the call returns `fn(a)` and keeps the table consistent; a hit changes nothing; a miss adds exactly `a`, with that result, and counts one more run of `fn` |
| `Memoize.SquareExample` | ProKotlin/src/main/kotlin/Main.kt:173-180 | memoizing `x * x`: `g(4)` and `g(4)` both give 16 and `g(5)` gives 25, with only two runs of the function |
| `Chapter5.IndexOfFrom` | ProKotlin/src/main/kotlin/Chapter5.kt:11 | the first index at or after `from` where the needle occurs, or -1 exactly when it occurs nowhere from there |
| `Chapter5.IndexOf` | ProKotlin/src/main/kotlin/Chapter5.kt:11 | the first index where the needle occurs, non-negative exactly when it occurs somewhere |
| `Chapter5.Contains` | ProKotlin/src/main/kotlin/Chapter5.kt:11 | `str.contains(t)` holds exactly when `t` occurs contiguously in `str` at some index |
| `Chapter5.Bar` | ProKotlin/src/main/kotlin/Chapter5.kt:11 | the predicate returned by `bar()` holds for `(s, t)` exactly when `t` occurs contiguously in `s` |
| `Chapter5.BarEmptyNeedle` | ProKotlin/src/main/kotlin/Chapter5.kt:11 | `bar()(s, "")` is true for every `s` |
| `Chapter5.BarLongerNeedle` | ProKotlin/src/main/kotlin/Chapter5.kt:11 | `bar()(s, t)` is false whenever `t` is longer than `s` |
| `Chapter5.BarSelf` | ProKotlin/src/main/kotlin/Chapter5.kt:11 | `bar()(s, s)` is true |
| `Chapter5.BarCaseSensitive` | ProKotlin/src/main/kotlin/Chapter5.kt:11 | matching is case-sensitive: `"abc"` does not contain `"B"` |
| `Chapter5.BarExample` | ProKotlin/src/main/kotlin/Main.kt:130-133 | `f1("1234", "1")` is true, found at index 0 |
| `Chapter8.BigDecimal.CompareTo` | ProKotlin/src/main/kotlin/Chapter8.kt:8-9 | `BigDecimal.compareTo` returns -1, 0 or 1 |
| `Chapter8.CompareToMatchesValue` | ProKotlin/src/main/kotlin/Chapter8.kt:8-9 | `BigDecimal.compareTo` is -1, 0 or 1 exactly as the exact value is smaller, equal or larger, whatever the two scales |
| `Chapter8.Account4.CompareTo` | ProKotlin/src/main/kotlin/Chapter8.kt:8-9 | `Account4.compareTo` returns -1, 0 or 1 |
| `Chapter8.CompareToMatchesBalance` | ProKotlin/src/main/kotlin/Chapter8.kt:8-9 | the sign of `a.compareTo(b)` is the sign of `a.balance - b.balance` |
| `Chapter8.CompareToReflexive` | ProKotlin/src/main/kotlin/Chapter8.kt:8-9 | `a.compareTo(a) == 0` |
| `Chapter8.CompareToAntisymmetric` | ProKotlin/src/main/kotlin/Chapter8.kt:8-9 | `a.compareTo(b) == -b.compareTo(a)` |
| `Chapter8.CompareToTransitive` | ProKotlin/src/main/kotlin/Chapter8.kt:8-9 | if a <= b and b <= c by `compareTo`, then a <= c |
| `Chapter8.CompareToIgnoresOtherFields` | ProKotlin/src/main/kotlin/Chapter8.kt:8-9 | accounts with equal balances compare as 0 and compare alike against every account, whatever their interest rate or margin |
| `Chapter8.CompareToIgnoresScale` | ProKotlin/src/main/kotlin/Main.kt:379-381 | savings accounts with balances 2.0 and 2.00 are unequal data-class values yet compare as 0; 5 is greater than -50 across scales |

## Left out

- The console output and the `main` demo flow: `println`, `repeat`, `printHello`, the `Date().year` check. These are I/O with no contract.
- Concurrency of `ConcurrentHashMap`. The model is sequential: one call of the closure runs to completion before the next. Under concurrent calls with the same new key, `getOrPut` may run `fn` more than once, and only one result is kept. That is not modelled. The map's ban on null keys and null values is not modelled either: in the source `g(null)` throws `NullPointerException` from the map lookup. The map compares keys with `equals` and `hashCode`; the model uses Dafny value equality on keys.
- Memoize.Memoizer.Apply: `fn` is a total function. An exception thrown by `fn` is not modelled. In the source such an exception leaves `getOrPut`, nothing is stored, and a later call runs `fn` again.
- ResourceUse.WithResource: `fn` is a pure function of the resource. It cannot read or change the resource's state, so the `Used` entry in the history is recorded by the model itself. A `close()` that throws is not modelled, and neither is the exception it would then put in place of `fn`'s outcome.
- Helpers.ShouldEqual: the text of the exception message is not built, because that needs `toString` of arbitrary values. The error carries the two values that the message names. The model uses Dafny value equality in place of `equals`.
- Helpers.Min: `Comparable<T>` is passed as an explicit `compareTo` function. `Serializable` in `minSerializable` is a marker with no operations, so it does not appear.
- Chapter8.Account4.CompareTo: the bound `E : Account4<E>` allows a comparison only between accounts of the same class. The model accepts any two accounts, because the body reads only the balances.
- Chapter8.BigDecimal.CompareTo: Java limits a `BigDecimal` scale to 32 bits. The model's scale is an unbounded integer. Precision and rounding contexts are not used by `compareTo` and are not modelled.
- Chapter5.IndexOfFrom: Java's `indexOf(str, fromIndex)` clamps a start index beyond the end, so an empty needle searched from past the end is found at the length. The scan here answers -1 there. `contains` always starts the scan at 0, where the two agree.
- Chapter5.Contains: Kotlin strings are sequences of UTF-16 code units. The model compares Dafny `char`s one by one. The `ignoreCase` flag of `contains` is false at the call site and is not modelled.
- `Rocket.setCourse`, which rests on `Double` and `Math.abs` (NaN, signed zero), and the reflective `explode` call.
- Reflection: `KClass`, `typeParameters`, `functions`.
- The `lazy` and `Delegates.observable` delegates. Their visible behaviour is printing.
- `Chapter2.Inner.printAddress` and `Chapter5.asParam`, which only print.
- The commented-out futures and executor code, and the commentary blocks.
