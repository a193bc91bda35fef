/** Chapter5.kt: `bar()` returns the predicate `(str, contains) -> str.contains(contains)`,
    Kotlin's case-sensitive substring test, which asks `indexOf` for the first
    place the needle occurs. */
module Chapter5 {

  /** `t` occurs in `s` starting at index `i`. */
  predicate OccursAt(s: string, t: string, i: int) {
    0 <= i && i + |t| <= |s| && s[i..i + |t|] == t
  }

  /** `t` occurs contiguously in `s` at some index. */
  ghost predicate Occurs(s: string, t: string) {
    exists i :: OccursAt(s, t, i)
  }

  /** A left-to-right scan from `from`, the search `indexOf` makes: the first
      index at or after `from` where `t` occurs, or -1 when there is none. */
  function IndexOfFrom(s: string, t: string, from: nat): (r: int)
    ensures r == -1 || (from <= r && OccursAt(s, t, r))
    ensures r == -1 ==> forall j :: from <= j ==> !OccursAt(s, t, j)
    ensures r >= 0 ==> forall j :: from <= j < r ==> !OccursAt(s, t, j)
    decreases |s| - from
  {
    if from + |t| > |s| then -1
    else if s[from..from + |t|] == t then from
    else IndexOfFrom(s, t, from + 1)
  }

  function IndexOf(s: string, t: string): (r: int)
    ensures r == -1 || OccursAt(s, t, r)
    ensures r >= 0 <==> Occurs(s, t)
    ensures r >= 0 ==> forall j :: 0 <= j < r ==> !OccursAt(s, t, j)
  {
    IndexOfFrom(s, t, 0)
  }

  /** `CharSequence.contains(other)`, case-sensitive: `indexOf(other) >= 0`. */
  function Contains(s: string, t: string): (b: bool)
    ensures b <==> Occurs(s, t)
  {
    IndexOf(s, t) >= 0
  }

  /** `Chapter5.bar()`: the returned predicate holds exactly when its second
      argument occurs in its first. */
  function Bar(): (p: (string, string) -> bool)
    ensures forall str, contains :: p(str, contains) <==> Occurs(str, contains)
  {
    (str: string, contains: string) => Contains(str, contains)
  }

  /** The empty string occurs in every string, at index 0. */
  lemma BarEmptyNeedle(s: string)
    ensures Bar()(s, "")
  {
    assert OccursAt(s, "", 0);
  }

  /** A needle longer than the haystack never occurs. */
  lemma BarLongerNeedle(s: string, t: string)
    requires |t| > |s|
    ensures !Bar()(s, t)
  {
  }

  /** Every string contains itself. */
  lemma BarSelf(s: string)
    ensures Bar()(s, s)
  {
    assert OccursAt(s, s, 0);
  }

  /** Matching is case-sensitive. */
  lemma BarCaseSensitive()
    ensures !Bar()("abc", "B")
  {
    assert forall i :: !OccursAt("abc", "B", i) by {
      forall i ensures !OccursAt("abc", "B", i) {
        if 0 <= i < 3 {
          assert "abc"[i..i + 1] == ["abc"[i]];
        }
      }
    }
  }

  /** The call made in `main`: `f1("1234", "1")` is true, found at index 0. */
  lemma BarExample()
    ensures Bar()("1234", "1")
    ensures IndexOf("1234", "1") == 0 && IndexOf("1234", "34") == 2
  {
    assert "1234"[0..1] == "1";
    assert "1234"[0..2] != "34" by { assert "1234"[0..2][0] == '1'; }
    assert "1234"[1..3] != "34" by { assert "1234"[1..3][0] == '2'; }
    assert "1234"[2..4] == "34";
  }
}
