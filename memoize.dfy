/** `memoize` in Main.kt: wraps a function `fn` and keeps a table from keys to
    results, filled lazily with `getOrPut`. The closure's captured table is the
    state of a `Memoizer` object; `Apply` is a call of the returned closure. */
module Memoize {

  /** The cache as a value: the key-to-result table and how many times `fn`
      has run. */
  datatype Cache<A, R> = Cache(table: map<A, R>, calls: nat)

  function Empty<A, R>(): (c: Cache<A, R>)
    ensures c.table == map[] && c.calls == 0
  {
    Cache(map[], 0)
  }

  /** The invariant a memoized function keeps: every stored result is `fn` of its
      key, and `fn` has run exactly once per stored key. */
  ghost predicate Consistent<A, R>(c: Cache<A, R>, fn: A -> R) {
    (forall k :: k in c.table ==> c.table[k] == fn(k)) && c.calls == |c.table|
  }

  /** `map.getOrPut(a) { fn(a) }`: the stored value when `a` is present;
      otherwise `fn(a)` runs once and its result is stored under `a`. */
  function GetOrPut<A, R>(c: Cache<A, R>, fn: A -> R, a: A): (res: (R, Cache<A, R>))
    ensures a in res.1.table && res.1.table[a] == res.0
    ensures a !in c.table ==> res.0 == fn(a)
    ensures res.1.table.Keys == c.table.Keys + {a}
    ensures forall k :: k in c.table ==> res.1.table[k] == c.table[k]
    ensures res.1.calls == if a in c.table then c.calls else c.calls + 1
  {
    if a in c.table then (c.table[a], c)
    else
      var v := fn(a);
      (v, Cache(c.table[a := v], c.calls + 1))
  }

  /** A call returns `fn(a)` and keeps the cache consistent. */
  lemma GetOrPutAgrees<A, R>(c: Cache<A, R>, fn: A -> R, a: A)
    requires Consistent(c, fn)
    ensures GetOrPut(c, fn, a).0 == fn(a)
    ensures Consistent(GetOrPut(c, fn, a).1, fn)
  {
  }

  /** A repeat call on a cached key returns the stored value, does not run
      `fn` and leaves the cache as it was. */
  lemma GetOrPutHit<A, R>(c: Cache<A, R>, fn: A -> R, a: A)
    requires a in c.table
    ensures GetOrPut(c, fn, a) == (c.table[a], c)
  {
  }

  /** Calling twice with the same key is calling once. */
  lemma GetOrPutIdempotent<A, R>(c: Cache<A, R>, fn: A -> R, a: A)
    ensures var (r, c1) := GetOrPut(c, fn, a); GetOrPut(c1, fn, a) == (r, c1)
  {
  }

  /** The results and the final cache of a series of calls of the memoized
      function. */
  function Run<A, R>(c: Cache<A, R>, fn: A -> R, keys: seq<A>): (res: (seq<R>, Cache<A, R>))
    ensures |res.0| == |keys|
    decreases |keys|
  {
    if keys == [] then ([], c)
    else
      var (r, c1) := GetOrPut(c, fn, keys[0]);
      var (rs, c2) := Run(c1, fn, keys[1..]);
      ([r] + rs, c2)
  }

  /** Over any series of calls the memoized function returns what `fn` returns. */
  lemma {:induction false} RunReturnsFn<A, R>(c: Cache<A, R>, fn: A -> R, keys: seq<A>)
    requires Consistent(c, fn)
    ensures forall i :: 0 <= i < |keys| ==> Run(c, fn, keys).0[i] == fn(keys[i])
    decreases |keys|
  {
    if keys != [] {
      var step := GetOrPut(c, fn, keys[0]);
      GetOrPutAgrees(c, fn, keys[0]);
      RunReturnsFn(step.1, fn, keys[1..]);
      var rest := Run(step.1, fn, keys[1..]);
      assert Run(c, fn, keys) == ([step.0] + rest.0, rest.1);
      forall i | 0 <= i < |keys|
        ensures Run(c, fn, keys).0[i] == fn(keys[i])
      {
        if i > 0 {
          assert keys[i] == keys[1..][i - 1];
        }
      }
    }
  }

  /** Over any series of calls the cache stays consistent, gains exactly the
      keys it was called on and never replaces an entry. */
  lemma {:induction false} RunKeepsCache<A, R>(c: Cache<A, R>, fn: A -> R, keys: seq<A>)
    requires Consistent(c, fn)
    ensures Consistent(Run(c, fn, keys).1, fn)
    ensures Run(c, fn, keys).1.table.Keys == c.table.Keys + set k | k in keys
    ensures forall k :: k in c.table ==> k in Run(c, fn, keys).1.table && Run(c, fn, keys).1.table[k] == c.table[k]
    decreases |keys|
  {
    if keys != [] {
      var step := GetOrPut(c, fn, keys[0]);
      GetOrPutAgrees(c, fn, keys[0]);
      RunKeepsCache(step.1, fn, keys[1..]);
      var rest := Run(step.1, fn, keys[1..]);
      assert Run(c, fn, keys) == ([step.0] + rest.0, rest.1);
      KeysOfCons(keys);
    }
  }

  lemma KeysOfCons<A>(keys: seq<A>)
    requires keys != []
    ensures (set k | k in keys) == {keys[0]} + set k | k in keys[1..]
  {
    assert keys == [keys[0]] + keys[1..];
  }

  /** Starting from an empty table, `fn` runs exactly once per distinct key,
      however often each key is asked for. */
  lemma RunCallsOncePerKey<A, R>(fn: A -> R, keys: seq<A>)
    ensures Run(Empty(), fn, keys).1.calls == |set k | k in keys|
  {
    RunKeepsCache(Empty(), fn, keys);
    var c2 := Run(Empty<A, R>(), fn, keys).1;
    assert c2.table.Keys == set k | k in keys;
  }

  /** Asking `n > 0` times for the same key returns `fn(a)` every time and runs
      `fn` once. */
  lemma RepeatedKeyCallsOnce<A, R>(fn: A -> R, a: A, n: nat)
    requires n > 0
    ensures var (outs, c) := Run(Empty(), fn, seq(n, _ => a));
      (forall i :: 0 <= i < n ==> outs[i] == fn(a)) && c.calls == 1
  {
    var keys := seq(n, _ => a);
    RunReturnsFn(Empty(), fn, keys);
    RunCallsOncePerKey(fn, keys);
    assert keys[0] == a;
    assert (set k | k in keys) == {a};
  }

  /** The closure returned by `memoize(fn)`, with the table it captured. */
  class Memoizer<A(==), R> {
    const fn: A -> R
    var table: map<A, R>
    /** How many times `fn` has run. */
    ghost var calls: nat

    ghost function State(): Cache<A, R>
      reads this
    {
      Cache(table, calls)
    }

    ghost predicate Valid()
      reads this
    {
      Consistent(State(), fn)
    }

    /** `memoize(fn)`: a fresh, empty table. */
    constructor (fn: A -> R)
      ensures Valid()
      ensures this.fn == fn && State() == Empty()
    {
      this.fn := fn;
      table := map[];
      calls := 0;
    }

    /** A call `g(a)` of the memoized function: `map.getOrPut(a) { fn(a) }`. */
    method Apply(a: A) returns (r: R)
      requires Valid()
      modifies this
      ensures Valid()
      ensures r == fn(a)
      ensures (r, State()) == GetOrPut(old(State()), fn, a)
      ensures a in old(table) ==> table == old(table) && calls == old(calls)
      ensures a !in old(table) ==> table == old(table)[a := r] && calls == old(calls) + 1
    {
      if a in table {
        r := table[a];
      } else {
        r := fn(a);
        table := table[a := r];
        calls := calls + 1;
      }
    }
  }

  /** A client of `memoize`: with `g = memoize { x -> x * x }`, `g(4)` runs the
      function once, a second `g(4)` reuses the entry, and `g(5)` runs it again. */
  method SquareExample() returns (first: int, again: int, other: int, ghost calls: nat)
    ensures first == 16 && again == 16 && other == 25 && calls == 2
  {
    var g := new Memoizer((x: int) => x * x);
    first := g.Apply(4);
    assert g.calls == 1;
    again := g.Apply(4);
    assert g.calls == 1;
    other := g.Apply(5);
    calls := g.calls;
  }
}
