/** `withResource` in Main.kt: applies `fn` to an `AutoCloseable` resource inside
    `try`, and closes the resource in `finally`, whether `fn` returned or threw. */
module ResourceUse {
  import opened Kotlin

  /** What has been done to a resource, in order. */
  datatype Event = Used | Closed

  /** An `AutoCloseable` resource, reduced to whether it has been closed. */
  class Resource {
    var closed: bool
    /** The uses and closes of this resource so far. */
    ghost var history: seq<Event>

    constructor ()
      ensures !closed && history == []
    {
      closed := false;
      history := [];
    }

    /** `AutoCloseable.close()`. */
    method Close()
      modifies this
      ensures closed
      ensures history == old(history) + [Closed]
    {
      closed := true;
      history := history + [Closed];
    }
  }

  /** Whatever `fn` does, its outcome is passed on unchanged, and `close()` runs
      exactly once, after `fn`. */
  method WithResource<U, E>(resource: Resource, fn: Resource -> Outcome<U, E>) returns (o: Outcome<U, E>)
    modifies resource
    ensures o == fn(resource)
    ensures resource.closed
    ensures resource.history == old(resource.history) + [Used, Closed]
  {
    resource.history := resource.history + [Used];
    o := fn(resource);
    resource.Close();
  }

  /** The number of times `e` appears in `h`. */
  function Count(h: seq<Event>, e: Event): (n: nat)
    ensures n <= |h|
  {
    if h == [] then 0 else (if h[0] == e then 1 else 0) + Count(h[1..], e)
  }

  lemma {:induction false} CountAppend(h: seq<Event>, g: seq<Event>, e: Event)
    ensures Count(h + g, e) == Count(h, e) + Count(g, e)
    decreases |h|
  {
    if h != [] {
      assert (h + g)[1..] == h[1..] + g;
      CountAppend(h[1..], g, e);
    } else {
      assert h + g == g;
    }
  }

  /** A client: on a fresh resource, a call that throws still closes it, once,
      and the exception reaches the caller. */
  method ThrowingUseStillCloses() returns (o: Outcome<int, string>, closed: bool, ghost closes: nat)
    ensures o == Threw("failed") && closed && closes == 1
  {
    var r := new Resource();
    o := WithResource(r, (_: Resource) => Threw("failed"));
    closed := r.closed;
    CountAppend([], [Used, Closed], Closed);
    closes := Count(r.history, Closed);
  }

  /** A client: the value `fn` returns is the value `withResource` returns. */
  method ReturningUse() returns (o: Outcome<int, string>, closed: bool)
    ensures o == Returned(42) && closed
  {
    var r := new Resource();
    o := WithResource(r, (_: Resource) => Returned(42));
    closed := r.closed;
  }
}
