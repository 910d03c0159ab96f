/** The sliding-window rate limiter (internal/auth/ratelimit.go). */
module RateLimiting {
  import opened Prelude
  import opened TimeWindow

  // ---- Naive specification: remember every accepted time since the last Reset. ----

  predicate Admits(accepted: seq<int>, now: int, limit: nat, window: nat) {
    |After(accepted, now - window)| < limit
  }

  function Record(accepted: seq<int>, now: int, limit: nat, window: nat): seq<int> {
    if Admits(accepted, now, limit, window) then accepted + [now] else accepted
  }

  /** The times accepted out of a run of calls on one key with no Reset in between. */
  function AcceptedOf(calls: seq<int>, limit: nat, window: nat): (r: seq<int>)
    ensures forall t :: t in r ==> t in calls
  {
    if calls == [] then []
    else Record(AcceptedOf(calls[..|calls| - 1], limit, window), calls[|calls| - 1], limit, window)
  }

  lemma RecordBound(accepted: seq<int>, now: int, limit: nat, window: nat, end: int)
    requires |Within(accepted, end - window, end)| <= limit
    ensures |Within(Record(accepted, now, limit, window), end - window, end)| <= limit
  {
    if Admits(accepted, now, limit, window) {
      WithinSnoc(accepted, now, end - window, end);
      if now <= end {
        WithinAtMostAfter(accepted, end - window, end);
        AfterShrinks(accepted, now - window, end - window);
      }
    }
  }

  /**
   * No half-open window of the configured length ever holds more than `limit`
   * acceptances, wherever it ends.
   */
  lemma {:induction false} WindowBound(calls: seq<int>, limit: nat, window: nat, end: int)
    ensures |Within(AcceptedOf(calls, limit, window), end - window, end)| <= limit
  {
    if calls != [] {
      var init := calls[..|calls| - 1];
      WindowBound(init, limit, window, end);
      RecordBound(AcceptedOf(init, limit, window), calls[|calls| - 1], limit, window, end);
    }
  }

  /** No time in the list is later than `now`. */
  ghost predicate UpTo(times: seq<int>, now: int) {
    forall i :: 0 <= i < |times| ==> times[i] <= now
  }

  lemma {:induction false} AfterIsWithin(times: seq<int>, cutoff: int, now: int)
    requires UpTo(times, now)
    ensures Within(times, cutoff, now) == After(times, cutoff)
  {
    if times != [] {
      AfterIsWithin(times[..|times| - 1], cutoff, now);
    }
  }

  /**
   * Nobody is refused but in a full window: under a clock that never goes back, a
   * request is admitted exactly if the half-open window ending at it holds fewer
   * than `limit` acceptances.
   */
  lemma RefusedOnlyWhenFull(calls: seq<int>, now: int, limit: nat, window: nat)
    requires UpTo(calls, now)
    ensures Admits(AcceptedOf(calls, limit, window), now, limit, window)
      <==> |Within(AcceptedOf(calls, limit, window), now - window, now)| < limit
    ensures Admits(AcceptedOf(calls, limit, window), now, limit, window) ==>
      AcceptedOf(calls + [now], limit, window) == AcceptedOf(calls, limit, window) + [now]
    ensures !Admits(AcceptedOf(calls, limit, window), now, limit, window) ==>
      AcceptedOf(calls + [now], limit, window) == AcceptedOf(calls, limit, window)
  {
    var accepted := AcceptedOf(calls, limit, window);
    forall i | 0 <= i < |accepted| ensures accepted[i] <= now {
      assert accepted[i] in calls;
    }
    AfterIsWithin(AcceptedOf(calls, limit, window), now - window, now);
    assert (calls + [now])[..|calls|] == calls;
    hide After, Within, Admits;
  }

  class RateLimiter {
    const limit: nat
    const window: nat
    const table: StampTable<Key>

    ghost predicate Valid()
      reads table, table.Repr
    {
      && table.Valid() && table.window == window
      && forall k :: k in table.windows ==> table.windows[k].slice.len <= limit
    }

    constructor (limit: nat, window: nat)
      requires 0 < window
      ensures Valid() && fresh(table.Repr) && table.recorded == map[]
      ensures this.limit == limit && this.window == window
    {
      this.limit, this.window := limit, window;
      table := new StampTable<Key>(window);
    }

    /** Admit or deny one request: prune in place, then append unless the list is full. */
    method Allow(key: Key, now: int) returns (ok: bool)
      requires Valid() && table.clock <= now
      modifies table.Repr
      ensures Valid() && table in table.Repr && fresh(table.Repr - old(table.Repr)) && table.clock == now
      ensures ok <==> Admits(Get(old(table.recorded), key), now, limit, window)
      ensures table.recorded == old(table.recorded)[key := Record(Get(old(table.recorded), key), now, limit, window)]
    {
      hide After;
      var kept := table.Slide(key, now, now, Some(limit));
      return kept < limit;
    }

    /** Forget a key, as after a successful login. */
    method Reset(key: Key)
      requires Valid()
      modifies table`windows, table`recorded
      ensures Valid()
      ensures table.recorded == old(table.recorded) - {key}
    {
      table.Delete(key);
    }
  }
}
