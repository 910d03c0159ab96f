/** Account lockout and backoff (internal/auth/lockout.go). */
module Lockout {
  import opened Prelude

  const THRESHOLD: nat := 5
  const LOCK_DURATION: int := 15 * MINUTE
  const LOCK_WINDOW: int := 15 * MINUTE

  /** An email's failure record; `lockedUntil` is None for Go's zero time. */
  datatype Rec = Rec(failures: nat, firstFail: int, lockedUntil: Option<int>)
  type State = Option<Rec>

  // ---- One call, on one email's record. ----

  predicate Locked(s: State, now: int) {
    s.Some? && s.value.lockedUntil.Some? && s.value.lockedUntil.value > now
  }

  predicate Expired(s: State, now: int) {
    s.Some? && s.value.lockedUntil.Some? && s.value.lockedUntil.value < now
  }

  /** IsLocked drops a record whose lock has run out. */
  function Check(s: State, now: int): State {
    if Expired(s, now) then None else s
  }

  function Fail(s: State, now: int): Rec {
    var r := if s.Some? then s.value else Rec(0, now, None);
    var live := if now - r.firstFail > LOCK_WINDOW then Rec(0, now, None) else r;
    var n := live.failures + 1;
    Rec(n, live.firstFail, if n >= THRESHOLD then Some(now + LOCK_DURATION) else live.lockedUntil)
  }

  // ---- Runs of calls on one email. ----

  datatype Event = Failed(at: int) | Asked(at: int) | Cleared

  function Step(s: State, e: Event): State {
    match e
    case Failed(at) => Some(Fail(s, at))
    case Asked(at) => Check(s, at)
    case Cleared => None
  }

  function Run(events: seq<Event>): State {
    if events == [] then None else Step(Run(events[..|events| - 1]), events[|events| - 1])
  }

  /** The same from any record. */
  function RunOn(s: State, events: seq<Event>): State {
    if events == [] then s else Step(RunOn(s, events[..|events| - 1]), events[|events| - 1])
  }

  lemma RunOnOne(s: State, e: Event)
    ensures RunOn(s, [e]) == Step(s, e)
  {
    assert [e][..0] == [];
  }

  lemma RunOnTwo(s: State, d: Event, e: Event)
    ensures RunOn(s, [d, e]) == Step(Step(s, d), e)
  {
    assert [d, e][..1] == [d];
    RunOnOne(s, d);
  }

  lemma {:induction false} RunAppends(past: seq<Event>, more: seq<Event>)
    ensures Run(past + more) == RunOn(Run(past), more)
  {
    if more == [] {
      assert past + more == past;
    } else {
      RunAppends(past, more[..|more| - 1]);
      assert (past + more)[..|past + more| - 1] == past + more[..|more| - 1];
    }
  }

  /** The failures since the last Reset. */
  function FailTimes(events: seq<Event>): seq<int> {
    if events == [] then []
    else
      var before := FailTimes(events[..|events| - 1]);
      match events[|events| - 1]
      case Failed(at) => before + [at]
      case Asked(_) => before
      case Cleared => []
  }

  /** Instants never go back, and none is later than `now`. */
  ghost predicate Timed(events: seq<Event>, now: int) {
    if events == [] then true
    else
      match events[|events| - 1]
      case Failed(at) => at <= now && Timed(events[..|events| - 1], at)
      case Asked(at) => at <= now && Timed(events[..|events| - 1], at)
      case Cleared => Timed(events[..|events| - 1], now)
  }

  /**
   * How many of the latest failures share one window anchored at the first of
   * them: the reference the records are measured against.
   */
  function Streak(f: seq<int>): (n: nat)
    ensures n <= |f| && (f != [] ==> n >= 1)
  {
    if f == [] then 0
    else
      var init, t := f[..|f| - 1], f[|f| - 1];
      if init == [] then 1
      else
        var n := Streak(init);
        if t - init[|init| - n] > LOCK_WINDOW then 1 else n + 1
  }

  function Anchor(f: seq<int>): int
    requires f != []
  {
    f[|f| - Streak(f)]
  }

  /** The record says exactly what the failure history says. */
  ghost predicate Faithful(s: State, f: seq<int>, now: int) {
    if s.Some? then
      && f != []
      && s.value.failures == Streak(f) && s.value.firstFail == Anchor(f)
      && s.value.lockedUntil == (if Streak(f) >= THRESHOLD then Some(f[|f| - 1] + LOCK_DURATION) else None)
    else
      // never any failure, or a record that IsLocked dropped after its lock ran out
      f != [] ==> now - Anchor(f) > LOCK_WINDOW && f[|f| - 1] + LOCK_DURATION < now
  }

  ghost predicate InOrder(f: seq<int>, now: int) {
    Sorted(f) && forall i :: 0 <= i < |f| ==> f[i] <= now
  }

  lemma FailFaithful(s: State, f: seq<int>, now: int, at: int)
    requires Faithful(s, f, now) && InOrder(f, now) && now <= at
    ensures Faithful(Some(Fail(s, at)), f + [at], at) && InOrder(f + [at], at)
  {
    var g := f + [at];
    assert g[..|g| - 1] == f;
    if f != [] {
      assert g[|f| - Streak(f)] == Anchor(f);
    }
  }

  lemma {:induction false} RunFaithful(events: seq<Event>, now: int)
    requires Timed(events, now)
    ensures Faithful(Run(events), FailTimes(events), now) && InOrder(FailTimes(events), now)
  {
    if events != [] {
      var init, f := events[..|events| - 1], FailTimes(events[..|events| - 1]);
      match events[|events| - 1]
      case Failed(at) =>
        RunFaithful(init, at);
        FailFaithful(Run(init), f, at, at);
      case Asked(at) =>
        RunFaithful(init, at);
      case Cleared =>
        RunFaithful(init, now);
    }
  }

  /**
   * An email is locked exactly when the latest anchored window holds at least
   * five failures and the newest of them is less than the lock duration old.
   */
  lemma LockedIffStreak(events: seq<Event>, now: int)
    requires Timed(events, now)
    ensures var f := FailTimes(events);
      Locked(Run(events), now) <==> Streak(f) >= THRESHOLD && f[|f| - 1] + LOCK_DURATION > now
  {
    RunFaithful(events, now);
  }

  lemma StreakSpan(f: seq<int>)
    requires f != []
    ensures f[|f| - 1] - Anchor(f) <= LOCK_WINDOW
  {
  }

  /** A lock needs five failures since the last Reset inside one closed 15-minute span, the newest under 15 minutes old. */
  lemma LockNeedsFiveInSpan(events: seq<Event>, now: int)
    requires Timed(events, now) && Locked(Run(events), now)
    ensures var f := FailTimes(events);
      |f| >= 5 && f[|f| - 1] - f[|f| - 5] <= 15 * MINUTE && now - f[|f| - 1] < 15 * MINUTE
  {
    RunFaithful(events, now);
    StreakSpan(FailTimes(events));
  }

  /** Whether the failure at index `j` set (or renewed) a lock. */
  predicate SetsLock(f: seq<int>, j: nat)
    requires j < |f|
  {
    Streak(f[..j + 1]) >= THRESHOLD
  }

  /** In a run that ends with a failure, that failure set a lock exactly if the email is locked right after it. */
  lemma SetsLockIffLocked(past: seq<Event>, at: int)
    requires Timed(past + [Failed(at)], at)
    ensures var events := past + [Failed(at)]; var f := FailTimes(events);
      f == FailTimes(past) + [at] && (SetsLock(f, |f| - 1) <==> Locked(Run(events), at))
  {
    var events := past + [Failed(at)];
    var f := FailTimes(events);
    assert events[..|past|] == past;
    LockedIffStreak(events, at);
    assert f[..|f|] == f;
  }

  lemma StreakNext(f: seq<int>, j: nat)
    requires j + 1 < |f|
    ensures var n := Streak(f[..j + 1]);
      && 1 <= n <= j + 1
      && Streak(f[..j + 2]) == if f[j + 1] - f[j + 1 - n] > LOCK_WINDOW then 1 else n + 1
  {
    assert f[..j + 2][..j + 1] == f[..j + 1];
  }

  lemma EightInSpanSetLock(f: seq<int>, i: nat)
    requires Sorted(f) && i + 7 < |f| && f[i + 7] - f[i] <= LOCK_WINDOW
    ensures exists j :: i <= j <= i + 7 && SetsLock(f, j)
  {
    hide Streak;
    if forall j :: i <= j <= i + 7 ==> !SetsLock(f, j) {
      assert !SetsLock(f, i) && f[..i + 1] != [];
      var k := i;
      // past the rollover, if there is one, every further failure adds to the same window
      while k < i + 7
        invariant i <= k <= i + 7
        invariant Streak(f[..k + 1]) <= 4
        invariant Streak(f[..k + 1]) >= k - i + 1 || (Streak(f[..k + 1]) >= k - i - 2 && k + 1 - Streak(f[..k + 1]) >= i)
      {
        StreakNext(f, k);
        assert !SetsLock(f, k + 1);
        k := k + 1;
      }
      assert false;
    }
  }

  /** Five failures from the i-th on: either the window open at the i-th has its five, or one of its first five is the fifth. */
  ghost predicate WindowFills(f: seq<int>, i: nat)
    requires i + 4 < |f|
  {
    var n := Streak(f[..i + 1]);
    n >= THRESHOLD || f[i + 1 - n + 4] - f[i + 1 - n] <= LOCK_WINDOW
  }

  lemma FiveInSpanSetLockIff(f: seq<int>, i: nat)
    requires Sorted(f) && i + 4 < |f| && f[i + 4] - f[i] <= LOCK_WINDOW
    ensures (exists j :: i <= j <= i + 4 && SetsLock(f, j)) <==> WindowFills(f, i)
  {
    hide Streak;
    var n := Streak(f[..i + 1]);
    assert SetsLock(f, i) <==> n >= THRESHOLD;
    StreakNext(f, i);
    StreakNext(f, i + 1);
    StreakNext(f, i + 2);
    StreakNext(f, i + 3);
    if n < THRESHOLD && WindowFills(f, i) {
      assert SetsLock(f, i + THRESHOLD - n);
    }
  }

  // ---- The same over runs. ----

  /** Where in the run the j-th failure since the last Reset is. */
  function EventOf(events: seq<Event>, j: nat): (m: nat)
    requires j < |FailTimes(events)|
    ensures m < |events| && events[m] == Failed(FailTimes(events)[j])
  {
    var last := |events| - 1;
    if events[last].Failed? && j == |FailTimes(events)| - 1 then last else EventOf(events[..last], j)
  }

  /** Right after the j-th failure since the last Reset the email is locked. */
  ghost predicate LocksAt(events: seq<Event>, j: nat)
    requires j < |FailTimes(events)|
  {
    Locked(Run(events[..EventOf(events, j) + 1]), FailTimes(events)[j])
  }

  lemma {:induction false} LocksAtIffSetsLock(events: seq<Event>, now: int, j: nat)
    requires Timed(events, now) && j < |FailTimes(events)|
    ensures LocksAt(events, j) <==> SetsLock(FailTimes(events), j)
  {
    hide Streak, Run, Locked;
    var last, f := |events| - 1, FailTimes(events);
    var init := events[..last];
    match events[last]
    case Failed(at) =>
      if j == |f| - 1 {
        assert events == init + [Failed(at)] && events[..last + 1] == events;
        SetsLockIffLocked(init, at);
      } else {
        LocksAtIffSetsLock(init, at, j);
        assert f[..j + 1] == FailTimes(init)[..j + 1];
        assert events[..EventOf(events, j) + 1] == init[..EventOf(init, j) + 1];
      }
    case Asked(at) =>
      LocksAtIffSetsLock(init, at, j);
      assert events[..EventOf(events, j) + 1] == init[..EventOf(init, j) + 1];
  }

  lemma FailuresSorted(events: seq<Event>, now: int)
    requires Timed(events, now)
    ensures Sorted(FailTimes(events))
  {
    RunFaithful(events, now);
  }

  /**
   * In every run, any eight failures in a closed 15-minute span without a Reset
   * include one right after which the email is locked: the window already open can
   * absorb three of them and the next one four.
   */
  lemma {:induction false} EightFailuresLock(events: seq<Event>, now: int, i: nat)
    requires Timed(events, now)
    requires var f := FailTimes(events); i + 7 < |f| && f[i + 7] - f[i] <= 15 * MINUTE
    ensures exists j :: i <= j <= i + 7 && LocksAt(events, j)
  {
    var f := FailTimes(events);
    FailuresSorted(events, now);
    EightInSpanSetLock(f, i);
    hide SetsLock, LocksAt;
    var j :| i <= j <= i + 7 && SetsLock(f, j);
    LocksAtIffSetsLock(events, now, j);
  }

  /**
   * Exactly when five failures in a closed 15-minute span lock: if and only if the
   * window open at the first of them already holds five, or its fifth failure falls
   * within 15 minutes of the failure it is anchored at.
   */
  lemma {:induction false} FiveFailuresLockIff(events: seq<Event>, now: int, i: nat)
    requires Timed(events, now)
    requires var f := FailTimes(events); i + 4 < |f| && f[i + 4] - f[i] <= 15 * MINUTE
    ensures (exists j :: i <= j <= i + 4 && LocksAt(events, j)) <==> WindowFills(FailTimes(events), i)
  {
    var f := FailTimes(events);
    FailuresSorted(events, now);
    FiveInSpanSetLockIff(f, i);
    hide SetsLock, LocksAt;
    forall j | i <= j <= i + 4 ensures LocksAt(events, j) <==> SetsLock(f, j) {
      LocksAtIffSetsLock(events, now, j);
    }
  }

  lemma StreakOne(t: int)
    ensures Streak([t]) == 1
  {
  }

  /** Seven failures within a nanosecond need not lock, so eight is exact and the window is not a sliding one. */
  lemma SevenFailuresNeedNotLock()
    ensures exists f: seq<int> :: |f| == 8 && Sorted(f) && f[7] - f[1] == 1 && forall j :: 0 <= j < 8 ==> !SetsLock(f, j)
  {
    hide Streak;
    var w := LOCK_WINDOW;
    var f := [0, w, w, w, w + 1, w + 1, w + 1, w + 1];
    assert f[..1] == [0];
    assert Streak([0]) == 1 by { StreakOne(0); }
    for j := 0 to 7
      invariant Streak(f[..j + 1]) == if j < 4 then j + 1 else j - 3
      invariant forall i :: 0 <= i <= j ==> !SetsLock(f, i)
    {
      StreakNext(f, j);
    }
  }

  // ---- Dropping an expired record cannot be observed. ----

  datatype Answer = IsLockedSaid(b: bool) | Delayed(d: int) | Done

  /** The answers to `events`, with or without IsLocked's deletion of expired records. */
  function Answers(s: State, events: seq<Event>, deleting: bool): seq<Answer>
    decreases |events|
  {
    if events == [] then []
    else
      match events[0]
      case Failed(at) =>
        var r := Fail(s, at);
        [Delayed(Backoff(r.failures))] + Answers(Some(r), events[1..], deleting)
      case Asked(at) =>
        [IsLockedSaid(Locked(s, at))] + Answers(if deleting then Check(s, at) else s, events[1..], deleting)
      case Cleared => [Done] + Answers(None, events[1..], deleting)
  }

  ghost predicate TimedFrom(events: seq<Event>, now: int) {
    if events == [] then true
    else
      match events[0]
      case Failed(at) => now <= at && TimedFrom(events[1..], at)
      case Asked(at) => now <= at && TimedFrom(events[1..], at)
      case Cleared => TimedFrom(events[1..], now)
  }

  /** A lock always outlasts the window it was set in. */
  ghost predicate Outlasts(s: State, now: int) {
    s.Some? ==>
      && s.value.firstFail <= now
      && (s.value.lockedUntil.Some? ==> s.value.lockedUntil.value >= s.value.firstFail + LOCK_WINDOW)
  }

  ghost predicate Similar(s: State, t: State, now: int) {
    Outlasts(s, now) && Outlasts(t, now) && (s == t || (s.None? && Expired(t, now)))
  }

  lemma {:induction false} SimilarAnswers(s: State, t: State, now: int, events: seq<Event>)
    requires Similar(s, t, now) && TimedFrom(events, now)
    ensures Answers(s, events, true) == Answers(t, events, false)
    decreases |events|
  {
    if events != [] {
      match events[0]
      case Failed(at) =>
        // an expired record rolls over, so it restarts exactly as an absent one does
        assert Fail(s, at) == Fail(t, at);
        SimilarAnswers(Some(Fail(s, at)), Some(Fail(t, at)), at, events[1..]);
      case Asked(at) => SimilarAnswers(Check(s, at), t, at, events[1..]);
      case Cleared => SimilarAnswers(None, None, now, events[1..]);
    }
  }

  lemma {:induction false} RunOutlasts(events: seq<Event>, now: int)
    requires Timed(events, now)
    ensures Outlasts(Run(events), now)
  {
    RunFaithful(events, now);
    var f := FailTimes(events);
    if f != [] {
      assert Anchor(f) <= f[|f| - 1];
    }
  }

  /**
   * From every reachable record, deleting it once its lock has run out gives the
   * same answers and delays, for every later run, as never deleting anything.
   */
  lemma DeletionUnobservable(past: seq<Event>, now: int, future: seq<Event>)
    requires Timed(past, now) && TimedFrom(future, now)
    ensures Answers(Check(Run(past), now), future, true) == Answers(Run(past), future, false)
  {
    RunOutlasts(past, now);
    SimilarAnswers(Check(Run(past), now), Run(past), now, future);
  }

  // ---- Backoff. ----

  /** Go's time.Duration: a signed 64-bit count of nanoseconds. */
  newtype Duration = d: int | -0x8000_0000_0000_0000 <= d < 0x8000_0000_0000_0000

  const MAX_BACKOFF: int := 8 * SECOND
  const BACKOFF_BASE: int := 250 * MILLISECOND

  function Pow2(n: nat): (p: nat)
    ensures p >= 1
  {
    if n == 0 then 1 else 2 * Pow2(n - 1)
  }

  function Backoff(failures: int): int {
    if failures <= 0 then 0
    else if BACKOFF_BASE * Pow2(failures - 1) <= MAX_BACKOFF then BACKOFF_BASE * Pow2(failures - 1)
    else MAX_BACKOFF
  }

  lemma {:induction false} Pow2Monotone(m: nat, n: nat)
    requires m <= n
    ensures Pow2(m) <= Pow2(n)
    decreases n
  {
    if m < n {
      Pow2Monotone(m, n - 1);
    }
  }

  lemma BackoffMonotone(m: int, n: int)
    requires m <= n
    ensures 0 <= Backoff(m) <= Backoff(n) <= MAX_BACKOFF
    ensures 1 <= m < n && Backoff(n) < MAX_BACKOFF ==> 2 * Backoff(m) <= Backoff(n)
  {
    if m >= 1 {
      Pow2Monotone(m - 1, n - 1);
      if m < n {
        Pow2Monotone(m, n - 1);
      }
    }
  }

  /** In figures: a quarter of a second after the first failure, doubling to eight seconds from the sixth on. */
  lemma BackoffFigures(n: int)
    ensures Backoff(n) ==
      if n <= 0 then 0
      else if n == 1 then 250_000_000
      else if n == 2 then 500_000_000
      else if n == 3 then 1_000_000_000
      else if n == 4 then 2_000_000_000
      else if n == 5 then 4_000_000_000
      else 8_000_000_000
  {
    if n >= 6 {
      assert Pow2(1) == 2 && Pow2(2) == 4 && Pow2(3) == 8 && Pow2(4) == 16 && Pow2(5) == 32;
      Pow2Monotone(5, n - 1);
    } else if n >= 1 {
      assert Pow2(1) == 2 && Pow2(2) == 4 && Pow2(3) == 8 && Pow2(4) == 16;
    }
  }

  /**
   * The doubling loop. `peak` is the largest value `d` ever held: at most the
   * cap, so the 64-bit product cannot overflow however many failures there are.
   */
  method BackoffDelay(failures: int) returns (d: Duration, ghost peak: int)
    ensures d as int == Backoff(failures)
    ensures peak <= MAX_BACKOFF
  {
    if failures <= 0 {
      return 0, 0;
    }
    d := BACKOFF_BASE as Duration;
    peak := d as int;
    var i := 1;
    while i < failures
      invariant 1 <= i <= failures
      invariant d as int == BACKOFF_BASE * Pow2(i - 1) && d as int < MAX_BACKOFF
      invariant Pow2(i - 1) in {1, 2, 4, 8, 16} && peak <= MAX_BACKOFF
    {
      d := d * 2;
      peak := if d as int > peak then d as int else peak;
      if d as int >= MAX_BACKOFF {
        Pow2Monotone(i, failures - 1);
        return MAX_BACKOFF as Duration, peak;
      }
      i := i + 1;
    }
  }

  // ---- The tracker. ----

  class FailureRecord {
    var failures: nat
    var firstFail: int
    var lockedUntil: Option<int>

    ghost function Value(): Rec
      reads this
    {
      Rec(failures, firstFail, lockedUntil)
    }

    constructor (now: int)
      ensures Value() == Rec(0, now, None)
    {
      failures, firstFail, lockedUntil := 0, now, None;
    }
  }

  function Get(m: map<Key, Rec>, key: Key): State {
    if key in m then Some(m[key]) else None
  }

  class LockoutTracker {
    var records: map<Key, FailureRecord>

    /** No two emails share a record. */
    ghost predicate Valid()
      reads this
    {
      forall j, k :: j in records && k in records && j != k ==> records[j] != records[k]
    }

    ghost function Abs(): map<Key, Rec>
      reads this, records.Values
    {
      map k | k in records :: records[k].Value()
    }

    constructor ()
      ensures Valid() && records == map[]
    {
      records := map[];
    }

    method IsLocked(email: Key, now: int) returns (locked: bool)
      requires Valid()
      modifies this
      ensures Valid() && records.Values <= old(records.Values)
      ensures locked <==> Locked(Get(old(Abs()), email), now)
      ensures Abs() == if Check(Get(old(Abs()), email), now).None? then old(Abs()) - {email} else old(Abs())
    {
      if email !in records {
        return false;
      }
      var rec := records[email];
      if rec.lockedUntil.Some? && rec.lockedUntil.value > now {
        return true;
      }
      if rec.lockedUntil.Some? && rec.lockedUntil.value < now {
        records := records - {email};
      }
      return false;
    }

    method RecordFailure(email: Key, now: int) returns (delay: Duration)
      requires Valid()
      modifies this, records.Values
      ensures Valid() && fresh(records.Values - old(records.Values))
      ensures Abs() == old(Abs())[email := Fail(Get(old(Abs()), email), now)]
      ensures delay as int == Backoff(Fail(Get(old(Abs()), email), now).failures)
    {
      hide Backoff, Pow2;
      if email !in records {
        var created := new FailureRecord(now);
        records := records[email := created];
      }
      var rec := records[email];
      if now - rec.firstFail > LOCK_WINDOW {
        rec.failures, rec.firstFail, rec.lockedUntil := 0, now, None;
      }
      rec.failures := rec.failures + 1;
      var n := rec.failures;
      if n >= THRESHOLD {
        rec.lockedUntil := Some(now + LOCK_DURATION);
      }
      ghost var peak;
      delay, peak := BackoffDelay(n);
    }

    method Reset(email: Key)
      requires Valid()
      modifies this
      ensures Valid() && records.Values <= old(records.Values)
      ensures Abs() == old(Abs()) - {email}
    {
      records := records - {email};
    }
  }
}
