/** The gates in front of POST /api/login (internal/api/handlers.go, internal/auth/session.go). */
module LoginGate {
  import opened Prelude
  import opened TimeWindow
  import opened RateLimiting
  import L = Lockout

  const IP_LIMIT: nat := 10
  const ACCOUNT_LIMIT: nat := 5
  const LOGIN_WINDOW: nat := 15 * MINUTE

  /** What the handler finds once past the gates; the database and the password decide it. */
  datatype Verdict = Malformed | UnknownEmail | WrongPassword | RightPassword

  datatype Attempt = Attempt(at: int, ip: Key, email: Key, verdict: Verdict)

  datatype Outcome = TooMany | BadRequest | Unauthorized(delay: int) | Accepted

  /** Accepted request times per address and per email, and the failure records. */
  datatype Gate = Gate(ip: map<Key, seq<int>>, acct: map<Key, seq<int>>, lock: map<Key, L.Rec>)

  function AfterCheck(lock: map<Key, L.Rec>, email: Key, now: int): map<Key, L.Rec> {
    if L.Check(L.Get(lock, email), now).None? then lock - {email} else lock
  }

  /** Charge the address, then the account; an attempt its address is refused is not charged to the account. */
  function Charge(g: Gate, ip: Key, email: Key, now: int): (Gate, bool) {
    var byIP := g.(ip := g.ip[ip := Record(TimeWindow.Get(g.ip, ip), now, IP_LIMIT, LOGIN_WINDOW)]);
    if !Admits(TimeWindow.Get(g.ip, ip), now, IP_LIMIT, LOGIN_WINDOW) then (byIP, false)
    else
      (byIP.(acct := g.acct[email := Record(TimeWindow.Get(g.acct, email), now, ACCOUNT_LIMIT, LOGIN_WINDOW)]),
       Admits(TimeWindow.Get(g.acct, email), now, ACCOUNT_LIMIT, LOGIN_WINDOW))
  }

  /** One login attempt, taken as a single step. */
  function Step(g: Gate, a: Attempt): (Gate, Outcome) {
    if L.Locked(L.Get(g.lock, a.email), a.at) then (g, TooMany)
    else
      var (charged, admitted) := Charge(g.(lock := AfterCheck(g.lock, a.email, a.at)), a.ip, a.email, a.at);
      if !admitted then (charged, TooMany)
      else
        match a.verdict
        case Malformed => (charged, BadRequest)
        case UnknownEmail => Failure(charged, a)
        case WrongPassword => Failure(charged, a)
        case RightPassword =>
          (Gate(charged.ip - {a.ip}, charged.acct - {a.email}, charged.lock - {a.email}), Accepted)
  }

  function Failure(g: Gate, a: Attempt): (Gate, Outcome) {
    var r := L.Fail(L.Get(g.lock, a.email), a.at);
    (g.(lock := g.lock[a.email := r]), Unauthorized(L.Backoff(r.failures)))
  }

  function RunFrom(g: Gate, attempts: seq<Attempt>): Gate {
    if attempts == [] then g
    else Step(RunFrom(g, attempts[..|attempts| - 1]), attempts[|attempts| - 1]).0
  }

  const START: Gate := Gate(map[], map[], map[])

  // ---- Who gets past the gates, and what follows. ----

  /** Not locked, and fewer than 10 and 5 accepted requests in the last 15 minutes. */
  ghost predicate PastGates(g: Gate, a: Attempt) {
    && !(a.email in g.lock && g.lock[a.email].lockedUntil.Some? && g.lock[a.email].lockedUntil.value > a.at)
    && |After(TimeWindow.Get(g.ip, a.ip), a.at - 15 * MINUTE)| < 10
    && |After(TimeWindow.Get(g.acct, a.email), a.at - 15 * MINUTE)| < 5
  }

  /** What one call leaves of the account's failure record: what the events make of it; nobody else's changes. */
  ghost predicate LockFollows(g: Gate, h: Gate, email: Key, events: seq<L.Event>) {
    && L.Get(h.lock, email) == L.RunOn(L.Get(g.lock, email), events)
    && forall k :: k != email ==> L.Get(h.lock, k) == L.Get(g.lock, k)
  }

  /**
   * How an attempt is answered, and what it does to the counters, by what the handler
   * found: only the right password is let in.
   */
  ghost predicate Treated(g: Gate, a: Attempt, outcome: Outcome, h: Gate) {
    && (outcome.TooMany? <==> !PastGates(g, a))
    && (outcome.Accepted? <==> PastGates(g, a) && a.verdict.RightPassword?)
    && (outcome.Unauthorized? <==> PastGates(g, a) && (a.verdict.UnknownEmail? || a.verdict.WrongPassword?))
    && (outcome.BadRequest? <==> PastGates(g, a) && a.verdict.Malformed?)
    // only a right password clears the counters, and then exactly this address's and this email's
    && (outcome.Accepted? ==> h.ip == g.ip - {a.ip} && h.acct == g.acct - {a.email} && LockFollows(g, h, a.email, [L.Cleared]))
    // every other attempt past the gates is charged to both
    && (outcome.Unauthorized? || outcome.BadRequest? ==>
          && h.ip == g.ip[a.ip := TimeWindow.Get(g.ip, a.ip) + [a.at]]
          && h.acct == g.acct[a.email := TimeWindow.Get(g.acct, a.email) + [a.at]])
    // a bad password, or an unknown email, counts as one failure at this instant
    && (outcome.Unauthorized? ==> LockFollows(g, h, a.email, [L.Asked(a.at), L.Failed(a.at)]))
    && (outcome.BadRequest? || outcome.TooMany? ==> LockFollows(g, h, a.email, [L.Asked(a.at)]))
    // and the delay is that of the failures then counted
    && (outcome.Unauthorized? ==> a.email in h.lock && outcome.delay == L.Backoff(h.lock[a.email].failures))
  }

  lemma StepTreats(g: Gate, a: Attempt)
    ensures Treated(g, a, Step(g, a).1, Step(g, a).0)
  {
    hide After, L.Backoff;
    L.RunOnOne(L.Get(g.lock, a.email), L.Asked(a.at));
    L.RunOnOne(L.Get(g.lock, a.email), L.Cleared);
    L.RunOnTwo(L.Get(g.lock, a.email), L.Asked(a.at), L.Failed(a.at));
    hide L.RunOn, L.Fail;
  }

  /** An attempt stopped at the gates: refused while locked it changes nothing, else it is charged as far as it got. */
  lemma RefusedIsChargedOnce(g: Gate, a: Attempt)
    requires !PastGates(g, a)
    ensures var h := Step(g, a).0;
      var times := TimeWindow.Get(g.ip, a.ip);
      if L.Locked(L.Get(g.lock, a.email), a.at) then h == g
      else if |After(times, a.at - 15 * MINUTE)| >= 10 then h.ip == g.ip[a.ip := times] && h.acct == g.acct
      else h.ip == g.ip[a.ip := times + [a.at]] && h.acct == g.acct[a.email := TimeWindow.Get(g.acct, a.email)]
  {
    hide After, L.Fail, L.Backoff;
  }

  // ---- The failures behind a lock. ----

  /** What an attempt is to the email's failure record. */
  function EventsOf(a: Attempt, outcome: Outcome): seq<L.Event> {
    match outcome
    case TooMany => [L.Asked(a.at)]
    case BadRequest => [L.Asked(a.at)]
    case Unauthorized(_) => [L.Asked(a.at), L.Failed(a.at)]
    case Accepted => [L.Cleared]
  }

  function LockEvents(email: Key, attempts: seq<Attempt>): seq<L.Event> {
    if attempts == [] then []
    else
      var init, a := attempts[..|attempts| - 1], attempts[|attempts| - 1];
      LockEvents(email, init) + if a.email == email then EventsOf(a, Step(RunFrom(START, init), a).1) else []
  }

  /**
   * Over any run the email's record is the one its own failures and successes leave,
   * so everything proved of the record over runs of calls holds behind the gates.
   */
  lemma {:induction false} LockHistory(email: Key, attempts: seq<Attempt>)
    ensures L.Get(RunFrom(START, attempts).lock, email) == L.Run(LockEvents(email, attempts))
  {
    hide Step;
    if attempts != [] {
      var init, a := attempts[..|attempts| - 1], attempts[|attempts| - 1];
      var g := RunFrom(START, init);
      LockHistory(email, init);
      StepTreats(g, a);
      if a.email == email {
        L.RunAppends(LockEvents(email, init), EventsOf(a, Step(g, a).1));
      } else {
        assert LockEvents(email, attempts) == LockEvents(email, init);
      }
      hide PastGates, L.RunOn, L.Run;
    }
  }

  /** The failures since the last success are the attempts past the gates with a bad password or unknown email. */
  function BadAttempts(email: Key, attempts: seq<Attempt>): seq<int> {
    if attempts == [] then []
    else
      var init, a := attempts[..|attempts| - 1], attempts[|attempts| - 1];
      var before, outcome := BadAttempts(email, init), Step(RunFrom(START, init), a).1;
      if a.email != email || outcome.TooMany? then before
      else
        match a.verdict
        case Malformed => before
        case UnknownEmail => before + [a.at]
        case WrongPassword => before + [a.at]
        case RightPassword => []
  }

  lemma {:induction false} FailuresAreBadAttempts(email: Key, attempts: seq<Attempt>)
    ensures L.FailTimes(LockEvents(email, attempts)) == BadAttempts(email, attempts)
  {
    hide Step;
    if attempts != [] {
      var init, a := attempts[..|attempts| - 1], attempts[|attempts| - 1];
      FailuresAreBadAttempts(email, init);
      StepTreats(RunFrom(START, init), a);
      hide PastGates, LockFollows;
      var events := LockEvents(email, init);
      assert events + [] == events;
      assert (events + [L.Cleared])[..|events|] == events;
      assert (events + [L.Asked(a.at), L.Failed(a.at)])[..|events| + 1] == events + [L.Asked(a.at)];
      assert (events + [L.Asked(a.at)])[..|events|] == events;
    }
  }

  // ---- The lock lasts exactly fifteen minutes. ----

  ghost predicate LockedTill(g: Gate, email: Key, until: int) {
    email in g.lock && g.lock[email].lockedUntil == Some(until)
  }

  /** A failure that locks does so until exactly fifteen minutes later. */
  lemma FailureLocks(g: Gate, a: Attempt)
    requires Step(g, a).1.Unauthorized?
    ensures var after := Step(g, a).0;
      L.Locked(L.Get(after.lock, a.email), a.at) <==> after.lock[a.email].failures >= L.THRESHOLD
    ensures var after := Step(g, a).0;
      after.lock[a.email].failures >= L.THRESHOLD ==> LockedTill(after, a.email, a.at + L.LOCK_DURATION)
  {
  }

  lemma LockStep(g: Gate, email: Key, until: int, a: Attempt)
    requires LockedTill(g, email, until) && a.at < until
    ensures var h := Step(g, a).0; email in h.lock && h.lock[email] == g.lock[email]
  {
    hide Record, Admits, L.Fail, L.Backoff;
  }

  /**
   * Whatever else is attempted before `until`, by anyone, the lock is still there
   * and still ends at `until`.
   */
  lemma {:induction false} LockUndisturbed(g: Gate, email: Key, until: int, later: seq<Attempt>)
    requires LockedTill(g, email, until)
    requires forall i :: 0 <= i < |later| ==> later[i].at < until
    ensures var h := RunFrom(g, later); email in h.lock && h.lock[email] == g.lock[email]
  {
    hide Step;
    if later != [] {
      var init := later[..|later| - 1];
      LockUndisturbed(g, email, until, init);
      LockStep(RunFrom(g, init), email, until, later[|later| - 1]);
    }
  }

  /**
   * After the failure that locks an email, every attempt on it in the next fifteen
   * minutes is refused and leaves every counter alone, and the first instant at
   * which it is no longer refused as locked is exactly fifteen minutes later.
   */
  lemma {:induction false} LockLastsExactly(past: seq<Attempt>, a: Attempt, later: seq<Attempt>, b: Attempt)
    requires Step(RunFrom(START, past), a).1.Unauthorized?
    requires L.Locked(L.Get(Step(RunFrom(START, past), a).0.lock, a.email), a.at)
    requires forall i :: 0 <= i < |later| ==> later[i].at < a.at + 15 * MINUTE
    requires b.email == a.email
    ensures var now := RunFrom(Step(RunFrom(START, past), a).0, later);
      && (b.at < a.at + 15 * MINUTE ==> Step(now, b) == (now, TooMany))
      && (L.Locked(L.Get(now.lock, b.email), b.at) <==> b.at < a.at + 15 * MINUTE)
  {
    var g := RunFrom(START, past);
    FailureLocks(g, a);
    LockUndisturbed(Step(g, a).0, a.email, a.at + L.LOCK_DURATION, later);
  }

  // ---- Admissions between successful logins. ----

  /** The times at which attempts on `email` got past every gate since its last successful login. */
  function AdmittedFor(email: Key, attempts: seq<Attempt>): seq<int> {
    if attempts == [] then []
    else
      var init, a := attempts[..|attempts| - 1], attempts[|attempts| - 1];
      var before, outcome := AdmittedFor(email, init), Step(RunFrom(START, init), a).1;
      if a.email != email || outcome.TooMany? then before
      else if outcome.Accepted? then []
      else before + [a.at]
  }

  /** The same from one address, since its last successful login. */
  function AdmittedFrom(ip: Key, attempts: seq<Attempt>): seq<int> {
    if attempts == [] then []
    else
      var init, a := attempts[..|attempts| - 1], attempts[|attempts| - 1];
      var before, outcome := AdmittedFrom(ip, init), Step(RunFrom(START, init), a).1;
      if a.ip != ip || outcome.TooMany? then before
      else if outcome.Accepted? then []
      else before + [a.at]
  }

  lemma AccountStep(g: Gate, a: Attempt, email: Key)
    ensures var (h, outcome) := Step(g, a);
      var before, after := TimeWindow.Get(g.acct, email), TimeWindow.Get(h.acct, email);
      && after == (if a.email != email || outcome.TooMany? then before else if outcome.Accepted? then [] else before + [a.at])
      && (a.email == email && !outcome.TooMany? ==> Admits(before, a.at, ACCOUNT_LIMIT, LOGIN_WINDOW))
  {
    hide After, AfterCheck, L.Fail, L.Backoff;
  }

  lemma AddressStep(g: Gate, a: Attempt, ip: Key)
    ensures var (h, outcome) := Step(g, a);
      var before, after := TimeWindow.Get(g.ip, ip), TimeWindow.Get(h.ip, ip);
      && (after in {before, [], Record(before, a.at, IP_LIMIT, LOGIN_WINDOW)})
      && (a.ip == ip && !outcome.TooMany? ==> after == if outcome.Accepted? then [] else before + [a.at])
      && (a.ip != ip || outcome.TooMany? ==> |after| >= |before| && after[..|before|] == before)
  {
    hide After, AfterCheck, L.Fail, L.Backoff;
  }

  lemma {:induction false} AccountHistory(email: Key, attempts: seq<Attempt>)
    ensures TimeWindow.Get(RunFrom(START, attempts).acct, email) == AdmittedFor(email, attempts)
  {
    hide Step, After;
    if attempts != [] {
      var init, a := attempts[..|attempts| - 1], attempts[|attempts| - 1];
      AccountHistory(email, init);
      AccountStep(RunFrom(START, init), a, email);
    }
  }

  lemma {:induction false} AccountBound(email: Key, attempts: seq<Attempt>, end: int)
    ensures |Within(AdmittedFor(email, attempts), end - LOGIN_WINDOW, end)| <= ACCOUNT_LIMIT
  {
    hide Step, After;
    if attempts != [] {
      var init, a := attempts[..|attempts| - 1], attempts[|attempts| - 1];
      AccountBound(email, init, end);
      AccountHistory(email, init);
      AccountStep(RunFrom(START, init), a, email);
      RecordBound(AdmittedFor(email, init), a.at, ACCOUNT_LIMIT, LOGIN_WINDOW, end);
    }
  }

  lemma {:induction false} AddressHistory(ip: Key, attempts: seq<Attempt>, end: int)
    ensures var charged := TimeWindow.Get(RunFrom(START, attempts).ip, ip);
      |Within(AdmittedFrom(ip, attempts), end - LOGIN_WINDOW, end)|
        <= |Within(charged, end - LOGIN_WINDOW, end)| <= IP_LIMIT
  {
    hide Step, After, Within;
    if attempts != [] {
      var init, a := attempts[..|attempts| - 1], attempts[|attempts| - 1];
      var charged := TimeWindow.Get(RunFrom(START, init).ip, ip);
      AddressHistory(ip, init, end);
      AddressStep(RunFrom(START, init), a, ip);
      RecordBound(charged, a.at, IP_LIMIT, LOGIN_WINDOW, end);
      WithinSnoc(charged, a.at, end - LOGIN_WINDOW, end);
      WithinSnoc(AdmittedFrom(ip, init), a.at, end - LOGIN_WINDOW, end);
    }
  }

  /**
   * Over any run, the attempts admitted since the last successful login number at
   * most five per email and ten per address in every half-open 15-minute window.
   */
  lemma AdmissionBounds(email: Key, ip: Key, attempts: seq<Attempt>, end: int)
    ensures |Within(AdmittedFor(email, attempts), end - 15 * MINUTE, end)| <= 5
    ensures |Within(AdmittedFrom(ip, attempts), end - 15 * MINUTE, end)| <= 10
  {
    AccountBound(email, attempts, end);
    AddressHistory(ip, attempts, end);
  }

  // ---- The handler over the real limiters and tracker. ----

  class Manager {
    const loginIP: RateLimiter
    const loginAcct: RateLimiter
    const lockout: L.LockoutTracker

    ghost predicate Valid()
      reads loginIP.table, loginIP.table.Repr, loginAcct.table, loginAcct.table.Repr, lockout
    {
      && loginIP.Valid() && loginAcct.Valid() && lockout.Valid()
      && loginIP.limit == IP_LIMIT && loginAcct.limit == ACCOUNT_LIMIT
      && loginIP.window == loginAcct.window == LOGIN_WINDOW
      && loginIP.table in loginIP.table.Repr && loginAcct.table in loginAcct.table.Repr
      && loginIP.table.Repr !! loginAcct.table.Repr
      && (loginIP.table.Repr + loginAcct.table.Repr) !! ({lockout} + lockout.records.Values)
    }

    ghost function Abs(): Gate
      reads loginIP.table, loginAcct.table, lockout, lockout.records.Values
    {
      Gate(loginIP.table.recorded, loginAcct.table.recorded, lockout.Abs())
    }

    constructor ()
      ensures Valid() && Abs() == START
    {
      loginIP := new RateLimiter(IP_LIMIT, LOGIN_WINDOW);
      loginAcct := new RateLimiter(ACCOUNT_LIMIT, LOGIN_WINDOW);
      lockout := new L.LockoutTracker();
    }

    method CheckLoginLimit(ip: Key, email: Key, now: int) returns (ok: bool)
      requires Valid() && loginIP.table.clock <= now && loginAcct.table.clock <= now
      modifies loginIP.table.Repr, loginAcct.table.Repr
      ensures Valid() && lockout.Abs() == old(lockout.Abs())
      ensures var (g, admitted) := Charge(old(Abs()), ip, email, now); Abs() == g && ok == admitted
      ensures lockout.records == old(lockout.records)
      ensures fresh(loginIP.table.Repr - old(loginIP.table.Repr))
      ensures fresh(loginAcct.table.Repr - old(loginAcct.table.Repr))
    {
      hide After, RateLimiter.Valid, L.LockoutTracker.Valid, L.LockoutTracker.Abs;
      ok := loginIP.Allow(ip, now);
      if ok {
        ok := loginAcct.Allow(email, now);
      }
    }

    method ResetLoginLimit(ip: Key, email: Key)
      requires Valid()
      modifies loginIP.table, loginAcct.table, lockout
      ensures Valid()
      ensures var g := old(Abs()); Abs() == Gate(g.ip - {ip}, g.acct - {email}, g.lock - {email})
    {
      hide After, RateLimiter.Valid, L.LockoutTracker.Valid, L.LockoutTracker.Abs;
      loginIP.Reset(ip);
      loginAcct.Reset(email);
      lockout.Reset(email);
    }

    /** The lockout, and only if it lets the attempt through the two limiters. */
    method StoppedAtGates(ip: Key, email: Key, now: int) returns (stopped: bool)
      requires Valid() && loginIP.table.clock <= now && loginAcct.table.clock <= now
      modifies loginIP.table.Repr, loginAcct.table.Repr, lockout
      ensures Valid() && lockout.records.Values <= old(lockout.records.Values)
      ensures fresh(loginIP.table.Repr - old(loginIP.table.Repr)) && fresh(loginAcct.table.Repr - old(loginAcct.table.Repr))
      ensures var g := old(Abs());
        if L.Locked(L.Get(g.lock, email), now) then stopped && Abs() == g
        else var (charged, admitted) := Charge(g.(lock := AfterCheck(g.lock, email, now)), ip, email, now);
             Abs() == charged && stopped == !admitted
    {
      hide Charge, After, RateLimiter.Valid, L.LockoutTracker.Valid, L.LockoutTracker.Abs;
      stopped := lockout.IsLocked(email, now);
      if !stopped {
        var within := CheckLoginLimit(ip, email, now);
        stopped := !within;
      }
    }

    /** PostLogin up to the session or challenge it creates on success. */
    method PostLogin(a: Attempt) returns (outcome: Outcome)
      requires Valid() && loginIP.table.clock <= a.at && loginAcct.table.clock <= a.at
      modifies loginIP.table.Repr, loginAcct.table.Repr, lockout, lockout.records.Values
      ensures Valid()
      ensures (Abs(), outcome) == Step(old(Abs()), a)
      ensures Treated(old(Abs()), a, outcome, Abs())
    {
      hide Treated, Record, Admits, After, L.Fail, L.Backoff, RateLimiter.Valid, L.LockoutTracker.Valid, L.LockoutTracker.Abs;
      StepTreats(Abs(), a);
      var refused := StoppedAtGates(a.ip, a.email, a.at);
      if refused {
        return TooMany;
      }
      if a.verdict.Malformed? {
        return BadRequest;
      }
      if !a.verdict.RightPassword? {
        var delay := lockout.RecordFailure(a.email, a.at);
        return Unauthorized(delay as int);
      }
      ResetLoginLimit(a.ip, a.email);
      return Accepted;
    }
  }
}
