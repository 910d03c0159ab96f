/**
 * The browser client's single-flight refresh and one-shot retry
 * (web/src/api/client.ts) against the session table, over every interleaving.
 */
module RefreshProtocol {
  import opened Prelude
  import opened Sessions

  /** What the browser holds: the refresh cookie and the instant it ages out, if it has one. */
  datatype Cookie = Cookie(token: Token, dropAt: Option<int>)

  /** One POST /api/auth/refresh, from the fetch to the clearing of `refreshInFlight`. */
  datatype Phase =
    | Requested(cookie: Option<Token>)            // on its way, with the cookie read at send time
    | FoundRow(id: nat)                           // the server has looked the row up
    | Replied(accepted: bool, issued: Token)      // response on its way back
    | Arrived(accepted: bool)                     // cookies updated, promise settled
    | Settled(accepted: bool)                     // `finally` has run

  /** One caller of fetchWithAuth, or of refreshSession directly. */
  datatype Caller =
    | Sent(attempt: nat)                          // an API request is outstanding
    | Awaiting(flight: nat, retries: bool)        // parked on the shared promise
    | Returned

  /**
   * `session` is the client's own row; `flights` and `callers` record every
   * refresh and every caller so far, `sends` how often each caller's request went out.
   */
  datatype World = World(
    table: State, session: nat, clock: int,
    jar: Option<Cookie>,
    inFlight: Option<nat>,
    flights: map<nat, Phase>,
    callers: map<nat, Caller>,
    sends: map<nat, nat>
  )

  datatype Action =
    | Wait(till: int)
    | Elsewhere(table: State)                     // other users' sessions
    | Start(caller: nat)                          // fetchWithAuth
    | StartRefresh(caller: nat)                   // api.refreshSession
    | Respond(caller: nat, status401: bool)       // the API response reaches the caller
    | ServerLookUp(flight: nat)
    | ServerRotate(flight: nat)
    | Deliver(flight: nat)                        // the refresh response reaches the browser
    | Finally(flight: nat)
    | Resume(caller: nat)                         // one awaiting caller continues
    | CookieDrops

  /** Max-Age counts whole seconds, so a cookie may go up to this much before its row expires. */
  function Rounding(c: Config): int {
    if c.refreshTTL < SECOND then 0 else c.refreshTTL % SECOND
  }

  /** The cookie a browser keeps at `now`; a Max-Age of 0 is not sent, which leaves it without an end. */
  function SetCookie(c: Config, token: Token, now: int): Cookie {
    Cookie(token, if c.refreshTTL < SECOND then None else Some(now + c.refreshTTL - Rounding(c)))
  }

  predicate Aged(k: Cookie, now: int) {
    k.dropAt.Some? && k.dropAt.value <= now
  }

  /** A number no flight has had. */
  function FreshFlight(w: World): nat {
    |w.flights|
  }

  /** refreshSession: join the flight under way or start one with the cookie in the jar. */
  function JoinOrStart(w: World, caller: nat, retries: bool): World {
    match w.inFlight
    case Some(f) => w.(callers := w.callers[caller := Awaiting(f, retries)])
    case None =>
      var f := FreshFlight(w);
      w.(inFlight := Some(f),
         flights := w.flights[f := Requested(if w.jar.Some? then Some(w.jar.value.token) else None)],
         callers := w.callers[caller := Awaiting(f, retries)])
  }

  function Send(w: World, caller: nat, attempt: nat): World {
    w.(callers := w.callers[caller := Sent(attempt)],
       sends := w.sends[caller := (if caller in w.sends then w.sends[caller] else 0) + 1])
  }

  ghost function Do(c: Config, w: World, a: Action): World {
    match a
    case Wait(till) => if w.clock <= till then w.(clock := till) else w
    case Elsewhere(table) => if Others(w, table) then w.(table := table) else w
    case Start(k) => if k in w.callers then w else Send(w, k, 1)
    case StartRefresh(k) => if k in w.callers then w else JoinOrStart(w, k, false)
    case Respond(k, status401) =>
      if k !in w.callers || !w.callers[k].Sent? then w
      else if status401 && w.callers[k].attempt == 1 then JoinOrStart(w, k, true)
      else w.(callers := w.callers[k := Returned])
    case ServerLookUp(f) =>
      if f !in w.flights || !w.flights[f].Requested? then w
      else w.(flights := w.flights[f := LookUpResult(w, w.flights[f].cookie)])
    case ServerRotate(f) =>
      if f !in w.flights || !w.flights[f].FoundRow? || w.flights[f].id !in w.table.rows then w
      else
        w.(table := Rotate(c, w.table, w.flights[f].id, w.clock),
           flights := w.flights[f := Replied(true, w.table.nextToken + 1)])
    case Deliver(f) =>
      if f !in w.flights || !w.flights[f].Replied? then w
      else
        var jar := if w.flights[f].accepted then Some(SetCookie(c, w.flights[f].issued, w.clock)) else None;
        w.(jar := jar, flights := w.flights[f := Arrived(w.flights[f].accepted)])
    case Finally(f) =>
      if f !in w.flights || !w.flights[f].Arrived? then w
      else w.(inFlight := None, flights := w.flights[f := Settled(w.flights[f].accepted)])
    case Resume(k) =>
      if k !in w.callers || !w.callers[k].Awaiting? || w.callers[k].flight !in w.flights
         || !w.flights[w.callers[k].flight].Settled? then w
      else if w.callers[k].retries && w.flights[w.callers[k].flight].accepted then Send(w, k, 2)
      else w.(callers := w.callers[k := Returned])
    case CookieDrops => if w.jar.Some? && Aged(w.jar.value, w.clock) then w.(jar := None) else w
  }

  /** RefreshSession's lookup and expiry check; a request without the cookie is refused outright. */
  ghost function LookUpResult(w: World, cookie: Option<Token>): Phase {
    match cookie
    case None => Replied(false, 0)
    case Some(t) =>
      match GetByRefreshHash(w.table.rows, Sha256(t))
      case None => Replied(false, 0)
      case Some(id) => if w.clock > w.table.rows[id].refreshExpires then Replied(false, 0) else FoundRow(id)
  }

  /** The rest of the world leaves this client's row alone: nobody else holds its cookies. */
  ghost predicate Others(w: World, table: State) {
    && Inv(table)
    && w.session in w.table.rows && w.session in table.rows
    && table.rows[w.session] == w.table.rows[w.session]
  }

  ghost function Run(c: Config, w: World, actions: seq<Action>): World {
    if actions == [] then w else Do(c, Run(c, w, actions[..|actions| - 1]), actions[|actions| - 1])
  }

  /** Just logged in: the jar holds the pair in the row, nothing is under way. */
  ghost predicate LoggedIn(c: Config, w: World) {
    && Inv(w.table) && w.session in w.table.rows
    && w.jar.Some? && CookieMatches(c, w, w.jar.value)
    && w.inFlight == None && w.flights == map[] && w.callers == map[] && w.sends == map[]
  }

  // ---- The invariant. ----

  function MyRow(w: World): Row
    requires w.session in w.table.rows
  {
    w.table.rows[w.session]
  }

  ghost predicate CookieMatches(c: Config, w: World, k: Cookie)
    requires w.session in w.table.rows
  {
    && MyRow(w).refresh == Sha256(k.token)
    && (k.dropAt.Some? ==> k.dropAt.value >= MyRow(w).refreshExpires - Rounding(c))
  }

  /** The row is past, or within a second's rounding of, its expiry; it can no longer be rotated to safety. */
  ghost predicate Ending(c: Config, w: World)
    requires w.session in w.table.rows
  {
    w.clock >= MyRow(w).refreshExpires - Rounding(c)
  }

  /** The jar agrees with the row, or is empty because the row has run out. */
  ghost predicate JarAgrees(c: Config, w: World)
    requires w.session in w.table.rows
  {
    match w.jar
    case Some(k) => CookieMatches(c, w, k)
    case None => Ending(c, w)
  }

  /** Where the pair now in the row is: in the jar, or in the one undelivered response. */
  ghost predicate Agreement(c: Config, w: World)
    requires w.session in w.table.rows
  {
    match if w.inFlight.Some? && w.inFlight.value in w.flights then w.flights[w.inFlight.value] else Settled(false)
    case Requested(Some(t)) => JarAgrees(c, w) && MyRow(w).refresh == Sha256(t)
    case Requested(None) => JarAgrees(c, w) && Ending(c, w)
    case FoundRow(id) => JarAgrees(c, w) && id == w.session
    case Replied(true, t) =>
      MyRow(w).refresh == Sha256(t) && w.clock + c.refreshTTL >= MyRow(w).refreshExpires
    case Replied(false, _) => Ending(c, w)
    case Arrived(accepted) => JarAgrees(c, w) && (accepted || Ending(c, w))
    case Settled(_) => JarAgrees(c, w)
  }

  ghost predicate CallerOk(w: World, k: nat)
    requires k in w.callers
  {
    match w.callers[k]
    case Sent(n) => 1 <= n <= 2 && k in w.sends && w.sends[k] == n
    case Awaiting(f, retries) => f in w.flights && (if retries then k in w.sends && w.sends[k] == 1 else k !in w.sends)
    case Returned => true
  }

  ghost predicate WorldInv(c: Config, w: World) {
    && Inv(w.table) && w.session in w.table.rows
    && (forall f :: f in w.flights ==> 0 <= f < |w.flights|)
    && (w.inFlight.Some? ==> w.inFlight.value in w.flights && !w.flights[w.inFlight.value].Settled?)
    && (forall f :: f in w.flights ==> w.flights[f].Settled? || w.inFlight == Some(f))
    && Agreement(c, w)
    && w.sends.Keys <= w.callers.Keys
    && (forall k :: k in w.callers ==> CallerOk(w, k))
    && (forall k :: k in w.sends ==> w.sends[k] <= 2)
  }

  /** The client's own cookie finds the client's own row. */
  lemma OwnCookieFindsRow(w: World, t: Token)
    requires Inv(w.table) && w.session in w.table.rows && MyRow(w).refresh == Sha256(t)
    ensures GetByRefreshHash(w.table.rows, Sha256(t)) == Some(w.session)
  {
    assert HasRefresh(w.table.rows, Sha256(t), w.session);
    InvSeparates(w.table);
  }

  lemma LookUpKeepsInv(c: Config, w: World, f: nat)
    requires WorldInv(c, w)
    ensures WorldInv(c, Do(c, w, ServerLookUp(f)))
  {
    hide GetByRefreshHash;
    if f in w.flights && w.flights[f].Requested? && w.flights[f].cookie.Some? {
      OwnCookieFindsRow(w, w.flights[f].cookie.value);
    }
    hide Inv;
  }

  lemma RotateKeepsInv(c: Config, w: World, f: nat)
    requires WorldInv(c, w)
    ensures WorldInv(c, Do(c, w, ServerRotate(f)))
  {
    hide Inv, Advances, Live;
    if f in w.flights && w.flights[f].FoundRow? {
      RotatedPair(c, w.table, w.flights[f].id, w.clock);
    }
  }

  lemma StepBrowser(c: Config, w: World, a: Action)
    requires WorldInv(c, w) && (a.Deliver? || a.Finally? || a.CookieDrops? || a.Wait? || a.Elsewhere?)
    ensures WorldInv(c, Do(c, w, a))
  {
    hide Inv;
  }

  lemma JoinKeepsInv(c: Config, w: World, k: nat, retries: bool)
    requires WorldInv(c, w) && if retries then k in w.sends && w.sends[k] == 1 else k !in w.callers
    ensures WorldInv(c, JoinOrStart(w, k, retries))
  {
    hide Inv;
  }

  /** Agreement does not look at the callers. */
  lemma SameAgreement(c: Config, w: World, v: World)
    requires w.session in w.table.rows && v == w.(callers := v.callers, sends := v.sends)
    ensures Agreement(c, w) <==> Agreement(c, v)
  {
  }

  lemma SendKeepsInv(c: Config, w: World, k: nat, attempt: nat)
    requires WorldInv(c, w) && 1 <= attempt <= 2
    requires if attempt == 1 then k !in w.sends else k in w.sends && w.sends[k] == 1
    ensures WorldInv(c, Send(w, k, attempt))
  {
    SameAgreement(c, w, Send(w, k, attempt));
    hide Inv, Agreement;
  }

  lemma ReturnKeepsInv(c: Config, w: World, k: nat)
    requires WorldInv(c, w)
    ensures WorldInv(c, w.(callers := w.callers[k := Returned]))
  {
    SameAgreement(c, w, w.(callers := w.callers[k := Returned]));
    hide Inv, Agreement;
  }

  lemma StepCaller(c: Config, w: World, a: Action)
    requires WorldInv(c, w) && (a.Start? || a.StartRefresh? || a.Respond? || a.Resume?)
    ensures WorldInv(c, Do(c, w, a))
  {
    var k := a.caller;
    assert k in w.sends ==> k in w.callers;
    assert k in w.callers ==> CallerOk(w, k);
    hide WorldInv, JoinOrStart, Send;
    ReturnKeepsInv(c, w, k);
    match a
    case Start(_) => if k !in w.callers { SendKeepsInv(c, w, k, 1); }
    case StartRefresh(_) => if k !in w.callers { JoinKeepsInv(c, w, k, false); }
    case Respond(_, status401) =>
      if k in w.callers && w.callers[k] == Sent(1) && status401 { JoinKeepsInv(c, w, k, true); }
    case Resume(_) =>
      if k in w.callers && w.callers[k].Awaiting? && w.callers[k].retries { SendKeepsInv(c, w, k, 2); }
  }

  lemma StepKeepsWorldInv(c: Config, w: World, a: Action)
    requires WorldInv(c, w)
    ensures WorldInv(c, Do(c, w, a))
  {
    hide WorldInv, Do;
    if a.ServerLookUp? {
      LookUpKeepsInv(c, w, a.flight);
    } else if a.ServerRotate? {
      RotateKeepsInv(c, w, a.flight);
    } else if a.Start? || a.StartRefresh? || a.Respond? || a.Resume? {
      StepCaller(c, w, a);
    } else {
      StepBrowser(c, w, a);
    }
  }

  lemma {:induction false} RunKeepsWorldInv(c: Config, w: World, actions: seq<Action>)
    requires LoggedIn(c, w)
    ensures WorldInv(c, Run(c, w, actions))
  {
    if actions != [] {
      RunKeepsWorldInv(c, w, actions[..|actions| - 1]);
      StepKeepsWorldInv(c, Run(c, w, actions[..|actions| - 1]), actions[|actions| - 1]);
    }
  }

  /**
   * In every interleaving at most one refresh is outstanding, no caller's request
   * goes out more than twice, and the pair in the row is always in the jar or in
   * the one undelivered response (unless the row has run out).
   */
  lemma SingleFlight(c: Config, start: World, actions: seq<Action>)
    requires LoggedIn(c, start)
    ensures var w := Run(c, start, actions);
      && (forall f, g :: f in w.flights && g in w.flights && !w.flights[f].Settled? && !w.flights[g].Settled? ==> f == g)
      && (forall k :: k in w.sends ==> w.sends[k] <= 2)
      && w.session in w.table.rows
      && (|| Ending(c, w)
          || (w.jar.Some? && MyRow(w).refresh == Sha256(w.jar.value.token))
          || exists f :: f in w.flights && w.flights[f].Replied? && w.flights[f].accepted
               && MyRow(w).refresh == Sha256(w.flights[f].issued))
  {
    RunKeepsWorldInv(c, start, actions);
  }

  /**
   * No refresh loses a race: one sent with a cookie finds the row exactly until the
   * row's expiry, one that found it rotates it, and only within the rounding of
   * Max-Age before that expiry can the cookie be missing.
   */
  lemma RefreshNeverLosesRace(c: Config, start: World, actions: seq<Action>, f: nat)
    requires LoggedIn(c, start)
    requires f in Run(c, start, actions).flights
    ensures var w := Run(c, start, actions);
      && w.session in w.table.rows
      && (w.flights[f].Requested? ==>
            && Do(c, w, ServerLookUp(f)).flights[f] ==
                 (if w.flights[f].cookie.Some? && w.clock <= MyRow(w).refreshExpires
                  then FoundRow(w.session) else Replied(false, 0))
            && (w.flights[f].cookie.None? ==> w.clock >= MyRow(w).refreshExpires - Rounding(c)))
      && (w.flights[f].FoundRow? ==>
            Do(c, w, ServerRotate(f)).flights[f] == Replied(true, w.table.nextToken + 1))
  {
    RunKeepsWorldInv(c, start, actions);
    var w := Run(c, start, actions);
    if w.flights[f].Requested? && w.flights[f].cookie.Some? {
      OwnCookieFindsRow(w, w.flights[f].cookie.value);
    }
  }

  // ---- What the client does, event by event. ----

  /** Caller k is parked on the flight under way, or on a new one: a request with the cookie in the jar. Nothing else changed. */
  ghost predicate Joined(w: World, z: World, k: nat, retries: bool) {
    && z.inFlight.Some?
    && z == w.(inFlight := z.inFlight, flights := z.flights, callers := w.callers[k := Awaiting(z.inFlight.value, retries)])
    && if w.inFlight.Some? then z.inFlight == w.inFlight && z.flights == w.flights
       else
         && z.inFlight.value !in w.flights
         && z.flights == w.flights[z.inFlight.value := Requested(match w.jar case Some(cookie) => Some(cookie.token) case None => None)]
  }

  /** A call sends its request once; a direct refresh joins the flight under way or starts one. */
  lemma {:induction false} CallsGoOut(c: Config, start: World, actions: seq<Action>, k: nat)
    requires LoggedIn(c, start) && k !in Run(c, start, actions).callers
    ensures var w := Run(c, start, actions);
      && Do(c, w, Start(k)) == w.(callers := w.callers[k := Sent(1)], sends := w.sends[k := 1])
      && Joined(w, Do(c, w, StartRefresh(k)), k, false)
  {
    RunKeepsWorldInv(c, start, actions);
    FreshIsFresh(c, Run(c, start, actions));
    hide Run, Agreement;
  }

  lemma FreshIsFresh(c: Config, w: World)
    requires WorldInv(c, w)
    ensures FreshFlight(w) !in w.flights
  {
  }

  /**
   * A first 401 parks the caller on a refresh, the one under way or a new one sent
   * with the cookie in the jar; every other response is returned.
   */
  lemma {:induction false} UnauthorizedRefreshes(c: Config, start: World, actions: seq<Action>, k: nat, status401: bool)
    requires LoggedIn(c, start) && k in Run(c, start, actions).callers && Run(c, start, actions).callers[k].Sent?
    ensures var w := Run(c, start, actions); var z := Do(c, w, Respond(k, status401));
      && k in w.sends && w.sends[k] == w.callers[k].attempt
      && if status401 && w.callers[k] == Sent(1) then Joined(w, z, k, true)
         else z == w.(callers := w.callers[k := Returned])
  {
    RunKeepsWorldInv(c, start, actions);
    FreshIsFresh(c, Run(c, start, actions));
    assert CallerOk(Run(c, start, actions), k);
    hide Run, Agreement;
  }

  /**
   * A caller parked on a refresh waits until it is settled, and then sends its
   * request a second time exactly if the refresh was accepted and it has one to
   * send; otherwise it returns.
   */
  lemma {:induction false} RefreshedRetries(c: Config, start: World, actions: seq<Action>, k: nat)
    requires LoggedIn(c, start) && k in Run(c, start, actions).callers && Run(c, start, actions).callers[k].Awaiting?
    ensures var w := Run(c, start, actions); var z := Do(c, w, Resume(k)); var Awaiting(f, retries) := w.callers[k];
      && f in w.flights
      && (retries ==> k in w.sends && w.sends[k] == 1)
      && z == if !w.flights[f].Settled? then w
              else if w.flights[f].accepted && retries
              then w.(callers := w.callers[k := Sent(2)], sends := w.sends[k := 2])
              else w.(callers := w.callers[k := Returned])
  {
    RunKeepsWorldInv(c, start, actions);
    assert CallerOk(Run(c, start, actions), k);
    hide Run, Agreement;
  }

  /** The answer sets or clears the cookie and settles the flight; only then can the next one start. */
  lemma AnswerSettles(c: Config, w: World, f: nat)
    requires f in w.flights
    ensures w.flights[f].Replied? ==>
      var z := Do(c, w, Deliver(f)); var Replied(accepted, issued) := w.flights[f];
      && z == w.(jar := z.jar, flights := w.flights[f := Arrived(accepted)])
      && z.jar.Some? == accepted
      && (accepted ==> z.jar.value.token == issued
                       && z.jar.value.dropAt == if c.refreshTTL / SECOND == 0 then None
                                                else Some(w.clock + c.refreshTTL / SECOND * SECOND))
    ensures w.flights[f].Arrived? ==>
      Do(c, w, Finally(f)) == w.(inFlight := None, flights := w.flights[f := Settled(w.flights[f].accepted)])
  {
  }

  /** Unless the row has run out, what the server is asked next it grants. */
  lemma ServerGrants(c: Config, w: World, f: nat)
    requires WorldInv(c, w) && w.inFlight == Some(f) && !Ending(c, w)
    ensures var looked := Do(c, w, ServerLookUp(f)); var p := looked.flights[f];
      && looked == w.(flights := w.flights[f := p])
      && (p == FoundRow(w.session) || (p.Replied? && p.accepted) || p == Arrived(true))
  {
    if w.flights[f].Requested? && w.flights[f].cookie.Some? {
      OwnCookieFindsRow(w, w.flights[f].cookie.value);
    }
    hide Inv, GetByRefreshHash;
  }

  lemma ServerRotates(c: Config, w: World, f: nat)
    requires f in w.flights && w.session in w.table.rows
    requires w.flights[f] == FoundRow(w.session) || (w.flights[f].Replied? && w.flights[f].accepted) || w.flights[f] == Arrived(true)
    ensures var z := Do(c, w, ServerRotate(f)); var p := z.flights[f];
      && z == w.(table := z.table, flights := w.flights[f := p])
      && ((p.Replied? && p.accepted) || p == Arrived(true))
  {
  }

  /** Once the flight is granted, delivering and settling it sends a parked caller's request again. */
  lemma ParkedGoesOn(c: Config, w: World, f: nat, k: nat)
    requires f in w.flights && ((w.flights[f].Replied? && w.flights[f].accepted) || w.flights[f] == Arrived(true))
    requires k in w.callers && w.callers[k] == Awaiting(f, true) && k in w.sends && w.sends[k] == 1
    ensures var z := Do(c, Do(c, Do(c, w, Deliver(f)), Finally(f)), Resume(k));
      k in z.callers && z.callers[k] == Sent(2) && k in z.sends && z.sends[k] == 2
  {
    var arrived := Do(c, w, Deliver(f));
    assert arrived.flights[f] == Arrived(true);
    var settled := Do(c, arrived, Finally(f));
    assert settled.flights[f] == Settled(true);
  }

  /**
   * A request refused for an expired access token is repeated: in every reachable
   * world whose row is not about to run out, once the server, the network and the
   * browser have each taken their turn, the caller's request is out again.
   */
  lemma {:induction false} RetryGoesThrough(c: Config, start: World, actions: seq<Action>, k: nat)
    requires LoggedIn(c, start)
    requires var w := Run(c, start, actions);
      && k in w.callers && w.callers[k] == Sent(1)
      && w.session in w.table.rows && w.clock < MyRow(w).refreshExpires - Rounding(c)
    ensures var w := Do(c, Run(c, start, actions), Respond(k, true));
      && w.inFlight.Some?
      && var f := w.inFlight.value;
         var served := Do(c, Do(c, w, ServerLookUp(f)), ServerRotate(f));
         var settled := Do(c, Do(c, served, Deliver(f)), Finally(f));
         var z := Do(c, settled, Resume(k));
         k in z.callers && z.callers[k] == Sent(2) && k in z.sends && z.sends[k] == 2
  {
    RunKeepsWorldInv(c, start, actions);
    var w0 := Run(c, start, actions);
    UnauthorizedRefreshes(c, start, actions, k, true);
    StepKeepsWorldInv(c, w0, Respond(k, true));
    hide Run, LoggedIn;
    var w := Do(c, w0, Respond(k, true));
    var f := w.inFlight.value;
    ServerGrants(c, w, f);
    var looked := Do(c, w, ServerLookUp(f));
    ServerRotates(c, looked, f);
    var served := Do(c, looked, ServerRotate(f));
    hide WorldInv, LookUpResult, JoinOrStart, Do;
    ParkedGoesOn(c, served, f, k);
  }

  ghost predicate RefusedEarly(c: Config, w: World, f: nat) {
    && f in w.flights && w.flights[f].Requested?
    && w.session in w.table.rows && w.clock < MyRow(w).refreshExpires
    && Do(c, w, ServerLookUp(f)).flights[f] == Replied(false, 0)
  }

  /** A session just opened at instant 0 under the given lifetimes. */
  function JustLoggedIn(c: Config): World {
    World(Create(c, EMPTY, 0, 0), 0, 0, Some(SetCookie(c, 1, 0)), None, map[], map[], map[])
  }

  /** The cookie ages out, and a refresh sent without it is refused while the row is still good. */
  lemma EarlyRefusal(c: Config)
    requires Rounding(c) != 0
    ensures exists start, actions, f :: LoggedIn(c, start) && RefusedEarly(c, Run(c, start, actions), f)
  {
    var w := JustLoggedIn(c);
    var drop := c.refreshTTL - Rounding(c);
    var actions := [Wait(drop), CookieDrops, StartRefresh(0)];
    CreatedPair(c, EMPTY, 0, 0);
    hide Inv, GetByRefreshHash;
    assert actions[..2] == [Wait(drop), CookieDrops] && actions[..2][..1] == [Wait(drop)] && actions[..2][..1][..0] == [];
    var w1 := Do(c, w, Wait(drop));
    assert Run(c, w, actions[..2][..1]) == w1;
    var w2 := Do(c, w1, CookieDrops);
    assert Run(c, w, actions[..2]) == w2;
    assert Run(c, w, actions) == Do(c, w2, StartRefresh(0));
    assert LoggedIn(c, w) && RefusedEarly(c, Run(c, w, actions), 0);
  }

  /**
   * A refresh can be refused before its row expires exactly when the refresh
   * lifetime is above a second and not a whole number of them.
   */
  lemma RefusedEarlyIffFractional(c: Config)
    ensures (exists start, actions, f :: LoggedIn(c, start) && RefusedEarly(c, Run(c, start, actions), f))
      <==> c.refreshTTL >= SECOND && c.refreshTTL % SECOND != 0
  {
    if Rounding(c) == 0 {
      forall start, actions, f | LoggedIn(c, start) ensures !RefusedEarly(c, Run(c, start, actions), f) {
        if f in Run(c, start, actions).flights {
          RefreshNeverLosesRace(c, start, actions, f);
        }
      }
    } else {
      EarlyRefusal(c);
    }
  }
}
