/**
 * Two-step login: password check, challenge, second factor, session
 * (internal/api/handlers.go, internal/api/handlers_phase5.go and the
 * mfa_challenges statements of internal/storage/sqlcgen/mfa.sql.go).
 */
module MfaLogin {
  import opened Prelude
  import RecoveryRows

  const CHALLENGE_TTL: int := 5 * MINUTE

  /** Where a password check has got to. */
  datatype Fate = AsChallenge(token: nat) | InCall(call: nat) | AsSession(index: nat) | Spent

  /** The request that redeemed a challenge, and when. */
  datatype Redemption = Redemption(call: nat, at: int)

  /**
   * A successful password check, whether the user row it read had TOTP enabled,
   * and its history: how its challenge was redeemed, how many second factors were
   * judged for it, and whether one was accepted.
   */
  datatype PasswordCheck =
    PasswordCheck(user: nat, at: int, totp: bool, fate: Fate, redeemed: Option<Redemption>, tried: nat, passed: bool)

  /** A row of mfa_challenges, found by its token; `check` is (as history) the password check behind it. */
  datatype Challenge = Challenge(user: nat, expires: int, check: nat)

  /** The second factor in a request body: a recovery code, given by its hash, a TOTP code, or neither. */
  datatype Factor = Recovery(presented: RecoveryRows.Hash) | Totp | Incomplete

  /** One POST /api/login/mfa in progress. */
  datatype Phase = Redeemed | Verified | Ended
  datatype Call = Call(user: nat, check: nat, factor: Factor, phase: Phase)

  datatype Session = Session(user: nat, check: nat)

  datatype State = State(
    clock: int,
    totpEnabled: map<nat, bool>,
    challenges: map<nat, Challenge>,
    nextToken: nat,
    calls: map<nat, Call>,
    sessions: seq<Session>,
    checks: seq<PasswordCheck>   // history
  )

  datatype Action =
    | SetTotp(user: nat, enabled: bool)
    | PasswordOk(user: nat, now: int)
    | Redeem(call: nat, token: nat, factor: Factor, now: int)
    | Judge(call: nat, accepted: bool)
    | Complete(call: nat)
    | Cleanup(now: int)

  predicate TotpOn(totpEnabled: map<nat, bool>, user: nat) {
    user in totpEnabled && totpEnabled[user]
  }

  /** PostLogin after the password matched: a challenge if the row read says TOTP, else a session at once. */
  function OnPassword(s: State, user: nat, now: int): State {
    var k := |s.checks|;
    if TotpOn(s.totpEnabled, user) then
      s.(clock := now,
         challenges := s.challenges[s.nextToken := Challenge(user, now + CHALLENGE_TTL, k)],
         nextToken := s.nextToken + 1,
         checks := s.checks + [PasswordCheck(user, now, true, AsChallenge(s.nextToken), None, 0, false)])
    else
      s.(clock := now,
         sessions := s.sessions + [Session(user, k)],
         checks := s.checks + [PasswordCheck(user, now, false, AsSession(|s.sessions|), None, 0, false)])
  }

  predicate Redeemable(challenges: map<nat, Challenge>, token: nat, now: int) {
    token in challenges && now < challenges[token].expires
  }

  /** DELETE ... WHERE token_hash AND expires_at > NOW() RETURNING user_id. */
  function OnRedeem(s: State, call: nat, token: nat, factor: Factor, now: int): State {
    if call in s.calls || !Redeemable(s.challenges, token, now) || s.challenges[token].check >= |s.checks| then
      s.(clock := now)
    else
      var ch := s.challenges[token];
      s.(clock := now, challenges := s.challenges - {token},
         calls := s.calls[call := Call(ch.user, ch.check, factor, Redeemed)],
         checks := s.checks[ch.check :=
           s.checks[ch.check].(fate := InCall(call), redeemed := Some(Redemption(call, now)))])
  }

  /** The call and its password check once the factor is judged: once, and not at all for an incomplete body. */
  function Judged(c: Call, k: PasswordCheck, accepted: bool): (Call, PasswordCheck) {
    if c.factor.Incomplete? then (c.(phase := Ended), k.(fate := Spent))
    else if accepted then (c.(phase := Verified), k.(tried := k.tried + 1, passed := true))
    else (c.(phase := Ended), k.(tried := k.tried + 1, fate := Spent))
  }

  function OnJudge(s: State, call: nat, accepted: bool): State {
    if call !in s.calls || !s.calls[call].phase.Redeemed? || s.calls[call].check >= |s.checks| then s
    else
      var (c, k) := Judged(s.calls[call], s.checks[s.calls[call].check], accepted);
      s.(calls := s.calls[call := c], checks := s.checks[c.check := k])
  }

  /** completeLogin. */
  function OnComplete(s: State, call: nat): State {
    if call !in s.calls || !s.calls[call].phase.Verified? || s.calls[call].check >= |s.checks| then s
    else
      var c := s.calls[call];
      s.(calls := s.calls[call := c.(phase := Ended)], sessions := s.sessions + [Session(c.user, c.check)],
         checks := s.checks[c.check := s.checks[c.check].(fate := AsSession(|s.sessions|))])
  }

  function Do(s: State, a: Action): State {
    match a
    case SetTotp(user, enabled) => s.(totpEnabled := s.totpEnabled[user := enabled])
    case PasswordOk(user, now) => if now < s.clock then s else OnPassword(s, user, now)
    case Redeem(call, token, factor, now) => if now < s.clock then s else OnRedeem(s, call, token, factor, now)
    case Judge(call, accepted) => OnJudge(s, call, accepted)
    case Complete(call) => OnComplete(s, call)
    case Cleanup(now) =>
      if now < s.clock then s
      else
        s.(clock := now,
           challenges := map t | t in s.challenges && s.challenges[t].expires > now :: s.challenges[t])
  }

  function Run(s: State, actions: seq<Action>): State {
    if actions == [] then s else Do(Run(s, actions[..|actions| - 1]), actions[|actions| - 1])
  }

  const INITIAL: State := State(0, map[], map[], 0, map[], [], [])

  // ---- The invariant. ----

  /** The check was for `user`, read TOTP as enabled, and has reached `fate`. */
  ghost predicate Reached(c: PasswordCheck, user: nat, fate: Fate) {
    c.user == user && c.totp && c.fate == fate
  }

  ghost predicate RedeemedInTime(c: PasswordCheck) {
    c.redeemed.Some? && c.at <= c.redeemed.value.at < c.at + CHALLENGE_TTL
  }

  /** One second factor was judged for the check, in time, and accepted. */
  ghost predicate SecondFactorPassed(c: PasswordCheck) {
    RedeemedInTime(c) && c.tried == 1 && c.passed
  }

  ghost predicate ChallengeOk(checks: seq<PasswordCheck>, ch: Challenge, token: nat) {
    && ch.check < |checks| && Reached(checks[ch.check], ch.user, AsChallenge(token))
    && ch.expires == checks[ch.check].at + CHALLENGE_TTL
    && checks[ch.check].tried == 0 && checks[ch.check].redeemed == None
  }

  ghost predicate CallOk(checks: seq<PasswordCheck>, c: Call, call: nat) {
    && c.check < |checks|
    && checks[c.check].user == c.user && checks[c.check].redeemed.Some? && checks[c.check].redeemed.value.call == call
    && match c.phase
       case Redeemed => Reached(checks[c.check], c.user, InCall(call)) && RedeemedInTime(checks[c.check]) && checks[c.check].tried == 0
       case Verified => Reached(checks[c.check], c.user, InCall(call)) && SecondFactorPassed(checks[c.check])
       case Ended => true
  }

  ghost predicate SessionOk(checks: seq<PasswordCheck>, session: Session, i: nat) {
    && session.check < |checks|
    && checks[session.check].user == session.user && checks[session.check].fate == AsSession(i)
    && (checks[session.check].totp ==> SecondFactorPassed(checks[session.check]))
  }

  /** A check is judged at most once, and redeemed by a call that is about it. */
  ghost predicate CheckOk(c: PasswordCheck, k: nat, calls: map<nat, Call>, clock: int) {
    && c.at <= clock && c.tried <= 1 && (c.passed ==> c.tried == 1)
    && (c.redeemed.Some? ==> c.redeemed.value.call in calls && calls[c.redeemed.value.call].check == k)
  }

  ghost predicate Inv(s: State) {
    && (forall k :: 0 <= k < |s.checks| ==> CheckOk(s.checks[k], k, s.calls, s.clock))
    && (forall t :: t in s.challenges ==> t < s.nextToken && ChallengeOk(s.checks, s.challenges[t], t))
    && (forall call :: call in s.calls ==> CallOk(s.checks, s.calls[call], call))
    && (forall i :: 0 <= i < |s.sessions| ==> SessionOk(s.checks, s.sessions[i], i))
  }

  /** Nothing is judged for a request whose challenge was not redeemed. */
  lemma NothingToJudge(s: State, call: nat, accepted: bool)
    requires call !in s.calls
    ensures OnJudge(s, call, accepted) == s
  {
  }

  lemma ChallengesHaveChecks(s: State, token: nat)
    requires Inv(s)
    ensures token in s.challenges ==> s.challenges[token].check < |s.checks|
  {
  }

  lemma PasswordKeepsInv(s: State, user: nat, now: int)
    requires Inv(s) && s.clock <= now
    ensures Inv(OnPassword(s, user, now))
  {
  }

  lemma RedeemKeepsInv(s: State, call: nat, token: nat, factor: Factor, now: int)
    requires Inv(s) && s.clock <= now
    ensures Inv(OnRedeem(s, call, token, factor, now))
  {
    if token in s.challenges {
      assert ChallengeOk(s.checks, s.challenges[token], token);
    }
  }

  /** A redeemed call may move on, with its own check, without disturbing anything else. */
  lemma MoveKeepsInv(s: State, call: nat, next: Call, c: PasswordCheck)
    requires Inv(s) && call in s.calls && s.calls[call].phase.Redeemed? && next.check == s.calls[call].check
    requires next.check < |s.checks| && c.at == s.checks[next.check].at && c.redeemed == s.checks[next.check].redeemed
    requires c.tried <= 1 && (c.passed ==> c.tried == 1)
    requires CallOk(s.checks[next.check := c], next, call)
    ensures Inv(s.(calls := s.calls[call := next], checks := s.checks[next.check := c]))
  {
    assert CallOk(s.checks, s.calls[call], call);
  }

  lemma JudgeKeepsInv(s: State, call: nat, accepted: bool)
    requires Inv(s)
    ensures Inv(OnJudge(s, call, accepted))
  {
    if call in s.calls && s.calls[call].phase.Redeemed? {
      assert CallOk(s.checks, s.calls[call], call);
      assert CheckOk(s.checks[s.calls[call].check], s.calls[call].check, s.calls, s.clock);
      var (c, k) := Judged(s.calls[call], s.checks[s.calls[call].check], accepted);
      hide Inv;
      MoveKeepsInv(s, call, c, k);
    }
  }

  lemma CompleteKeepsInv(s: State, call: nat)
    requires Inv(s)
    ensures Inv(OnComplete(s, call))
  {
    assert call in s.calls ==> CallOk(s.checks, s.calls[call], call);
  }

  lemma StepKeepsInv(s: State, a: Action)
    requires Inv(s)
    ensures Inv(Do(s, a))
  {
    match a
    case SetTotp(_, _) =>
    case PasswordOk(user, now) => if now >= s.clock { PasswordKeepsInv(s, user, now); }
    case Redeem(call, token, factor, now) => if now >= s.clock { RedeemKeepsInv(s, call, token, factor, now); }
    case Judge(call, accepted) => JudgeKeepsInv(s, call, accepted);
    case Complete(call) => CompleteKeepsInv(s, call);
    case Cleanup(_) =>
  }

  lemma {:induction false} RunKeepsInv(s: State, actions: seq<Action>)
    requires Inv(s)
    ensures Inv(Run(s, actions))
  {
    hide Inv, Do;
    if actions != [] {
      RunKeepsInv(s, actions[..|actions| - 1]);
      StepKeepsInv(Run(s, actions[..|actions| - 1]), actions[|actions| - 1]);
    }
  }

  /** What the sessions of a state satisfying the invariant stand for. */
  ghost predicate AccountedFor(s: State) {
    && (forall i, j :: 0 <= i < j < |s.sessions| ==> s.sessions[i].check != s.sessions[j].check)
    && forall i :: 0 <= i < |s.sessions| ==>
         var k := s.sessions[i].check;
         && k < |s.checks| && s.checks[k].user == s.sessions[i].user
         && (s.checks[k].totp ==> SecondFactorPassed(s.checks[k]))
  }

  lemma InvAccountsFor(s: State)
    requires Inv(s)
    ensures AccountedFor(s)
  {
    forall i, j | 0 <= i < j < |s.sessions| ensures s.sessions[i].check != s.sessions[j].check {
      assert SessionOk(s.checks, s.sessions[i], i) && SessionOk(s.checks, s.sessions[j], j);
    }
    forall i | 0 <= i < |s.sessions| ensures SessionOk(s.checks, s.sessions[i], i) {
    }
  }

  /**
   * Every session stems from a password check of its own. One whose user was read
   * as TOTP-enabled also had that check's challenge redeemed less than five minutes
   * after it and exactly one second factor judged for it, and accepted.
   */
  lemma {:induction false} SessionsAccountedFor(actions: seq<Action>)
    ensures AccountedFor(Run(INITIAL, actions))
  {
    RunKeepsInv(INITIAL, actions);
    InvAccountsFor(Run(INITIAL, actions));
  }

  /**
   * A challenge presented in time is gone at once, whatever the rest of the body
   * holds, and no later run brings it back or judges a second factor for it more
   * than once.
   */
  lemma {:induction false} ChallengeIsSpent(past: seq<Action>, call: nat, token: nat, factor: Factor, now: int, future: seq<Action>)
    requires var s := Run(INITIAL, past);
      token in s.challenges && now < s.challenges[token].expires && s.clock <= now && call !in s.calls
    ensures var s := Run(INITIAL, past); var t := Do(s, Redeem(call, token, factor, now));
      && token !in t.challenges && token !in Run(t, future).challenges
      && s.challenges[token].check < |Run(t, future).checks|
      && Run(t, future).checks[s.challenges[token].check].tried <= 1
  {
    var s := Run(INITIAL, past);
    var t := Do(s, Redeem(call, token, factor, now));
    RunKeepsInv(INITIAL, past);
    StepKeepsInv(s, Redeem(call, token, factor, now));
    assert ChallengeOk(s.checks, s.challenges[token], token);
    RunKeepsInv(t, future);
    TokensNotReused(t, future, token);
    var k, later := s.challenges[token].check, Run(t, future);
    assert CheckOk(later.checks[k], k, later.calls, later.clock);
  }

  lemma TokenNotReused(s: State, a: Action, token: nat)
    requires token !in s.challenges && token < s.nextToken
    ensures token !in Do(s, a).challenges && token < Do(s, a).nextToken && |Do(s, a).checks| >= |s.checks|
  {
  }

  lemma {:induction false} TokensNotReused(s: State, future: seq<Action>, token: nat)
    requires token !in s.challenges && token < s.nextToken
    ensures token !in Run(s, future).challenges && token < Run(s, future).nextToken
    ensures |Run(s, future).checks| >= |s.checks|
  {
    hide Do;
    if future != [] {
      TokensNotReused(s, future[..|future| - 1], token);
      TokenNotReused(Run(s, future[..|future| - 1]), future[|future| - 1], token);
    }
  }

  // ---- Whoever has both factors gets in. ----

  /** The setting decides: with TOTP on a right password yields a five-minute challenge and no session, without it a session. */
  lemma SettingDecides(s: State, user: nat, enabled: bool, now: int)
    requires s.clock <= now
    ensures var t := Do(s, SetTotp(user, enabled)); var z := Do(t, PasswordOk(user, now));
      && t == s.(totpEnabled := s.totpEnabled[user := enabled])
      && if enabled then
           && z.sessions == s.sessions && s.nextToken in z.challenges
           && z.challenges == s.challenges[s.nextToken := Challenge(user, now + 5 * MINUTE, |s.checks|)]
         else z.challenges == s.challenges && z.sessions == s.sessions + [Session(user, |s.checks|)]
  {
  }

  /** No step of the future presents the token, or clears out expired challenges at or after `until`. */
  ghost predicate LeftAlone(future: seq<Action>, token: nat, until: int) {
    forall i :: 0 <= i < |future| ==>
      && (future[i].Redeem? ==> future[i].token != token)
      && (future[i].Cleanup? ==> future[i].now < until)
  }

  lemma StepLeavesChallenge(s: State, a: Action, token: nat)
    requires token in s.challenges && token < s.nextToken
    requires (a.Redeem? ==> a.token != token) && (a.Cleanup? ==> a.now < s.challenges[token].expires)
    ensures var t := Do(s, a); token in t.challenges && t.challenges[token] == s.challenges[token] && token < t.nextToken
  {
  }

  lemma {:induction false} ChallengeStays(s: State, future: seq<Action>, token: nat)
    requires token in s.challenges && token < s.nextToken && LeftAlone(future, token, s.challenges[token].expires)
    ensures var t := Run(s, future); token in t.challenges && t.challenges[token] == s.challenges[token] && token < t.nextToken
  {
    hide Do;
    if future != [] {
      ChallengeStays(s, future[..|future| - 1], token);
      StepLeavesChallenge(Run(s, future[..|future| - 1]), future[|future| - 1], token);
    }
  }

  /**
   * After any run, a user with TOTP on whose password matched can complete the login
   * for five minutes, whatever else happens meanwhile: presenting the challenge with a
   * second factor that is accepted opens a session for that user, and one that is not
   * accepted, or missing, opens none.
   */
  lemma {:induction false} BothFactorsLetIn(past: seq<Action>, user: nat, now: int, future: seq<Action>,
                                            call: nat, factor: Factor, accepted: bool, at: int)
    requires var s := Run(INITIAL, past); s.clock <= now && TotpOn(s.totpEnabled, user)
    requires LeftAlone(future, Run(INITIAL, past).nextToken, now + 5 * MINUTE)
    requires var m := Run(Do(Run(INITIAL, past), PasswordOk(user, now)), future); m.clock <= at < now + 5 * MINUTE && call !in m.calls
    ensures var token := Run(INITIAL, past).nextToken;
      var m := Run(Do(Run(INITIAL, past), PasswordOk(user, now)), future);
      var z := Do(Do(Do(m, Redeem(call, token, factor, at)), Judge(call, accepted)), Complete(call));
      if accepted && !factor.Incomplete? then |z.sessions| == |m.sessions| + 1 && z.sessions[..|m.sessions|] == m.sessions && z.sessions[|m.sessions|].user == user
      else z.sessions == m.sessions
  {
    var s := Run(INITIAL, past);
    var t := Do(s, PasswordOk(user, now));
    var m := Run(t, future);
    RunKeepsInv(INITIAL, past);
    PasswordKeepsInv(s, user, now);
    ChallengeStays(t, future, s.nextToken);
    RunKeepsInv(t, future);
    ChallengesHaveChecks(m, s.nextToken);
    hide Inv, Run, LeftAlone;
  }

  // ---- The handlers. ----

  datatype Response = SessionFor(user: nat) | Unauthorized | BadRequest

  class Server {
    var totpEnabled: map<nat, bool>
    var challenges: map<nat, Challenge>
    var nextToken: nat
    var sessions: seq<Session>
    var checks: seq<PasswordCheck>  // history; rows are numbered by it
    ghost var calls: map<nat, Call>
    ghost var clock: int

    ghost function Abs(): State
      reads this
    {
      State(clock, totpEnabled, challenges, nextToken, calls, sessions, checks)
    }

    constructor ()
      ensures Abs() == INITIAL && Inv(Abs())
    {
      totpEnabled, challenges, nextToken, sessions, checks := map[], map[], 0, [], [];
      calls, clock := map[], 0;
    }

    /** createMFAToken: a fresh token, its row good for five minutes. */
    method CreateMfaToken(user: nat, now: int, check: nat) returns (token: nat)
      modifies this`challenges, this`nextToken
      ensures token == old(nextToken) && nextToken == token + 1
      ensures challenges == old(challenges)[token := Challenge(user, now + CHALLENGE_TTL, check)]
    {
      token := nextToken;
      nextToken := nextToken + 1;
      challenges := challenges[token := Challenge(user, now + CHALLENGE_TTL, check)];
    }

    /** validateMFAToken: the challenge's row is deleted as it is returned. */
    method ConsumeChallenge(token: nat, now: int) returns (row: Option<Challenge>)
      modifies this`challenges
      ensures row == if Redeemable(old(challenges), token, now) then Some(old(challenges)[token]) else None
      ensures challenges == if row.Some? then old(challenges) - {token} else old(challenges)
    {
      if token !in challenges || challenges[token].expires <= now {
        return None;
      }
      row := Some(challenges[token]);
      challenges := challenges - {token};
    }

    method CompleteLogin(user: nat, check: nat)
      modifies this`sessions
      ensures sessions == old(sessions) + [Session(user, check)]
    {
      sessions := sessions + [Session(user, check)];
    }

    /** PostLogin's success branch: the challenge token, or None once a session is open. */
    method PasswordMatched(user: nat, now: int) returns (token: Option<nat>)
      requires Inv(Abs()) && clock <= now
      modifies this
      ensures Inv(Abs()) && Abs() == Do(old(Abs()), PasswordOk(user, now))
      ensures token.Some? <==> TotpOn(old(totpEnabled), user)
      ensures token.Some? ==> token.value in challenges && challenges[token.value].user == user && sessions == old(sessions)
      ensures token.None? ==> sessions == old(sessions) + [Session(user, |old(checks)|)]
    {
      hide Inv;
      PasswordKeepsInv(Abs(), user, now);
      clock := now;
      if user in totpEnabled && totpEnabled[user] {
        var t := CreateMfaToken(user, now, |checks|);
        checks := checks + [PasswordCheck(user, now, true, AsChallenge(t), None, 0, false)];
        return Some(t);
      }
      checks := checks + [PasswordCheck(user, now, false, AsSession(|sessions|), None, 0, false)];
      CompleteLogin(user, |checks| - 1);
      return None;
    }

    /** Judge the factor of a call just redeemed; `verdict` is what checking the code said. */
    method Verify(call: nat, row: Challenge, factor: Factor, verdict: bool) returns (ok: bool)
      requires Inv(Abs()) && call in calls && calls[call] == Call(row.user, row.check, factor, Redeemed)
      requires row.check < |checks|
      modifies this`checks, this`calls
      ensures Inv(Abs()) && Abs() == OnJudge(old(Abs()), call, verdict)
      ensures ok <==> !factor.Incomplete? && verdict
      ensures calls == old(calls)[call := old(calls)[call].(phase := if ok then Verified else Ended)]
      ensures |checks| == |old(checks)|
    {
      hide Inv;
      JudgeKeepsInv(Abs(), call, verdict);
      ok := !factor.Incomplete? && verdict;
      var k := checks[row.check];
      if !factor.Incomplete? {
        k := k.(tried := k.tried + 1);
      }
      k := if ok then k.(passed := true) else k.(fate := Spent);
      checks := checks[row.check := k];
      calls := calls[call := calls[call].(phase := if ok then Verified else Ended)];
    }

    /** PostLoginMfa: redeem, judge, complete; the challenge is spent before the factor is looked at. */
    method PostLoginMfa(call: nat, token: nat, factor: Factor, verdict: bool, now: int) returns (r: Response)
      requires Inv(Abs()) && clock <= now && call !in calls
      modifies this
      ensures Inv(Abs())
      ensures Abs() == Do(Do(Do(old(Abs()), Redeem(call, token, factor, now)), Judge(call, verdict)), Complete(call))
      ensures challenges ==
        if Redeemable(old(challenges), token, now) then old(challenges) - {token} else old(challenges)
      ensures r.SessionFor? <==> Redeemable(old(challenges), token, now) && !factor.Incomplete? && verdict
      ensures r.SessionFor? ==> r.user == old(challenges)[token].user
      ensures r.BadRequest? <==> Redeemable(old(challenges), token, now) && factor.Incomplete?
      ensures sessions == if r.SessionFor? then old(sessions) + [Session(r.user, old(challenges)[token].check)] else old(sessions)
    {
      hide Inv, OnJudge, Judged;
      RedeemKeepsInv(Abs(), call, token, factor, now);
      ChallengesHaveChecks(Abs(), token);
      clock := now;
      var row := ConsumeChallenge(token, now);
      if row.None? {
        NothingToJudge(Abs(), call, verdict);
        return Unauthorized;
      }
      var check := row.value.check;
      checks := checks[check := checks[check].(fate := InCall(call), redeemed := Some(Redemption(call, now)))];
      calls := calls[call := Call(row.value.user, check, factor, Redeemed)];
      var verified := Verify(call, row.value, factor, verdict);
      if factor.Incomplete? {
        return BadRequest;
      }
      if !verified {
        return Unauthorized;
      }
      CompleteKeepsInv(Abs(), call);
      checks := checks[check := checks[check].(fate := AsSession(|sessions|))];
      calls := calls[call := calls[call].(phase := Ended)];
      CompleteLogin(row.value.user, check);
      return SessionFor(row.value.user);
    }
  }
}
