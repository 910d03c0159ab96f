/**
 * Logging in with recovery codes, end to end: the two-step login and the code rows
 * together, every statement of either interleaved freely
 * (internal/api/handlers_phase5.go and internal/storage/mfa.go).
 */
module RecoveryLogin {
  import opened Prelude
  import M = MfaLogin
  import R = RecoveryRows

  datatype State = State(login: M.State, codes: R.System)

  datatype Action =
    | Login(step: M.Action)                    // anything but judging a recovery code
    | List(call: nat, row: Option<nat>)        // the login request lists the user's unused codes
    | MarkAndJudge(call: nat)                  // and marks the match, which is its verdict
    | Elsewhere(statement: R.Action)           // replacing codes, and codes spent by other requests

  const INITIAL: State := State(M.INITIAL, R.INITIAL)

  /** The request has redeemed its challenge and carries a recovery code still to be judged. */
  predicate AwaitsCode(s: M.State, call: nat) {
    call in s.calls && s.calls[call].phase.Redeemed? && s.calls[call].factor.Recovery?
  }

  predicate Asked(codes: R.System, call: nat) {
    call in codes.picked || call in codes.answers
  }

  /** A request goes by the number it arrived under, wherever it shows up. */
  predicate ByRequest(statement: R.Action, s: M.State) {
    (statement.ListCodes? || statement.MarkUsed?) && statement.call in s.calls
  }

  ghost function Do(y: State, a: Action): State {
    match a
    case Login(step) =>
      if (step.Judge? && AwaitsCode(y.login, step.call)) || (step.Redeem? && Asked(y.codes, step.call)) then y
      else y.(login := M.Do(y.login, step))
    case List(call, row) =>
      if !AwaitsCode(y.login, call) then y
      else
        var c := y.login.calls[call];
        y.(codes := R.Do(y.codes, R.ListCodes(call, c.user, c.factor.presented, row)))
    case MarkAndJudge(call) =>
      if !AwaitsCode(y.login, call) || call !in y.codes.picked then y
      else
        var codes := R.Do(y.codes, R.MarkUsed(call));
        State(M.Do(y.login, M.Judge(call, R.Won(codes, call))), codes)
    case Elsewhere(statement) => if ByRequest(statement, y.login) then y else y.(codes := R.Do(y.codes, statement))
  }

  ghost function Run(actions: seq<Action>): State {
    if actions == [] then INITIAL else Do(Run(actions[..|actions| - 1]), actions[|actions| - 1])
  }

  // ---- The invariant. ----

  ghost predicate Asks(p: R.Pick, c: M.Call) {
    c.factor.Recovery? && p.user == c.user && p.hash == c.factor.presented
  }

  /** A request holds and won rows only for its own user and code, and its factor was accepted only if it won one. */
  ghost predicate Linked(y: State, call: nat)
    requires call in y.login.calls
  {
    var c := y.login.calls[call];
    c.factor.Recovery? ==>
      && (call in y.codes.picked ==> Asks(y.codes.picked[call], c))
      && (c.check < |y.login.checks| && y.login.checks[c.check].passed ==>
            R.Won(y.codes, call) && Asks(y.codes.answers[call], c))
  }

  ghost predicate Inv(y: State) {
    && M.Inv(y.login) && R.SystemInv(y.codes)
    && forall call :: call in y.login.calls ==> Linked(y, call)
  }

  /** A login step that does not judge a request leaves the request, and the verdict on its check, alone. */
  lemma LoginFrame(s: M.State, a: M.Action, call: nat)
    requires M.Inv(s) && call in s.calls && !(a.Judge? && a.call == call)
    ensures var t := M.Do(s, a); var c, d := s.calls[call], t.calls[call];
      && call in t.calls && d == c.(phase := d.phase) && c.check < |s.checks| <= |t.checks|
      && t.checks[c.check].passed == s.checks[c.check].passed
  {
    assert M.CallOk(s.checks, s.calls[call], call);
    assert a.Judge? && a.call in s.calls ==> M.CallOk(s.checks, s.calls[a.call], a.call);
    hide M.Inv;
  }

  /** A request new to a login step has had nothing accepted. */
  lemma NewRequestUnjudged(s: M.State, a: M.Action, call: nat)
    requires M.Inv(s) && call !in s.calls && call in M.Do(s, a).calls
    ensures var t := M.Do(s, a);
      a.Redeem? && a.call == call && t.calls[call].check < |t.checks| && !t.checks[t.calls[call].check].passed
  {
    M.StepKeepsInv(s, a);
    var t := M.Do(s, a);
    assert M.CallOk(t.checks, t.calls[call], call);
    var k := t.calls[call].check;
    assert M.CheckOk(t.checks[k], k, t.calls, t.clock);
    hide M.Inv;
  }

  lemma LoginKeepsInv(y: State, step: M.Action)
    requires Inv(y)
    ensures Inv(Do(y, Login(step)))
  {
    var z := Do(y, Login(step));
    if z != y {
      M.StepKeepsInv(y.login, step);
      forall call | call in z.login.calls ensures Linked(z, call) {
        if call !in y.login.calls {
          NewRequestUnjudged(y.login, step, call);
        } else if !(step.Judge? && step.call == call) {
          LoginFrame(y.login, step, call);
          assert Linked(y, call);
        }
      }
    }
  }

  /** A statement of one caller leaves what the others hold and were told alone. */
  lemma CodesFrame(codes: R.System, a: R.Action, call: nat)
    requires !((a.ListCodes? || a.MarkUsed?) && a.call == call)
    ensures var after := R.Do(codes, a);
      && (call in after.picked <==> call in codes.picked)
      && (call in codes.picked ==> after.picked[call] == codes.picked[call])
      && (call in after.answers <==> call in codes.answers)
      && (call in codes.answers ==> after.answers[call] == codes.answers[call])
  {
  }

  lemma ElsewhereKeepsInv(y: State, statement: R.Action)
    requires Inv(y)
    ensures Inv(Do(y, Elsewhere(statement)))
  {
    if !ByRequest(statement, y.login) {
      R.StepKeepsInv(y.codes, statement);
      var z := Do(y, Elsewhere(statement));
      forall call | call in z.login.calls ensures Linked(z, call) {
        assert Linked(y, call);
        CodesFrame(y.codes, statement, call);
      }
    }
  }

  lemma ListKeepsInv(y: State, call: nat, row: Option<nat>)
    requires Inv(y)
    ensures Inv(Do(y, List(call, row)))
  {
    if AwaitsCode(y.login, call) {
      var c := y.login.calls[call];
      var a := R.ListCodes(call, c.user, c.factor.presented, row);
      R.StepKeepsInv(y.codes, a);
      var z := Do(y, List(call, row));
      forall other | other in z.login.calls ensures Linked(z, other) {
        assert Linked(y, other);
        if other != call {
          CodesFrame(y.codes, a, other);
        }
      }
    }
  }

  lemma JudgedByMark(y: State, call: nat)
    requires Inv(y) && AwaitsCode(y.login, call) && call in y.codes.picked
    ensures Linked(Do(y, MarkAndJudge(call)), call)
  {
    assert Linked(y, call);
    assert M.CallOk(y.login.checks, y.login.calls[call], call);
    var k := y.login.calls[call].check;
    assert M.CheckOk(y.login.checks[k], k, y.login.calls, y.login.clock);
    hide M.Inv, R.SystemInv;
  }

  lemma MarkKeepsInv(y: State, call: nat)
    requires Inv(y)
    ensures Inv(Do(y, MarkAndJudge(call)))
  {
    if AwaitsCode(y.login, call) && call in y.codes.picked {
      R.StepKeepsInv(y.codes, R.MarkUsed(call));
      var judge := M.Judge(call, R.Won(R.Do(y.codes, R.MarkUsed(call)), call));
      M.StepKeepsInv(y.login, judge);
      var z := Do(y, MarkAndJudge(call));
      JudgedByMark(y, call);
      forall other | other in z.login.calls ensures Linked(z, other) {
        if other != call {
          assert other in y.login.calls;
          assert Linked(y, other);
          CodesFrame(y.codes, R.MarkUsed(call), other);
          LoginFrame(y.login, judge, other);
        }
      }
    }
  }

  lemma {:induction false} RunKeepsInv(actions: seq<Action>)
    ensures Inv(Run(actions))
  {
    if actions != [] {
      var y, a := Run(actions[..|actions| - 1]), actions[|actions| - 1];
      RunKeepsInv(actions[..|actions| - 1]);
      hide Inv, Do;
      match a
      case Login(step) => LoginKeepsInv(y, step);
      case List(call, row) => ListKeepsInv(y, call, row);
      case MarkAndJudge(call) => MarkKeepsInv(y, call);
      case Elsewhere(statement) => ElsewhereKeepsInv(y, statement);
    }
  }

  // ---- A code that is there lets its holder in. ----

  /**
   * In every run, a login request waiting to present a code whose hash is in an
   * unused row of its user opens a session for that user: listing, marking and
   * completing, with nothing in between, succeed and consume the row.
   */
  lemma {:induction false} UnusedCodeLetsIn(actions: seq<Action>, call: nat, row: nat)
    requires var y := Run(actions); AwaitsCode(y.login, call) && !Asked(y.codes, call)
    requires var y := Run(actions); var c := y.login.calls[call];
      row in y.codes.t.rows && y.codes.t.rows[row] == R.Code(c.user, c.factor.presented, false)
    ensures var y := Run(actions); var c := y.login.calls[call];
      var judged := Do(Do(y, List(call, Some(row))), MarkAndJudge(call));
      var z := Do(judged, Login(M.Complete(call)));
      && z.login.sessions == y.login.sessions + [M.Session(c.user, c.check)]
      && z.codes.t.rows == y.codes.t.rows[row := R.Code(c.user, c.factor.presented, true)]
  {
    RunKeepsInv(actions);
    hide Run;
    var y := Run(actions);
    var c := y.login.calls[call];
    assert M.CallOk(y.login.checks, c, call);
    hide Inv;
    R.SpendWorks(y.codes, c.user, c.factor.presented, call, row);
    var listed := Do(y, List(call, Some(row)));
    assert R.MayPick(y.codes.t.rows, c.user, c.factor.presented, Some(row));
    assert call in listed.codes.picked;
  }

  // ---- The result. ----

  /** Session i was opened by a request, under number `call`, that presented a recovery code for a TOTP-enabled user. */
  ghost predicate OpenedByCode(s: M.State, i: nat, call: nat) {
    && i < |s.sessions| && s.sessions[i].check < |s.checks| && s.checks[s.sessions[i].check].totp
    && s.checks[s.sessions[i].check].redeemed.Some? && s.checks[s.sessions[i].check].redeemed.value.call == call
    && call in s.calls && s.calls[call].factor.Recovery?
  }

  lemma OpenedByWinner(y: State, i: nat, call: nat)
    requires Inv(y) && OpenedByCode(y.login, i, call)
    ensures R.Won(y.codes, call) && y.codes.answers[call].row.value in y.codes.t.consumed
    ensures Asks(y.codes.answers[call], y.login.calls[call]) && y.codes.answers[call].user == y.login.sessions[i].user
    ensures y.login.calls[call].check == y.login.sessions[i].check
  {
    var s := y.login;
    var k := s.sessions[i].check;
    assert M.SessionOk(s.checks, s.sessions[i], i);
    assert M.CheckOk(s.checks[k], k, s.calls, s.clock);
    assert M.CallOk(s.checks, s.calls[call], call);
    assert Linked(y, call);
  }

  /**
   * However logins, other uses of codes and replacements interleave: a session opened
   * with a recovery code has consumed a row listed as its own user's and carrying the
   * hash of the code presented, and two such sessions have consumed two rows.
   */
  lemma {:induction false} SessionsConsumeDistinctRows(actions: seq<Action>, i: nat, j: nat, c: nat, d: nat)
    requires OpenedByCode(Run(actions).login, i, c) && OpenedByCode(Run(actions).login, j, d) && i != j
    ensures var y := Run(actions);
      && R.Won(y.codes, c) && R.Won(y.codes, d)
      && y.codes.answers[c].row.value in y.codes.t.consumed && y.codes.answers[d].row.value in y.codes.t.consumed
      && y.codes.answers[c].row != y.codes.answers[d].row
      && y.codes.answers[c].user == y.login.sessions[i].user
      && y.codes.answers[c].hash == y.login.calls[c].factor.presented
  {
    RunKeepsInv(actions);
    hide Run;
    var y := Run(actions);
    OpenedByWinner(y, i, c);
    OpenedByWinner(y, j, d);
    M.InvAccountsFor(y.login);
    hide M.Inv;
  }
}
