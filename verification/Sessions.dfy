/**
 * Dual-token sessions (internal/auth/session.go over the sessions table of
 * internal/storage/sqlcgen/sessions.sql.go).
 */
module Sessions {
  import opened Prelude

  /** Tokens are 32 random bytes, taken never to repeat; SHA-256 is taken to be injective. */
  type Token = nat
  datatype Digest = Sha256(token: Token)

  datatype Row = Row(user: nat, access: Digest, accessExpires: int, refresh: Digest, refreshExpires: int)

  /** How long each token of a pair lives. */
  datatype Config = Config(accessTTL: nat, refreshTTL: nat)

  /**
   * The table, the supplies of unused ids and tokens, and (as history) the user,
   * the row and the column each stored token was minted for.
   */
  datatype State = State(rows: map<nat, Row>, nextId: nat, nextToken: Token, minted: map<Token, Origin>)

  datatype Origin = Origin(user: nat, row: nat, column: Column)
  datatype Column = Access | Refresh

  const EMPTY: State := State(map[], 0, 0, map[])

  // ---- The SQL statements, each one atomic. ----

  ghost predicate HasAccess(rows: map<nat, Row>, h: Digest, id: nat) {
    id in rows && rows[id].access == h
  }

  ghost predicate HasRefresh(rows: map<nat, Row>, h: Digest, id: nat) {
    id in rows && rows[id].refresh == h
  }

  ghost function GetByAccessHash(rows: map<nat, Row>, h: Digest): Option<nat> {
    if exists id :: HasAccess(rows, h, id) then var id :| HasAccess(rows, h, id); Some(id) else None
  }

  ghost function GetByRefreshHash(rows: map<nat, Row>, h: Digest): Option<nat> {
    if exists id :: HasRefresh(rows, h, id) then var id :| HasRefresh(rows, h, id); Some(id) else None
  }

  /** What ValidateAccess accepts: a stored access token not past its expiry. */
  ghost predicate AccessGood(rows: map<nat, Row>, t: Token, at: int) {
    exists id :: HasAccess(rows, Sha256(t), id) && at <= rows[id].accessExpires
  }

  /** What RefreshSession accepts. */
  ghost predicate RefreshGood(rows: map<nat, Row>, t: Token, at: int) {
    exists id :: HasRefresh(rows, Sha256(t), id) && at <= rows[id].refreshExpires
  }

  function FreshRow(c: Config, s: State, user: nat, now: int): Row {
    Row(user, Sha256(s.nextToken), now + c.accessTTL, Sha256(s.nextToken + 1), now + c.refreshTTL)
  }

  function Mint(s: State, user: nat, id: nat): map<Token, Origin> {
    s.minted[s.nextToken := Origin(user, id, Access)][s.nextToken + 1 := Origin(user, id, Refresh)]
  }

  /** CreateSessionPair: mint two tokens and insert their hashes. */
  function Create(c: Config, s: State, user: nat, now: int): State {
    State(s.rows[s.nextId := FreshRow(c, s, user, now)], s.nextId + 1, s.nextToken + 2,
          Mint(s, user, s.nextId))
  }

  /** RotateTokens: mint two tokens and update the row if it is still there. */
  function Rotate(c: Config, s: State, id: nat, now: int): State {
    if id in s.rows then
      var user := s.rows[id].user;
      s.(rows := s.rows[id := FreshRow(c, s, user, now)], nextToken := s.nextToken + 2,
         minted := Mint(s, user, id))
    else s.(nextToken := s.nextToken + 2)
  }

  function DeleteByAccessHash(s: State, h: Digest): State {
    s.(rows := map id | id in s.rows && s.rows[id].access != h :: s.rows[id])
  }

  function DeleteAllForUser(s: State, user: nat): State {
    s.(rows := map id | id in s.rows && s.rows[id].user != user :: s.rows[id])
  }

  // ---- Runs in which the two halves of concurrent refreshes interleave freely. ----

  datatype Action =
    | CreatePair(user: nat, now: int)
    | LookUp(call: nat, token: Token, now: int)   // first half of RefreshSession
    | Finish(call: nat, now: int)                 // second half
    | Revoke(token: Token)
    | RevokeAll(user: nat)

  /** `pending` holds the row each refresh call found and has yet to rotate. */
  datatype System = System(s: State, pending: map<nat, nat>)

  ghost function Do(c: Config, y: System, a: Action): System {
    match a
    case CreatePair(user, now) => y.(s := Create(c, y.s, user, now))
    case LookUp(call, token, now) =>
      (match GetByRefreshHash(y.s.rows, Sha256(token))
       case None => y
       case Some(id) => if now > y.s.rows[id].refreshExpires then y else y.(pending := y.pending[call := id]))
    case Finish(call, now) =>
      if call in y.pending then System(Rotate(c, y.s, y.pending[call], now), y.pending - {call}) else y
    case Revoke(token) => y.(s := DeleteByAccessHash(y.s, Sha256(token)))
    case RevokeAll(user) => y.(s := DeleteAllForUser(y.s, user))
  }

  ghost function Run(c: Config, y: System, actions: seq<Action>): System {
    if actions == [] then y else Do(c, Run(c, y, actions[..|actions| - 1]), actions[|actions| - 1])
  }

  const INITIAL: System := System(EMPTY, map[])

  // ---- What every step keeps. ----

  ghost predicate Issued(s: State, h: Digest, origin: Origin) {
    h.token in s.minted && s.minted[h.token] == origin
  }

  /** Every stored hash is of a token minted for that very user, row and column. */
  ghost predicate Inv(s: State) {
    && (forall id :: id in s.rows ==>
          && id < s.nextId
          && Issued(s, s.rows[id].access, Origin(s.rows[id].user, id, Access))
          && Issued(s, s.rows[id].refresh, Origin(s.rows[id].user, id, Refresh)))
    && (forall t :: t in s.minted ==> t < s.nextToken)
  }

  /** No hash is stored twice, within either column or across them. */
  ghost predicate AllDistinct(rows: map<nat, Row>) {
    forall i, j :: i in rows && j in rows ==>
      && rows[i].access != rows[j].refresh
      && (i != j ==> rows[i].access != rows[j].access && rows[i].refresh != rows[j].refresh)
  }

  lemma InvSeparates(s: State)
    requires Inv(s)
    ensures AllDistinct(s.rows)
  {
    forall i, j | i in s.rows && j in s.rows
      ensures s.rows[i].access != s.rows[j].refresh
      ensures i != j ==> s.rows[i].access != s.rows[j].access && s.rows[i].refresh != s.rows[j].refresh
    {
      assert Issued(s, s.rows[i].access, Origin(s.rows[i].user, i, Access));
    }
  }

  ghost predicate SystemInv(y: System) {
    Inv(y.s) && forall call :: call in y.pending ==> y.pending[call] < y.s.nextId
  }

  ghost predicate Live(s: State, t: Token) {
    exists id :: id in s.rows && (s.rows[id].access == Sha256(t) || s.rows[id].refresh == Sha256(t))
  }

  /** Supplies only grow, history is never rewritten, and nothing dead comes back. */
  ghost predicate Advances(s: State, t: State) {
    && s.nextId <= t.nextId && s.nextToken <= t.nextToken
    && (forall k :: k in s.minted ==> k in t.minted && t.minted[k] == s.minted[k])
    && (forall k: Token :: Live(t, k) ==> k >= s.nextToken || Live(s, k))
    && (forall id :: id in t.rows ==> id >= s.nextId || (id in s.rows && s.rows[id].user == t.rows[id].user))
  }

  lemma StepKeepsInv(c: Config, y: System, a: Action)
    requires SystemInv(y)
    ensures SystemInv(Do(c, y, a))
  {
  }

  lemma StepAdvances(c: Config, y: System, a: Action)
    requires SystemInv(y)
    ensures Advances(y.s, Do(c, y, a).s)
  {
    var s, t := y.s, Do(c, y, a).s;
    forall k: Token | Live(t, k) ensures k >= s.nextToken || Live(s, k) {
      var id :| id in t.rows && (t.rows[id].access == Sha256(k) || t.rows[id].refresh == Sha256(k));
      if k < s.nextToken {
        assert id in s.rows && s.rows[id] == t.rows[id];
      }
    }
  }

  lemma {:induction false} RunKeepsInv(c: Config, y: System, actions: seq<Action>)
    requires SystemInv(y)
    ensures SystemInv(Run(c, y, actions))
    ensures Advances(y.s, Run(c, y, actions).s)
  {
    if actions != [] {
      var init := actions[..|actions| - 1];
      RunKeepsInv(c, y, init);
      StepKeepsInv(c, Run(c, y, init), actions[|actions| - 1]);
      StepAdvances(c, Run(c, y, init), actions[|actions| - 1]);
    }
  }

  /**
   * In every run, all stored hashes are distinct; a token once minted and no
   * longer stored is never stored again; a deleted row never comes back, even
   * when a refresh that found it rotates late.
   */
  lemma DeathIsPermanent(c: Config, past: seq<Action>, future: seq<Action>)
    ensures var now := Run(c, INITIAL, past); var later := Run(c, now, future);
      && AllDistinct(now.s.rows) && AllDistinct(later.s.rows)
      && (forall t: Token :: t < now.s.nextToken && !Live(now.s, t) ==> !Live(later.s, t))
      && (forall id :: id < now.s.nextId && id !in now.s.rows ==> id !in later.s.rows)
  {
    RunKeepsInv(c, INITIAL, past);
    RunKeepsInv(c, Run(c, INITIAL, past), future);
    InvSeparates(Run(c, INITIAL, past).s);
    InvSeparates(Run(c, Run(c, INITIAL, past), future).s);
  }

  // ---- Lifetimes. ----

  /** The instant a step creates or rotates row `id` at, if it does. */
  function Minting(y: System, a: Action, id: nat): Option<int> {
    match a
    case CreatePair(_, now) => if id == y.s.nextId then Some(now) else None
    case Finish(call, now) => if call in y.pending && y.pending[call] == id && id in y.s.rows then Some(now) else None
    case _ => None
  }

  /** The instant row `id` was last created or rotated at. */
  ghost function MintedAt(c: Config, actions: seq<Action>, id: nat): Option<int> {
    if actions == [] then None
    else
      var init := actions[..|actions| - 1];
      var last := Minting(Run(c, INITIAL, init), actions[|actions| - 1], id);
      if last.Some? then last else MintedAt(c, init, id)
  }

  /** An access token and a refresh token minted at `at` for a row live exactly their two lifetimes. */
  ghost predicate Lives(c: Config, row: Row, at: int) {
    row.accessExpires == at + c.accessTTL && row.refreshExpires == at + c.refreshTTL
  }

  lemma StepSetsLifetimes(c: Config, y: System, a: Action, id: nat)
    requires id in Do(c, y, a).s.rows
    ensures if Minting(y, a, id).Some? then Lives(c, Do(c, y, a).s.rows[id], Minting(y, a, id).value)
      else id in y.s.rows && Do(c, y, a).s.rows[id] == y.s.rows[id]
  {
  }

  /** In every run each row's two expiries are the instant it was last created or rotated at plus the two lifetimes. */
  lemma {:induction false} RowsLiveTheirLifetimes(c: Config, actions: seq<Action>, id: nat)
    requires id in Run(c, INITIAL, actions).s.rows
    ensures MintedAt(c, actions, id).Some?
    ensures Lives(c, Run(c, INITIAL, actions).s.rows[id], MintedAt(c, actions, id).value)
  {
    hide Do, Minting;
    if actions != [] {
      var init := actions[..|actions| - 1];
      StepSetsLifetimes(c, Run(c, INITIAL, init), actions[|actions| - 1], id);
      if Minting(Run(c, INITIAL, init), actions[|actions| - 1], id).None? {
        RowsLiveTheirLifetimes(c, init, id);
      }
    }
  }

  /** The first half of a refresh finds a row exactly for a stored refresh token not past its expiry, and then that row. */
  lemma LookUpFinds(c: Config, y: System, call: nat, t: Token, now: int)
    requires SystemInv(y) && call !in y.pending
    ensures var z := Do(c, y, LookUp(call, t, now));
      && z.s == y.s
      && (call in z.pending <==> RefreshGood(y.s.rows, t, now))
      && (call in z.pending ==> HasRefresh(y.s.rows, Sha256(t), z.pending[call]))
  {
    InvSeparates(y.s);
    hide Inv;
    if RefreshGood(y.s.rows, t, now) {
      var id :| HasRefresh(y.s.rows, Sha256(t), id) && now <= y.s.rows[id].refreshExpires;
      assert GetByRefreshHash(y.s.rows, Sha256(t)).Some?;
    }
  }

  /** Rotating a row kills both tokens it held; nobody else's token is affected. */
  lemma RotationKills(c: Config, y: System, call: nat, now: int)
    requires SystemInv(y) && call in y.pending && y.pending[call] in y.s.rows
    ensures var row, after := y.s.rows[y.pending[call]], Do(c, y, Finish(call, now));
      && !Live(after.s, row.access.token) && !Live(after.s, row.refresh.token)
      && (forall t: Token :: Live(y.s, t) && t != row.access.token && t != row.refresh.token ==> Live(after.s, t))
  {
    var id := y.pending[call];
    var after := Do(c, y, Finish(call, now)).s;
    forall t: Token | Live(y.s, t) && t != y.s.rows[id].access.token && t != y.s.rows[id].refresh.token
      ensures Live(after, t)
    {
      var i :| i in y.s.rows && (y.s.rows[i].access == Sha256(t) || y.s.rows[i].refresh == Sha256(t));
      assert i != id && after.rows[i] == y.s.rows[i];
    }
  }

  /** Logging out kills exactly the two tokens of the row the token is the access token of; deleting all kills exactly the user's. */
  lemma RevocationKills(s: State, t: Token, user: nat, k: Token)
    requires Inv(s) && Live(s, k)
    ensures Live(DeleteByAccessHash(s, Sha256(t)), k) <==> !HasAccess(s.rows, Sha256(t), s.minted[k].row)
    ensures Live(DeleteAllForUser(s, user), k) <==> s.minted[k].user != user
  {
    var id :| id in s.rows && (s.rows[id].access == Sha256(k) || s.rows[id].refresh == Sha256(k));
    assert id == s.minted[k].row && s.rows[id].user == s.minted[k].user;
    if !HasAccess(s.rows, Sha256(t), id) {
      assert id in DeleteByAccessHash(s, Sha256(t)).rows;
    }
    if s.minted[k].user != user {
      assert id in DeleteAllForUser(s, user).rows;
    }
  }

  /** Whatever run led here, a token that validates now yields the user it was minted for. */
  lemma ValidationNamesOwner(c: Config, past: seq<Action>, t: Token, user: nat, future: seq<Action>)
    requires var now := Run(c, INITIAL, past).s; t in now.minted && now.minted[t].user == user
    ensures var later := Run(c, Run(c, INITIAL, past), future).s;
      var found := GetByAccessHash(later.rows, Sha256(t));
      found.Some? ==> later.rows[found.value].user == user
  {
    RunKeepsInv(c, INITIAL, past);
    RunKeepsInv(c, Run(c, INITIAL, past), future);
  }

  /**
   * Why the client must not refresh twice at once: of two complete refreshes with
   * the same cookie the second is refused, however far off expiry is.
   */
  lemma SecondUseRefused(c: Config, y: System, first: nat, second: nat, t: Token, at: int, again: int)
    requires SystemInv(y) && GetByRefreshHash(y.s.rows, Sha256(t)).Some?
    requires at <= y.s.rows[GetByRefreshHash(y.s.rows, Sha256(t)).value].refreshExpires
    ensures var rotated := Do(c, Do(c, y, LookUp(first, t, at)), Finish(first, at));
      && GetByRefreshHash(rotated.s.rows, Sha256(t)) == None
      && Do(c, rotated, LookUp(second, t, again)) == rotated
  {
    var found := Do(c, y, LookUp(first, t, at));
    StepKeepsInv(c, y, LookUp(first, t, at));
    RotationKills(c, found, first, at);
  }

  /** A new pair belongs to nobody before it is inserted, and finds its own row after. */
  lemma CreatedPair(c: Config, s: State, user: nat, now: int)
    requires Inv(s)
    ensures Inv(Create(c, s, user, now))
    ensures !Live(s, s.nextToken) && !Live(s, s.nextToken + 1)
    ensures GetByAccessHash(Create(c, s, user, now).rows, Sha256(s.nextToken)) == Some(s.nextId)
    ensures GetByRefreshHash(Create(c, s, user, now).rows, Sha256(s.nextToken + 1)) == Some(s.nextId)
  {
    var rows := Create(c, s, user, now).rows;
    assert HasAccess(rows, Sha256(s.nextToken), s.nextId) && HasRefresh(rows, Sha256(s.nextToken + 1), s.nextId);
  }

  /** A rotation kills the pair it replaces. */
  lemma RotatedPair(c: Config, s: State, id: nat, now: int)
    requires Inv(s) && id in s.rows
    ensures Inv(Rotate(c, s, id, now)) && Advances(s, Rotate(c, s, id, now))
    ensures !Live(Rotate(c, s, id, now), s.rows[id].access.token)
    ensures !Live(Rotate(c, s, id, now), s.rows[id].refresh.token)
  {
    var y := System(s, map[0 := id]);
    StepKeepsInv(c, y, Finish(0, now));
    StepAdvances(c, y, Finish(0, now));
    RotationKills(c, y, 0, now);
  }

  /** The tokens of a row minted at `now` are good exactly for the two lifetimes. */
  lemma PairLives(c: Config, s: State, id: nat, now: int)
    requires Inv(s) && id in s.rows && Lives(c, s.rows[id], now)
    ensures forall t :: AccessGood(s.rows, s.rows[id].access.token, t) <==> t <= now + c.accessTTL
    ensures forall t :: RefreshGood(s.rows, s.rows[id].refresh.token, t) <==> t <= now + c.refreshTTL
  {
    InvSeparates(s);
    assert HasAccess(s.rows, s.rows[id].access, id) && HasRefresh(s.rows, s.rows[id].refresh, id);
    hide Inv;
  }

  // ---- The manager. ----

  class Manager {
    const config: Config
    var rows: map<nat, Row>
    var nextId: nat
    var nextToken: Token
    ghost var minted: map<Token, Origin>

    ghost function Abs(): State
      reads this
    {
      State(rows, nextId, nextToken, minted)
    }

    constructor (config: Config)
      ensures Abs() == EMPTY && Inv(Abs()) && this.config == config
    {
      this.config := config;
      rows, nextId, nextToken, minted := map[], 0, 0, map[];
    }

    method GenerateToken() returns (t: Token)
      modifies this`nextToken
      ensures t == old(nextToken) && nextToken == t + 1
    {
      t := nextToken;
      nextToken := nextToken + 1;
    }

    method CreateSessionPair(user: nat, now: int) returns (accessRaw: Token, refreshRaw: Token)
      requires Inv(Abs())
      modifies this
      ensures Abs() == Create(config, old(Abs()), user, now) && Inv(Abs())
      ensures !old(Live(Abs(), accessRaw)) && !old(Live(Abs(), refreshRaw)) && accessRaw != refreshRaw
      ensures GetByAccessHash(rows, Sha256(accessRaw)) == GetByRefreshHash(rows, Sha256(refreshRaw)) == Some(old(nextId))
      ensures rows == old(rows)[old(nextId) :=
        Row(user, Sha256(accessRaw), now + config.accessTTL, Sha256(refreshRaw), now + config.refreshTTL)]
      // the access token is good exactly for its lifetime from now, the refresh token for its own
      ensures forall t :: AccessGood(rows, accessRaw, t) <==> t <= now + config.accessTTL
      ensures forall t :: RefreshGood(rows, refreshRaw, t) <==> t <= now + config.refreshTTL
    {
      CreatedPair(config, Abs(), user, now);
      PairLives(config, Create(config, Abs(), user, now), nextId, now);
      hide Inv, Live, GetByAccessHash, GetByRefreshHash, AccessGood, RefreshGood;
      accessRaw := GenerateToken();
      refreshRaw := GenerateToken();
      rows := rows[nextId := Row(user, Sha256(accessRaw), now + config.accessTTL, Sha256(refreshRaw), now + config.refreshTTL)];
      minted := Mint(old(Abs()), user, nextId);
      nextId := nextId + 1;
    }

    /** The session of an access token that is stored and not past its expiry. */
    method ValidateAccess(accessRaw: Token, now: int) returns (session: Option<Row>)
      requires Inv(Abs())
      ensures session.Some? <==> AccessGood(rows, accessRaw, now)
      ensures session.Some? ==> session.value.access == Sha256(accessRaw) && minted[accessRaw].user == session.value.user
    {
      if id :| id in rows && rows[id].access == Sha256(accessRaw) {
        assert HasAccess(rows, Sha256(accessRaw), id);
        if now > rows[id].accessExpires {
          return None;
        }
        return Some(rows[id]);
      }
      return None;
    }

    method FindByRefreshHash(h: Digest) returns (id: Option<nat>)
      ensures id.Some? ==> HasRefresh(rows, h, id.value)
      ensures id.None? ==> forall i :: i in rows ==> rows[i].refresh != h
    {
      if i :| i in rows && rows[i].refresh == h {
        return Some(i);
      }
      return None;
    }

    method RotateTokens(id: nat, now: int) returns (newAccess: Token, newRefresh: Token)
      requires id in rows
      modifies this
      ensures Abs() == Rotate(config, old(Abs()), id, now)
      ensures rows == old(rows)[id := Row(old(rows)[id].user, Sha256(newAccess), now + config.accessTTL,
                                          Sha256(newRefresh), now + config.refreshTTL)]
    {
      ghost var minting := Mint(Abs(), rows[id].user, id);
      newAccess := GenerateToken();
      newRefresh := GenerateToken();
      rows := rows[id := Row(rows[id].user, Sha256(newAccess), now + config.accessTTL, Sha256(newRefresh), now + config.refreshTTL)];
      minted := minting;
    }

    /** Both halves with nothing in between: the pair returned replaces the one presented. */
    method RefreshSession(refreshRaw: Token, now: int) returns (pair: Option<(Token, Token)>)
      requires Inv(Abs())
      modifies this
      ensures Inv(Abs())
      ensures pair.Some? <==> old(RefreshGood(rows, refreshRaw, now))
      ensures pair.None? ==> Abs() == old(Abs())
      ensures pair.Some? ==> !Live(Abs(), refreshRaw)
      ensures pair.Some? ==> (exists id ::
        && old(HasRefresh(rows, Sha256(refreshRaw), id)) && Abs() == Rotate(config, old(Abs()), id, now)
        && rows == old(rows)[id := Row(old(rows)[id].user, Sha256(pair.value.0), now + config.accessTTL,
                                       Sha256(pair.value.1), now + config.refreshTTL)])
      // the new pair is good exactly for the two lifetimes from now
      ensures pair.Some? ==> forall t :: AccessGood(rows, pair.value.0, t) <==> t <= now + config.accessTTL
      ensures pair.Some? ==> forall t :: RefreshGood(rows, pair.value.1, t) <==> t <= now + config.refreshTTL
    {
      InvSeparates(Abs());
      hide Inv, Live, Advances, Rotate, AllDistinct;
      var found := FindByRefreshHash(Sha256(refreshRaw));
      if found.None? || now > rows[found.value].refreshExpires {
        return None;
      }
      RotatedPair(config, Abs(), found.value, now);
      PairLives(config, Rotate(config, Abs(), found.value, now), found.value, now);
      var newAccess, newRefresh := RotateTokens(found.value, now);
      return Some((newAccess, newRefresh));
    }

    method RevokeSession(accessRaw: Token)
      modifies this`rows
      ensures Abs() == DeleteByAccessHash(old(Abs()), Sha256(accessRaw))
      ensures forall id :: id in rows <==> id in old(rows) && old(rows)[id].access != Sha256(accessRaw)
      ensures forall id :: id in rows ==> rows[id] == old(rows)[id]
    {
      rows := map id | id in rows && rows[id].access != Sha256(accessRaw) :: rows[id];
    }

    method RevokeAllSessions(user: nat)
      modifies this`rows
      ensures Abs() == DeleteAllForUser(old(Abs()), user)
      ensures forall id :: id in rows <==> id in old(rows) && old(rows)[id].user != user
      ensures forall id :: id in rows ==> rows[id] == old(rows)[id]
    {
      rows := map id | id in rows && rows[id].user != user :: rows[id];
    }
  }
}
