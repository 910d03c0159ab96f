/**
 * Recovery-code rows and their single use (internal/storage/mfa.go over
 * internal/storage/sqlcgen/mfa.sql.go).
 */
module RecoveryRows {
  import opened Prelude

  /** A stored hash; which codes it stands for is RecoveryCode's business. */
  datatype Hash = Hash(digest: nat)
  datatype Code = Code(user: nat, hash: Hash, used: bool)

  /**
   * The table and the next row id, with (as history) how many codes each user's
   * last replacement inserted, how many have been spent since, and every row ever
   * consumed, in order.
   */
  datatype Table = Table(rows: map<nat, Code>, nextId: nat, inserted: map<nat, nat>, spent: map<nat, nat>, consumed: seq<nat>)

  const EMPTY: Table := Table(map[], 0, map[], map[], [])

  function Count(m: map<nat, nat>, user: nat): nat {
    if user in m then m[user] else 0
  }

  predicate Unused(rows: map<nat, Code>, user: nat, id: nat) {
    id in rows && rows[id].user == user && !rows[id].used
  }

  function UnusedIds(rows: map<nat, Code>, user: nat): set<nat> {
    set id | id in rows && Unused(rows, user, id)
  }

  // ---- The statements and the one transaction, each atomic. ----

  function DeleteForUser(t: Table, user: nat): Table {
    t.(rows := map id | id in t.rows && t.rows[id].user != user :: t.rows[id],
       inserted := t.inserted[user := 0], spent := t.spent[user := 0])
  }

  function Insert(t: Table, user: nat, hash: Hash): Table {
    t.(rows := t.rows[t.nextId := Code(user, hash, false)], nextId := t.nextId + 1,
       inserted := t.inserted[user := Count(t.inserted, user) + 1])
  }

  function InsertAll(t: Table, user: nat, hashes: seq<Hash>): Table {
    if hashes == [] then t else Insert(InsertAll(t, user, hashes[..|hashes| - 1]), user, hashes[|hashes| - 1])
  }

  function Replace(t: Table, user: nat, hashes: seq<Hash>): Table {
    InsertAll(DeleteForUser(t, user), user, hashes)
  }

  /** UPDATE ... SET used_at WHERE id AND used_at IS NULL, by a call that listed the row as `user`'s. */
  function Mark(t: Table, id: nat): Table {
    if id in t.rows && !t.rows[id].used then
      var user := t.rows[id].user;
      t.(rows := t.rows[id := t.rows[id].(used := true)], spent := t.spent[user := Count(t.spent, user) + 1],
         consumed := t.consumed + [id])
    else t
  }

  // ---- Any number of callers, with list and mark interleaved freely. ----

  /** What ListUnusedRecoveryCodes may hand a caller whose code hashes to `hash`: a match, or None if there is none. */
  ghost predicate MayPick(rows: map<nat, Code>, user: nat, hash: Hash, pick: Option<nat>) {
    match pick
    case Some(id) => Unused(rows, user, id) && rows[id].hash == hash
    case None => forall id :: id in rows && Unused(rows, user, id) ==> rows[id].hash != hash
  }

  datatype Action =
    | ListCodes(call: nat, user: nat, hash: Hash, row: Option<nat>)
    | MarkUsed(call: nat)
    | ReplaceCodes(user: nat, hashes: seq<Hash>)
    | DeleteCodes(user: nat)

  /** Whose code was asked for, its hash, and the row found for it, if any. */
  datatype Pick = Pick(user: nat, hash: Hash, row: Option<nat>)

  /**
   * `picked` is what each caller matched and has yet to mark; `answers` keeps the row
   * of the callers whose mark succeeded.
   */
  datatype System = System(t: Table, picked: map<nat, Pick>, answers: map<nat, Pick>)

  const INITIAL: System := System(EMPTY, map[], map[])

  ghost function Do(y: System, a: Action): System {
    match a
    case ListCodes(call, user, hash, row) =>
      if call in y.picked || call in y.answers || !MayPick(y.t.rows, user, hash, row) then y
      else y.(picked := y.picked[call := Pick(user, hash, row)])
    case MarkUsed(call) =>
      if call !in y.picked then y
      else
        var t := if y.picked[call].row.Some? then Mark(y.t, y.picked[call].row.value) else y.t;
        System(t, y.picked - {call}, y.answers[call := if t != y.t then y.picked[call] else y.picked[call].(row := None)])
    case ReplaceCodes(user, hashes) => y.(t := Replace(y.t, user, hashes))
    case DeleteCodes(user) => y.(t := DeleteForUser(y.t, user))
  }

  ghost function Run(y: System, actions: seq<Action>): System {
    if actions == [] then y else Do(Run(y, actions[..|actions| - 1]), actions[|actions| - 1])
  }

  // ---- Invariants. ----

  ghost predicate NoRepeats(s: seq<nat>) {
    forall i, j :: 0 <= i < j < |s| ==> s[i] != s[j]
  }

  ghost predicate Inv(t: Table) {
    && (forall id :: id in t.rows ==> id < t.nextId)
    && (forall i :: 0 <= i < |t.consumed| ==>
          t.consumed[i] < t.nextId && (t.consumed[i] in t.rows ==> t.rows[t.consumed[i]].used))
    && NoRepeats(t.consumed)
  }

  /** Codes are conserved: those unused and those spent make up those inserted. */
  ghost predicate Balanced(t: Table, user: nat) {
    |UnusedIds(t.rows, user)| + Count(t.spent, user) == Count(t.inserted, user)
  }

  /** The same code, perhaps used by now. */
  predicate SameCode(c: Code, d: Code) {
    c.user == d.user && c.hash == d.hash && (c.used ==> d.used)
  }

  /** Removed rows stay removed, rows keep their code, used ones stay used, consumption only appends. */
  ghost predicate Advances(s: Table, t: Table) {
    && s.nextId <= t.nextId
    && (forall id :: id in t.rows ==> id >= s.nextId || (id in s.rows && SameCode(s.rows[id], t.rows[id])))
    && s.consumed <= t.consumed
    && (forall i :: |s.consumed| <= i < |t.consumed| ==>
          t.consumed[i] >= s.nextId || (t.consumed[i] in s.rows && !s.rows[t.consumed[i]].used))
  }

  lemma DeleteKeeps(t: Table, user: nat, other: nat)
    requires Inv(t)
    ensures var u := DeleteForUser(t, user); Inv(u) && Advances(t, u)
    ensures Balanced(t, other) ==> Balanced(DeleteForUser(t, user), other)
    ensures Balanced(DeleteForUser(t, user), user)
  {
    var u := DeleteForUser(t, user);
    assert UnusedIds(u.rows, user) == {};
    if other != user {
      assert UnusedIds(u.rows, other) == UnusedIds(t.rows, other);
    }
  }

  lemma InsertBalances(t: Table, user: nat, hash: Hash, other: nat)
    requires Inv(t) && Balanced(t, other)
    ensures Balanced(Insert(t, user, hash), other)
  {
    var u := Insert(t, user, hash);
    if other == user {
      assert UnusedIds(u.rows, user) == UnusedIds(t.rows, user) + {t.nextId};
    } else {
      assert UnusedIds(u.rows, other) == UnusedIds(t.rows, other);
    }
  }

  lemma InsertKeeps(t: Table, user: nat, hash: Hash, other: nat)
    requires Inv(t)
    ensures var u := Insert(t, user, hash); Inv(u) && Advances(t, u)
    ensures Balanced(t, other) ==> Balanced(Insert(t, user, hash), other)
  {
    hide Balanced;
    if Balanced(t, other) {
      InsertBalances(t, user, hash, other);
    }
  }

  lemma AdvancesTransitive(s: Table, m: Table, t: Table)
    requires Inv(s) && Advances(s, m) && Advances(m, t)
    ensures Advances(s, t)
  {
    forall i | |s.consumed| <= i < |t.consumed|
      ensures t.consumed[i] >= s.nextId || (t.consumed[i] in s.rows && !s.rows[t.consumed[i]].used)
    {
      if i < |m.consumed| {
        assert t.consumed[i] == m.consumed[i];
      }
    }
  }

  lemma {:induction false} InsertAllKeeps(t: Table, user: nat, hashes: seq<Hash>, other: nat)
    requires Inv(t)
    ensures var u := InsertAll(t, user, hashes); Inv(u) && Advances(t, u)
    ensures Balanced(t, other) ==> Balanced(InsertAll(t, user, hashes), other)
    ensures Count(InsertAll(t, user, hashes).inserted, user) == Count(t.inserted, user) + |hashes|
  {
    if hashes != [] {
      var init := InsertAll(t, user, hashes[..|hashes| - 1]);
      InsertAllKeeps(t, user, hashes[..|hashes| - 1], other);
      InsertKeeps(init, user, hashes[|hashes| - 1], other);
      AdvancesTransitive(t, init, InsertAll(t, user, hashes));
    }
  }

  lemma MarkKeeps(t: Table, id: nat, other: nat)
    requires Inv(t)
    ensures Inv(Mark(t, id)) && Advances(t, Mark(t, id))
    ensures Balanced(t, other) ==> Balanced(Mark(t, id), other)
  {
    var u := Mark(t, id);
    if u != t {
      if other == t.rows[id].user {
        assert UnusedIds(u.rows, other) == UnusedIds(t.rows, other) - {id};
        assert Unused(t.rows, other, id);
      } else {
        assert UnusedIds(u.rows, other) == UnusedIds(t.rows, other);
      }
    }
  }

  lemma StepKeeps(y: System, a: Action, other: nat)
    requires Inv(y.t)
    ensures Inv(Do(y, a).t) && Advances(y.t, Do(y, a).t)
    ensures Balanced(y.t, other) ==> Balanced(Do(y, a).t, other)
  {
    match a
    case ListCodes(_, _, _, _) =>
    case MarkUsed(call) =>
      if call in y.picked && y.picked[call].row.Some? {
        MarkKeeps(y.t, y.picked[call].row.value, other);
      }
    case ReplaceCodes(user, hashes) =>
      DeleteKeeps(y.t, user, other);
      InsertAllKeeps(DeleteForUser(y.t, user), user, hashes, other);
      AdvancesTransitive(y.t, DeleteForUser(y.t, user), Replace(y.t, user, hashes));
    case DeleteCodes(user) =>
      DeleteKeeps(y.t, user, other);
  }

  lemma {:induction false} RunKeeps(y: System, actions: seq<Action>, user: nat)
    requires Inv(y.t)
    ensures Inv(Run(y, actions).t) && Advances(y.t, Run(y, actions).t)
    ensures Balanced(y.t, user) ==> Balanced(Run(y, actions).t, user)
  {
    hide Do, Inv, Advances, Balanced;
    if actions != [] {
      var init := Run(y, actions[..|actions| - 1]);
      RunKeeps(y, actions[..|actions| - 1], user);
      StepKeeps(init, actions[|actions| - 1], user);
      AdvancesTransitive(y.t, init.t, Run(y, actions).t);
    } else {
      assert Advances(y.t, y.t) by { Reflexive(y.t); }
    }
  }

  lemma Reflexive(t: Table)
    ensures Advances(t, t)
  {
  }

  /** In every interleaving a code row is consumed at most once, and codes are conserved. */
  lemma SingleUse(actions: seq<Action>, user: nat)
    ensures var t := Run(INITIAL, actions).t; NoRepeats(t.consumed) && Balanced(t, user)
  {
    assert UnusedIds(EMPTY.rows, user) == {};
    RunKeeps(INITIAL, actions, user);
  }

  // ---- What the callers were told. ----

  /** The row picked was the asker's and carried the hash asked for, and is not somebody else's now. */
  ghost predicate PickOk(t: Table, p: Pick) {
    p.row.Some? ==>
      && p.row.value < t.nextId
      && (p.row.value in t.rows ==> t.rows[p.row.value].user == p.user && t.rows[p.row.value].hash == p.hash)
  }

  ghost predicate Won(y: System, call: nat) {
    call in y.answers && y.answers[call].row.Some?
  }

  ghost predicate SystemInv(y: System) {
    && Inv(y.t)
    && (forall c :: c in y.picked ==> c !in y.answers && PickOk(y.t, y.picked[c]))
    && (forall c :: Won(y, c) ==> y.answers[c].row.value in y.t.consumed)
    && (forall c, d :: Won(y, c) && Won(y, d) && c != d ==> y.answers[c].row != y.answers[d].row)
  }

  lemma AdvanceKeepsPick(s: Table, t: Table, p: Pick)
    requires PickOk(s, p) && Advances(s, t)
    ensures PickOk(t, p)
  {
  }

  /** As the table advances, what callers hold and were told stays sound. */
  lemma AdvanceKeepsInv(y: System, t: Table)
    requires SystemInv(y) && Inv(t) && Advances(y.t, t)
    ensures SystemInv(y.(t := t))
  {
    hide Inv, PickOk;
    forall c | c in y.picked ensures PickOk(t, y.picked[c]) {
      AdvanceKeepsPick(y.t, t, y.picked[c]);
    }
    assert forall id :: id in y.t.consumed ==> id in t.consumed;
  }

  lemma ListKeepsInv(y: System, call: nat, p: Pick)
    requires SystemInv(y) && MayPick(y.t.rows, p.user, p.hash, p.row) && call !in y.answers
    ensures SystemInv(y.(picked := y.picked[call := p]))
  {
    assert PickOk(y.t, p);
    hide Inv, MayPick;
  }

  lemma AnswerKeepsInv(y: System, call: nat, p: Pick)
    requires SystemInv(y) && call in y.picked
    requires p.row.Some? ==> p.row.value in y.t.consumed && forall c :: Won(y, c) ==> y.answers[c].row != p.row
    ensures SystemInv(System(y.t, y.picked - {call}, y.answers[call := p]))
  {
    hide Inv, PickOk;
  }

  /** A row that can still be marked has been won by nobody. */
  lemma UnusedIsUnwon(y: System, id: nat, c: nat)
    requires SystemInv(y) && id in y.t.rows && !y.t.rows[id].used && Won(y, c)
    ensures y.answers[c].row.value != id
  {
  }

  lemma MarkUsedKeepsInv(y: System, call: nat)
    requires SystemInv(y)
    ensures SystemInv(Do(y, MarkUsed(call)))
  {
    if call in y.picked {
      var p := y.picked[call];
      var t := if p.row.Some? then Mark(y.t, p.row.value) else y.t;
      if t != y.t {
        forall c | Won(y, c) ensures y.answers[c].row != p.row {
          UnusedIsUnwon(y, p.row.value, c);
        }
        MarkKeeps(y.t, p.row.value, p.user);
        assert t.consumed[|y.t.consumed|] == p.row.value;
        hide Inv, Advances, Balanced, Mark, SystemInv;
        AdvanceKeepsInv(y, t);
        AnswerKeepsInv(y.(t := t), call, p);
      } else {
        hide Mark, SystemInv;
        AnswerKeepsInv(y, call, p.(row := None));
      }
    }
  }

  lemma StepKeepsInv(y: System, a: Action)
    requires SystemInv(y)
    ensures SystemInv(Do(y, a))
  {
    match a
    case ListCodes(call, user, hash, row) =>
      if call !in y.picked && call !in y.answers && MayPick(y.t.rows, user, hash, row) {
        ListKeepsInv(y, call, Pick(user, hash, row));
      }
    case MarkUsed(call) => MarkUsedKeepsInv(y, call);
    case ReplaceCodes(_, _) =>
      StepKeeps(y, a, 0);
      hide Inv, Advances, SystemInv, Replace;
      AdvanceKeepsInv(y, Do(y, a).t);
    case DeleteCodes(_) =>
      StepKeeps(y, a, 0);
      hide Inv, Advances, SystemInv, DeleteForUser;
      AdvanceKeepsInv(y, Do(y, a).t);
  }

  lemma {:induction false} RunKeepsInv(actions: seq<Action>)
    ensures SystemInv(Run(INITIAL, actions))
  {
    hide Do;
    if actions != [] {
      hide SystemInv;
      RunKeepsInv(actions[..|actions| - 1]);
      StepKeepsInv(Run(INITIAL, actions[..|actions| - 1]), actions[|actions| - 1]);
    }
  }

  /**
   * In every run a caller succeeds exactly when the row it picked is still there and
   * unused as it marks it; the row is then its own user's, carries the hash it
   * presented, and is consumed by this mark and no other.
   */
  lemma {:induction false} SuccessConsumes(actions: seq<Action>, call: nat)
    requires call in Run(INITIAL, actions).picked
    ensures var y := Run(INITIAL, actions); var p, z := y.picked[call], Do(y, MarkUsed(call));
      && (Won(z, call) <==> p.row.Some? && p.row.value in y.t.rows && !y.t.rows[p.row.value].used)
      && (Won(z, call) ==>
            && y.t.rows[p.row.value] == Code(p.user, p.hash, false)
            && z.answers[call].row == p.row && z.t.consumed == y.t.consumed + [p.row.value]
            && p.row.value !in y.t.consumed)
      && (!Won(z, call) ==> z.t == y.t)
  {
    RunKeepsInv(actions);
    hide Run;
    var y := Run(INITIAL, actions);
    assert PickOk(y.t, y.picked[call]);
    var row := y.picked[call].row;
    if row.Some? && row.value in y.t.rows && !y.t.rows[row.value].used {
      assert Mark(y.t, row.value) != y.t by {
        assert Mark(y.t, row.value).rows[row.value].used;
      }
    }
  }

  /** No two callers are ever told they consumed the same row. */
  lemma {:induction false} WinnersDiffer(actions: seq<Action>, c: nat, d: nat)
    requires Won(Run(INITIAL, actions), c) && Won(Run(INITIAL, actions), d) && c != d
    ensures Run(INITIAL, actions).answers[c].row != Run(INITIAL, actions).answers[d].row
  {
    hide Run;
    RunKeepsInv(actions);
  }

  /** A replacement leaves exactly the new codes usable, and no row it removed is ever consumed later. */
  lemma ReplacementRetires(past: seq<Action>, user: nat, hashes: seq<Hash>, future: seq<Action>, id: nat)
    requires id in Run(INITIAL, past).t.rows && Run(INITIAL, past).t.rows[id].user == user
    ensures var now := Do(Run(INITIAL, past), ReplaceCodes(user, hashes)); var later := Run(now, future);
      && |UnusedIds(now.t.rows, user)| == |hashes|
      && now.t.consumed == Run(INITIAL, past).t.consumed <= later.t.consumed
      && forall i :: |now.t.consumed| <= i < |later.t.consumed| ==> later.t.consumed[i] != id
  {
    var y := Run(INITIAL, past);
    var now := Do(y, ReplaceCodes(user, hashes));
    RunKeeps(INITIAL, past, user);
    DeleteKeeps(y.t, user, user);
    InsertAllKeeps(DeleteForUser(y.t, user), user, hashes, user);
    InsertAllHistory(DeleteForUser(y.t, user), user, hashes);
    StepKeeps(y, ReplaceCodes(user, hashes), user);
    RunKeeps(now, future, user);
  }

  lemma {:induction false} InsertAllHistory(t: Table, user: nat, hashes: seq<Hash>)
    ensures var u := InsertAll(t, user, hashes);
      u.consumed == t.consumed && u.spent == t.spent && u.nextId == t.nextId + |hashes|
    ensures forall id :: id in InsertAll(t, user, hashes).rows ==> id >= t.nextId || id in t.rows
  {
    if hashes != [] {
      InsertAllHistory(t, user, hashes[..|hashes| - 1]);
    }
  }

  // ---- Every code of a replacement works, once. ----

  /** Row `id` holds this code, unused. */
  predicate Holds(rows: map<nat, Code>, id: nat, user: nat, hash: Hash) {
    id in rows && rows[id] == Code(user, hash, false)
  }

  /** The codes lie in order in rows `first`, `first` + 1, and so on. */
  ghost predicate HoldsAll(rows: map<nat, Code>, first: nat, user: nat, hashes: seq<Hash>) {
    forall i :: 0 <= i < |hashes| ==> Holds(rows, first + i, user, hashes[i])
  }

  /** The rows a replacement leaves: the new codes in order under fresh ids, and everybody else's as they were. */
  ghost predicate Replaced(before: map<nat, Code>, nextId: nat, after: map<nat, Code>, user: nat, hashes: seq<Hash>) {
    && HoldsAll(after, nextId, user, hashes)
    && (forall id :: id in after ==> nextId <= id < nextId + |hashes| || (id in before && before[id].user != user))
    && (forall id :: id in before && before[id].user != user ==> id in after && after[id] == before[id])
  }

  lemma {:induction false} InsertAllAre(t: Table, user: nat, hashes: seq<Hash>)
    requires forall id :: id in t.rows ==> id < t.nextId
    ensures var u := InsertAll(t, user, hashes);
      && u.nextId == t.nextId + |hashes|
      && HoldsAll(u.rows, t.nextId, user, hashes)
      && (forall id :: id in u.rows ==> t.nextId <= id < t.nextId + |hashes| || id in t.rows)
      && (forall id :: id in t.rows ==> id in u.rows && u.rows[id] == t.rows[id])
  {
    if hashes != [] {
      var init := hashes[..|hashes| - 1];
      InsertAllAre(t, user, init);
      var u := InsertAll(t, user, hashes);
      forall i | 0 <= i < |hashes| ensures Holds(u.rows, t.nextId + i, user, hashes[i]) {
        assert i < |init| ==> Holds(InsertAll(t, user, init).rows, t.nextId + i, user, init[i]);
      }
    }
  }

  lemma ReplaceIs(t: Table, user: nat, hashes: seq<Hash>)
    requires Inv(t)
    ensures Replaced(t.rows, t.nextId, Replace(t, user, hashes).rows, user, hashes)
  {
    InsertAllAre(DeleteForUser(t, user), user, hashes);
  }

  /** One caller presents the code stored in row `id`. */
  ghost function Spend(y: System, user: nat, hash: Hash, call: nat, id: nat): System {
    Do(Do(y, ListCodes(call, user, hash, Some(id))), MarkUsed(call))
  }

  predicate FreshCall(y: System, call: nat) {
    call !in y.picked && call !in y.answers
  }

  lemma SpendWorks(y: System, user: nat, hash: Hash, call: nat, id: nat)
    requires FreshCall(y, call) && id in y.t.rows && y.t.rows[id] == Code(user, hash, false)
    ensures var z := Spend(y, user, hash, call, id);
      && z.t.rows == y.t.rows[id := Code(user, hash, true)]
      && z.picked == y.picked && z.answers == y.answers[call := Pick(user, hash, Some(id))]
  {
    var p := Do(y, ListCodes(call, user, hash, Some(id)));
    assert p == y.(picked := y.picked[call := Pick(user, hash, Some(id))]);
    assert Mark(y.t, id).rows[id].used;
    assert p.picked - {call} == y.picked;
  }

  /** The codes presented one after the other, the i-th by caller `calls[i]`. */
  ghost function SpendAll(y: System, user: nat, hashes: seq<Hash>, calls: seq<nat>, first: nat): System
    requires |calls| == |hashes|
  {
    if hashes == [] then y
    else
      var n := |hashes| - 1;
      Spend(SpendAll(y, user, hashes[..n], calls[..n], first), user, hashes[n], calls[n], first + n)
  }

  /** The codes are stored and the callers are new and all different. */
  ghost predicate Ready(y: System, user: nat, hashes: seq<Hash>, calls: seq<nat>, first: nat) {
    && |calls| == |hashes| && NoRepeats(calls)
    && (forall i :: 0 <= i < |calls| ==> FreshCall(y, calls[i]))
    && HoldsAll(y.t.rows, first, user, hashes)
  }

  lemma ReadyBefore(y: System, user: nat, hashes: seq<Hash>, calls: seq<nat>, first: nat)
    requires Ready(y, user, hashes, calls, first) && hashes != []
    ensures var n := |hashes| - 1;
      Ready(y, user, hashes[..n], calls[..n], first) && FreshCall(y, calls[n]) && Holds(y.t.rows, first + n, user, hashes[n])
  {
    var n := |hashes| - 1;
    assert FreshCall(y, calls[n]) && Holds(y.t.rows, first + n, user, hashes[n]);
    forall i | 0 <= i < n ensures Holds(y.t.rows, first + i, user, hashes[..n][i]) && FreshCall(y, calls[..n][i]) {
      assert Holds(y.t.rows, first + i, user, hashes[i]) && FreshCall(y, calls[i]);
    }
  }

  lemma StillHeld(y: System, z: System, user: nat, hashes: seq<Hash>, calls: seq<nat>, first: nat)
    requires |calls| == |hashes| > 0
    requires var n := |calls| - 1;
      AllSpent(y, z, user, hashes[..n], calls[..n], first) && Holds(y.t.rows, first + n, user, hashes[n])
    ensures Holds(z.t.rows, first + |calls| - 1, user, hashes[|hashes| - 1])
  {
  }

  lemma NothingSpent(y: System, user: nat, first: nat)
    ensures AllSpent(y, y, user, [], [], first)
  {
  }

  lemma {:induction false} SpendAllWorks(y: System, user: nat, hashes: seq<Hash>, calls: seq<nat>, first: nat)
    requires Ready(y, user, hashes, calls, first)
    ensures AllSpent(y, SpendAll(y, user, hashes, calls, first), user, hashes, calls, first)
  {
    hide Spend, AllSpent, FreshCall, Holds, HoldsAll, NoRepeats;
    if hashes == [] {
      NothingSpent(y, user, first);
    } else {
      ReadyBefore(y, user, hashes, calls, first);
      var n := |hashes| - 1;
      var z := SpendAll(y, user, hashes[..n], calls[..n], first);
      SpendAllWorks(y, user, hashes[..n], calls[..n], first);
      NotCalledYet(y, z, user, hashes, calls, first);
      StillHeld(y, z, user, hashes, calls, first);
      HeldIsThere(z.t.rows, first + n, user, hashes[n]);
      FreshIsUnanswered(z, calls[n]);
      SpendWorks(z, user, hashes[n], calls[n], first + n);
      SpendOneMore(y, z, Spend(z, user, hashes[n], calls[n], first + n), user, hashes, calls, first);
    }
  }

  lemma HeldIsThere(rows: map<nat, Code>, id: nat, user: nat, hash: Hash)
    requires Holds(rows, id, user, hash)
    ensures id in rows && rows[id] == Code(user, hash, false)
  {
  }

  lemma FreshIsUnanswered(y: System, call: nat)
    requires FreshCall(y, call)
    ensures call !in y.answers
  {
  }

  /** What the first callers were told, and the rows that were not theirs. */
  ghost predicate AllSpent(y: System, z: System, user: nat, hashes: seq<Hash>, calls: seq<nat>, first: nat)
    requires |calls| == |hashes|
  {
    && z.picked == y.picked
    && (forall i :: 0 <= i < |calls| ==> calls[i] in z.answers && z.answers[calls[i]] == Pick(user, hashes[i], Some(first + i)))
    && (forall c :: c in z.answers ==> c in y.answers || c in calls)
    && (forall id :: id in y.t.rows && id >= first + |hashes| ==> id in z.t.rows && z.t.rows[id] == y.t.rows[id])
  }

  lemma NotCalledYet(y: System, z: System, user: nat, hashes: seq<Hash>, calls: seq<nat>, first: nat)
    requires |calls| == |hashes| > 0 && NoRepeats(calls)
    requires var n := |calls| - 1; AllSpent(y, z, user, hashes[..n], calls[..n], first) && FreshCall(y, calls[n])
    ensures FreshCall(z, calls[|calls| - 1])
  {
    assert calls[|calls| - 1] !in calls[..|calls| - 1];
  }

  lemma SpendOneMore(y: System, m: System, z: System, user: nat, hashes: seq<Hash>, calls: seq<nat>, first: nat)
    requires |calls| == |hashes| > 0
    requires var n := |calls| - 1;
      && AllSpent(y, m, user, hashes[..n], calls[..n], first) && calls[n] !in m.answers
      && z.picked == m.picked && z.answers == m.answers[calls[n] := Pick(user, hashes[n], Some(first + n))]
      && first + n in m.t.rows && z.t.rows == m.t.rows[first + n := Code(user, hashes[n], true)]
    ensures AllSpent(y, z, user, hashes, calls, first)
  {
    var n := |calls| - 1;
    forall i | 0 <= i < |calls|
      ensures calls[i] in z.answers && z.answers[calls[i]] == Pick(user, hashes[i], Some(first + i))
    {
      if i < n {
        assert calls[..n][i] == calls[i] && hashes[..n][i] == hashes[i];
      }
    }
  }

  /**
   * After any run, every code of a replacement lets one caller in: presented one
   * after the other by callers of their own, all of them succeed, each on its row.
   */
  lemma {:induction false} EveryNewCodeWorks(past: seq<Action>, user: nat, hashes: seq<Hash>, calls: seq<nat>)
    requires |calls| == |hashes| && NoRepeats(calls)
    requires forall i :: 0 <= i < |calls| ==> FreshCall(Run(INITIAL, past), calls[i])
    ensures var y := Do(Run(INITIAL, past), ReplaceCodes(user, hashes));
      var z := SpendAll(y, user, hashes, calls, Run(INITIAL, past).t.nextId);
      forall i :: 0 <= i < |calls| ==> Won(z, calls[i]) && z.answers[calls[i]].hash == hashes[i]
  {
    RunKeeps(INITIAL, past, user);
    hide Run;
    var y := Run(INITIAL, past);
    ReplaceIs(y.t, user, hashes);
    var replaced := Do(y, ReplaceCodes(user, hashes));
    hide Inv, Advances, Replace;
    assert Ready(replaced, user, hashes, calls, y.t.nextId);
    SpendAllWorks(replaced, user, hashes, calls, y.t.nextId);
    assert AllSpent(replaced, SpendAll(replaced, user, hashes, calls, y.t.nextId), user, hashes, calls, y.t.nextId);
    hide SpendAll;
  }

  // ---- The repository, one call at a time. ----

  class MFARepo {
    var rows: map<nat, Code>
    var nextId: nat
    ghost var inserted: map<nat, nat>
    ghost var spent: map<nat, nat>
    ghost var consumed: seq<nat>

    ghost function Abs(): Table
      reads this
    {
      Table(rows, nextId, inserted, spent, consumed)
    }

    constructor ()
      ensures Abs() == EMPTY && Inv(Abs())
    {
      rows, nextId, inserted, spent, consumed := map[], 0, map[], map[], [];
    }

    /** SELECT ... WHERE user_id AND used_at IS NULL, in no particular order. */
    method ListUnused(user: nat) returns (ids: seq<nat>)
      ensures NoRepeats(ids)
      ensures forall id :: id in ids <==> id in rows && Unused(rows, user, id)
    {
      ids := [];
      var left := UnusedIds(rows, user);
      while left != {}
        invariant NoRepeats(ids)
        invariant forall id :: id in left ==> id !in ids
        invariant forall id :: id in rows && Unused(rows, user, id) <==> id in left || id in ids
      {
        var id :| id in left;
        ids := ids + [id];
        left := left - {id};
      }
    }

    /** Mark the first listed code whose hash matches. */
    method ConsumeRecoveryCode(user: nat, presented: Hash) returns (ok: bool)
      requires Inv(Abs())
      modifies this
      ensures Inv(Abs()) && (old(Balanced(Abs(), user)) ==> Balanced(Abs(), user))
      ensures ok <==> exists id :: id in old(rows) && old(rows)[id] == Code(user, presented, false)
      ensures !ok ==> Abs() == old(Abs())
      ensures ok ==> (exists id ::
        && id in old(rows) && old(rows)[id] == Code(user, presented, false)
        && rows == old(rows)[id := Code(user, presented, true)] && Abs() == Mark(old(Abs()), id))
    {
      var ids := ListUnused(user);
      for i := 0 to |ids|
        invariant Abs() == old(Abs())
        invariant forall j :: 0 <= j < i ==> rows[ids[j]].hash != presented
      {
        var id := ids[i];
        assert id in ids;
        if rows[id].hash == presented {
          MarkKeeps(Abs(), id, user);
          hide Inv, Advances, Balanced;
          spent := spent[rows[id].user := Count(spent, rows[id].user) + 1];
          consumed := consumed + [id];
          rows := rows[id := rows[id].(used := true)];
          assert Abs() == Mark(old(Abs()), id);
          return true;
        }
      }
      return false;
    }

    method DeleteCodes(user: nat)
      modifies this
      ensures Abs() == DeleteForUser(old(Abs()), user)
      ensures forall id :: id in rows <==> id in old(rows) && old(rows)[id].user != user
      ensures forall id :: id in rows ==> rows[id] == old(rows)[id]
    {
      rows := map id | id in rows && rows[id].user != user :: rows[id];
      inserted, spent := inserted[user := 0], spent[user := 0];
    }

    method InsertCode(user: nat, hash: Hash)
      modifies this
      ensures Abs() == Insert(old(Abs()), user, hash)
    {
      rows := rows[nextId := Code(user, hash, false)];
      nextId := nextId + 1;
      inserted := inserted[user := Count(inserted, user) + 1];
    }

    /** Delete the user's codes and insert the new ones, in one transaction. */
    method ReplaceRecoveryCodes(user: nat, hashes: seq<Hash>)
      requires Inv(Abs())
      modifies this
      ensures Inv(Abs()) && Abs() == Replace(old(Abs()), user, hashes)
      ensures |UnusedIds(rows, user)| == |hashes|
      ensures Replaced(old(rows), old(nextId), rows, user, hashes)
    {
      ReplaceIs(Abs(), user, hashes);
      DeleteKeeps(Abs(), user, user);
      InsertAllKeeps(DeleteForUser(Abs(), user), user, hashes, user);
      InsertAllHistory(DeleteForUser(Abs(), user), user, hashes);
      assert |UnusedIds(Replace(Abs(), user, hashes).rows, user)| == |hashes|;
      hide Inv, Advances, Balanced, UnusedIds, Unused, Insert, DeleteForUser, Replaced;
      DeleteCodes(user);
      for i := 0 to |hashes|
        invariant Abs() == InsertAll(DeleteForUser(old(Abs()), user), user, hashes[..i])
      {
        assert hashes[..i + 1][..i] == hashes[..i];
        InsertCode(user, hashes[i]);
      }
      assert hashes[..|hashes|] == hashes;
    }
  }
}
