/**
 * Vault items under optimistic concurrency (internal/storage/items.go over
 * internal/storage/sqlcgen/items.sql.go).
 */
module ItemStore {
  import opened Prelude
  import SymbolicCrypto

  /** Opaque to the server. */
  type Ciphertext = SymbolicCrypto.Term

  datatype ItemType = Login | Note | Card | Identity

  /** One row of vault_items; `revision` is a 32-bit INTEGER column. */
  datatype Item = Item(user: nat, ciphertext: Ciphertext, itemType: ItemType, revision: int)

  datatype Outcome = Updated(item: Item) | NotFound | Conflict | OutOfRange

  /** A successful write: the revision it was based on (0 for the insert) and what it stored. */
  datatype Write = Write(base: int, item: Item)

  /** The table, the next id, and (as history) each item's successful writes in order. */
  datatype Table = Table(rows: map<nat, Item>, nextId: nat, log: map<nat, seq<Write>>)

  const EMPTY: Table := Table(map[], 0, map[])

  // ---- The SQL statements, each one atomic. ----

  function CreateItem(t: Table, user: nat, ciphertext: Ciphertext, itemType: ItemType): Table {
    var item := Item(user, ciphertext, itemType, 1);
    Table(t.rows[t.nextId := item], t.nextId + 1, t.log[t.nextId := [Write(0, item)]])
  }

  predicate Matches(rows: map<nat, Item>, id: nat, user: nat, revision: int) {
    id in rows && rows[id].user == user && rows[id].revision == revision
  }

  /** The new row; a type left out keeps the old one. */
  function Rewrite(row: Item, ciphertext: Ciphertext, itemType: Option<ItemType>): Item {
    Item(row.user, ciphertext, if itemType.Some? then itemType.value else row.itemType, row.revision + 1)
  }

  /** UPDATE ... WHERE id AND user_id AND revision; incrementing the largest INTEGER is a database error. */
  function UpdateItem(t: Table, id: nat, user: nat, revision: int, ciphertext: Ciphertext, itemType: Option<ItemType>): Table {
    if Matches(t.rows, id, user, revision) && 0 <= revision < MAX_INT32 && id in t.log then
      var item := Rewrite(t.rows[id], ciphertext, itemType);
      t.(rows := t.rows[id := item], log := t.log[id := t.log[id] + [Write(revision, item)]])
    else t
  }

  predicate ItemExists(t: Table, id: nat, user: nat) {
    id in t.rows && t.rows[id].user == user
  }

  function DeleteItem(t: Table, id: nat, user: nat): Table {
    if ItemExists(t, id, user) then t.(rows := t.rows - {id}) else t
  }

  // ---- Any number of clients, with the two statements of Update interleaved freely. ----

  /**
   * An Update whose guarded statement matched nothing and whose existence check is
   * still to come; `wasRead` says (as history) whether its revision had been read by then.
   */
  datatype Check = Check(id: nat, user: nat, revision: int, wasRead: bool)

  datatype Action =
    | Create(user: nat, ciphertext: Ciphertext, itemType: ItemType)
    | Read(id: nat, user: nat)
    | Swap(call: nat, id: nat, user: nat, revision: int, ciphertext: Ciphertext, newType: Option<ItemType>)
    | Classify(call: nat)
    | Delete(id: nat, user: nat)

  /**
   * `seen` is every (id, user, revision) some client has really been shown, by a
   * read or as the row its own insert or update returned;
   * `answers` is what each finished Update returned.
   */
  datatype System = System(t: Table, seen: set<(nat, nat, int)>, checks: map<nat, Check>, answers: map<nat, Outcome>)

  const INITIAL: System := System(EMPTY, {}, map[], map[])

  /** The action's one statement, as far as it changes the table. */
  function Apply(t: Table, a: Action): Table {
    match a
    case Create(user, ciphertext, itemType) => CreateItem(t, user, ciphertext, itemType)
    case Swap(_, id, user, revision, ciphertext, newType) => UpdateItem(t, id, user, revision, ciphertext, newType)
    case Delete(id, user) => DeleteItem(t, id, user)
    case Read(_, _) => t
    case Classify(_) => t
  }

  /** The rows shown to the client: those read, inserted or updated. */
  function Learned(t: Table, a: Action): set<(nat, nat, int)> {
    match a
    case Create(user, _, _) => {(t.nextId, user, 1)}
    case Read(id, user) => if ItemExists(t, id, user) then {(id, user, t.rows[id].revision)} else {}
    case Swap(_, id, user, revision, _, _) =>
      if Matches(t.rows, id, user, revision) && 0 <= revision < MAX_INT32 then {(id, user, revision + 1)} else {}
    case Classify(_) => {}
    case Delete(_, _) => {}
  }

  /** What the running call finds out. */
  function Observe(y: System, a: Action): System {
    match a
    case Read(_, _) => y
    case Swap(call, id, user, revision, ciphertext, newType) =>
      if revision < 0 || revision > MAX_INT32 then y.(answers := y.answers[call := OutOfRange])
      else if !Matches(y.t.rows, id, user, revision) then
        y.(checks := y.checks[call := Check(id, user, revision, (id, user, revision) in y.seen)])
      else if revision == MAX_INT32 then y.(answers := y.answers[call := OutOfRange])
      else y.(answers := y.answers[call := Updated(Rewrite(y.t.rows[id], ciphertext, newType))])
    case Classify(call) =>
      if call !in y.checks then y
      else
        var k := y.checks[call];
        y.(checks := y.checks - {call},
           answers := y.answers[call := if ItemExists(y.t, k.id, k.user) then Conflict else NotFound])
    case Create(_, _, _) => y
    case Delete(_, _) => y
  }

  function Do(y: System, a: Action): System {
    if a.Swap? && (a.call in y.checks || a.call in y.answers) then y
    else Observe(y, a).(t := Apply(y.t, a), seen := y.seen + Learned(y.t, a))
  }

  function Run(y: System, actions: seq<Action>): System {
    if actions == [] then y else Do(Run(y, actions[..|actions| - 1]), actions[|actions| - 1])
  }

  // ---- Invariants. ----

  /** Each write is based on the revision its predecessor produced, and produces the next. */
  ghost predicate Chain(log: seq<Write>) {
    && log != []
    && forall n :: 0 <= n < |log| ==>
         log[n].base == n && log[n].item.revision == n + 1 && log[n].item.user == log[0].item.user
  }

  ghost predicate Inv(t: Table) {
    && (forall id :: id in t.log ==> id < t.nextId && Chain(t.log[id]))
    && (forall id :: id in t.rows ==> id in t.log && t.rows[id] == t.log[id][|t.log[id]| - 1].item)
  }

  /** Revisions only rise, owners never change, deleted items stay deleted, writes are never lost. */
  ghost predicate Advances(s: Table, t: Table) {
    && s.nextId <= t.nextId
    && (forall id :: id in t.rows ==> id >= s.nextId || id in s.rows)
    && (forall id :: id in s.rows && id in t.rows ==>
          t.rows[id].user == s.rows[id].user && t.rows[id].revision >= s.rows[id].revision)
    && (forall id :: id in s.log ==> id in t.log && s.log[id] <= t.log[id])
  }

  /** A revision really read was at some time the stored one. */
  ghost predicate ReadOk(t: Table, r: (nat, nat, int)) {
    && r.0 < t.nextId
    && (r.0 in t.rows ==> t.rows[r.0].user == r.1 && r.2 <= t.rows[r.0].revision)
  }

  /** An unmatched Update of a revision really read has been overtaken for good. */
  ghost predicate CheckOk(y: System, k: Check) {
    k.wasRead ==>
      && k.id < y.t.nextId
      && (k.id in y.t.rows ==> y.t.rows[k.id].user == k.user && y.t.rows[k.id].revision > k.revision)
  }

  ghost predicate SystemInv(y: System) {
    && Inv(y.t)
    && (forall r :: r in y.seen ==> ReadOk(y.t, r))
    && (forall call :: call in y.checks ==> CheckOk(y, y.checks[call]))
  }

  lemma ChainGrows(log: seq<Write>, w: Write)
    requires Chain(log) && w.base == log[|log| - 1].item.revision && w.item.revision == w.base + 1
    requires w.item.user == log[|log| - 1].item.user
    ensures Chain(log + [w]) && log <= log + [w] && (log + [w])[|log|] == w
  {
    assert log[|log| - 1].item.revision == |log|;
  }

  lemma WriteKeepsInv(t: Table, id: nat, w: Write, log: seq<Write>)
    requires Inv(t) && id in t.rows && log == t.log[id] + [w] && Chain(log)
    ensures Inv(t.(rows := t.rows[id := w.item], log := t.log[id := log]))
  {
  }

  lemma UpdateKeepsInv(t: Table, id: nat, user: nat, revision: int, ciphertext: Ciphertext, itemType: Option<ItemType>)
    requires Inv(t)
    ensures Inv(UpdateItem(t, id, user, revision, ciphertext, itemType))
    ensures Advances(t, UpdateItem(t, id, user, revision, ciphertext, itemType))
  {
    if Matches(t.rows, id, user, revision) {
      var w := Write(revision, Rewrite(t.rows[id], ciphertext, itemType));
      assert id in t.log && Chain(t.log[id]);
      ChainGrows(t.log[id], w);
      WriteKeepsInv(t, id, w, t.log[id] + [w]);
    }
    hide Inv, Chain;
  }

  lemma CreateKeepsInv(t: Table, user: nat, ciphertext: Ciphertext, itemType: ItemType)
    requires Inv(t)
    ensures Inv(CreateItem(t, user, ciphertext, itemType)) && Advances(t, CreateItem(t, user, ciphertext, itemType))
  {
    assert Chain([Write(0, Item(user, ciphertext, itemType, 1))]);
  }

  lemma DeleteKeepsInv(t: Table, id: nat, user: nat)
    requires Inv(t)
    ensures Inv(DeleteItem(t, id, user)) && Advances(t, DeleteItem(t, id, user))
  {
  }

  /** What clients have been shown, and checks under way, stay sound as the table advances. */
  lemma AdvanceKeepsInv(y: System, t: Table)
    requires SystemInv(y) && Inv(t) && Advances(y.t, t)
    ensures SystemInv(y.(t := t))
  {
    hide Inv;
  }

  lemma AdvancesTransitive(s: Table, m: Table, t: Table)
    requires Inv(s) && Advances(s, m) && Advances(m, t)
    ensures Advances(s, t)
  {
  }

  lemma ApplyAdvances(t: Table, a: Action)
    requires Inv(t)
    ensures Inv(Apply(t, a)) && Advances(t, Apply(t, a))
  {
    match a
    case Create(user, ciphertext, itemType) => CreateKeepsInv(t, user, ciphertext, itemType);
    case Swap(_, id, user, revision, ciphertext, newType) => UpdateKeepsInv(t, id, user, revision, ciphertext, newType);
    case Delete(id, user) => DeleteKeepsInv(t, id, user);
    case Read(_, _) =>
    case Classify(_) =>
  }

  lemma ObserveKeepsInv(y: System, a: Action)
    requires SystemInv(y)
    ensures SystemInv(Observe(y, a)) && Observe(y, a).t == y.t && Observe(y, a).seen == y.seen
  {
    assert forall id :: id in y.t.rows ==> id < y.t.nextId;
    hide Inv;
  }

  /** The rows shown were stored when the statement had run. */
  lemma LearnedOk(t: Table, a: Action, r: (nat, nat, int))
    requires Inv(t) && r in Learned(t, a)
    ensures ReadOk(Apply(t, a), r)
  {
    assert a.Swap? && Matches(t.rows, a.id, a.user, a.revision) ==> a.id in t.log;
    hide Chain;
  }

  lemma LearningKeepsInv(y: System, more: set<(nat, nat, int)>)
    requires SystemInv(y) && forall r :: r in more ==> ReadOk(y.t, r)
    ensures SystemInv(y.(seen := y.seen + more))
  {
    hide Inv;
  }

  lemma StepKeepsInv(y: System, a: Action)
    requires SystemInv(y)
    ensures SystemInv(Do(y, a)) && Advances(y.t, Do(y, a).t)
  {
    ObserveKeepsInv(y, a);
    ApplyAdvances(y.t, a);
    hide SystemInv, Apply, Observe, Learned, ReadOk;
    AdvanceKeepsInv(Observe(y, a), Apply(y.t, a));
    forall r | r in Learned(y.t, a) ensures ReadOk(Apply(y.t, a), r) {
      LearnedOk(y.t, a, r);
    }
    LearningKeepsInv(Observe(y, a).(t := Apply(y.t, a)), Learned(y.t, a));
  }

  lemma {:induction false} RunKeepsInv(y: System, actions: seq<Action>)
    requires SystemInv(y)
    ensures SystemInv(Run(y, actions)) && Advances(y.t, Run(y, actions).t)
  {
    hide Do, Inv;
    if actions != [] {
      var init := actions[..|actions| - 1];
      RunKeepsInv(y, init);
      StepKeepsInv(Run(y, init), actions[|actions| - 1]);
      AdvancesTransitive(y.t, Run(y, init).t, Run(y, actions).t);
    }
  }

  /**
   * However reads and updates interleave, an item's successful writes form a chain
   * with no base used twice, its revision is their number counting the insert, and
   * it holds what the last of them stored.
   */
  lemma {:induction false} NoLostUpdates(actions: seq<Action>, id: nat)
    requires id in Run(INITIAL, actions).t.log
    ensures var t := Run(INITIAL, actions).t; var log := t.log[id];
      && Chain(log)
      && (forall m, n :: 0 <= m < n < |log| ==> log[m].base != log[n].base)
      && (id in t.rows ==> t.rows[id].revision == |log| && t.rows[id] == log[|log| - 1].item)
  {
    RunKeepsInv(INITIAL, actions);
    var log := Run(INITIAL, actions).t.log[id];
    assert Chain(log) && log[|log| - 1].item.revision == |log|;
  }

  /** An Update changes the table exactly when it reports success, and then by one write on the revision it named. */
  lemma {:induction false} OnlySuccessWrites(actions: seq<Action>, call: nat, a: Action)
    requires (a.Swap? && a.call == call) || a == Classify(call)
    requires call !in Run(INITIAL, actions).answers
    ensures var y := Run(INITIAL, actions); var z := Do(y, a);
      if call in z.answers && z.answers[call].Updated? then
        && a.Swap? && a.id in y.t.rows && a.id in y.t.log && y.t.rows[a.id].revision == a.revision
        && z.t.log == y.t.log[a.id := y.t.log[a.id] + [Write(a.revision, z.answers[call].item)]]
        && z.t.rows == y.t.rows[a.id := z.answers[call].item]
        && z.answers[call].item.ciphertext == a.ciphertext
      else z.t == y.t
  {
    hide Advances, Run, Chain, ReadOk, CheckOk, Learned;
    RunKeepsInv(INITIAL, actions);
    assert forall id :: id in Run(INITIAL, actions).t.rows ==> id in Run(INITIAL, actions).t.log;
    hide Inv, SystemInv;
  }

  /**
   * Spelled out, whatever came before: a guarded statement succeeds exactly if the
   * row is there, the user's, at the revision named and can still rise, and then
   * stores what the call named, the old type where it named none.
   */
  lemma {:induction false} SwapIs(actions: seq<Action>, call: nat, id: nat, user: nat, revision: int,
                                  ciphertext: Ciphertext, newType: Option<ItemType>)
    requires call !in Run(INITIAL, actions).answers && call !in Run(INITIAL, actions).checks
    ensures var y := Run(INITIAL, actions); var z := Do(y, Swap(call, id, user, revision, ciphertext, newType));
      if id in y.t.rows && y.t.rows[id].user == user && y.t.rows[id].revision == revision && 0 <= revision <= MAX_INT32 - 1 then
        var item := Item(user, ciphertext, match newType case Some(t) => t case None => y.t.rows[id].itemType, revision + 1);
        z.t.rows == y.t.rows[id := item] && call in z.answers && z.answers[call] == Updated(item)
      else
        && z.t == y.t
        && if revision < 0 || revision > MAX_INT32
              || (id in y.t.rows && y.t.rows[id].user == user && y.t.rows[id].revision == revision)
           then call in z.answers && z.answers[call] == OutOfRange
           else call in z.checks && z.checks[call].id == id && z.checks[call].user == user && z.answers == y.answers
  {
    hide Run, Advances, Chain, ReadOk, CheckOk, Learned;
    RunKeepsInv(INITIAL, actions);
    assert forall i :: i in Run(INITIAL, actions).t.rows ==> i in Run(INITIAL, actions).t.log;
    hide Inv, SystemInv;
  }

  /** The existence check that follows answers by whether the user has the item, whatever the revision. */
  lemma ClassifyIs(y: System, call: nat)
    requires call in y.checks
    ensures var z := Do(y, Classify(call)); var k := y.checks[call];
      && z.t == y.t && z.checks == y.checks - {call}
      && z.answers == y.answers[call := if k.id in y.t.rows && y.t.rows[k.id].user == k.user then Conflict else NotFound]
  {
  }

  /** An insert stores a fresh row at revision 1; a delete removes the owner's row and nothing else. */
  lemma InsertAndDeleteAre(y: System, user: nat, ciphertext: Ciphertext, itemType: ItemType, id: nat)
    ensures Do(y, Create(user, ciphertext, itemType)).t.rows == y.t.rows[y.t.nextId := Item(user, ciphertext, itemType, 1)]
    ensures Do(y, Delete(id, user)).t.rows ==
      if id in y.t.rows && y.t.rows[id].user == user then y.t.rows - {id} else y.t.rows
  {
  }

  /**
   * What a failed Update of a revision really read means: Conflict, that the stored
   * revision is by now strictly greater; NotFound, that the item is gone for good.
   */
  lemma FailureMeaning(actions: seq<Action>, call: nat, future: seq<Action>)
    requires call in Run(INITIAL, actions).checks && Run(INITIAL, actions).checks[call].wasRead
    ensures var y := Run(INITIAL, actions); var k := y.checks[call]; var z := Do(y, Classify(call));
      && (z.answers[call] == Conflict ==> k.id in z.t.rows && z.t.rows[k.id].revision > k.revision)
      && (z.answers[call] == NotFound ==> k.id !in Run(z, future).t.rows)
      && z.answers[call] in {Conflict, NotFound}
  {
    var y := Run(INITIAL, actions);
    RunKeepsInv(INITIAL, actions);
    assert CheckOk(y, y.checks[call]);
    StepKeepsInv(y, Classify(call));
    RunKeepsInv(Do(y, Classify(call)), future);
  }

  // ---- The repository, one call at a time. ----

  class ItemsRepo {
    var rows: map<nat, Item>
    var nextId: nat
    ghost var log: map<nat, seq<Write>>

    ghost function Abs(): Table
      reads this
    {
      Table(rows, nextId, log)
    }

    constructor ()
      ensures Abs() == EMPTY && Inv(Abs())
    {
      rows, nextId, log := map[], 0, map[];
    }

    method Create(user: nat, ciphertext: Ciphertext, itemType: ItemType) returns (id: nat)
      requires Inv(Abs())
      modifies this
      ensures Inv(Abs()) && Abs() == CreateItem(old(Abs()), user, ciphertext, itemType)
      ensures id == old(nextId) && rows[id] == Item(user, ciphertext, itemType, 1)
    {
      hide Inv, Advances;
      CreateKeepsInv(Abs(), user, ciphertext, itemType);
      id := nextId;
      rows := rows[id := Item(user, ciphertext, itemType, 1)];
      log := log[id := [Write(0, rows[id])]];
      nextId := nextId + 1;
    }

    /** The guarded UPDATE: the new row if one matched; `overflow` if incrementing it would not fit. */
    method SwapRow(id: nat, user: nat, revision: int, ciphertext: Ciphertext, newType: Option<ItemType>)
      returns (row: Option<Item>, overflow: bool)
      requires Inv(Abs()) && 0 <= revision <= MAX_INT32
      modifies this`rows, this`log
      ensures Inv(Abs()) && Abs() == UpdateItem(old(Abs()), id, user, revision, ciphertext, newType)
      ensures overflow <==> old(Matches(rows, id, user, revision)) && revision == MAX_INT32
      ensures row.Some? <==> old(Matches(rows, id, user, revision)) && revision < MAX_INT32
      ensures row.Some? ==>
        row.value == Rewrite(old(rows)[id], ciphertext, newType) && rows == old(rows)[id := row.value]
    {
      hide Advances, Chain;
      UpdateKeepsInv(Abs(), id, user, revision, ciphertext, newType);
      assert id in rows ==> id in log;
      hide Inv;
      if id !in rows || rows[id].user != user || rows[id].revision != revision {
        return None, false;
      }
      if revision == MAX_INT32 {
        return None, true;
      }
      var item := Rewrite(rows[id], ciphertext, newType);
      rows := rows[id := item];
      log := log[id := log[id] + [Write(revision, item)]];
      return Some(item), false;
    }

    /** The guarded write, then the existence check that tells a conflict from a missing item. */
    method Update(id: nat, user: nat, currentRevision: int, newCiphertext: Ciphertext, newItemType: Option<ItemType>)
      returns (r: Outcome)
      requires Inv(Abs())
      modifies this`rows, this`log
      ensures Inv(Abs())
      ensures Abs() == UpdateItem(old(Abs()), id, user, currentRevision, newCiphertext, newItemType)
      ensures r.Updated? <==>
        && id in old(rows) && old(rows)[id].user == user && old(rows)[id].revision == currentRevision
        && 0 <= currentRevision <= MAX_INT32 - 1
      ensures r.Updated? ==> rows == old(rows)[id := r.item]
      // a type left out stays as it was
      ensures r.Updated? ==>
        r.item == Item(user, newCiphertext,
                       match newItemType case Some(t) => t case None => old(rows)[id].itemType, currentRevision + 1)
      ensures r.NotFound? ==> !ItemExists(Abs(), id, user)
      ensures r.Conflict? ==> ItemExists(Abs(), id, user) && rows[id].revision != currentRevision
      ensures r.OutOfRange? ==> !(0 <= currentRevision < MAX_INT32)
    {
      hide Inv, Advances;
      if currentRevision < 0 || currentRevision > MAX_INT32 {
        return OutOfRange;
      }
      var row, overflow := SwapRow(id, user, currentRevision, newCiphertext, newItemType);
      if overflow {
        return OutOfRange;
      }
      if row.Some? {
        return Updated(row.value);
      }
      var found := id in rows && rows[id].user == user;
      return if found then Conflict else NotFound;
    }

    method Delete(id: nat, user: nat) returns (found: bool)
      requires Inv(Abs())
      modifies this
      ensures Inv(Abs()) && Abs() == DeleteItem(old(Abs()), id, user)
      ensures found <==> id in old(rows) && old(rows)[id].user == user
      ensures rows == if found then old(rows) - {id} else old(rows)
    {
      DeleteKeepsInv(Abs(), id, user);
      hide Inv, Advances;
      found := id in rows && rows[id].user == user;
      if found {
        rows := rows - {id};
      }
    }
  }
}
