/**
 * Changing the master password, with or without a new vault key
 * (web/src/components/ChangePasswordModal.tsx against the user and item tables).
 */
module KeyChange {
  import opened Prelude
  import opened SymbolicCrypto
  import I = ItemStore

  /** One entry of the list the modal was opened with; the session's user owns every row listed. */
  datatype Shown = Shown(id: nat, row: I.Item)

  datatype Credentials = Credentials(authHash: Term, authSalt: Term, kdf: Kdf, protectedKey: Term)

  /** What the server holds for the user. */
  class Server {
    var credentials: Credentials
    var protectedTotp: Option<Term>
    var items: map<nat, I.Item>

    constructor (c: Credentials, totp: Option<Term>, items: map<nat, I.Item>)
      ensures credentials == c && protectedTotp == totp && this.items == items
    {
      credentials, protectedTotp, this.items := c, totp, items;
    }

    /** PUT /api/items/{id}: the guarded update; false stands for 400, 404, 409 and 500. */
    method UpdateItem(id: nat, user: nat, ciphertext: Term, currentRevision: int, itemType: I.ItemType) returns (ok: bool)
      modifies this`items
      ensures ok <==> CanUpdate(old(items), id, user, currentRevision)
      ensures ok <==>
        && id in old(items) && old(items)[id].user == user && old(items)[id].revision == currentRevision
        && 1 <= currentRevision <= MAX_INT32 - 1
      ensures items ==
        if ok then old(items)[id := I.Item(user, ciphertext, itemType, currentRevision + 1)] else old(items)
    {
      ok := CanUpdate(items, id, user, currentRevision);
      if ok {
        items := items[id := I.Rewrite(items[id], ciphertext, Some(itemType))];
      }
    }

    /** PUT /api/user/key: all four credential columns at once, the hash salted afresh by the server. */
    method UpdateKey(authHash: Term, salt: Term, kdf: Kdf, protectedKey: Term) returns (ok: bool)
      requires salt != Empty
      modifies this`credentials
      ensures ok <==> authHash != Empty && protectedKey != Empty
      ensures credentials ==
        if ok then Credentials(Argon2id(authHash, salt, Kdf(19 * 1024, 2, 1)), salt, kdf, protectedKey)
        else old(credentials)
    {
      if authHash == Empty || protectedKey == Empty {
        return false;
      }
      var hash := DeriveServerAuthHash(authHash, salt, SERVER_KDF);
      credentials := Credentials(hash.value, salt, kdf, protectedKey);
      return true;
    }
  }

  predicate CanUpdate(items: map<nat, I.Item>, id: nat, user: nat, revision: int) {
    I.Matches(items, id, user, revision) && 1 <= revision < MAX_INT32
  }

  /** The list shown has no entry twice. */
  ghost predicate NoRepeats(shown: seq<Shown>) {
    forall i, j :: 0 <= i < j < |shown| ==> shown[i].id != shown[j].id
  }

  /** The list shown is exactly what the server holds. */
  ghost predicate Current(shown: seq<Shown>, items: map<nat, I.Item>) {
    && NoRepeats(shown)
    && (forall i :: 0 <= i < |shown| ==>
          shown[i].id in items && items[shown[i].id] == shown[i].row)
    && (forall id :: id in items ==> exists i :: 0 <= i < |shown| && shown[i].id == id)
  }

  /** Entry i can be moved to a new key: it opens under the old one and its revision is the stored one. */
  predicate Movable(e: Shown, items: map<nat, I.Item>, key: Term) {
    Open(key, e.row.ciphertext, NoAad).Ok? && CanUpdate(items, e.id, e.row.user, e.row.revision)
  }

  /** The item holds what the list showed, sealed under the new key, one revision on. */
  ghost predicate Moved(e: Shown, items: map<nat, I.Item>, oldKey: Term, newKey: Term) {
    && e.id in items
    && items[e.id] == I.Rewrite(e.row, items[e.id].ciphertext, None)
    && Open(newKey, items[e.id].ciphertext, NoAad) == Open(oldKey, e.row.ciphertext, NoAad)
  }

  /** Every item opens to its old plaintext under the new key, is one revision on and otherwise the same. */
  ghost predicate Preserved(before: map<nat, I.Item>, after: map<nat, I.Item>, oldKey: Term, newKey: Term) {
    && after.Keys == before.Keys
    && forall id :: id in after ==>
         && after[id] == I.Rewrite(before[id], after[id].ciphertext, None)
         && Open(newKey, after[id].ciphertext, NoAad) == Open(oldKey, before[id].ciphertext, NoAad)
  }

  /** Spelled out: the ciphertext opens, and the row is the user's, at exactly that revision, in range. */
  lemma MovableIff(e: Shown, items: map<nat, I.Item>, key: Term)
    ensures Movable(e, items, key) <==>
      && Open(key, e.row.ciphertext, NoAad).Ok?
      && e.id in items && items[e.id].user == e.row.user && items[e.id].revision == e.row.revision
      && 1 <= e.row.revision <= MAX_INT32 - 1
  {
  }

  ghost predicate AllMovable(shown: seq<Shown>, items: map<nat, I.Item>, key: Term) {
    forall i :: 0 <= i < |shown| ==> Movable(shown[i], items, key)
  }

  /** The first `done` entries have moved, and nothing else has changed. */
  ghost predicate FirstMoved(shown: seq<Shown>, done: nat, before: map<nat, I.Item>, after: map<nat, I.Item>,
                             oldKey: Term, newKey: Term)
  {
    && done <= |shown| && after.Keys == before.Keys
    && (forall i :: 0 <= i < done ==> Movable(shown[i], before, oldKey) && Moved(shown[i], after, oldKey, newKey))
    && forall id :: id in after && (forall i :: 0 <= i < done ==> shown[i].id != id) ==> after[id] == before[id]
  }

  lemma AllMovedPreserves(shown: seq<Shown>, before: map<nat, I.Item>, after: map<nat, I.Item>, oldKey: Term, newKey: Term)
    requires Current(shown, before) && FirstMoved(shown, |shown|, before, after, oldKey, newKey)
    ensures Preserved(before, after, oldKey, newKey)
  {
    forall id | id in after
      ensures after[id] == I.Rewrite(before[id], after[id].ciphertext, None)
      ensures Open(newKey, after[id].ciphertext, NoAad) == Open(oldKey, before[id].ciphertext, NoAad)
    {
      var i :| 0 <= i < |shown| && shown[i].id == id;
      assert Moved(shown[i], after, oldKey, newKey);
    }
  }

  lemma NoneMoved(shown: seq<Shown>, items: map<nat, I.Item>, oldKey: Term, newKey: Term)
    ensures FirstMoved(shown, 0, items, items, oldKey, newKey)
  {
  }

  /** The item as the loop writes it back. */
  function Resealed(items: map<nat, I.Item>, e: Shown, oldKey: Term, newKey: Term, nonce: Term): I.Item
    requires Movable(e, items, oldKey)
  {
    I.Rewrite(items[e.id], Sealed(newKey, nonce, Open(oldKey, e.row.ciphertext, NoAad).value, NoAad), Some(e.row.itemType))
  }

  /** An entry not yet reached can move exactly if it could at the start. */
  lemma UnreachedIsAsBefore(shown: seq<Shown>, n: nat, before: map<nat, I.Item>, now: map<nat, I.Item>,
                            oldKey: Term, newKey: Term)
    requires NoRepeats(shown) && n < |shown| && FirstMoved(shown, n, before, now, oldKey, newKey)
    ensures Movable(shown[n], before, oldKey) <==> Movable(shown[n], now, oldKey)
  {
    hide Open, Moved;
    assert shown[n].id in now ==> now[shown[n].id] == before[shown[n].id];
  }

  lemma ResealedIsMoved(items: map<nat, I.Item>, e: Shown, oldKey: Term, newKey: Term, nonce: Term)
    requires IsKey(newKey) && Movable(e, items, oldKey)
    ensures Moved(e, items[e.id := Resealed(items, e, oldKey, newKey, nonce)], oldKey, newKey)
  {
    OpenInvertsSeal(newKey, nonce, Open(oldKey, e.row.ciphertext, NoAad).value, NoAad, newKey, NoAad);
    var moved := Resealed(items, e, oldKey, newKey, nonce);
    assert moved == I.Rewrite(e.row, moved.ciphertext, None);
  }

  /**
   * What a rotation that stops half way leaves behind: the items it moved still open
   * under the account's own key exactly if the key drawn was that key, the others as
   * they did.
   */
  lemma AbandonedRotationStrands(shown: seq<Shown>, done: nat, before: map<nat, I.Item>, after: map<nat, I.Item>,
                                 oldKey: Term, newKey: Term, i: nat)
    requires FirstMoved(shown, done, before, after, oldKey, newKey) && NoRepeats(shown)
    requires i < |shown| && shown[i].id in after
    ensures i < done ==> (Open(oldKey, after[shown[i].id].ciphertext, NoAad).Ok? <==> newKey == oldKey)
    ensures i >= done ==> after[shown[i].id] == before[shown[i].id]
  {
    if i < done {
      assert Movable(shown[i], before, oldKey) && Moved(shown[i], after, oldKey, newKey);
    }
  }

  /** Moving entry n as well. */
  lemma MoveNext(shown: seq<Shown>, n: nat, before: map<nat, I.Item>, now: map<nat, I.Item>,
                 oldKey: Term, newKey: Term, nonce: Term)
    requires IsKey(newKey) && NoRepeats(shown) && n < |shown| && FirstMoved(shown, n, before, now, oldKey, newKey)
    requires Movable(shown[n], now, oldKey)
    ensures FirstMoved(shown, n + 1, before, now[shown[n].id := Resealed(now, shown[n], oldKey, newKey, nonce)], oldKey, newKey)
  {
    UnreachedIsAsBefore(shown, n, before, now, oldKey, newKey);
    ResealedIsMoved(now, shown[n], oldKey, newKey, nonce);
    hide Open, CanUpdate, Resealed;
  }

  /** One turn of the loop: open, seal again, put. */
  method ReencryptItem(server: Server, e: Shown, oldKey: Term, newKey: Term, nonce: Term) returns (ok: bool)
    requires IsKey(newKey)
    modifies server`items
    ensures ok <==> Movable(e, old(server.items), oldKey)
    ensures server.items ==
      if Movable(e, old(server.items), oldKey)
      then old(server.items)[e.id := Resealed(old(server.items), e, oldKey, newKey, nonce)] else old(server.items)
  {
    var plain := Open(oldKey, e.row.ciphertext, NoAad);
    if plain.Err? {
      return false;
    }
    var sealed := Seal(newKey, nonce, plain.value, NoAad);
    ok := server.UpdateItem(e.id, e.row.user, sealed.value, e.row.revision, e.row.itemType);
  }

  /**
   * The re-encryption loop: at every turn the entries before n open under the new
   * key and everything else is as it was; it stops at the first entry that cannot move.
   */
  method ReencryptItems(server: Server, shown: seq<Shown>, oldKey: Term, newKey: Term, nonces: seq<Term>)
    returns (ok: bool, ghost done: nat)
    requires IsKey(newKey) && |nonces| == |shown| && NoRepeats(shown)
    modifies server`items
    ensures done <= |shown| && FirstMoved(shown, done, old(server.items), server.items, oldKey, newKey)
    ensures if ok then done == |shown| else done < |shown| && !Movable(shown[done], old(server.items), oldKey)
  {
    hide FirstMoved, Movable, NoRepeats;
    ok := true;
    var n := 0;
    NoneMoved(shown, server.items, oldKey, newKey);
    while ok && n < |shown|
      invariant n <= |shown| && FirstMoved(shown, n, old(server.items), server.items, oldKey, newKey)
      invariant !ok ==> n < |shown| && !Movable(shown[n], old(server.items), oldKey)
      decreases ok, |shown| - n
    {
      hide FirstMoved, Open, CanUpdate, NoRepeats;
      UnreachedIsAsBefore(shown, n, old(server.items), server.items, oldKey, newKey);
      ghost var now := server.items;
      ok := ReencryptItem(server, shown[n], oldKey, newKey, nonces[n]);
      if ok {
        MoveNext(shown, n, old(server.items), now, oldKey, newKey, nonces[n]);
        n := n + 1;
      }
    }
    done := n;
  }

  /** Every entry shown opens under the key and has a revision that can still rise. */
  ghost predicate AllOpenInRange(shown: seq<Shown>, key: Term) {
    forall i :: 0 <= i < |shown| ==>
      Open(key, shown[i].row.ciphertext, NoAad).Ok? && 1 <= shown[i].row.revision <= MAX_INT32 - 1
  }

  /** Nothing in an up-to-date list that opens stands in the way of moving it. */
  lemma CurrentIsMovable(shown: seq<Shown>, items: map<nat, I.Item>, key: Term)
    requires Current(shown, items)
    ensures AllMovable(shown, items, key) <==> AllOpenInRange(shown, key)
  {
    hide Open, Movable;
    forall i | 0 <= i < |shown|
      ensures Movable(shown[i], items, key) <==>
        Open(key, shown[i].row.ciphertext, NoAad).Ok? && 1 <= shown[i].row.revision <= MAX_INT32 - 1
    {
      MovableIff(shown[i], items, key);
    }
  }

  /** The whole loop over an up-to-date list moves every item the server holds. */
  method RotateItems(server: Server, shown: seq<Shown>, oldKey: Term, newKey: Term, nonces: seq<Term>)
    returns (ok: bool, ghost done: nat)
    requires IsKey(newKey) && |nonces| == |shown| && NoRepeats(shown)
    modifies server`items
    ensures done <= |shown| && FirstMoved(shown, done, old(server.items), server.items, oldKey, newKey)
    ensures ok <==> AllMovable(shown, old(server.items), oldKey)
    ensures Current(shown, old(server.items)) ==> (ok <==> AllOpenInRange(shown, oldKey))
    ensures ok && Current(shown, old(server.items)) ==> Preserved(old(server.items), server.items, oldKey, newKey)
  {
    hide Moved, Movable, Current, Preserved, AllOpenInRange;
    if Current(shown, server.items) {
      CurrentIsMovable(shown, server.items, oldKey);
    }
    ok, done := ReencryptItems(server, shown, oldKey, newKey, nonces);
    if ok && Current(shown, old(server.items)) {
      AllMovedPreserves(shown, old(server.items), server.items, oldKey, newKey);
    }
  }

  /** No other password unlocks the vault key. */
  ghost predicate OnlyOpensFor(protectedKey: Term, kdf: Kdf, password: Term, email: Term) {
    forall other :: UnlockVault(other, email, kdf, protectedKey).Ok? ==> other == password
  }

  /** The hash sent when registering or changing the password. */
  ghost predicate IsAuthHashOf(authHash: Term, password: Term, email: Term) {
    authHash == Argon2id(Argon2id(password, email, Kdf(64 * 1024, 3, 1)), password, Kdf(64 * 1024, 3, 1))
  }

  /** What is sent authenticates the password, and wraps the vault key under it alone. */
  ghost predicate Prepared(authHash: Term, protectedKey: Term, password: Term, email: Term, vaultKey: Term) {
    && authHash != Empty && IsAuthHashOf(authHash, password, email)
    && protectedKey != Empty && UnlockVault(password, email, DEFAULT_KDF, protectedKey) == Ok(vaultKey)
    && OnlyOpensFor(protectedKey, DEFAULT_KDF, password, email)
  }

  /** Derive the new password's keys: what authenticates it, and the vault key wrapped under it. */
  method PrepareCredentials(email: Term, newPassword: Term, vaultKey: Term, wrapNonce: Term)
    returns (authHash: Term, protectedKey: Term)
    requires email != Empty && newPassword != Empty
    ensures Prepared(authHash, protectedKey, newPassword, email, vaultKey)
  {
    var masterKey := DeriveMasterKey(newPassword, email, DEFAULT_KDF);
    var stretched := StretchMasterKey(masterKey.value);
    var hash := DeriveAuthHash(masterKey.value, newPassword, DEFAULT_KDF);
    var wrapped := WrapKey(stretched.value.0, wrapNonce, vaultKey);
    forall other ensures UnlockVault(other, email, DEFAULT_KDF, wrapped.value).Ok? <==> other == newPassword {
      UnlockNeedsPassword(newPassword, email, DEFAULT_KDF, wrapNonce, vaultKey, other, email, DEFAULT_KDF);
    }
    return hash.value, wrapped.value;
  }

  /** The outcome the form shows: the key now in memory, or an error. */
  datatype Outcome = Changed(vaultKey: Term) | Refused | Failed

  /** The random values one submission draws. */
  datatype Draws = Draws(vaultKey: Term, wrapNonce: Term, salt: Term, nonces: seq<Term>)

  /** The hash a client sends for the password, salted and hashed again, is the one on record. */
  ghost predicate LogsIn(c: Credentials, password: Term, email: Term) {
    c.authHash == Argon2id(Argon2id(Argon2id(password, email, c.kdf), password, c.kdf), c.authSalt, Kdf(19 * 1024, 2, 1))
  }

  ghost predicate OnlyLogsIn(c: Credentials, password: Term, email: Term) {
    forall other :: LogsIn(c, other, email) <==> other == password
  }

  lemma OwnHashLogsIn(c: Credentials, password: Term, email: Term)
    requires LogsIn(c, password, email)
    ensures OnlyLogsIn(c, password, email)
  {
  }

  /** What the current password unlocks. */
  ghost function Unlocked(c: Credentials, password: Term, email: Term): Result<Term> {
    UnlockVault(password, email, c.kdf, c.protectedKey)
  }

  /** There is a wrapped TOTP secret and it opens under the key. */
  predicate TotpOpens(wrapped: Option<Term>, key: Term) {
    wrapped.Some? && Open(key, wrapped.value, TotpAad).Ok?
  }

  /**
   * A wrapped TOTP secret that opens under one vault key opens under another exactly
   * if they are the same.
   */
  lemma TotpSurvivesIffSameKey(wrapped: Option<Term>, oldKey: Term, newKey: Term)
    requires TotpOpens(wrapped, oldKey)
    ensures TotpOpens(wrapped, newKey) <==> newKey == oldKey
  {
  }

  /** The password logs in and unlocks the vault key, and no other password does either. */
  ghost predicate BelongTo(c: Credentials, password: Term, email: Term, vaultKey: Term) {
    && Unlocked(c, password, email) == Ok(vaultKey) && OnlyOpensFor(c.protectedKey, c.kdf, password, email)
    && OnlyLogsIn(c, password, email)
  }

  lemma NewHashLogsIn(c: Credentials, authHash: Term, password: Term, email: Term)
    requires IsAuthHashOf(authHash, password, email) && c.kdf == DEFAULT_KDF
    requires c.authHash == Argon2id(authHash, c.authSalt, Kdf(19 * 1024, 2, 1))
    ensures OnlyLogsIn(c, password, email)
  {
    OwnHashLogsIn(c, password, email);
    hide OnlyLogsIn;
  }

  /** Replace the credentials by those prepared; with neither part empty the server accepts them. */
  method Publish(server: Server, ghost password: Term, ghost email: Term, ghost vaultKey: Term,
                 authHash: Term, salt: Term, protectedKey: Term)
    requires salt != Empty && Prepared(authHash, protectedKey, password, email, vaultKey)
    modifies server`credentials
    ensures BelongTo(server.credentials, password, email, vaultKey)
  {
    hide UnlockVault, OnlyOpensFor, OnlyLogsIn, IsAuthHashOf;
    var published := server.UpdateKey(authHash, salt, DEFAULT_KDF, protectedKey);
    NewHashLogsIn(server.credentials, authHash, password, email);
  }

  /**
   * handleSubmit. `formOk` stands for the two checks on the form's text (the
   * confirmation matches, at least 12 characters).
   */
  method HandleSubmit(server: Server, email: Term, current: Term, newPassword: Term, formOk: bool, rotate: bool,
                      shown: seq<Shown>, draws: Draws)
    returns (r: Outcome, ghost done: nat)
    requires email != Empty && newPassword != Empty && draws.salt != Empty && draws.vaultKey.VaultKey?
    requires |draws.nonces| == |shown| && NoRepeats(shown)
    modifies server`items, server`credentials
    // when it completes
    ensures r.Refused? <==> !formOk
    ensures r.Changed? <==>
      && formOk
      && Unlocked(old(server.credentials), current, email).Ok?
      && (rotate ==> AllMovable(shown, old(server.items), Unlocked(old(server.credentials), current, email).value))
    // with an up-to-date list it completes exactly if the password unlocks and every entry opens and is in range
    ensures Current(shown, old(server.items)) ==>
      (r.Changed? <==>
        && formOk
        && Unlocked(old(server.credentials), current, email).Ok?
        && (rotate ==> AllOpenInRange(shown, Unlocked(old(server.credentials), current, email).value)))
    // the new password unlocks the key now in memory
    ensures r.Changed? ==>
      r.vaultKey == if rotate then draws.vaultKey else Unlocked(old(server.credentials), current, email).value
    // it is the one that logs in from now on, and no other password does or unlocks anything
    ensures r.Changed? ==> BelongTo(server.credentials, newPassword, email, r.vaultKey)
    // under that key every item opens to its old plaintext
    ensures r.Changed? && rotate && Current(shown, old(server.items)) ==>
      Preserved(old(server.items), server.items, Unlocked(old(server.credentials), current, email).value, r.vaultKey)
    // without rotation no item is touched
    ensures !rotate ==> server.items == old(server.items)
    // the wrapped TOTP secret is left as it was, so it opens under that key exactly if the key is the old one
    ensures server.protectedTotp == old(server.protectedTotp)
    ensures r.Changed? && TotpOpens(old(server.protectedTotp), Unlocked(old(server.credentials), current, email).value) ==>
      (TotpOpens(server.protectedTotp, r.vaultKey)
       <==> !rotate || draws.vaultKey == Unlocked(old(server.credentials), current, email).value)
    // a submission that fails leaves the credentials alone, and exactly the first `done` items moved
    ensures !r.Changed? ==> server.credentials == old(server.credentials)
    ensures r.Failed? && Unlocked(old(server.credentials), current, email).Ok? ==>
      FirstMoved(shown, done, old(server.items), server.items, Unlocked(old(server.credentials), current, email).value, draws.vaultKey)
    ensures r.Failed? && Unlocked(old(server.credentials), current, email).Err? ==> server.items == old(server.items)
  {
    hide Current, AllMovable, AllOpenInRange, FirstMoved, Preserved, UnlockVault, OnlyOpensFor, Open;
    hide Prepared, BelongTo, TotpOpens, NoRepeats;
    done := 0;
    if !formOk {
      return Refused, done;
    }
    var currentKey := UnlockVault(current, email, server.credentials.kdf, server.credentials.protectedKey);
    if currentKey.Err? {
      return Failed, done;
    }
    var newKey := if rotate then draws.vaultKey else currentKey.value;
    var newAuthHash, newProtected := PrepareCredentials(email, newPassword, newKey, draws.wrapNonce);
    if rotate {
      var ok;
      ok, done := RotateItems(server, shown, currentKey.value, newKey, draws.nonces);
      if !ok {
        return Failed, done;
      }
    }
    Publish(server, newPassword, email, newKey, newAuthHash, draws.salt, newProtected);
    if TotpOpens(server.protectedTotp, currentKey.value) {
      TotpSurvivesIffSameKey(server.protectedTotp, currentKey.value, newKey);
    }
    return Changed(newKey), done;
  }

  /**
   * A run that loses the TOTP secret: an account with two-factor login on and an
   * empty vault, changed with rotation, whenever the key drawn is a different one.
   */
  method RotationLosesTotp(password: Term, newPassword: Term, email: Term, vaultKey: Term, drawn: Term, totp: nat)
    returns (server: Server, r: Outcome)
    requires password != Empty && newPassword != Empty && email != Empty
    requires vaultKey.VaultKey? && drawn.VaultKey? && drawn != vaultKey
    ensures r == Changed(drawn) && Unlocked(server.credentials, newPassword, email) == Ok(drawn)
    ensures server.protectedTotp.Some? && Open(vaultKey, server.protectedTotp.value, TotpAad) == Ok(TotpSecret(totp))
    ensures !TotpOpens(server.protectedTotp, drawn)
  {
    var wrapped := Seal(vaultKey, Nonce(0), TotpSecret(totp), TotpAad);
    var authHash, protectedKey := PrepareCredentials(email, password, vaultKey, Nonce(1));
    var serverHash := DeriveServerAuthHash(authHash, Salt(0), SERVER_KDF);
    var credentials := Credentials(serverHash.value, Salt(0), DEFAULT_KDF, protectedKey);
    server := new Server(credentials, Some(wrapped.value), map[]);
    hide UnlockVault;
    ghost var done;
    r, done := HandleSubmit(server, email, password, newPassword, true, true, [], Draws(drawn, Nonce(2), Salt(1), []));
  }
}
