/**
 * The zero-knowledge invariant: everything the server ever receives, stores or can
 * compute from that, against everything it must not know, even once some users'
 * passwords have leaked to it.
 */
module ZeroKnowledge {
  import opened Prelude
  import opened SymbolicCrypto

  // ---- What can be worked out from a set of terms. ----

  /** Terms anyone can name or make. */
  predicate Public(t: Term) {
    t.Empty? || t.Email? || t.Nonce? || t.Salt?
  }

  /**
   * Derivable in at most `depth` steps: apply Argon2id, HKDF or the AEAD to derived
   * terms, or open a derived blob with a derived key.
   */
  ghost predicate Derives(known: set<Term>, t: Term, depth: nat)
    decreases depth
  {
    || t in known || Public(t)
    || (depth > 0 && (
      || Derives(known, t, depth - 1)
      || (t.Argon2id? && Derives(known, t.secret, depth - 1) && Derives(known, t.salt, depth - 1))
      || (t.Hkdf? && Derives(known, t.secret, depth - 1))
      || (t.Sealed? && Derives(known, t.key, depth - 1) && Derives(known, t.nonce, depth - 1)
          && Derives(known, t.plaintext, depth - 1))
      || exists key, nonce, aad ::
           Derives(known, Sealed(key, nonce, t, aad), depth - 1) && Derives(known, key, depth - 1)))
  }

  // ---- The fence. ----

  /** The client's authentication hash for some password: the one password-derived term that is sent. */
  predicate IsAuthHash(t: Term) {
    t.Argon2id? && t.secret.Argon2id? && t.secret.secret == t.salt && t.salt.Password?
  }

  /**
   * What is taken to have leaked: some passwords, the vault keys and items given up
   * with them, and TOTP secrets sent in the clear.
   */
  datatype Leak = Leak(passwords: set<nat>, keys: set<nat>, items: set<nat>, totp: set<nat>)

  /** The terms the server may know: closed under derivation, and free of every secret that has not leaked. */
  predicate Safe(leak: Leak, t: Term) {
    match t
    case Empty => true
    case Password(p) => p in leak.passwords
    case Email(_) => true
    case VaultKey(k) => k in leak.keys
    case Nonce(_) => true
    case Salt(_) => true
    case Item(i) => i in leak.items
    case TotpSecret(s) => s in leak.totp
    case RecoveryCode(_) => true   // generated by the server
    case Argon2id(secret, salt, _) => IsAuthHash(t) || (Safe(leak, secret) && Safe(leak, salt))
    case Hkdf(secret, _) => Safe(leak, secret)
    case Sealed(key, nonce, plaintext, _) => Safe(leak, nonce) && (Safe(leak, key) ==> Safe(leak, plaintext))
  }

  ghost predicate AllSafe(leak: Leak, known: set<Term>) {
    forall t :: t in known ==> Safe(leak, t)
  }

  lemma {:induction false} SafeClosed(leak: Leak, known: set<Term>, t: Term, depth: nat)
    requires AllSafe(leak, known) && Derives(known, t, depth)
    ensures Safe(leak, t)
    decreases depth
  {
    if t in known || Public(t) {
    } else if Derives(known, t, depth - 1) {
      SafeClosed(leak, known, t, depth - 1);
    } else if t.Argon2id? && Derives(known, t.secret, depth - 1) && Derives(known, t.salt, depth - 1) {
      SafeClosed(leak, known, t.secret, depth - 1);
      SafeClosed(leak, known, t.salt, depth - 1);
    } else if t.Hkdf? && Derives(known, t.secret, depth - 1) {
      SafeClosed(leak, known, t.secret, depth - 1);
    } else if t.Sealed? && Derives(known, t.key, depth - 1) && Derives(known, t.nonce, depth - 1)
              && Derives(known, t.plaintext, depth - 1) {
      SafeClosed(leak, known, t.nonce, depth - 1);
      SafeClosed(leak, known, t.plaintext, depth - 1);
    } else {
      var key, nonce, aad :|
        Derives(known, Sealed(key, nonce, t, aad), depth - 1) && Derives(known, key, depth - 1);
      SafeClosed(leak, known, Sealed(key, nonce, t, aad), depth - 1);
      SafeClosed(leak, known, key, depth - 1);
    }
  }

  // ---- The messages of the protocol. ----

  /** What the client of one user holds; identifiers stand for the values themselves. */
  datatype Account = Account(password: nat, email: nat, vaultKey: nat)

  /** What the server stores for one user and serves back to the client. */
  datatype Stored = Stored(kdf: Kdf, protectedKey: Term, items: map<nat, Term>)

  /** `contents` is, as history, the plaintext of each item last written under the current vault key. */
  datatype User = User(account: Account, stored: Stored, contents: map<nat, Term>)

  /** `known` is every term the server has received, generated or stored. */
  datatype World = World(users: map<nat, User>, known: set<Term>)

  const INITIAL: World := World(map[], {})

  /** Every random draw is an input: what is proved holds whatever the random source gives. */
  datatype Action =
    | Register(user: nat, password: nat, email: nat, vaultKey: nat, nonce: nat, salt: nat)  // refused if the user exists
    | Login(password: nat, email: nat, kdf: Kdf)     // whatever was typed, under the parameters the server sent
    | SubmitTotp(secret: nat)                        // POST /api/login/mfa, or disabling 2FA
    | SubmitRecoveryCode(code: nat)
    | WriteItem(user: nat, id: nat, plaintext: nat, nonce: nat, accepted: bool)  // create or update
    | EnrollTotp(user: nat, secret: nat, nonce: nat)
    | ChangePassword(user: nat, password: nat, rotate: bool, shown: set<nat>, vaultKey: nat, nonce: nat, salt: nat)
    // a rotation that fails: these items re-sent and stored, those re-sent and refused
    | AbandonRotation(user: nat, shown: set<nat>, refused: set<nat>, vaultKey: nat, nonce: nat)
    | RefusedChange(user: nat, password: nat, vaultKey: nat, nonce: nat, salt: nat)  // the credentials sent and refused

  function MasterKey(password: nat, email: nat, kdf: Kdf): Term {
    Argon2id(Password(password), Email(email), kdf)
  }

  function EncKey(password: nat, email: nat, kdf: Kdf): Term {
    Hkdf(MasterKey(password, email, kdf), EncInfo)
  }

  function AuthHash(password: nat, email: nat, kdf: Kdf): Term {
    Argon2id(MasterKey(password, email, kdf), Password(password), kdf)
  }

  /** The hash as received, and as salted and stored by the server. */
  function AuthTerms(a: Account, salt: nat): set<Term> {
    {AuthHash(a.password, a.email, DEFAULT_KDF),
     Argon2id(AuthHash(a.password, a.email, DEFAULT_KDF), Salt(salt), SERVER_KDF)}
  }

  function ProtectedKey(a: Account, nonce: nat): Term {
    Sealed(EncKey(a.password, a.email, DEFAULT_KDF), Nonce(nonce), VaultKey(a.vaultKey), NoAad)
  }

  /** The items the re-encryption loop sends: those shown that open, under a key and nonces of their own. */
  function Reseal(contents: map<nat, Term>, shown: set<nat>, vaultKey: nat, nonce: nat): map<nat, Term> {
    map id | id in contents && id in shown :: Sealed(VaultKey(vaultKey), Nonce(nonce + 1 + id), contents[id], NoAad)
  }

  /** The credentials sent on registering or changing the password. */
  function Credentials(a: Account, nonce: nat, salt: nat): set<Term> {
    {ProtectedKey(a, nonce)} + AuthTerms(a, salt)
  }

  function NewUser(a: Account, nonce: nat): User {
    User(a, Stored(DEFAULT_KDF, ProtectedKey(a, nonce), map[]), map[])
  }

  function OnWrite(u: User, id: nat, sealed: Term, plaintext: Term): User {
    User(u.account, u.stored.(items := u.stored.items[id := sealed]), u.contents[id := plaintext])
  }

  /** A completed change. Without rotation no item is sent; with it, the items shown are. */
  function OnChange(u: User, a: Account, rotate: bool, shown: set<nat>, nonce: nat): User {
    var items := if rotate then u.stored.items + Reseal(u.contents, shown, a.vaultKey, nonce) else u.stored.items;
    User(a, Stored(DEFAULT_KDF, ProtectedKey(a, nonce), items),
         if rotate then u.contents - (u.contents.Keys - shown) else u.contents)
  }

  /** Items sealed under a vault key that is never published: their contents are no longer vouched for. */
  function OnAbandon(u: User, shown: set<nat>, vaultKey: nat, nonce: nat): User {
    User(u.account, u.stored.(items := u.stored.items + Reseal(u.contents, shown, vaultKey, nonce)), u.contents - shown)
  }

  function Do(w: World, a: Action): World {
    match a
    case Register(user, password, email, vaultKey, nonce, salt) =>
      var a := Account(password, email, vaultKey);
      World(if user in w.users then w.users else w.users[user := NewUser(a, nonce)],
            w.known + {Email(email)} + Credentials(a, nonce, salt))
    case Login(password, email, kdf) =>
      if Usable(kdf) then w.(known := w.known + {Email(email), AuthHash(password, email, kdf)}) else w
    case SubmitTotp(secret) => w.(known := w.known + {TotpSecret(secret)})
    case SubmitRecoveryCode(code) => w.(known := w.known + {RecoveryCode(code)})
    case WriteItem(user, id, plaintext, nonce, accepted) =>
      if user !in w.users then w else
        var sealed := Sealed(VaultKey(w.users[user].account.vaultKey), Nonce(nonce), Item(plaintext), NoAad);
        var after := if accepted then OnWrite(w.users[user], id, sealed, Item(plaintext)) else w.users[user];
        World(w.users[user := after], w.known + {sealed} + after.stored.items.Values)
    case EnrollTotp(user, secret, nonce) =>
      if user !in w.users then w else
        var wrapped := Sealed(VaultKey(w.users[user].account.vaultKey), Nonce(nonce), TotpSecret(secret), TotpAad);
        w.(known := w.known + {TotpSecret(secret), wrapped})
    case ChangePassword(user, password, rotate, shown, vaultKey, nonce, salt) =>
      if user !in w.users || (rotate && !(shown <= w.users[user].contents.Keys)) then w else
        var former := w.users[user].account;
        var a := Account(password, former.email, if rotate then vaultKey else former.vaultKey);
        var after := OnChange(w.users[user], a, rotate, shown, nonce);
        World(w.users[user := after],
              w.known + Credentials(a, nonce, salt) + after.stored.items.Values)
    case AbandonRotation(user, shown, refused, vaultKey, nonce) =>
      if user !in w.users then w else
        var after := OnAbandon(w.users[user], shown, vaultKey, nonce);
        World(w.users[user := after],
              w.known + Reseal(w.users[user].contents, refused, vaultKey, nonce).Values + after.stored.items.Values)
    case RefusedChange(user, password, vaultKey, nonce, salt) =>
      if user !in w.users then w else
        w.(known := w.known + Credentials(Account(password, w.users[user].account.email, vaultKey), nonce, salt))
  }

  function Run(w: World, actions: seq<Action>): World {
    if actions == [] then w else Do(Run(w, actions[..|actions| - 1]), actions[|actions| - 1])
  }

  // ---- The server never learns. ----

  /** The TOTP secrets a step sends in the clear. */
  function Disclosed(w: World, a: Action): set<nat> {
    match a
    case SubmitTotp(secret) => {secret}
    case EnrollTotp(user, secret, _) => if user in w.users then {secret} else {}
    case _ => {}
  }

  function AllDisclosed(actions: seq<Action>): set<nat> {
    if actions == [] then {}
    else
      AllDisclosed(actions[..|actions| - 1]) + Disclosed(Run(INITIAL, actions[..|actions| - 1]), actions[|actions| - 1])
  }

  ghost predicate ContentsSafe(leak: Leak, contents: map<nat, Term>, shown: set<nat>) {
    forall id :: id in contents && id in shown ==> Safe(leak, contents[id])
  }

  /** A step gives up no more: keys wrapped under leaked passwords, and items sealed under leaked keys, have leaked. */
  ghost predicate StepContained(leak: Leak, w: World, a: Action) {
    match a
    case Register(user, password, _, vaultKey, _, _) => password in leak.passwords ==> vaultKey in leak.keys
    case WriteItem(user, _, plaintext, _, _) =>
      user in w.users && w.users[user].account.vaultKey in leak.keys ==> plaintext in leak.items
    case ChangePassword(user, password, rotate, shown, vaultKey, _, _) =>
      user in w.users ==>
        var key := if rotate then vaultKey else w.users[user].account.vaultKey;
        && (password in leak.passwords ==> key in leak.keys)
        && (rotate && key in leak.keys ==> ContentsSafe(leak, w.users[user].contents, shown))
    case AbandonRotation(user, shown, refused, vaultKey, _) =>
      user in w.users && vaultKey in leak.keys ==> ContentsSafe(leak, w.users[user].contents, shown + refused)
    case RefusedChange(user, password, vaultKey, _, _) =>
      user in w.users && password in leak.passwords ==> vaultKey in leak.keys
    case Login(_, _, _) => true
    case SubmitTotp(_) => Disclosed(w, a) <= leak.totp
    case SubmitRecoveryCode(_) => true
    case EnrollTotp(_, _, _) => Disclosed(w, a) <= leak.totp
  }

  ghost predicate Contained(leak: Leak, actions: seq<Action>) {
    actions != [] ==>
      && Contained(leak, actions[..|actions| - 1])
      && StepContained(leak, Run(INITIAL, actions[..|actions| - 1]), actions[|actions| - 1])
  }

  /** Nothing the server knows or stores crosses the fence. */
  ghost predicate Fenced(leak: Leak, w: World) {
    && AllSafe(leak, w.known)
    && forall u :: u in w.users ==> AllSafe(leak, w.users[u].stored.items.Values)
  }

  lemma AuthHashSafe(leak: Leak, password: nat, email: nat, kdf: Kdf)
    ensures Safe(leak, AuthHash(password, email, kdf))
  {
    assert IsAuthHash(AuthHash(password, email, kdf));
  }

  lemma CredentialsSafe(leak: Leak, a: Account, nonce: nat, salt: nat)
    requires a.password in leak.passwords ==> a.vaultKey in leak.keys
    ensures AllSafe(leak, Credentials(a, nonce, salt))
  {
    AuthHashSafe(leak, a.password, a.email, DEFAULT_KDF);
    assert Safe(leak, MasterKey(a.password, a.email, DEFAULT_KDF)) ==> Safe(leak, Password(a.password));
  }

  lemma ResealedSafe(leak: Leak, contents: map<nat, Term>, shown: set<nat>, vaultKey: nat, nonce: nat)
    requires vaultKey in leak.keys ==> ContentsSafe(leak, contents, shown)
    ensures AllSafe(leak, Reseal(contents, shown, vaultKey, nonce).Values)
  {
  }

  lemma ResealSafe(leak: Leak, items: map<nat, Term>, contents: map<nat, Term>, shown: set<nat>, vaultKey: nat, nonce: nat)
    requires AllSafe(leak, items.Values)
    requires vaultKey in leak.keys ==> ContentsSafe(leak, contents, shown)
    ensures AllSafe(leak, (items + Reseal(contents, shown, vaultKey, nonce)).Values)
  {
    ResealedSafe(leak, contents, shown, vaultKey, nonce);
    hide Reseal, Safe;
  }

  lemma UpdateKeepsFence(leak: Leak, w: World, user: nat, after: User, sent: set<Term>)
    requires Fenced(leak, w) && AllSafe(leak, sent) && AllSafe(leak, after.stored.items.Values)
    ensures Fenced(leak, World(w.users[user := after], w.known + sent + after.stored.items.Values))
  {
  }

  lemma ChangeKeepsFence(leak: Leak, w: World, a: Action)
    requires Fenced(leak, w) && StepContained(leak, w, a) && a.ChangePassword?
    ensures Fenced(leak, Do(w, a))
  {
    hide Credentials, ProtectedKey, Reseal, Safe, ContentsSafe;
    if a.user in w.users {
      var u := w.users[a.user];
      var account := Account(a.password, u.account.email, if a.rotate then a.vaultKey else u.account.vaultKey);
      CredentialsSafe(leak, account, a.nonce, a.salt);
      if a.rotate {
        ResealSafe(leak, u.stored.items, u.contents, a.shown, account.vaultKey, a.nonce);
      }
      UpdateKeepsFence(leak, w, a.user, OnChange(u, account, a.rotate, a.shown, a.nonce),
                       Credentials(account, a.nonce, a.salt));
    }
  }

  lemma StepKeepsFence(leak: Leak, w: World, a: Action)
    requires Fenced(leak, w) && StepContained(leak, w, a)
    ensures Fenced(leak, Do(w, a))
  {
    hide Credentials, ProtectedKey, AuthHash, Reseal, OnChange;
    match a
    case Register(_, password, email, vaultKey, nonce, salt) =>
      CredentialsSafe(leak, Account(password, email, vaultKey), nonce, salt);
    case Login(password, email, kdf) =>
      AuthHashSafe(leak, password, email, kdf);
    case ChangePassword(_, _, _, _, _, _, _) =>
      ChangeKeepsFence(leak, w, a);
    case AbandonRotation(user, shown, refused, vaultKey, nonce) =>
      if user in w.users {
        var u := w.users[user];
        ResealSafe(leak, u.stored.items, u.contents, shown, vaultKey, nonce);
        ResealedSafe(leak, u.contents, refused, vaultKey, nonce);
        UpdateKeepsFence(leak, w, user, OnAbandon(u, shown, vaultKey, nonce), Reseal(u.contents, refused, vaultKey, nonce).Values);
      }
    case RefusedChange(user, password, vaultKey, nonce, salt) =>
      if user in w.users {
        CredentialsSafe(leak, Account(password, w.users[user].account.email, vaultKey), nonce, salt);
      }
    case WriteItem(user, id, plaintext, nonce, accepted) =>
      if user in w.users {
        var u := w.users[user];
        var sealed := Sealed(VaultKey(u.account.vaultKey), Nonce(nonce), Item(plaintext), NoAad);
        assert Safe(leak, sealed);
        assert AllSafe(leak, u.stored.items[id := sealed].Values);
        UpdateKeepsFence(leak, w, user, if accepted then OnWrite(u, id, sealed, Item(plaintext)) else u, {sealed});
      }
    case SubmitTotp(_) =>
    case SubmitRecoveryCode(_) =>
    case EnrollTotp(user, secret, nonce) =>
      if user in w.users {
        assert Safe(leak, Sealed(VaultKey(w.users[user].account.vaultKey), Nonce(nonce), TotpSecret(secret), TotpAad));
      }
  }

  lemma {:induction false} RunKeepsFence(leak: Leak, actions: seq<Action>)
    requires Contained(leak, actions)
    ensures Fenced(leak, Run(INITIAL, actions))
  {
    hide Do, StepContained;
    if actions != [] {
      RunKeepsFence(leak, actions[..|actions| - 1]);
      StepKeepsFence(leak, Run(INITIAL, actions[..|actions| - 1]), actions[|actions| - 1]);
    }
  }

  // ---- What the server does hear: the secrecy theorems are about no less. ----

  /** The terms of a registration or change of credentials, spelled out: the hash, what the server makes of it, the wrapped key. */
  ghost predicate HearsCredentials(known: set<Term>, password: nat, email: nat, vaultKey: nat, nonce: nat, salt: nat) {
    var masterKey := Argon2id(Password(password), Email(email), Kdf(65536, 3, 1));
    var authHash := Argon2id(masterKey, Password(password), Kdf(65536, 3, 1));
    && authHash in known && Argon2id(authHash, Salt(salt), Kdf(19456, 2, 1)) in known
    && Sealed(Hkdf(masterKey, EncInfo), Nonce(nonce), VaultKey(vaultKey), NoAad) in known
  }

  /** Each item listed, sealed under a key with some nonce. */
  ghost predicate HearsItems(known: set<Term>, contents: map<nat, Term>, ids: set<nat>, vaultKey: nat) {
    forall id :: id in ids && id in contents ==> exists n :: Sealed(VaultKey(vaultKey), Nonce(n), contents[id], NoAad) in known
  }

  /** The terms a step's messages carry. */
  ghost predicate Hears(w: World, a: Action, known: set<Term>) {
    match a
    case Register(_, password, email, vaultKey, nonce, salt) =>
      Email(email) in known && HearsCredentials(known, password, email, vaultKey, nonce, salt)
    case Login(password, email, kdf) =>
      Usable(kdf) ==> Email(email) in known
                      && Argon2id(Argon2id(Password(password), Email(email), kdf), Password(password), kdf) in known
    case SubmitTotp(secret) => TotpSecret(secret) in known
    case SubmitRecoveryCode(code) => RecoveryCode(code) in known
    case WriteItem(user, _, plaintext, nonce, _) =>
      user in w.users ==>
        Sealed(VaultKey(w.users[user].account.vaultKey), Nonce(nonce), Item(plaintext), NoAad) in known
    case EnrollTotp(user, secret, nonce) =>
      user in w.users ==>
        && TotpSecret(secret) in known
        && Sealed(VaultKey(w.users[user].account.vaultKey), Nonce(nonce), TotpSecret(secret), TotpAad) in known
    case ChangePassword(user, password, rotate, shown, vaultKey, nonce, salt) =>
      user in w.users && (rotate ==> shown <= w.users[user].contents.Keys) ==>
        && HearsCredentials(known, password, w.users[user].account.email,
                            if rotate then vaultKey else w.users[user].account.vaultKey, nonce, salt)
        && (rotate ==> HearsItems(known, w.users[user].contents, shown, vaultKey))
    case AbandonRotation(user, shown, refused, vaultKey, _) =>
      user in w.users ==> HearsItems(known, w.users[user].contents, shown + refused, vaultKey)
    case RefusedChange(user, password, vaultKey, nonce, salt) =>
      user in w.users ==> HearsCredentials(known, password, w.users[user].account.email, vaultKey, nonce, salt)
  }

  lemma ResealedAreHeard(known: set<Term>, contents: map<nat, Term>, ids: set<nat>, vaultKey: nat, nonce: nat)
    requires Reseal(contents, ids, vaultKey, nonce).Values <= known
    ensures HearsItems(known, contents, ids, vaultKey)
  {
    forall id | id in ids && id in contents
      ensures exists n :: Sealed(VaultKey(vaultKey), Nonce(n), contents[id], NoAad) in known
    {
      var sealed := Reseal(contents, ids, vaultKey, nonce);
      assert id in sealed && sealed[id] in sealed.Values;
      assert Sealed(VaultKey(vaultKey), Nonce(nonce + 1 + id), contents[id], NoAad) in known;
    }
  }

  lemma MergedValues(items: map<nat, Term>, more: map<nat, Term>, known: set<Term>)
    requires (items + more).Values <= known
    ensures more.Values <= known
  {
    forall t | t in more.Values ensures t in known {
      var id :| id in more && more[id] == t;
      assert (items + more)[id] == t;
    }
  }

  lemma HearsBoth(known: set<Term>, contents: map<nat, Term>, a: set<nat>, b: set<nat>, vaultKey: nat)
    requires HearsItems(known, contents, a, vaultKey) && HearsItems(known, contents, b, vaultKey)
    ensures HearsItems(known, contents, a + b, vaultKey)
  {
  }

  /** Every message sent is among what the server knows from then on. */
  lemma ServerHears(w: World, a: Action)
    ensures w.known <= Do(w, a).known && Hears(w, a, Do(w, a).known)
  {
    hide HearsItems, Reseal;
    var known := Do(w, a).known;
    match a
    case ChangePassword(user, password, rotate, shown, vaultKey, nonce, _) =>
      if user in w.users && rotate && shown <= w.users[user].contents.Keys {
        var u := w.users[user];
        MergedValues(u.stored.items, Reseal(u.contents, shown, vaultKey, nonce), known);
        ResealedAreHeard(known, u.contents, shown, vaultKey, nonce);
      }
    case AbandonRotation(user, shown, refused, vaultKey, nonce) =>
      if user in w.users {
        var u := w.users[user];
        MergedValues(u.stored.items, Reseal(u.contents, shown, vaultKey, nonce), known);
        ResealedAreHeard(known, u.contents, shown, vaultKey, nonce);
        ResealedAreHeard(known, u.contents, refused, vaultKey, nonce);
        HearsBoth(known, u.contents, shown, refused, vaultKey);
      }
    case _ =>
  }

  /** What must stay secret: whatever has not leaked, and every key made from a password that has not. */
  predicate IsSecret(leak: Leak, t: Term) {
    match t
    case Password(p) => p !in leak.passwords
    case VaultKey(k) => k !in leak.keys
    case Item(i) => i !in leak.items
    case TotpSecret(s) => s !in leak.totp
    case Argon2id(_, _, _) => IsMasterKey(leak, t)
    case Hkdf(secret, _) => IsMasterKey(leak, secret)
    case _ => false
  }

  predicate IsMasterKey(leak: Leak, t: Term) {
    t.Argon2id? && t.secret.Password? && t.secret.id !in leak.passwords && t.salt.Email?
  }

  lemma MasterKeyUnsafe(leak: Leak, t: Term)
    requires IsMasterKey(leak, t)
    ensures !Safe(leak, t)
  {
    assert !IsAuthHash(t) && !Safe(leak, t.secret);
  }

  lemma SecretsAreUnsafe(leak: Leak, t: Term)
    requires IsSecret(leak, t)
    ensures !Safe(leak, t)
  {
    match t
    case Argon2id(_, _, _) => MasterKeyUnsafe(leak, t);
    case Hkdf(secret, _) => MasterKeyUnsafe(leak, secret);
    case _ =>
  }

  function LeakedPasswords(leak: Leak): set<Term> {
    set p | p in leak.passwords :: Password(p)
  }

  /**
   * A leak stays contained: someone with all the server ever knew and some users'
   * passwords derives, to any depth, no other password, no key made from one, no
   * vault key that was never wrapped under a leaked password, no item that was never
   * sealed under such a key, and no TOTP secret that was never sent in the clear.
   */
  lemma LeakIsContained(leak: Leak, actions: seq<Action>, t: Term, depth: nat)
    requires Contained(leak, actions) && IsSecret(leak, t)
    ensures !Derives(Run(INITIAL, actions).known + LeakedPasswords(leak), t, depth)
  {
    hide Run, Contained, Derives;
    RunKeepsFence(leak, actions);
    var known := Run(INITIAL, actions).known + LeakedPasswords(leak);
    if Derives(known, t, depth) {
      assert AllSafe(leak, known);
      SafeClosed(leak, known, t, depth);
      SecretsAreUnsafe(leak, t);
    }
  }

  /** Nobody's password leaks; the TOTP secrets given are those sent in the clear. */
  function OnlyTotp(secrets: set<nat>): Leak {
    Leak({}, {}, {}, secrets)
  }

  lemma {:induction false} OnlyTotpIsContained(actions: seq<Action>, secrets: set<nat>)
    requires AllDisclosed(actions) <= secrets
    ensures Contained(OnlyTotp(secrets), actions)
  {
    hide Run;
    if actions != [] {
      OnlyTotpIsContained(actions[..|actions| - 1], secrets);
    }
  }

  /**
   * In every run of registering, logging in, writing items, using and enrolling 2FA
   * and changing keys, nothing derivable to any depth from all the server ever
   * received, accepted or not, made or stored is a master password, a master or
   * stretched key, a vault key, an item, or a TOTP secret not sent in the clear.
   */
  lemma ServerNeverLearns(actions: seq<Action>, t: Term, depth: nat)
    requires IsSecret(OnlyTotp(AllDisclosed(actions)), t)
    ensures !Derives(Run(INITIAL, actions).known, t, depth)
  {
    hide Run, Derives, IsSecret, AllDisclosed, Contained;
    var leak := OnlyTotp(AllDisclosed(actions));
    OnlyTotpIsContained(actions, AllDisclosed(actions));
    LeakIsContained(leak, actions, t, depth);
    assert Run(INITIAL, actions).known + LeakedPasswords(leak) == Run(INITIAL, actions).known;
  }

  lemma StepTells(w: World, a: Action, s: nat)
    requires s in Disclosed(w, a) || TotpSecret(s) in w.known
    ensures TotpSecret(s) in Do(w, a).known
  {
    hide Reseal, Credentials, OnChange, OnAbandon, OnWrite;
  }

  lemma {:induction false} DisclosedIsKnown(actions: seq<Action>, s: nat)
    requires s in AllDisclosed(actions)
    ensures TotpSecret(s) in Run(INITIAL, actions).known
  {
    hide Do, Disclosed;
    var init := actions[..|actions| - 1];
    if s in AllDisclosed(init) {
      DisclosedIsKnown(init, s);
    }
    StepTells(Run(INITIAL, init), actions[|actions| - 1], s);
  }

  /** Some step of the run sent the secret in the clear: a submitted code, or an enrolment by a registered user. */
  ghost predicate SentInTheClear(actions: seq<Action>, s: nat) {
    exists n :: 0 <= n < |actions| &&
      (actions[n] == SubmitTotp(s)
       || (actions[n].EnrollTotp? && actions[n].secret == s && actions[n].user in Run(INITIAL, actions[..n]).users))
  }

  lemma {:induction false} AllDisclosedIs(actions: seq<Action>, s: nat)
    ensures s in AllDisclosed(actions) <==> SentInTheClear(actions, s)
  {
    hide Run;
    if actions != [] {
      var init, last := actions[..|actions| - 1], |actions| - 1;
      AllDisclosedIs(init, s);
      if SentInTheClear(init, s) {
        var n :| 0 <= n < |init| &&
          (init[n] == SubmitTotp(s)
           || (init[n].EnrollTotp? && init[n].secret == s && init[n].user in Run(INITIAL, init[..n]).users));
        assert actions[n] == init[n] && actions[..n] == init[..n];
      }
      if SentInTheClear(actions, s) && s !in Disclosed(Run(INITIAL, init), actions[last]) {
        var n :| 0 <= n < |actions| &&
          (actions[n] == SubmitTotp(s)
           || (actions[n].EnrollTotp? && actions[n].secret == s && actions[n].user in Run(INITIAL, actions[..n]).users));
        assert n < last && actions[n] == init[n] && actions[..n] == init[..n];
      }
    }
  }

  /**
   * Where the zero-knowledge claim stops: the server can derive a TOTP secret if and
   * only if some step of the run submitted it or enrolled it.
   */
  lemma {:induction false} TotpKnownIffSent(actions: seq<Action>, s: nat)
    ensures (exists depth: nat :: Derives(Run(INITIAL, actions).known, TotpSecret(s), depth)) <==> SentInTheClear(actions, s)
  {
    hide Run, SentInTheClear, AllDisclosed;
    AllDisclosedIs(actions, s);
    if s in AllDisclosed(actions) {
      DisclosedIsKnown(actions, s);
      assert Derives(Run(INITIAL, actions).known, TotpSecret(s), 0);
    } else {
      forall depth: nat ensures !Derives(Run(INITIAL, actions).known, TotpSecret(s), depth) {
        ServerNeverLearns(actions, TotpSecret(s), depth);
      }
    }
  }

  // ---- The password is enough. ----

  /** The stored key unwraps under the password, and each item vouched for opens under the vault key. */
  ghost predicate Readable(u: User) {
    && UnlockVault(Password(u.account.password), Email(u.account.email), u.stored.kdf, u.stored.protectedKey)
       == Ok(VaultKey(u.account.vaultKey))
    && forall id :: id in u.contents ==>
         id in u.stored.items && Open(VaultKey(u.account.vaultKey), u.stored.items[id], NoAad) == Ok(u.contents[id])
  }

  ghost predicate AllReadable(w: World) {
    forall u :: u in w.users ==> Readable(w.users[u])
  }

  /** The wrapped key made for an account unwraps under that account's password. */
  lemma ProtectedKeyUnwraps(a: Account, nonce: nat)
    ensures UnlockVault(Password(a.password), Email(a.email), DEFAULT_KDF, ProtectedKey(a, nonce)) == Ok(VaultKey(a.vaultKey))
  {
  }

  lemma FreshReadable(a: Account, nonce: nat)
    ensures Readable(NewUser(a, nonce))
  {
    ProtectedKeyUnwraps(a, nonce);
  }

  lemma ChangeReadable(u: User, a: Account, rotate: bool, shown: set<nat>, nonce: nat)
    requires Readable(u) && (rotate || a.vaultKey == u.account.vaultKey)
    ensures Readable(OnChange(u, a, rotate, shown, nonce))
  {
    ProtectedKeyUnwraps(a, nonce);
    hide UnlockVault, ProtectedKey;
  }

  lemma AbandonReadable(u: User, shown: set<nat>, vaultKey: nat, nonce: nat)
    requires Readable(u)
    ensures Readable(OnAbandon(u, shown, vaultKey, nonce))
  {
    hide UnlockVault, Open;
  }

  lemma WriteReadable(u: User, id: nat, plaintext: Term, nonce: Term)
    requires Readable(u)
    ensures Readable(OnWrite(u, id, Sealed(VaultKey(u.account.vaultKey), nonce, plaintext, NoAad), plaintext))
  {
    hide UnlockVault;
  }

  lemma StepKeepsReadable(w: World, a: Action)
    requires AllReadable(w)
    ensures AllReadable(Do(w, a))
  {
    hide UnlockVault, Open, Readable, Reseal, Credentials, NewUser, OnChange, OnAbandon, OnWrite;
    match a
    case Register(_, password, email, vaultKey, nonce, _) =>
      FreshReadable(Account(password, email, vaultKey), nonce);
    case WriteItem(user, id, plaintext, nonce, _) =>
      if user in w.users {
        WriteReadable(w.users[user], id, Item(plaintext), Nonce(nonce));
      }
    case ChangePassword(user, password, rotate, shown, vaultKey, nonce, _) =>
      if user in w.users {
        var former := w.users[user].account;
        ChangeReadable(w.users[user], Account(password, former.email, if rotate then vaultKey else former.vaultKey),
                       rotate, shown, nonce);
      }
    case AbandonRotation(user, shown, _, vaultKey, nonce) =>
      if user in w.users {
        AbandonReadable(w.users[user], shown, vaultKey, nonce);
      }
    case _ =>
  }

  /**
   * In every run, what the server now stores for a user and that user's current
   * password give back every item last written, or moved, under the current vault key.
   */
  lemma {:induction false} PasswordRecoversItems(actions: seq<Action>)
    ensures AllReadable(Run(INITIAL, actions))
  {
    if actions != [] {
      PasswordRecoversItems(actions[..|actions| - 1]);
      StepKeepsReadable(Run(INITIAL, actions[..|actions| - 1]), actions[|actions| - 1]);
    }
  }

  // ---- What was last written, read off the list of actions alone. ----

  predicate Registered(actions: seq<Action>, user: nat) {
    actions != [] &&
      var last := actions[|actions| - 1];
      (last.Register? && last.user == user) || Registered(actions[..|actions| - 1], user)
  }

  /**
   * The plaintext last written to the user's item: forgotten when a rotation that
   * failed had re-sent it, or one that completed did not show it.
   */
  ghost function LastWritten(actions: seq<Action>, user: nat, id: nat): Option<nat>
    decreases |actions|, 0
  {
    if actions == [] then None
    else
      var init, last := actions[..|actions| - 1], actions[|actions| - 1];
      if last.WriteItem? && last.user == user && last.id == id && last.accepted && Registered(init, user) then
        Some(last.plaintext)
      else if last.AbandonRotation? && last.user == user && id in last.shown then None
      else if last.ChangePassword? && last.user == user && last.rotate && Completes(init, last) && id !in last.shown then None
      else LastWritten(init, user, id)
  }

  /** A change goes through for a registered user; with rotation, if every item shown can be re-sent. */
  ghost predicate Completes(init: seq<Action>, change: Action)
    requires change.ChangePassword?
    decreases |init|, 1
  {
    Registered(init, change.user)
    && (change.rotate ==> forall i :: i in change.shown ==> LastWritten(init, change.user, i).Some?)
  }

  /** The password the user last chose. */
  ghost function LastPassword(actions: seq<Action>, user: nat): Option<nat> {
    if actions == [] then None
    else
      var init, last := actions[..|actions| - 1], actions[|actions| - 1];
      if last.Register? && last.user == user && !Registered(init, user) then Some(last.password)
      else if last.ChangePassword? && last.user == user && Completes(init, last) then Some(last.password)
      else LastPassword(init, user)
  }

  /** The address the user registered with. */
  function AddressOf(actions: seq<Action>, user: nat): Option<nat> {
    if actions == [] then None
    else
      var init, last := actions[..|actions| - 1], actions[|actions| - 1];
      if last.Register? && last.user == user && !Registered(init, user) then Some(last.email) else AddressOf(init, user)
  }

  /** The user's record says what the list of actions says. */
  ghost predicate Tracks(w: World, actions: seq<Action>, user: nat) {
    && (user in w.users <==> Registered(actions, user))
    && (user in w.users ==>
          && LastPassword(actions, user) == Some(w.users[user].account.password)
          && AddressOf(actions, user) == Some(w.users[user].account.email)
          && forall id :: TracksItem(w.users[user].contents, actions, user, id))
    && (user !in w.users ==> forall id :: LastWritten(actions, user, id) == None)
  }

  ghost predicate TracksItem(contents: map<nat, Term>, actions: seq<Action>, user: nat, id: nat) {
    match LastWritten(actions, user, id)
    case Some(p) => id in contents && contents[id] == Item(p)
    case None => id !in contents
  }

  lemma CompletesIff(w: World, init: seq<Action>, change: Action)
    requires change.ChangePassword? && Tracks(w, init, change.user)
    ensures Completes(init, change) <==>
      change.user in w.users && (change.rotate ==> change.shown <= w.users[change.user].contents.Keys)
  {
    hide LastWritten, Registered, LastPassword, AddressOf;
    if change.user in w.users {
      forall i | i in change.shown
        ensures LastWritten(init, change.user, i).Some? <==> i in w.users[change.user].contents
      {
        assert TracksItem(w.users[change.user].contents, init, change.user, i);
      }
    }
  }

  lemma StepTracksItem(w: World, actions: seq<Action>, user: nat, id: nat)
    requires actions != []
    requires var init := actions[..|actions| - 1]; user in w.users && Tracks(w, init, user)
    ensures user in Do(w, actions[|actions| - 1]).users
    ensures TracksItem(Do(w, actions[|actions| - 1]).users[user].contents, actions, user, id)
  {
    var init, last := actions[..|actions| - 1], actions[|actions| - 1];
    assert TracksItem(w.users[user].contents, init, user, id);
    if last.ChangePassword? && last.user == user {
      CompletesIff(w, init, last);
    }
    hide Registered, LastPassword, AddressOf, Completes, Credentials, Reseal, ProtectedKey;
  }

  lemma StepTracks(w: World, actions: seq<Action>, user: nat)
    requires actions != [] && Tracks(w, actions[..|actions| - 1], user)
    ensures Tracks(Do(w, actions[|actions| - 1]), actions, user)
  {
    var init, last := actions[..|actions| - 1], actions[|actions| - 1];
    var z := Do(w, last);
    if last.ChangePassword? && last.user == user {
      CompletesIff(w, init, last);
    }
    if user in w.users {
      forall id ensures TracksItem(z.users[user].contents, actions, user, id) {
        StepTracksItem(w, actions, user, id);
      }
    } else {
      assert forall id :: LastWritten(init, user, id) == None;
      forall id ensures LastWritten(actions, user, id) == None {
      }
    }
    hide Completes, Credentials, Reseal, ProtectedKey, OnWrite, OnAbandon;
  }

  lemma {:induction false} RunTracks(actions: seq<Action>, user: nat)
    ensures Tracks(Run(INITIAL, actions), actions, user)
  {
    hide Do, Tracks;
    if actions == [] {
      NothingTracked(user);
    } else {
      RunTracks(actions[..|actions| - 1], user);
      StepTracks(Run(INITIAL, actions[..|actions| - 1]), actions, user);
    }
  }

  lemma NothingTracked(user: nat)
    ensures Tracks(INITIAL, [], user)
  {
  }

  /**
   * In every run, an item a registered user wrote, and that no abandoned rotation
   * re-sent and every completed one showed since, is stored; and it opens to what
   * was last written under the key that the password last chosen unwraps.
   */
  lemma {:induction false} LastWriteIsReadable(actions: seq<Action>, user: nat, id: nat)
    requires LastWritten(actions, user, id).Some?
    ensures user in Run(INITIAL, actions).users && LastPassword(actions, user).Some? && AddressOf(actions, user).Some?
    ensures var s := Run(INITIAL, actions).users[user].stored;
      var key := UnlockVault(Password(LastPassword(actions, user).value), Email(AddressOf(actions, user).value), s.kdf, s.protectedKey);
      && key.Ok? && id in s.items
      && Open(key.value, s.items[id], NoAad) == Ok(Item(LastWritten(actions, user, id).value))
  {
    hide Run, UnlockVault, Open, LastWritten, LastPassword, AddressOf;
    RunTracks(actions, user);
    PasswordRecoversItems(actions);
    var u := Run(INITIAL, actions).users[user];
    assert TracksItem(u.contents, actions, user, id);
    assert Readable(u);
  }

  /** An accepted write stores the item, sealed under the account's vault key, and touches no other. */
  lemma WriteTakesEffect(w: World, user: nat, id: nat, plaintext: nat, nonce: nat)
    requires user in w.users
    ensures var before, z := w.users[user], Do(w, WriteItem(user, id, plaintext, nonce, true));
      && z.users == w.users[user := z.users[user]]
      && z.users[user].account == before.account
      && z.users[user].contents == before.contents[id := Item(plaintext)]
      && z.users[user].stored == before.stored.(items := before.stored.items[id := z.users[user].stored.items[id]])
      && Open(VaultKey(before.account.vaultKey), z.users[user].stored.items[id], NoAad) == Ok(Item(plaintext))
  {
  }

  lemma Unwrapping(known: set<Term>, u: User, item: Term, plaintext: Term)
    requires Readable(u) && Open(VaultKey(u.account.vaultKey), item, NoAad) == Ok(plaintext)
    requires Password(u.account.password) in known && u.stored.protectedKey in known && item in known
    ensures Derives(known, plaintext, 4)
  {
    var a, protected, vaultKey := u.account, u.stored.protectedKey, VaultKey(u.account.vaultKey);
    assert Derives(known, MasterKey(a.password, a.email, u.stored.kdf), 1);
    assert Derives(known, EncKey(a.password, a.email, u.stored.kdf), 2);
    assert Derives(known, Sealed(protected.key, protected.nonce, vaultKey, protected.aad), 2);
    assert Derives(known, vaultKey, 3);
    assert Derives(known, Sealed(item.key, item.nonce, plaintext, item.aad), 3);
  }

  /**
   * The same in terms of derivation, so that derivation is not too weak a notion:
   * whoever holds the stored key and an item and then learns the password gets the
   * plaintext in four steps.
   */
  lemma PasswordIsTheOnlyBarrier(actions: seq<Action>, user: nat, id: nat, known: set<Term>)
    requires var w := Run(INITIAL, actions); user in w.users && id in w.users[user].contents
    requires var u := Run(INITIAL, actions).users[user];
      Password(u.account.password) in known && u.stored.protectedKey in known
      && (id in u.stored.items ==> u.stored.items[id] in known)
    ensures Derives(known, Run(INITIAL, actions).users[user].contents[id], 4)
  {
    PasswordRecoversItems(actions);
    var u := Run(INITIAL, actions).users[user];
    assert Readable(u);
    Unwrapping(known, u, u.stored.items[id], u.contents[id]);
  }
}
