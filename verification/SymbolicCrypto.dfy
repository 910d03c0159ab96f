/**
 * The key hierarchy and the AEAD as free symbols (internal/crypto): Argon2id
 * (RFC 9106), HKDF (section 2 of RFC 5869) and XChaCha20-Poly1305 (section 2.8 of
 * RFC 8439 for the AEAD construction).
 */
module SymbolicCrypto {
  /** Cost parameters; type and version play no part in derivation. */
  datatype Kdf = Kdf(memoryKiB: nat, iterations: nat, parallelism: nat)

  const DEFAULT_KDF: Kdf := Kdf(65536, 3, 1)
  const SERVER_KDF: Kdf := Kdf(19456, 2, 1)

  datatype Label = EncInfo | MacInfo
  datatype Aad = NoAad | TotpAad

  /** Byte strings, up to what an attacker who cannot break the primitives can tell apart. */
  datatype Term =
    | Empty
    | Password(id: nat)
    | Email(id: nat)
    | VaultKey(id: nat)          // 32 random bytes
    | Nonce(id: nat)
    | Salt(id: nat)              // 16 random bytes
    | Item(id: nat)              // the JSON of a vault item
    | TotpSecret(id: nat)
    | RecoveryCode(id: nat)
    | Argon2id(secret: Term, salt: Term, params: Kdf)
    | Hkdf(secret: Term, info: Label)
    | Sealed(key: Term, nonce: Term, plaintext: Term, aad: Aad)

  datatype Result<T> = Ok(value: T) | Err(error: Error) {
    predicate IsFailure() { Err? }
    function PropagateFailure<U>(): Result<U>
      requires Err?
    {
      Err(error)
    }
    function Extract(): T
      requires Ok?
    {
      value
    }
  }

  datatype Error = EmptyPassword | EmptySalt | EmptyMasterKey | EmptyAuthHash | BadParams | InvalidKeySize | TooShort | Authentication

  predicate Usable(p: Kdf) {
    p.memoryKiB > 0 && p.iterations > 0 && p.parallelism > 0
  }

  function DeriveMasterKey(password: Term, salt: Term, p: Kdf): Result<Term> {
    if password == Empty then Err(EmptyPassword)
    else if salt == Empty then Err(EmptySalt)
    else if !Usable(p) then Err(BadParams)
    else Ok(Argon2id(password, salt, p))
  }

  function StretchMasterKey(masterKey: Term): Result<(Term, Term)> {
    if masterKey == Empty then Err(EmptyMasterKey) else Ok((Hkdf(masterKey, EncInfo), Hkdf(masterKey, MacInfo)))
  }

  /** The client's authentication hash: Argon2id over the master key, salted with the password. */
  function DeriveAuthHash(masterKey: Term, password: Term, p: Kdf): Result<Term> {
    if masterKey == Empty then Err(EmptyMasterKey)
    else if password == Empty then Err(EmptyPassword)
    else if !Usable(p) then Err(BadParams)
    else Ok(Argon2id(masterKey, password, p))
  }

  function DeriveServerAuthHash(authHash: Term, salt: Term, p: Kdf): Result<Term> {
    if authHash == Empty then Err(EmptyAuthHash)
    else if salt == Empty then Err(EmptySalt)
    else if !Usable(p) then Err(BadParams)
    else Ok(Argon2id(authHash, salt, p))
  }

  /** The terms that are 32 bytes long. */
  predicate IsKey(t: Term) {
    t.VaultKey? || t.Argon2id? || t.Hkdf?
  }

  /** Seal, with the nonce it drew. */
  function Seal(key: Term, nonce: Term, plaintext: Term, aad: Aad): Result<Term> {
    if !IsKey(key) then Err(InvalidKeySize) else Ok(Sealed(key, nonce, plaintext, aad))
  }

  function Open(key: Term, blob: Term, aad: Aad): Result<Term> {
    if !IsKey(key) then Err(InvalidKeySize)
    else if !blob.Sealed? then Err(if blob == Empty then TooShort else Authentication)
    else if blob.key == key && blob.aad == aad then Ok(blob.plaintext)
    else Err(Authentication)
  }

  function WrapKey(wrappingKey: Term, nonce: Term, vaultKey: Term): Result<Term> {
    Seal(wrappingKey, nonce, vaultKey, NoAad)
  }

  function UnwrapKey(wrappingKey: Term, protectedKey: Term): Result<Term> {
    Open(wrappingKey, protectedKey, NoAad)
  }

  /** What was sealed opens again under exactly the key and associated data it was sealed with. */
  lemma OpenInvertsSeal(key: Term, nonce: Term, plaintext: Term, aad: Aad, key': Term, aad': Aad)
    requires IsKey(key) && IsKey(key')
    ensures Open(key', Seal(key, nonce, plaintext, aad).value, aad') == Ok(plaintext) <==> key' == key && aad' == aad
    ensures !(key' == key && aad' == aad) ==> Open(key', Seal(key, nonce, plaintext, aad).value, aad').Err?
  {
  }

  /** The key that wraps the vault key: password and e-mail through Argon2id and HKDF. */
  function WrappingKey(password: Term, email: Term, p: Kdf): Result<Term> {
    var masterKey :- DeriveMasterKey(password, email, p);
    var (encKey, _) :- StretchMasterKey(masterKey);
    Ok(encKey)
  }

  /** What a client does at login with the stored wrapped key: the vault key, if the password is right. */
  function UnlockVault(password: Term, email: Term, p: Kdf, protectedKey: Term): Result<Term> {
    var encKey :- WrappingKey(password, email, p);
    UnwrapKey(encKey, protectedKey)
  }

  /** The key hierarchy: password and address through Argon2id and HKDF. */
  lemma WrappingKeyIs(password: Term, email: Term, p: Kdf)
    requires password != Empty && email != Empty && Usable(p)
    ensures WrappingKey(password, email, p) == Ok(Hkdf(Argon2id(password, email, p), EncInfo))
  {
  }

  /** A wrapped key unwraps exactly with the password, the address and the parameters it was wrapped under. */
  lemma UnlockNeedsPassword(password: Term, email: Term, p: Kdf, nonce: Term, vaultKey: Term,
                            password': Term, email': Term, p': Kdf)
    requires password != Empty && email != Empty && Usable(p)
    ensures WrappingKey(password, email, p).Ok? && IsKey(WrappingKey(password, email, p).value)
    ensures var stored := Sealed(WrappingKey(password, email, p).value, nonce, vaultKey, NoAad);
      && (UnlockVault(password', email', p', stored).Ok? <==> password' == password && email' == email && p' == p)
      && UnlockVault(password, email, p, stored) == Ok(vaultKey)
  {
    WrappingKeyIs(password, email, p);
    if password' == Empty || email' == Empty || !Usable(p') {
      assert WrappingKey(password', email', p').Err?;
    } else {
      WrappingKeyIs(password', email', p');
    }
    hide WrappingKey;
  }
}
