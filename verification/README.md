# Secure Vault: verified models

Dafny models of the stateful protocols of Secure Vault, a password manager whose
server is meant to hold ciphertext only, with proofs of what they guarantee over
whole runs. `dafny verify dfyconfig.toml` checks everything.

| file | models | main results |
|---|---|---|
| `Sessions.dfy` | dual-token sessions over the `sessions` table | tokens die for good, whatever way concurrent refreshes interleave |
| `RefreshProtocol.dfy` | the browser client's single-flight refresh against that table | every 401 is retried once, no refresh loses a race; the exact condition for an early refusal |
| `TimeWindow.dfy`, `RateLimiting.dfy`, `Alerts.dfy` | time-stamp lists pruned in place, the rate limiter and the alert tracker | exact refinement of a naive history; no window holds more than the limit |
| `Lockout.dfy`, `LoginGate.dfy` | lockout and backoff, and the login handler's gates over them | exactly when five failures lock, and who is let in; deletion of expired records is unobservable; a lock lasts exactly 15 minutes |
| `ItemStore.dfy` | item updates by compare-and-swap on the revision | no lost updates; what each failure means |
| `RecoveryRows.dfy`, `RecoveryCode.dfy` | recovery-code rows, and the codes as text | single use and conservation; a string verifies if and only if it respells the code |
| `MfaLogin.dfy`, `RecoveryLogin.dfy` | the two-step login, alone and together with the recovery-code rows | every session is accounted for by its own password check and one second factor; sessions opened by codes consume distinct rows |
| `SymbolicCrypto.dfy`, `KeyChange.dfy`, `ZeroKnowledge.dfy` | the key hierarchy as free terms, changing the master password, and the messages of the whole client | items keep their meaning; the server never learns a secret; leaked passwords expose only their own vaults |
| `PasswordGenerator.dfy` | rejection-sampling password generation | every word is equally likely |
| `Pagination.dfy` | cursor pagination of the activity log | the pages partition the log; the exact limits and ties for which they do |

## How things are modelled

- Code that updates an object in place is a class over its fields, and the pruned
  slices are real arrays. Each method is proved equal to a step of a function, and
  the run theorems are about that function.
- Concurrency is a list of actions, one per SQL statement (or transaction) or per
  message, in any order; the theorems hold for every list. Components an action
  cannot apply to are left as they are.
- Clocks, random draws and what a request contains are parameters. Instants are
  integers in nanoseconds; a clock is asked never to go back where the code's
  guarantee needs it. Nonces, keys and salts in `ZeroKnowledge` are arbitrary, even repeated.
- SHA-256 is injective and tokens never repeat. Argon2id (RFC 9106), HKDF (section 2
  of RFC 5869) and the AEAD (section 2.8 of RFC 8439, in its XChaCha20 form) are free
  symbols: a term reveals nothing but through the operation that opens it.
- Fields marked as history (accepted times, write logs, minted tokens, password
  checks) are bookkeeping for the theorems: in a reachable state no outcome depends
  on them.

## Where the code differs from its description

- `internal/auth/lockout.go:22-24` speaks of a sliding window; the window is anchored
  at its first failure. Five failures in 15 minutes lock exactly when the window already
  open holds five of its own (`FiveFailuresLockIff`); seven within a nanosecond may set
  no lock (`SevenFailuresNeedNotLock`); eight in 15 minutes always do (`EightFailuresLock`).
- `internal/storage/convert.go:79-84` turns a limit above 100 into 50, while the handler
  compares the rows with the limit as asked: such a listing silently ends after 51 events.
  Up to 100, a page break inside a tie loses the tied events after it, since the cursor
  asks for strictly older ones. `CompleteIff` is the exact condition for both,
  `TiedLogLosesEvent` a log that loses an event.
- `internal/api/cookies.go:10-29` rounds Max-Age down to whole seconds, so a cookie can
  be gone before its row expires, exactly for the lifetimes of `RefusedEarlyIffFractional`.
- `web/src/components/ChangePasswordModal.tsx:66-82` does not wrap the TOTP secret again
  when it rotates the vault key, so it survives a change if and only if the key stays the
  same (`HandleSubmit`); `RotationLosesTotp` is a change that loses it.
- The zero-knowledge statement of `README.md:23` does not extend to TOTP secrets, which
  `web/src/components/LoginForm.tsx:102-112` and enrolment send in the clear to be checked:
  the server can derive one if and only if it was sent (`TotpKnownIffSent`). Recovery codes
  are made by the server, so it is taken to know them all.

## Model

| member | source | states |
|---|---|---|
| `TimeWindow.PruneInPlace` | internal/auth/ratelimit.go:34-41 | Filtering a slice into its own backing array leaves exactly the stamps later than the cutoff, in order, and touches nothing past the slice: no unread entry is overwritten |
| `TimeWindow.Append` | internal/auth/ratelimit.go:48-48 | Go's append in both its forms, into spare capacity or into a larger array, yields the old contents and the new stamp |
| `TimeWindow.PruneIdempotent` | internal/auth/ratelimit.go:34-41 | Pruning on every call loses nothing: pruning early and then late is pruning once, late |
| `TimeWindow.AfterShrinks` | internal/auth/ratelimit.go:34-41 | A later cutoff never keeps more |
| `TimeWindow.SlideEntry` | internal/auth/ratelimit.go:31-49 | Prune in place and offer a stamp: the pruned list stays exactly the surviving part of the full history of offers |
| `TimeWindow.StampTable.Slide` | internal/auth/ratelimit.go:31-49 | The same for one key of a table whose slices alias no other key's array: the other keys' slices and histories are unchanged |
| `TimeWindow.StampTable.Delete` | internal/auth/ratelimit.go:53-57 | Forgets one key's stamps and history, and no other's |
| `RateLimiting.RateLimiter.Allow` | internal/auth/ratelimit.go:27-50 | Under a clock that never goes back, admits exactly when fewer than `limit` accepted times since the last Reset are later than now - window, records only admitted requests, and never stores more than `limit` stamps |
| `RateLimiting.RateLimiter.Reset` | internal/auth/ratelimit.go:53-57 | Clears one key's history of accepted times and leaves all others |
| `RateLimiting.RecordBound` | internal/auth/ratelimit.go:43-49 | One more call cannot push any half-open window over the limit |
| `RateLimiting.WindowBound` | internal/auth/ratelimit.go:25-50 | Over any run without a Reset, every half-open interval of the window's length, wherever it ends, holds at most `limit` acceptances |
| `RateLimiting.RefusedOnlyWhenFull` | internal/auth/ratelimit.go:43-49 | Under a clock that never goes back, a request is admitted if and only if the half-open window ending at it holds fewer than `limit` acceptances, and it is recorded exactly then |
| `Alerts.Tracker.constructor` | internal/audit/alert.go:50-57 | The limit is 5 and the window 15 minutes, and no failure is on record |
| `Alerts.Tracker.RecordLoginFailure` | internal/audit/alert.go:60-76 | An alert is raised exactly when at least 5 failures since the last reset, this one included, are within the window, and carries that count; the clock is read twice, as in the code |
| `Alerts.Tracker.ResetFailures` | internal/audit/alert.go:79-83 | Forgets one user's failures and no other's |
| `Lockout.RunFaithful` | internal/auth/lockout.go:34-92 | After any timed run of calls an email's record says exactly what its failure history says: the count and start of the latest anchored window, and the lock deadline if that window reached 5 |
| `Lockout.LockedIffStreak` | internal/auth/lockout.go:34-52 | An email is locked if and only if its latest anchored window holds 5 failures and the newest of them is less than 15 minutes old |
| `Lockout.StreakSpan` | internal/auth/lockout.go:69-76 | The failures counted together span at most 15 minutes |
| `Lockout.LockNeedsFiveInSpan` | internal/auth/lockout.go:55-82 | A lock implies 5 failures since the last Reset inside one closed 15-minute span, the newest under 15 minutes old |
| `Lockout.SetsLockIffLocked` | internal/auth/lockout.go:75-79 | The failure just recorded set a lock exactly if the email is locked right after it |
| `Lockout.LocksAtIffSetsLock` | internal/auth/lockout.go:75-79 | The same for any failure since the last Reset, at its own place in the run |
| `Lockout.EightFailuresLock` | internal/auth/lockout.go:69-79 | In every run, any 8 failures in a closed 15-minute span without a Reset include one right after which the email is locked |
| `Lockout.FiveFailuresLockIff` | internal/auth/lockout.go:55-82 | In every run, 5 failures in a closed 15-minute span include one right after which the email is locked if and only if the window open at the first of them already holds 5 or its fifth failure is within 15 minutes of its anchor |
| `Lockout.SevenFailuresNeedNotLock` | internal/auth/lockout.go:22-24 | 8 is exact: a history in which 7 failures within a nanosecond set no lock, against the comment's claim of a sliding window |
| `Lockout.SimilarAnswers` | internal/auth/lockout.go:44-82 | An expired record and no record give the same answers and delays to every later sequence of calls |
| `Lockout.DeletionUnobservable` | internal/auth/lockout.go:48-50 | From every reachable record, IsLocked's deletion of expired records cannot be told from never deleting, over all continuations |
| `Lockout.BackoffMonotone` | internal/auth/lockout.go:94-106 | The delay lies between 0 and 8 s, never falls as failures rise, and at least doubles until it reaches the cap |
| `Lockout.BackoffFigures` | internal/auth/lockout.go:94-106 | In figures: 0.25, 0.5, 1, 2, 4 and from the sixth failure on 8 seconds; nothing without a failure |
| `Lockout.BackoffDelay` | internal/auth/lockout.go:94-106 | The doubling loop on 64-bit durations returns min(250 ms * 2^(n-1), 8 s) for n >= 1, 0 otherwise, and never holds more than 8 s, whatever n |
| `Lockout.LockoutTracker.IsLocked` | internal/auth/lockout.go:34-52 | Over the map of shared records: answers by the email's deadline, drops only a record whose deadline has passed, and leaves every other email's |
| `Lockout.LockoutTracker.RecordFailure` | internal/auth/lockout.go:55-82 | Rolls over, counts and locks one email's record in place, returns the delay for the new count, and leaves every other email's record alone |
| `Lockout.LockoutTracker.Reset` | internal/auth/lockout.go:85-92 | Clears one email's record and no other's |
| `LoginGate.FailureLocks` | internal/api/handlers.go:206-238 | After an admitted failure the email is locked exactly if its count reached 5, and then until exactly 15 minutes later |
| `LoginGate.StepTreats` | internal/api/handlers.go:193-241 | An attempt past the gates is accepted exactly for the right password, and then that address's and email's counters are cleared; it is answered 401 exactly for a wrong password or unknown email, and then the failure record gains this instant; 400 exactly for a malformed one; one stopped at the gates is never let in |
| `LoginGate.RefusedIsChargedOnce` | internal/api/handlers.go:195-198 | An attempt on a locked email changes nothing, one refused for its address is not charged to the account, and one refused for its account is charged to the address |
| `LoginGate.LockHistory` | internal/auth/session.go:69-90 | Over any run an email's record is the one its own failures and successes leave, so the lockout theorems hold behind the gates |
| `LoginGate.FailuresAreBadAttempts` | internal/api/handlers.go:206-241 | Those failures are the attempts past the gates with a wrong password or unknown email since the last right one |
| `LoginGate.LockUndisturbed` | internal/api/handlers.go:195-198 | Whatever is attempted before a lock's deadline, on any email from any address, the lock and its deadline stay |
| `LoginGate.LockLastsExactly` | internal/api/handlers.go:193-241 | Every attempt on a locked email before the deadline is refused and changes no counter, and the first instant at which it is no longer locked is exactly 15 minutes after the locking failure |
| `LoginGate.AccountHistory` | internal/auth/session.go:81-90 | Over any run the account limiter's history is exactly the times of the attempts admitted since the last successful login |
| `LoginGate.AddressHistory` | internal/auth/session.go:81-90 | Attempts admitted from an address are among those charged to it, at most 10 in any half-open 15 minutes |
| `LoginGate.AdmissionBounds` | internal/api/handlers.go:193-241 | Over any run, between successful logins at most 5 credential checks per email and 10 per address are admitted in any half-open 15-minute window |
| `LoginGate.Manager.CheckLoginLimit` | internal/auth/session.go:81-83 | Charges the address, then the account only if the address was admitted |
| `LoginGate.Manager.StoppedAtGates` | internal/api/handlers.go:195-195 | The limiters are asked, and charged, only if the lockout lets the attempt through |
| `LoginGate.Manager.ResetLoginLimit` | internal/auth/session.go:86-90 | Clears the address's, the account's and the lockout's counters and nobody else's |
| `LoginGate.Manager.PostLogin` | internal/api/handlers.go:184-241 | The handler over the real limiters and tracker is one step of the gate the run theorems are about, and answers and counts as `StepTreats` says: only the right password is let in |
| `Sessions.InvSeparates` | internal/auth/session.go:99-118 | No token hash is stored twice, within a column or across the two |
| `Sessions.RunKeepsInv` | internal/auth/session.go:99-183 | Over every run with lookups and rotations of concurrent refreshes interleaved, each stored hash is of a token minted for that very user, row and column, and nothing dead comes back |
| `Sessions.DeathIsPermanent` | internal/auth/session.go:99-183 | In every such run all live hashes are distinct, a replaced or deleted token is never stored again, and a deleted row never returns even through a late rotate |
| `Sessions.RowsLiveTheirLifetimes` | internal/auth/session.go:109-113 | In every run each row's access and refresh expiry are the instant of its last creation or rotation plus the access and the refresh lifetime |
| `Sessions.LookUpFinds` | internal/auth/session.go:137-147 | The first half of a refresh finds a row exactly for a stored refresh token not past its expiry |
| `Sessions.RotationKills` | internal/storage/sqlcgen/sessions.sql.go:51-69 | Rotating a row kills both tokens it held and nobody else's |
| `Sessions.RevocationKills` | internal/auth/session.go:169-183 | Logging out kills exactly the two tokens of the session presented; revoking all kills exactly the user's tokens |
| `Sessions.ValidationNamesOwner` | internal/auth/session.go:120-133 | Whatever run follows, a token that is found yields the user it was minted for |
| `Sessions.SecondUseRefused` | internal/auth/session.go:135-167 | Of two complete refreshes with one token the second is refused, however far off expiry is |
| `Sessions.Manager.CreateSessionPair` | internal/auth/session.go:99-118 | Inserts one row whose two tokens were live nowhere before and which both find it; the access token is good exactly for the access lifetime from now, the refresh token for the refresh lifetime |
| `Sessions.Manager.ValidateAccess` | internal/auth/session.go:121-133 | Succeeds exactly for a stored access token not past its expiry, with the row of the user it was minted for |
| `Sessions.Manager.RefreshSession` | internal/auth/session.go:137-167 | Succeeds exactly for a stored refresh token not past its expiry, replaces both hashes of that row, kills the token presented, and otherwise changes nothing; the new pair is good exactly for the two lifetimes from now |
| `Sessions.Manager.RevokeSession` | internal/auth/session.go:170-175 | Removes exactly the rows of the access token and changes no other |
| `Sessions.Manager.RevokeAllSessions` | internal/auth/session.go:178-183 | Removes exactly the user's rows and changes no other |
| `RefreshProtocol.RunKeepsWorldInv` | web/src/api/client.ts:25-56 | In every interleaving of callers, server steps and deliveries, the pair now in the row is in the jar or in the one undelivered response |
| `RefreshProtocol.OwnCookieFindsRow` | internal/storage/sqlcgen/sessions.sql.go:42-49 | A cookie matching the client's row finds that row and no other |
| `RefreshProtocol.SingleFlight` | web/src/api/client.ts:27-56 | In every interleaving at most one refresh is outstanding, no request goes out more than twice, and the client never loses the pair in the row |
| `RefreshProtocol.RefreshNeverLosesRace` | internal/auth/session.go:137-167 | The server's lookup for a refresh sent with the cookie finds its row if and only if the row has not expired, one that found it rotates it, and the cookie is missing only within Max-Age's rounding of expiry |
| `RefreshProtocol.RetryGoesThrough` | web/src/api/client.ts:43-56 | In every reachable world whose row is not about to run out, a request answered 401 is sent a second time once server, network and browser have taken their turns |
| `RefreshProtocol.CallsGoOut` | web/src/api/client.ts:27-48 | A call sends its request once; a direct refresh joins the flight under way or starts one with the jar's cookie |
| `RefreshProtocol.UnauthorizedRefreshes` | web/src/api/client.ts:49-50 | A first 401 parks the caller on the refresh under way or a new one with the jar's cookie, its send count unchanged; every other response is returned |
| `RefreshProtocol.RefreshedRetries` | web/src/api/client.ts:50-55 | Once the refresh is settled the caller sends a second time exactly if it was accepted, and otherwise returns without |
| `RefreshProtocol.AnswerSettles` | internal/api/handlers.go:285-298 | An accepted answer puts the new cookie in the jar with its whole-second lifetime, a refused one empties the jar, and settling clears the shared promise |
| `RefreshProtocol.RefusedEarlyIffFractional` | internal/api/cookies.go:10-29 | Some run refuses a refresh before the row's expiry if and only if the refresh lifetime is at least a second and not a whole number of seconds |
| `ItemStore.UpdateKeepsInv` | internal/storage/sqlcgen/items.sql.go:53-70 | The guarded UPDATE extends an item's chain of writes by one link and disturbs no other item |
| `ItemStore.RunKeepsInv` | internal/storage/items.go:31-119 | Over every interleaving revisions only rise, owners never change, deleted items stay deleted and logged writes are never rewritten |
| `ItemStore.NoLostUpdates` | internal/storage/items.go:61-97 | Successful writes form a chain, each based on the revision its predecessor produced; no base succeeds twice; the revision is their number counting the insert, and the row is what the last one stored |
| `ItemStore.OnlySuccessWrites` | internal/storage/items.go:76-96 | A call writes exactly when it reports success, and then exactly its own ciphertext on the revision it named |
| `ItemStore.SwapIs` | internal/storage/sqlcgen/items.sql.go:53-57 | In every run the guarded statement succeeds exactly if the row is there, the user's, at that revision and can rise, and stores the ciphertext and type named, or the old type |
| `ItemStore.ClassifyIs` | internal/storage/items.go:83-92 | The check after an unmatched update answers conflict exactly if the user has the item |
| `ItemStore.InsertAndDeleteAre` | internal/storage/sqlcgen/items.sql.go:13-21 | An insert stores a fresh row at revision 1, a delete removes the owner's row, and neither touches another |
| `ItemStore.FailureMeaning` | internal/storage/items.go:83-92 | For a revision the client was really shown, by a read or as the row its own insert or update returned, a conflict means the stored revision is strictly greater by then, and not-found means the item is gone for good |
| `ItemStore.ItemsRepo.Create` | internal/storage/items.go:31-37 | Stores a fresh item at revision 1 |
| `ItemStore.ItemsRepo.Update` | internal/storage/items.go:62-97 | One call at a time: success exactly if item, owner and revision match and the next revision fits 32 bits, storing what the call named and the old type where it named none; otherwise nothing changes and the error says which of the three went wrong |
| `ItemStore.ItemsRepo.Delete` | internal/storage/items.go:111-119 | Removes exactly the owner's item and says whether there was one |
| `RecoveryRows.RunKeeps` | internal/storage/mfa.go:57-93 | Over every interleaving of listing, marking, replacing and deleting, removed rows stay removed, used rows stay used, and codes stay conserved |
| `RecoveryRows.SingleUse` | internal/storage/mfa.go:77-93 | Each code row is consumed at most once, and unused codes plus those spent since the last replacement equal those inserted |
| `RecoveryRows.RunKeepsInv` | internal/storage/mfa.go:77-93 | Over every interleaving, what a caller picked stays its own user's row with the hash it presented or is gone, and every row won is consumed |
| `RecoveryRows.SuccessConsumes` | internal/storage/mfa.go:84-90 | In every run a caller succeeds exactly when the row it picked is still there and unused as it marks it; that row is its own user's, carries the hash presented, and had never been consumed before; a caller that fails changes nothing |
| `RecoveryRows.WinnersDiffer` | internal/storage/mfa.go:84-90 | No two callers of any run are told they consumed the same row |
| `RecoveryRows.ReplacementRetires` | internal/storage/mfa.go:58-75 | A replacement leaves exactly the new codes usable, and no row it removed is ever consumed later, even by a caller that had already picked it |
| `RecoveryRows.ReplaceIs` | internal/storage/mfa.go:58-75 | A replacement leaves the user exactly the hashes given, unused, under fresh rows, and everybody else's rows as they were |
| `RecoveryRows.EveryNewCodeWorks` | internal/storage/mfa.go:77-93 | After any run, callers presenting the codes of a replacement one after the other all succeed, each on the row of its own code |
| `RecoveryRows.InsertAllKeeps` | internal/storage/mfa.go:69-73 | Inserting n codes adds n usable ones for that user, keeps every user's balance and revives no row |
| `RecoveryRows.MFARepo.ListUnused` | internal/storage/sqlcgen/mfa.sql.go:26-44 | Lists exactly the user's unused rows, each once |
| `RecoveryRows.MFARepo.ConsumeRecoveryCode` | internal/storage/mfa.go:78-93 | Succeeds exactly when the user has an unused row with that hash, marks one such row and no other, and otherwise changes nothing |
| `RecoveryRows.MFARepo.ReplaceRecoveryCodes` | internal/storage/mfa.go:58-75 | After the transaction the user's rows are exactly the hashes given, unused, and other users' rows are untouched; the loop of inserts is the replacement the run theorems use |
| `MfaLogin.RunKeepsInv` | internal/api/handlers_phase5.go:20-112 | Over every interleaving each challenge, each call in progress and each session is tied to one password check of the same user, each check to at most one of them, and each redeemed check to the one call that redeemed it |
| `MfaLogin.SessionsAccountedFor` | internal/api/handlers_phase5.go:55-118 | Every session stems from a password check of its own; one for a user read as TOTP-enabled had its challenge redeemed less than 5 minutes after the password and exactly one second factor judged, and accepted |
| `MfaLogin.ChallengeIsSpent` | internal/storage/sqlcgen/mfa.sql.go:64-71 | A challenge presented in time is gone at once, whatever else the body holds; no later run restores it or judges a second factor for it twice |
| `MfaLogin.BothFactorsLetIn` | internal/api/handlers_phase5.go:20-118 | After any run, for five minutes after a matched password, whatever else happens, presenting the challenge with an accepted second factor opens a session for that user, and a refused or missing one none |
| `MfaLogin.SettingDecides` | internal/api/handlers.go:243-274 | With TOTP set on a right password yields a challenge good for five minutes and no session; set off, a session |
| `MfaLogin.Server.ConsumeChallenge` | internal/storage/mfa.go:100-110 | Returns a challenge exactly if it is stored and unexpired, and deletes it as it does |
| `MfaLogin.Server.Verify` | internal/api/handlers_phase5.go:78-101 | Judges the factor once, or not at all when none was given, and ends the call unless it was accepted |
| `MfaLogin.Server.PasswordMatched` | internal/api/handlers.go:243-274 | Over the stored rows: a user read as TOTP-enabled gets a challenge and no session, any other a session at once; the step is the one of the run theorems |
| `MfaLogin.Server.PostLoginMfa` | internal/api/handlers_phase5.go:56-112 | Over the stored rows: a session opens exactly for a live challenge with an accepted factor, for the challenge's user; the challenge is gone even when the factor fails or is missing; the whole handler is three steps of the run theorems with nothing between |
| `RecoveryLogin.RunKeepsInv` | internal/api/handlers_phase5.go:67-101 | With every statement of logins and of other uses of codes interleaved, a request's factor is accepted only if the request itself won a row of its own user with the code it presented |
| `RecoveryLogin.SessionsConsumeDistinctRows` | internal/api/handlers_phase5.go:56-118 | End to end: every session opened with a recovery code has consumed a row listed for its own user under the hash presented, and no two such sessions the same row |
| `RecoveryLogin.UnusedCodeLetsIn` | internal/api/handlers_phase5.go:78-110 | In every run a request presenting a code whose hash is in an unused row of its user gets a session, and the row is used |
| `RecoveryCode.FormatSpells` | internal/mfa/totp.go:63-70 | A generated code writes out its four bytes' digits |
| `RecoveryCode.FormatReads` | internal/mfa/totp.go:63-70 | A code reads as its four bytes in hexadecimal, in order, high digit first, with a dash in the middle |
| `RecoveryCode.FormatNormalizes` | internal/mfa/totp.go:72-77 | The normal form of a generated code is its eight hexadecimal digits |
| `RecoveryCode.RespellingVerifies` | internal/mfa/totp.go:72-83 | Any respelling by letter case, dashes and outer white space has that normal form |
| `RecoveryCode.VerifiesIffRespelling` | internal/mfa/totp.go:72-83 | A string verifies against a generated code's hash if and only if it writes the digits in order, in either case, with dashes anywhere among them and white space only around the whole |
| `RecoveryCode.SmallLettersVerify` | internal/mfa/totp.go:72-83 | On literal letters: a code typed small, without its dash, between a blank and a line break, verifies |
| `RecoveryCode.HexInjective` | internal/mfa/totp.go:68-68 | Different bytes have different digits |
| `RecoveryCode.RespellingsAgreeIffSameBytes` | internal/mfa/totp.go:63-83 | Respellings of two codes have equal hashes if and only if the codes came from the same four bytes |
| `RecoveryCode.DashOutsideSpaceRefused` | internal/mfa/totp.go:74-74 | Dashes are removed after trimming, so a code behind a dash and a space is refused |
| `RecoveryCode.GenerateRecoveryCodes` | internal/mfa/totp.go:49-61 | Ten codes, each verifying against its own hash and against another's exactly when their random bytes coincide |
| `PasswordGenerator.GeneratePassword` | cmd/wasm/main.go:192-235 | For lengths 1 to 128 and a nonempty choice of classes the output is the first `length` letters drawn from the accepted bytes of the concatenated reads; it wants more random bytes exactly when those give too few; other lengths and an empty choice are refused |
| `PasswordGenerator.TakeFrom` | cmd/wasm/main.go:225-232 | One pass over a refilled buffer draws what its accepted bytes stand for, stops at the length, and breaks off early only then |
| `PasswordGenerator.CharacterWeight` | cmd/wasm/main.go:215-227 | Every character of the charset is hit by exactly maxByte / n accepted bytes |
| `PasswordGenerator.StringsForExact` | cmd/wasm/main.go:226-228 | The counted set holds exactly the accepted byte strings that spell the word |
| `PasswordGenerator.Unbiased` | cmd/wasm/main.go:215-232 | Every word of a given length over a charset without repeats is spelled by exactly (maxByte / n)^length accepted byte strings |
| `PasswordGenerator.DrawOfAccepted` | cmd/wasm/main.go:226-227 | Accepted bytes stand for charset[b % n], one character each |
| `PasswordGenerator.DrawIsOfAccepted` | cmd/wasm/main.go:225-232 | Whatever bytes are read, the letters drawn are those of the accepted ones, one each and in order |
| `PasswordGenerator.GeneratorUnbiased` | cmd/wasm/main.go:192-235 | For every choice of classes, the accepted byte strings the generator turns into a given word number exactly (maxByte / n)^length, the same for every word |
| `PasswordGenerator.CharsetDistinct` | cmd/wasm/main.go:184-210 | No choice of classes lists a character twice |
| `PasswordGenerator.CharsetIs` | cmd/wasm/main.go:184-210 | The charset is exactly the capital letters, small letters, digits and symbols of the classes chosen |
| `PasswordGenerator.MaxByteIsLargest` | cmd/wasm/main.go:215-217 | Bytes are accepted below the largest multiple of the charset's length up to 256 |
| `Pagination.GetActivityHandler` | internal/api/handlers_phase5.go:290-333 | The response loop lists the page's events in order, field by field with an empty user agent left out, and carries the cursor of the page the paging theorems are about |
| `Pagination.DescendingUnique` | internal/storage/sqlcgen/audit.sql.go:44-44 | With distinct instants the query's order is determined by its rows |
| `Pagination.OlderOfSort` | internal/storage/sqlcgen/audit.sql.go:43-44 | Cutting the rows at the cursor's instant before sorting or after is the same, ties or no ties |
| `Pagination.RestIsSuffix` | internal/storage/sqlcgen/audit.sql.go:39-45 | After the k-th event the query finds exactly what followed it and the events tied with it at the start, whatever newer events were appended since, ties or no ties |
| `Pagination.PageAfter` | internal/api/handlers_phase5.go:290-331 | For limits 1 to 100 each page is the next `limit` events past those tied with the cursor's, with a cursor to its last event exactly if more are left |
| `Pagination.FollowDelivers` | internal/api/handlers_phase5.go:279-333 | What following the cursors delivers depends on the first log alone, however many newer events are appended between pages |
| `Pagination.PagesNeededExact` | internal/api/handlers_phase5.go:297-300 | The number of pages is max(1, ceil(n / limit)), by the two inequalities that define it |
| `Pagination.PagesPartition` | internal/api/handlers_phase5.go:279-333 | For limits 1 to 100 and distinct instants, following the cursors returns every event present at the first request exactly once, newest first, on just enough pages, undisturbed by appends between pages |
| `Pagination.CompleteIff` | internal/storage/convert.go:79-84 | For any positive limit, with or without ties, the cursors reach every event if and only if no page break falls inside a tie (limits up to 100) or there are at most 51 events (limits beyond) |
| `Pagination.TiesAreSkipped` | internal/storage/sqlcgen/audit.sql.go:43-43 | If the first page break falls inside a tie, the event right after it is on no page at all |
| `Pagination.TiedLogLosesEvent` | internal/storage/sqlcgen/audit.sql.go:43-43 | A concrete log: of two events at one instant listed one to a page, the second is lost |
| `SymbolicCrypto.OpenInvertsSeal` | internal/crypto/aead.go:36-70 | What was sealed opens to its plaintext if and only if key and associated data are those it was sealed with, and errs otherwise |
| `SymbolicCrypto.UnlockNeedsPassword` | internal/crypto/crypto.go:68-109 | A wrapped vault key unwraps if and only if the password, the address and the derivation parameters are all those it was wrapped under |
| `KeyChange.Server.UpdateItem` | internal/api/handlers.go:482-530 | Succeeds exactly if the row is the session user's and stores exactly the revision named, between 1 and one below the largest INTEGER; then the ciphertext is replaced and the revision one higher; otherwise nothing changes |
| `KeyChange.Server.UpdateKey` | internal/api/handlers.go:342-394 | Replaces all credential columns at once, the hash salted afresh, or none |
| `KeyChange.MovableIff` | internal/api/handlers.go:499-513 | When an entry can be moved, spelled out: it opens, and the row stored is the user's at that revision, in range |
| `KeyChange.MoveNext` | web/src/components/ChangePasswordModal.tsx:67-75 | One turn of the loop keeps its invariant: entries before i open under the new key, the others are as they were |
| `KeyChange.AllMovedPreserves` | web/src/components/ChangePasswordModal.tsx:66-76 | When the list shown was current and all of it moved, every item opens to its old plaintext under the new key, one revision on and otherwise the same |
| `KeyChange.ReencryptItems` | web/src/components/ChangePasswordModal.tsx:66-76 | The loop moves a prefix of the list and nothing else, and stops early exactly at the first entry that does not open or is out of date |
| `KeyChange.AbandonedRotationStrands` | web/src/components/ChangePasswordModal.tsx:66-93 | After a rotation that stops half way an item already moved opens under the account's key if and only if the key drawn is that key; an item not yet reached is as it was |
| `KeyChange.RotateItems` | web/src/components/ChangePasswordModal.tsx:66-76 | The loop completes if and only if every entry shown can be moved, which for an up-to-date list is that every entry opens and its revision can rise; and then it preserves every item |
| `KeyChange.PrepareCredentials` | web/src/components/ChangePasswordModal.tsx:60-64 | What it sends authenticates the new password, and the wrapped key unwraps under the new password, and no other, to the vault key given |
| `KeyChange.HandleSubmit` | web/src/components/ChangePasswordModal.tsx:36-93 | With an up-to-date list it completes if and only if the form is valid, the current password unlocks and, when rotating, every entry opens and its revision can rise; then the new password and no other logs in and unlocks the key in memory, every item keeps its plaintext, and the wrapped TOTP secret, left as it was, opens under that key if and only if the key is the old one; without rotation no item changes; on failure the credentials are as before |
| `KeyChange.RotationLosesTotp` | web/src/components/ChangePasswordModal.tsx:66-84 | A run that loses the TOTP secret: with rotation and any newly drawn key that differs, the change completes and the stored secret no longer opens |
| `ZeroKnowledge.SafeClosed` | internal/crypto/keys.go:39-60 | The fence is closed under derivation to any depth by Argon2id, HKDF, sealing and opening |
| `ZeroKnowledge.StepKeepsFence` | internal/crypto/crypto.go:68-109 | No message of registering, logging in, writing items, 2FA or changing keys crosses the fence |
| `ZeroKnowledge.RunKeepsFence` | README.md:23-23 | Nor does any run of them |
| `ZeroKnowledge.LeakIsContained` | README.md:23-23 | Someone with all the server ever knew and some users' passwords derives no other password, no key made from one, no vault key never wrapped under a leaked password, no item never sealed under such a key and no TOTP secret never sent |
| `ZeroKnowledge.ServerNeverLearns` | README.md:23-23 | In every run nothing derivable, to any depth, from all the server ever received (refused requests included), made or stored is a master password, master key, stretched key, vault key, item plaintext, or TOTP secret not sent in the clear |
| `ZeroKnowledge.ServerHears` | web/src/components/RegisterForm.tsx:58-71 | The secrecy theorems are about no less than what is sent: every hash, wrapped key, sealed item and code of every step is known to the server from then on |
| `ZeroKnowledge.TotpKnownIffSent` | web/src/components/LoginForm.tsx:102-112 | The exact limit of the claim: the server can derive a TOTP secret if and only if some step of the run submitted it or a registered user enrolled it |
| `ZeroKnowledge.StepKeepsReadable` | web/src/components/ChangePasswordModal.tsx:51-82 | Every step, a change of keys and an abandoned rotation included, keeps each account's stored key unwrapping under its password and each item vouched for opening to what was last written |
| `ZeroKnowledge.PasswordRecoversItems` | web/src/components/LoginForm.tsx:30-50 | In every run what the server stores and the current password give back every item last written or moved under the current vault key |
| `ZeroKnowledge.WriteTakesEffect` | internal/storage/items.go:31-37 | An accepted write stores the item so that it opens under the account's vault key to what was written, and touches no other item or account |
| `ZeroKnowledge.RunTracks` | web/src/components/ChangePasswordModal.tsx:51-82 | In every run a user's password, address and vouched-for items are those the list of actions alone says were last chosen and written |
| `ZeroKnowledge.LastWriteIsReadable` | web/src/components/LoginForm.tsx:30-50 | In every run the item stored opens to the plaintext last written, under the key the password last chosen unwraps, unless an abandoned rotation re-sent it or a completed one did not show it |
| `ZeroKnowledge.PasswordIsTheOnlyBarrier` | internal/crypto/aead.go:54-83 | The same as derivation: stored key, item and password yield the plaintext in four steps, so the secrecy theorems are not true for want of derivations |

## Left out

- HTTP routing, middleware, CORS and CSRF headers, cookie attributes other than Max-Age, configuration, generated API code: plumbing without a deep property.
- React rendering, clipboard, auto-lock, breach lookup, import and export: user interface and I/O.
- The arithmetic of Argon2id, HKDF, XChaCha20-Poly1305 and SHA-256, Base64, JSON and key or nonce lengths beyond telling a 32-byte key from other terms.
- TOTP code checking (RFC 6238): a boolean that may take any value.
- Database and random-source failures, response encoding errors, nil receivers, `time.Sleep`, timing equalisation and constant-time comparison.
- The mutexes of the limiters: their methods are atomic here, which is what the mutexes provide.
- Registration limiting, user rows, cascading deletes and the audit events written along the way.
- Recovering from a re-encryption loop that stops half way: the code has no way back, so `ZeroKnowledge` stops vouching for the items `AbandonedRotationStrands` shows to be stranded.
- RateLimiting.RateLimiter.Allow: requires a clock that never goes back; Go's `time.Now` gives that within one process.
- LoginGate.Manager.PostLogin: takes a whole attempt as one atomic step with one clock reading; the interleavings of several handlers between their gates and their failure recording are not modelled, and a lock need not survive them. Attempts with an undecodable body, which pass no gate, are not attempts.
- RefreshProtocol.SingleFlight: assumes that responses arrive, that one browser tab holds the cookies and that no login, logout or account deletion touches its row; the shared promise is a state machine, since its interleaving is the point.
- RefreshProtocol.RefusedEarlyIffFractional: a cookie without Max-Age, as a lifetime under one second produces, is taken never to age out.
- Sessions.Manager.RefreshSession: reads the clock once where the code reads it for the check and again for the new expiry; the step relation has the two readings apart.
- ItemStore.ItemsRepo.Update: one call with nothing in between; the two statements are interleaved in the step relation. `updated_at` and the order of listing are not modelled.
- RecoveryRows.MFARepo.ReplaceRecoveryCodes: the transaction is one atomic step in the step relation.
- MfaLogin.Server.PasswordMatched: the read of the user row and the insert of the challenge are one step; failing to insert is not modelled. The list of password checks is history kept in a real field, because rows are numbered by it.
- RecoveryLogin.SessionsConsumeDistinctRows: the mark and the verdict drawn from it are one step, as nothing is shared between them; requests are told apart by a number of their own.
- RecoveryCode.VerifiesIffRespelling: upper-casing is modelled for ASCII letters only; no other character's upper case is a hexadecimal digit, so the condition is the same.
- PasswordGenerator.GeneratePassword: the random reads are a finite list, and running out of them is an outcome of its own; that uniform bytes eventually suffice is not stated.
- Pagination.CompleteIff: assumes appended events strictly newer than the user's own; the order of tied rows, which SQL leaves open, is fixed here, and resource ids and metadata of events are not kept. Limits below 1 never reach the handler (internal/api/handlers_phase5.go:336-351).
- KeyChange.HandleSubmit: nobody else writes during the submission; `rotate` keeps its promise for every item only if the list shown is current. The two checks on the form's text are one boolean, and the two network calls always get an answer.
- ZeroKnowledge.ServerNeverLearns: deleting items, sessions and their tokens, and guessing weak passwords offline are outside the term model.
