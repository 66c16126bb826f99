# A model of the kora-2fa enrolment and lockout protocol

The service keeps three tables: a record per user (flags, sealed TOTP secret, failure counter, lock), backup
codes, and an audit log. Five handlers write them: `enable`, `verify`, `login`, `disable`, `recover`. A handler
captures the clock, loads a snapshot of the user's record in one `SELECT`, decides from that snapshot, and then
commits one transaction or one `UPDATE` without looking again. This project models those handlers over a database
value and proves what they keep.

There are two layers over the same functions.

* **Interleaved** (`Interleaved`, `Lifecycle`, `Provenance`, `Lockout`, `Burst`, `Batches`, `Redemption`, `Paging`). Any number of
  requests are in flight. Arriving, loading the snapshot, checking the token or scanning the codes, committing, and
  the final count of `recover` are separate steps; anything may happen between any two. Commits are atomic, and
  one that breaks a table constraint changes nothing.
* **Serial** (`Serial`, `SerialRate`, `Refinement`, `Projection`, `EnrolmentRoundTrip`). One request after the other.
  Facts that rest on the snapshot still being true live here. `Interleaved.SerialSchedule` and
  `Schedules.RunIsSchedule` show that serial runs are particular interleavings, so everything proved of all
  interleavings holds of them as well.

`Endpoints` states over those functions, without their helpers, what each endpoint answers and leaves behind:
statuses, token format, window, stored rows and logged events, with the numbers written out.

`Service.Database` is the imperative form: a class with the tables as fields whose methods run the handlers'
statements, each proved to do to the tables exactly what the value-level `Handlers.Handle` does. `Handlers` cuts a
handler at the points where it touches the database; both layers and the class share those functions.

`System` carries history that the service does not store: per user, the failures since the last reset (who
committed them, with which captured clock, when, and which guesses were in flight), the number of resets and of
enrolments, which request committed the latest enrolment, and the id at which its batch of codes starts; per request,
how much of that there was when it loaded its snapshot. No step's effect on the tables depends on it.

Modelling choices: times are integers in microseconds; AES-GCM is an ideal cipher that opens under its own key and
nonce only; an Argon2 hash is the normalised code it hashes; the TOTP of a secret at a step is an arbitrary function;
the labels a TOTP can be built from are an arbitrary predicate; random draws and the success of the cryptographic
calls are inputs of `enable`.

Where the code and its documents differ, the model follows the code:

* the comment above the backup-code alphabet rules out `L`; the alphabet contains it (`Crypto.AlphabetExactly`);
* ASSUMPTIONS.md section 10 says `recover` clears the backup codes; it leaves the other nine in the table, and they
  go with the next `enable` or `disable` (`Serial.CodeStock`);
* a lock that runs out leaves the counter where it was, so each later wrong guess locks again at once
  (`Lockout.FailureAnswer`, `SerialRate.SerialGuessRate`).

## Model

| member | source | states |
|---|---|---|
| `Lockout.CounterExact` | crates/kora-2fa/src/routes/twofa.rs:367-401 | In every reachable state of every interleaving the counter is the number of failures committed since the last reset; there is a lock exactly from the fifth on, ending 15 minutes after the clock reading of the latest failure. |
| `Lockout.FailureAnswer` | crates/kora-2fa/src/routes/twofa.rs:396-411 | A failed check is always counted and is answered 423 exactly when it is at least the fifth since the last reset, else 401. |
| `Lockout.LateFailuresOverlap` | crates/kora-2fa/src/routes/twofa.rs:232-249 | Past the fourth failure, a request whose failure commits within less than the lockout minus the commit delay of another's had loaded its snapshot before that other one committed. |
| `Lockout.WindowHoldsWidth` | crates/kora-2fa/src/routes/twofa.rs:302-319 | So such a window holds no more failures than there were guesses in flight. |
| `Lockout.GuessRateBound` | crates/kora-2fa/src/routes/twofa.rs:224-249 | Under every interleaving, with at most `width` guesses in flight and commits at most `delay` after arrival, the failures in any span of time number at most 4 + width * (1 + span / (15 min - delay)). |
| `Burst.BurstAnswers` | crates/kora-2fa/tests/integration.rs:513-585 | N concurrent wrong guesses at an active record with counter c, under every interleaving and beside any other users' requests, get exactly min(N, max(0, 4 - c)) answers 401 and the rest 423; the counter ends between c and c + N, and short of c + N only if it is at least five (past that the lock may stop a guess before it is counted). The two concurrency tests for all N and c, with the final counter. |
| `Burst.CheckInBurst` | crates/kora-2fa/src/db/models.rs:204-209 | A wrong guess is stopped by the lock its snapshot shows, and then the counter is at least five, or goes on to record a failure. |
| `Lifecycle.RecordsWellFormed` | migrations/0001_init.sql:39-43 | Every reachable record satisfies both constraints and is never enabled and pending at once; every pending UPDATE finds its row. |
| `Lifecycle.SnapshotsUsable` | crates/kora-2fa/src/routes/twofa.rs:346-356 | Every snapshot ever loaded yields its TOTP, or the 401 of a record without a secret, never a 500; the secret is the one sealed with the stored nonce. |
| `Lifecycle.LateVerifyAborts` | crates/kora-2fa/src/routes/twofa.rs:252-272 | A commit is refused exactly when a `verify` reaches a record that has lost its secret, and then tables and counter stay as they are. |
| `Lifecycle.AbortsIff` | migrations/0001_init.sql:39-43 | No other write can break a constraint. |
| `Lifecycle.IdleUntilEnable` | migrations/0001_init.sql:22-27 | No interleaving takes an idle record out of idle without a committed `enable`. |
| `Lifecycle.ExecSafe` | crates/kora-2fa/src/routes/twofa.rs:80-96 | No record ever disappears, and no step breaks what every reachable state has: both constraints, flags that exclude each other, a ciphertext that opens under the stored nonce, labels a TOTP can be built with. |
| `Provenance.WrittenByOneEnable` | crates/kora-2fa/src/routes/twofa.rs:68-96 | Under every interleaving the ciphertext, nonce, issuer and email of a stored secret, and of any snapshot holding one, are together those of a single successful `enable` of that user whose sealing and TOTP construction succeeded. |
| `Provenance.VerifyEnablesChecked` | crates/kora-2fa/src/routes/twofa.rs:252-272 | A `verify` that commits enables the tuple of the latest committed `enable`, which is the one its token was checked against if and only if no `enable` of that user has committed since it loaded its snapshot. |
| `Provenance.VerifyEnablesCheckedSecret` | crates/kora-2fa/src/routes/twofa.rs:252-272 | Where `enable` never draws a secret twice, the enabled secret is the one the token was right for under the same condition exactly. |
| `Provenance.UncheckedSecretEnabled` | crates/kora-2fa/src/routes/twofa.rs:224-272 | The other case happens: for any two enrolments of a user and any token right for the first, some interleaving answers the `verify` with success and enables the secret of the second. |
| `Lifecycle.HistoryOnlyGrows` | migrations/0001_init.sql:46-53 | Redeemed codes are never deleted nor made redeemable again; the audit log only grows at its end. |
| `Batches.OneBatchAtATime` | crates/kora-2fa/src/routes/twofa.rs:106-124 | Under every interleaving a user's redeemable codes are rows of the latest committed enrolment, at most ten, with distinct indices. |
| `Batches.CodeRowsWellFormed` | migrations/0001_init.sql:54-66 | Every reachable code row is consumed exactly when it has a consumption time, and no two rows share an id. |
| `Batches.IdsNeverReturn` | migrations/0001_init.sql:54-66 | Ids are never reused: the sequence only moves forward, and an id it has passed that no row bears is borne by none later. |
| `Redemption.EveryRedemptionLogged` | crates/kora-2fa/src/routes/recovery.rs:62-93 | Under every interleaving the consumed codes never outnumber the `recovered` events. |
| `Redemption.RedemptionSpendsIff` | crates/kora-2fa/src/routes/recovery.rs:63-84 | A pending redemption never fails, and spends one more code exactly when the row its scan found is still there and unconsumed. |
| `Interleaved.SerialSchedule` | crates/kora-2fa/src/routes/mod.rs:148-165 | The steps of one request taken back to back have the effect and the answer of the handler run on its own. |
| `Schedules.RunIsSchedule` | crates/kora-2fa/src/routes/twofa.rs:1-7 | Every serial run is one of the interleavings: same tables, same clock, and every request answered the same. |
| `Serial.RedeemableFromOneEnrolment` | crates/kora-2fa/src/routes/twofa.rs:106-124 | In a serial run every redeemable code is one of the ten rows of its user's last successful `enable`, numbered from the first id that call took. |
| `Serial.AuditReplays` | crates/kora-2fa/src/routes/twofa.rs:252-272 | Every user's audit log in every serial run is accepted by the Off/On automaton, which ends On exactly when the record is enabled. |
| `Serial.CodeStock` | crates/kora-2fa/src/routes/twofa.rs:106-124 | An active or pending record has exactly ten redeemable codes numbered 0 to 9; an idle one nine after `recover`, none after `disable`. |
| `Serial.RecoverAnswersNine` | crates/kora-2fa/src/routes/recovery.rs:22-106 | `recover` succeeds exactly for the user's own enabled record and a code one of the unconsumed rows redeems, and always answers nine. |
| `Serial.RedemptionsConserved` | crates/kora-2fa/src/routes/recovery.rs:140-145 | The recovery-log total equals the number of `recovered` events. |
| `Serial.RedemptionsCounted` | crates/kora-2fa/src/routes/recovery.rs:140-145 | It equals the number of successful `recover` answers the user was given, so no row is redeemed twice. |
| `Serial.RedeemsOneRow` | crates/kora-2fa/src/routes/recovery.rs:50-68 | A successful `recover` changes one code row of the table, the user's own and unconsumed until then; no other request consumes any. |
| `Serial.OthersUntouched` | crates/kora-2fa/src/middleware/auth.rs:28-36 | No request changes another user's record, code rows or audit rows, not even the UPDATE by id in `recover`. |
| `SerialRate.SerialGuessRate` | crates/kora-2fa/src/routes/twofa.rs:379-391 | From any state of a serial run with counter c, the failures before the next success within time T number at most max(1, 5 - c) + T / 15 min. |
| `SerialRate.UnsuccessfulCall` | crates/kora-2fa/src/routes/twofa.rs:232-249 | A request that does not succeed leaves the record alone or records one failure, which the lock let through. |
| `Refinement.HandlerSimulates` | crates/kora-2fa/src/routes/twofa.rs:35-340 | Every handler does to the two flags, two blobs, counter and deadline what the machine absent / idle / pending / active does to its state, and answers the same. |
| `Refinement.RunSimulates` | ASSUMPTIONS.md:195-209 | A user's account after any run of many users is that machine run on the user's own requests, answer by answer. |
| `Refinement.ScanIsMembership` | crates/kora-2fa/src/routes/recovery.rs:38-59 | The candidate scan finds a row exactly when the normalised code is among the account's codes. |
| `Refinement.IdleIsClean` | crates/kora-2fa/src/routes/twofa.rs:176-185 | In every serial run an idle record has a zero counter and no lock. |
| `Projection.RunProjects` | crates/kora-2fa/src/middleware/auth.rs:28-36 | Dropping all other users' requests from a run changes neither a user's answers nor the user's rows, up to the ids of the shared sequences. |
| `Projection.SameAnswer` | crates/kora-2fa/src/routes/recovery.rs:38-84 | Databases that look alike to a user answer that user alike and go on looking alike. |
| `EnrolmentRoundTrip.SecretActivates` | crates/kora-2fa/src/routes/twofa.rs:68-133 | After `enable` and any requests of others, a token generated from the returned secret within 30 seconds of the check activates the account. |
| `EnrolmentRoundTrip.CodesRecover` | crates/kora-2fa/src/crypto.rs:96-104 | Once active, `recover` accepts a string exactly when it is one of the returned codes up to letter case and separators. |
| `Endpoints.OnlySelf` | crates/kora-2fa/src/middleware/auth.rs:28-36 | Every request but `login` whose bearer is not the addressed user is answered 403 and changes nothing, whatever the tables hold. |
| `Endpoints.RefusedOnArrival` | crates/kora-2fa/src/routes/twofa.rs:35-48 | In any interleaving a request is refused before its first read exactly with 403 for another user's account or, for `enable`, 400 for a blank id or a bad address; every other one goes on, with the `now` of its arrival. |
| `Endpoints.ArrivalTimeStays` | crates/kora-2fa/src/routes/twofa.rs:224-236 | That `now` stays what it was through every later step of the request or of others. |
| `Endpoints.TokenChecked` | crates/kora-2fa/src/routes/twofa.rs:232-252 | In any interleaving the lock is read off the snapshot at the arrival's `now`, the token is compared with the three 30-second steps around the clock of the check, and only a wrong well-formed token goes on to be counted. |
| `Endpoints.SecretExactly` | crates/kora-2fa/src/routes/twofa.rs:346-356 | Whatever a record holds: without ciphertext or nonce it gives the 401, with ones that do not open under the key or a TOTP that cannot be built the 500, else the secret. |
| `Endpoints.VerifyAnswers` | crates/kora-2fa/src/routes/twofa.rs:216-279 | When `verify` answers 423, 401, 400, 500, activated or verified, each if and only if, and what it makes of the record: on from pending with a clean counter, one failure more with a 900-second lock from the fifth, or nothing. |
| `Endpoints.LoginAnswers` | crates/kora-2fa/src/routes/twofa.rs:287-340 | Likewise for `login`, which an account that is only pending cannot use. |
| `Endpoints.UnknownUser` | crates/kora-2fa/src/routes/twofa.rs:228-231 | Without a record `verify` and `login` answer their two 401s, `disable` and `recover` 404. |
| `Endpoints.MalformedToken` | crates/kora-2fa/src/totp.rs:66-68 | Whatever the tables hold, a token that reaches the format check gets 400, uncounted, exactly when it is not six characters from 0 to 9. |
| `Endpoints.FifthFailureLocks` | crates/kora-2fa/src/routes/twofa.rs:379-411 | The fifth wrong token is answered 423; for 900 seconds every guess, right or wrong, is refused and changes nothing; from then on the right one succeeds. |
| `Endpoints.DisableAnswers` | crates/kora-2fa/src/routes/twofa.rs:140-208 | When `disable` answers 404, 400, 500, 401 or success, each if and only if; success empties the record and removes exactly the user's unredeemed rows. |
| `Endpoints.RecoverAnswers` | crates/kora-2fa/src/routes/recovery.rs:22-84 | When `recover` answers 404, 401 or success, each if and only if, by whether some unredeemed row of the user holds the hash of the code; success empties the record. |
| `Endpoints.RemainingIsCounted` | crates/kora-2fa/src/routes/recovery.rs:86-106 | In any interleaving the number answered is the number of the user's unredeemed rows when the last query runs. |
| `Endpoints.StockCounted` | crates/kora-2fa/src/routes/recovery.rs:140-145 | The redeemed rows, which make the recovery-log total, and the unredeemed ones are counted row by row of the table. |
| `Endpoints.EnableAnswers` | crates/kora-2fa/src/routes/twofa.rs:35-104 | When `enable` answers 400, 409, 500 or success, each if and only if, and the pending record it stores. |
| `Endpoints.EnableShows` | crates/kora-2fa/src/crypto.rs:60-74 | The answer holds the drawn secret and ten codes `XXXX-XXXX`, the i-th spelling the i-th draw in the alphabet, so different draws give different codes. |
| `Endpoints.EnableStoresCodes` | crates/kora-2fa/src/routes/twofa.rs:106-124 | The user's unredeemed rows go, every other row stays, and ten follow: numbered 0 to 9, unredeemed, with the next ids and the hashes of the codes shown. |
| `Endpoints.EventLogged` | crates/kora-2fa/src/routes/mod.rs:168-188 | Each success appends the one audit row that names it (`enabled`, `verified`, `disabled`, `login`, `recovered`; none for `enable`), for that user and with that time; a refusal appends nothing. |
| `Endpoints.ReplyOf` | crates/kora-2fa/src/routes/twofa.rs:262-279 | Each kind of success comes from its own endpoint alone. |
| `Service.Database.Enable` | crates/kora-2fa/src/routes/twofa.rs:35-133 | The statements of `enable` leave the tables and the answer of `Handlers.Handle`; no constraint stops them. |
| `Service.Database.InsertCodes` | crates/kora-2fa/src/routes/twofa.rs:115-124 | The insert loop appends one row per hash, numbered by position, with ids from the sequence. |
| `Service.Database.Disable` | crates/kora-2fa/src/routes/twofa.rs:140-208 | Likewise for `disable`. |
| `Service.Database.Verify` | crates/kora-2fa/src/routes/twofa.rs:216-279 | Likewise for `verify`. |
| `Service.Database.Login` | crates/kora-2fa/src/routes/twofa.rs:287-340 | Likewise for `login`. |
| `Service.Database.Recover` | crates/kora-2fa/src/routes/recovery.rs:22-106 | Likewise for `recover`. |
| `Service.Database.RegisterFailure` | crates/kora-2fa/src/routes/twofa.rs:367-401 | The single UPDATE is the atomic failure write, and its answer comes from the row it wrote. |
| `Tables.FirstMatch` | crates/kora-2fa/src/routes/recovery.rs:38-59 | The scan returns a redeemable row of least index among all that match, and none only if none matches. |
| `Candidates.QueryFinds` | crates/kora-2fa/src/routes/recovery.rs:38-53 | The first row that verifies of the unconsumed ones in `code_index` order is that row. |
| `Service.Database.FindMatch` | crates/kora-2fa/src/routes/recovery.rs:50-53 | The loop over the candidates stops at the first that verifies, and finds none exactly when none does. |
| `Service.Database.DeleteUnconsumed` | crates/kora-2fa/src/routes/twofa.rs:106-113 | The deletion drops exactly the user's unconsumed rows and keeps the others in order. |
| `Paging.WalkReturnsAll` | crates/kora-2fa/src/routes/recovery.rs:161-206 | Reading pages 0, 1, 2, ... until a short one, while any requests run between the reads, returns every row the user had in the log at the first read. |
| `Paging.OffsetIsRank` | crates/kora-2fa/src/routes/recovery.rs:175-192 | In the order `created_at DESC, id DESC` a row's offset is the number of newer rows. |
| `Paging.AuditLogAnswers` | crates/kora-2fa/src/routes/recovery.rs:161-173 | The log is refused with 403 exactly to anyone but its user, with 404 exactly if that user has no record, and shown otherwise. |
| `Paging.PageShows` | crates/kora-2fa/src/routes/recovery.rs:175-206 | A page holds that user's rows from its offset on, newest first by time and then id, as many as fit or are left, with the page number and the total of the user's rows. |
| `Paging.AuditOfExactly` | crates/kora-2fa/src/routes/recovery.rs:183 | The rows selected are all of the user's and no other. |
| `Paging.ListingSorts` | crates/kora-2fa/src/routes/recovery.rs:175-192 | The listing is the user's rows, each once, in that order. |
| `Paging.PagesTile` | crates/kora-2fa/src/db/models.rs:77-81 | On an unchanging log the pages laid end to end are the listing. |
| `Paging.Resolve` | crates/kora-2fa/src/db/models.rs:69-75 | A missing page is 0 and a missing size 20; the result is the nearest page from 0 on and the nearest size from 1 to 100. |
| `Crypto.SealOpen` | crates/kora-2fa/src/crypto.rs:37-57 | A sealed secret opens exactly under its own key and 96-bit nonce. |
| `Crypto.NormalizeIdempotent` | crates/kora-2fa/src/crypto.rs:99-104 | Normalising twice is normalising once. |
| `Crypto.NormalizeConcat` | crates/kora-2fa/src/crypto.rs:99-104 | Normalising respects concatenation. |
| `Crypto.NormalizeCharacter` | crates/kora-2fa/src/crypto.rs:99-104 | Capitals and digits stay, a small letter becomes its capital, any other character is dropped. |
| `Crypto.NormalizeEqualIffReformats` | crates/kora-2fa/src/crypto.rs:96-104 | Two strings normalise alike exactly when they differ only in letter case and non-alphanumeric separators. |
| `Crypto.BackupCodesInjective` | crates/kora-2fa/src/crypto.rs:60-74 | Different draws give codes that stay different after normalisation. |
| `Crypto.AlphabetExactly` | crates/kora-2fa/src/crypto.rs:15-16 | The alphabet is every capital but I and O and every digit but 0 and 1. |
| `Totp.GeneratedTokenAccepted` | crates/kora-2fa/src/totp.rs:10-13 | A token is accepted at every instant within 30 seconds of its generation. |
| `Totp.WindowBySeconds` | crates/kora-2fa/src/totp.rs:102-110 | Instants within 30 seconds fall at most one step apart, instants 60 seconds or more apart at least two. |
| `Totp.AcceptedIffInWindowOrRepeated` | crates/kora-2fa/src/totp.rs:58-62 | For every secret, a token is accepted exactly when its step is in the window or the secret repeats its code there; 60 seconds or more away, exactly in the latter case. |
| `Validation.EnableAccepted` | crates/kora-2fa/src/routes/twofa.rs:40-48 | `enable` is let through exactly for the caller's own non-blank id and an address with an `@` that is more than one or two ASCII characters. |
| `Validation.IssuerLabel` | crates/kora-2fa/src/routes/twofa.rs:49-55 | A missing or blank issuer becomes the default; any other loses its outer white space only. |
| `Text.WhitespaceExactly` | crates/kora-2fa/src/routes/twofa.rs:43-55 | The white space that trimming takes off is the 25 code points of Unicode. |
| `Retry.ConnectWithBackoff` | crates/kora-2fa/src/db/mod.rs:45-82 | Connects at the first attempt that succeeds, gives up after exactly max(1, max_attempts) failures, sleeps after every other failure, and never reaches the end of the loop. |
| `Retry.TotalDelay` | crates/kora-2fa/src/db/mod.rs:28-30 | The sleeps after n failures add up to base * (2^n - 1), growing linearly once the exponent is capped. |
| `Retry.DelayMonotone` | crates/kora-2fa/src/db/mod.rs:28-30 | Delays never shrink and never exceed base * 2^16. |
| `Redaction.RedactNoninterference` | crates/kora-2fa/src/config.rs:177-184 | Connection strings that differ only in non-empty credentials are printed alike. |
| `Redaction.RedactIdempotent` | crates/kora-2fa/src/config.rs:177-184 | Redacting twice is redacting once. |
| `Redaction.RedactChangesIff` | crates/kora-2fa/src/config.rs:177-184 | A string is printed unchanged exactly when it has no credentials, or they already read `***`. |

## Left out

- HTTP: routing, extractors, malformed JSON, bearer tokens, the body cap, the panic layer and the 10-second timeout; a request starts with a parsed body and an authenticated subject.
- Minting the session token of `login`, and the `otpauth://` URI of `enable`: library calls that touch no table; `LoggedIn` and `Enrolled` stand for the answers.
- `ip_address` and `user_agent` of audit rows, and `created_at`/`updated_at` of records and codes: written, never read by a decision.
- Database failures: a lost connection, a deadlock, or an overflow of the INTEGER counter; the counter is a mathematical integer. Ids come without the gaps an aborted transaction may leave.
- The start of a transaction is not a step of its own: a commit stamps its rows with an arbitrary time, so the paging results hold whatever order the stamps are in.
- Times before 1970-01-01 00:00:30, where the step subtraction of the TOTP library would underflow.
- Paging of the recovery log: its order leaves ties open; only its total is modelled.
- `page * page_size` beyond 64 bits, and delays beyond the range of a duration.
- `/health`, environment loading, `client_meta`, migrations, and the endpoints the service does not mount.
- Lockout.GuessRateBound: speaks of failures since the last successful or lifecycle write, because such a write resets the counter by design.
- Serial results are not claimed under interleaving, where a commit may act on a snapshot that no longer holds; what survives there is stated by the interleaved rows, `Redemption.RedemptionSpendsIff` among them.
