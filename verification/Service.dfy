/** The handlers as they run: statements against the tables, each proved against the value-level handler. */
module Service {
  import opened Types
  import opened Crypto
  import opened Tables
  import opened Handlers
  import opened Candidates
  import Text
  import Totp

  class Database {
    var records: map<UserId, Row>
    var codes: seq<CodeRow>
    var nextCode: nat
    var audit: seq<AuditRow>

    function State(): Db
      reads this
    {
      Db(records, codes, nextCode, audit)
    }

    /** Every stored record satisfies the table constraints. */
    predicate Valid()
      reads this
    {
      forall u :: u in records ==> records[u].Checks()
    }

    constructor ()
      ensures Valid() && State() == EMPTY_DB
    {
      records, codes, nextCode, audit := map[], [], 0, [];
    }

    method LoadRecord(user: UserId) returns (row: Option<Row>)
      ensures row == Lookup(State(), user)
    {
      row := None;
      if user in records {
        row := Some(records[user]);
      }
    }

    method InsertAudit(user: UserId, event: AuditEvent, stamp: Time)
      modifies this`audit
      ensures audit == AppendAudit(old(audit), user, event, stamp)
    {
      audit := audit + [AuditRow(|audit|, user, event, stamp)];
    }

    /** The single UPDATE ... RETURNING: increments, decides the lock, and answers from the row it wrote. */
    method RegisterFailure(user: UserId, now: Time) returns (outcome: Outcome)
      requires Valid()
      modifies this`records
      ensures Valid()
      ensures State() == Commit(old(State()), FailureWrite(user, now), now)
      ensures outcome == ReplyTo(old(State()), FailureWrite(user, now), State())
    {
      if user !in records {
        return Failure(Internal);
      }
      var row := records[user];
      var attempts := row.failedAttempts + 1;
      var deadline := if attempts >= MAX_FAILED_ATTEMPTS then Some(LockoutDeadline(now)) else row.lockedUntil;
      records := records[user := row.(failedAttempts := attempts, lockedUntil := deadline)];
      var locked := deadline.Some? && deadline.value > now;
      outcome := Failure(FailureError(locked));
    }

    method ClearFailures(user: UserId)
      requires Valid()
      modifies this`records
      ensures Valid()
      ensures records == if user in old(records)
                         then old(records)[user := old(records)[user].(failedAttempts := 0, lockedUntil := None)]
                         else old(records)
    {
      if user in records {
        records := records[user := records[user].(failedAttempts := 0, lockedUntil := None)];
      }
    }

    method DeleteUnconsumed(user: UserId)
      modifies this`codes
      ensures codes == DeleteLive(old(codes), user)
    {
      var kept: seq<CodeRow> := [];
      var i := 0;
      while i < |codes|
        invariant i <= |codes|
        invariant kept == DeleteLive(codes[..i], user)
      {
        if codes[i].user != user || codes[i].consumed {
          kept := kept + [codes[i]];
        }
        assert Front(codes[..i + 1]) == codes[..i];
        i := i + 1;
      }
      assert codes[..i] == codes;
      codes := kept;
    }

    /** `find`: the first candidate whose hash verifies. */
    method FindMatch(candidates: seq<CodeRow>, code: string) returns (matched: Option<CodeRow>)
      ensures matched == FirstVerifying(candidates, code)
      ensures matched.None? <==> forall i :: 0 <= i < |candidates| ==> !VerifyBackupCode(code, candidates[i].hash)
    {
      var i := 0;
      while i < |candidates|
        invariant i <= |candidates|
        invariant FirstVerifying(candidates, code) == FirstVerifying(candidates[i..], code)
        invariant forall j :: 0 <= j < i ==> !VerifyBackupCode(code, candidates[j].hash)
      {
        if VerifyBackupCode(code, candidates[i].hash) {
          return Some(candidates[i]);
        }
        i := i + 1;
      }
      matched := None;
    }

    /** The query of `recover` and the scan of what it returns. */
    method ScanCandidates(user: UserId, code: string) returns (matched: Option<CodeRow>)
      ensures var mine := CodesOf(codes, user);
              var p := FirstMatch(mine, code);
              matched == if p.Some? then Some(mine[p.value]) else None
    {
      QueryFinds(CodesOf(codes, user), code);
      matched := FindMatch(Query(codes, user), code);
    }

    /** One INSERT per hash, numbered by its position. */
    method InsertCodes(user: UserId, hashed: seq<CodeHash>)
      modifies this`codes, this`nextCode
      ensures codes == old(codes) + NewCodes(user, hashed, old(nextCode))
      ensures nextCode == old(nextCode) + |hashed|
    {
      var idx := 0;
      while idx < |hashed|
        invariant idx <= |hashed|
        invariant nextCode == old(nextCode) + idx
        invariant codes == old(codes) + NewCodes(user, hashed, old(nextCode))[..idx]
      {
        codes := codes + [CodeRow(nextCode, user, idx, hashed[idx], false, None)];
        nextCode := nextCode + 1;
        idx := idx + 1;
      }
      assert NewCodes(user, hashed, old(nextCode))[..idx] == NewCodes(user, hashed, old(nextCode));
    }

    /** The transaction of `enable`: upsert the record, drop the unconsumed codes, insert the new ones. */
    method StoreEnrolment(user: UserId, email: string, issuer: string, ciphertext: Ciphertext, nonce: seq<Byte>,
                          hashed: seq<CodeHash>, ghost reply: Reply, ghost t: Time)
      requires Valid()
      modifies this
      ensures Valid()
      ensures var w := EnableWrite(user, email, issuer, ciphertext, nonce, hashed, reply);
              !Aborts(old(State()), w) && State() == Commit(old(State()), w, t)
    {
      records := records[user := Row(email, issuer, Some(ciphertext), Some(nonce), false, true, 0, None)];
      DeleteUnconsumed(user);
      InsertCodes(user, hashed);
    }

    /** `enable` once the request has been validated. */
    method Enrol(env: Env, user: UserId, email: string, issuer: Option<string>, draws: Draws, ghost t: Time)
      returns (outcome: Outcome)
      requires Valid()
      modifies this
      ensures Valid()
      ensures var d := DecideEnable(env, Request.Enable(user, user, email, issuer, draws), Lookup(old(State()), user));
              if d.Answer? then outcome == d.outcome && State() == old(State())
              else !Aborts(old(State()), d.write) && State() == Commit(old(State()), d.write, t) && outcome == Success(d.write.reply)
    {
      var existing := LoadRecord(user);
      if existing.Some? && existing.value.enabled { return Failure(AlreadyEnabled); }
      if !draws.cryptoOk { return Failure(Internal); }
      var issuerLabel := Issuer(issuer);
      if !env.builds(draws.secret, issuerLabel, email) { return Failure(Internal); }
      var plaintext := GenerateBackupCodes(draws);
      var hashed := HashAll(plaintext);
      var sealed := SealSecret(env.key, draws.nonce, draws.secret);
      StoreEnrolment(user, email, issuerLabel, sealed, draws.nonce, hashed, Enrolled(draws.secret, plaintext), t);
      outcome := Success(Enrolled(draws.secret, plaintext));
    }

    method Enable(env: Env, sub: UserId, user: UserId, email: string, issuer: Option<string>, draws: Draws, ghost t: Time)
      returns (outcome: Outcome)
      requires Valid()
      modifies this
      ensures Valid()
      ensures Handled(State(), outcome) == Handle(env, old(State()), Request.Enable(sub, user, email, issuer, draws), t)
    {
      if sub != user { return Failure(Forbidden); }
      if Text.Trim(user) == "" { return Failure(BadRequest); }
      if '@' !in email || Text.Utf8Length(email) < 3 { return Failure(BadRequest); }
      outcome := Enrol(env, user, email, issuer, draws, t);
    }

    method Disable(env: Env, sub: UserId, user: UserId, token: string, t: Time) returns (outcome: Outcome)
      requires Valid()
      modifies this
      ensures Valid()
      ensures Handled(State(), outcome) == Handle(env, old(State()), Request.Disable(sub, user, token), t)
    {
      if sub != user { return Failure(Forbidden); }
      var record := LoadRecord(user);
      if record.None? || record.value.ciphertext.None? || record.value.nonce.None? { return Failure(NotFound); }
      if !Totp.IsValidFormat(token) { return Failure(BadRequest); }
      var totp := TotpFromRecord(env, record.value);
      if totp.NoTotp? { return Failure(totp.error); }
      if !Totp.Accepts(env, totp.secret, t, token) { return Failure(InvalidToken); }

      records := records[user := Cleared(record.value)];
      DeleteUnconsumed(user);
      InsertAudit(user, EvDisabled, t);
      outcome := Success(TwoFactorDisabled);
    }

    method Verify(env: Env, sub: UserId, user: UserId, token: string, now: Time) returns (outcome: Outcome)
      requires Valid()
      modifies this
      ensures Valid()
      ensures Handled(State(), outcome) == Handle(env, old(State()), Request.Verify(sub, user, token), now)
    {
      if sub != user { return Failure(Forbidden); }
      var record := LoadRecord(user);
      if record.None? { return Failure(NotEnabled); }
      if record.value.IsLocked(now) { return Failure(AccountLocked); }
      if !Totp.IsValidFormat(token) { return Failure(BadRequest); }
      var totp := TotpFromRecord(env, record.value);
      if totp.NoTotp? { return Failure(totp.error); }
      if !Totp.Accepts(env, totp.secret, now, token) {
        outcome := RegisterFailure(user, now);
        return;
      }

      var activating := record.value.pending;
      records := records[user := record.value.(enabled := true, pending := false, failedAttempts := 0, lockedUntil := None)];
      InsertAudit(user, if activating then EvEnabled else EvVerified, now);
      outcome := Success(if activating then Activated else TokenVerified);
    }

    method Login(env: Env, user: UserId, token: string, now: Time) returns (outcome: Outcome)
      requires Valid()
      modifies this
      ensures Valid()
      ensures Handled(State(), outcome) == Handle(env, old(State()), Request.Login(user, token), now)
    {
      var record := LoadRecord(user);
      if record.None? { return Failure(InvalidToken); }
      if record.value.IsLocked(now) { return Failure(AccountLocked); }
      if !record.value.enabled { return Failure(InvalidToken); }
      if !Totp.IsValidFormat(token) { return Failure(BadRequest); }
      var totp := TotpFromRecord(env, record.value);
      if totp.NoTotp? { return Failure(totp.error); }
      if !Totp.Accepts(env, totp.secret, now, token) {
        outcome := RegisterFailure(user, now);
        return;
      }

      ClearFailures(user);
      InsertAudit(user, EvLogin, now);
      outcome := Success(LoggedIn);
    }

    /** The transaction of `recover`: consume the matched row, clear the record, log the event. */
    method StoreRecovery(user: UserId, record: Row, codeId: nat, t: Time)
      requires Valid() && Lookup(State(), user) == Some(record)
      modifies this
      ensures Valid()
      ensures var w := RecoverWrite(user, codeId); !Aborts(old(State()), w) && State() == Commit(old(State()), w, t)
    {
      codes := Consume(codes, codeId, t);
      records := records[user := Cleared(record)];
      InsertAudit(user, EvRecovered, t);
    }

    method Recover(env: Env, sub: UserId, user: UserId, code: string, t: Time) returns (outcome: Outcome)
      requires Valid()
      modifies this
      ensures Valid()
      ensures Handled(State(), outcome) == Handle(env, old(State()), Request.Recover(sub, user, code), t)
    {
      if sub != user { return Failure(Forbidden); }
      var record := LoadRecord(user);
      if record.None? || !record.value.enabled { return Failure(NotFound); }
      var matched := ScanCandidates(user, code);
      if matched.None? { return Failure(InvalidBackupCode); }

      StoreRecovery(user, record.value, matched.value.id, t);
      outcome := Success(RecoveredWith(|Live(CodesOf(codes, user))|));
    }
  }
}
