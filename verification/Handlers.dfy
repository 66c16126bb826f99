/**
 * The five handlers, cut at the points where they touch the database: what is checked before the first
 * read, what is decided from the snapshot, and the one atomic write that may follow.
 */
module Handlers {
  import opened Types
  import opened Crypto
  import opened Tables
  import Text
  import Totp

  /** The one transaction or single-statement UPDATE a request may perform. */
  datatype Write =
    | FailureWrite(user: UserId, now: Time)
    | VerifyWrite(user: UserId, activating: bool)
    | LoginWrite(user: UserId)
    | EnableWrite(user: UserId, email: string, issuer: string, ciphertext: Ciphertext, nonce: seq<Byte>,
                  hashes: seq<CodeHash>, reply: Reply)
    | DisableWrite(user: UserId)
    | RecoverWrite(user: UserId, codeId: nat)

  datatype Decision = Answer(outcome: Outcome) | Proceed(write: Write)

  // ---------- before the first read ----------

  /** `require_self`: the bearer subject must be the user whose record is addressed. */
  function RequireSelf(sub: UserId, user: UserId): Option<Outcome> {
    if sub == user then None else Some(Failure(Forbidden))
  }

  function Validate(req: Request): Option<Outcome> {
    match req
    case Enable(sub, user, email, _, _) =>
      if RequireSelf(sub, user).Some? then RequireSelf(sub, user)
      else if Text.Trim(user) == "" then Some(Failure(BadRequest))
      else if '@' !in email || Text.Utf8Length(email) < 3 then Some(Failure(BadRequest))
      else None
    case Disable(sub, user, _) => RequireSelf(sub, user)
    case Verify(sub, user, _) => RequireSelf(sub, user)
    case Recover(sub, user, _) => RequireSelf(sub, user)
    case Login(_, _) => None
  }

  const DEFAULT_ISSUER := "Kora App"

  function Issuer(given: Option<string>): string {
    if given.Some? && Text.Trim(given.value) != "" then Text.Trim(given.value) else DEFAULT_ISSUER
  }

  // ---------- deciding from the snapshot ----------

  datatype TotpResult = Secret(secret: string) | NoTotp(error: ErrorCode)

  function TotpFromRecord(env: Env, row: Row): TotpResult {
    if row.ciphertext.None? || row.nonce.None? then NoTotp(NotEnabled)
    else
      var plain := OpenSecret(env.key, row.ciphertext.value, row.nonce.value);
      if plain.None? then NoTotp(Internal)
      else if !env.builds(plain.value, row.issuer, row.email) then NoTotp(Internal)
      else Secret(plain.value)
  }

  function LockoutDeadline(now: Time): Time {
    now + LOCKOUT_DURATION
  }

  function FailureError(locked: bool): ErrorCode {
    if locked then AccountLocked else InvalidToken
  }

  function HashAll(codes: seq<string>): (hashes: seq<CodeHash>)
    ensures |hashes| == |codes|
    ensures forall i :: 0 <= i < |codes| ==> hashes[i] == HashBackupCode(codes[i])
  {
    seq(|codes|, i requires 0 <= i < |codes| => HashBackupCode(codes[i]))
  }

  function DecideEnable(env: Env, req: Request, snap: Option<Row>): Decision
    requires req.Enable?
  {
    var issuer := Issuer(req.issuer);
    var codes := GenerateBackupCodes(req.draws);
    if snap.Some? && snap.value.enabled then Answer(Failure(AlreadyEnabled))
    else if !req.draws.cryptoOk then Answer(Failure(Internal))
    else if !env.builds(req.draws.secret, issuer, req.email) then Answer(Failure(Internal))
    else Proceed(EnableWrite(req.user, req.email, issuer, SealSecret(env.key, req.draws.nonce, req.draws.secret),
                             req.draws.nonce, HashAll(codes), Enrolled(req.draws.secret, codes)))
  }

  function DecideDisable(env: Env, req: Request, snap: Option<Row>, at: Time): Decision
    requires req.Disable?
  {
    if snap.None? || snap.value.ciphertext.None? || snap.value.nonce.None? then Answer(Failure(NotFound))
    else if !Totp.IsValidFormat(req.token) then Answer(Failure(BadRequest))
    else
      match TotpFromRecord(env, snap.value)
      case NoTotp(error) => Answer(Failure(error))
      case Secret(secret) =>
        if Totp.Accepts(env, secret, at, req.token) then Proceed(DisableWrite(req.user))
        else Answer(Failure(InvalidToken))
  }

  /** `verify` and `login` share everything but what a missing record means and what a success writes. */
  function DecideGuess(env: Env, req: Request, now: Time, snap: Option<Row>, at: Time): Decision
    requires req.IsGuess()
  {
    if snap.None? then Answer(Failure(if req.Verify? then NotEnabled else InvalidToken))
    else if snap.value.IsLocked(now) then Answer(Failure(AccountLocked))
    else if req.Login? && !snap.value.enabled then Answer(Failure(InvalidToken))
    else if !Totp.IsValidFormat(req.token) then Answer(Failure(BadRequest))
    else
      match TotpFromRecord(env, snap.value)
      case NoTotp(error) => Answer(Failure(error))
      case Secret(secret) =>
        if !Totp.Accepts(env, secret, at, req.token) then Proceed(FailureWrite(req.user, now))
        else if req.Verify? then Proceed(VerifyWrite(req.user, snap.value.pending))
        else Proceed(LoginWrite(req.user))
  }

  function DecideRecover(req: Request, snap: Option<Row>, codes: seq<CodeRow>): Decision
    requires req.Recover?
  {
    if snap.None? || !snap.value.enabled then Answer(Failure(NotFound))
    else
      var mine := CodesOf(codes, req.user);
      match FirstMatch(mine, req.code)
      case None => Answer(Failure(InvalidBackupCode))
      case Some(p) => Proceed(RecoverWrite(req.user, mine[p].id))
  }

  /**
   * What a request does with the snapshot `snap` it loaded. `now` is the clock it captured on arrival, `at` the
   * clock when the token is checked, `codes` the table its candidate scan reads.
   */
  function Decide(env: Env, req: Request, now: Time, snap: Option<Row>, codes: seq<CodeRow>, at: Time): Decision {
    match req
    case Enable(_, _, _, _, _) => DecideEnable(env, req, snap)
    case Disable(_, _, _) => DecideDisable(env, req, snap, at)
    case Verify(_, _, _) => DecideGuess(env, req, now, snap, at)
    case Login(_, _) => DecideGuess(env, req, now, snap, at)
    case Recover(_, _, _) => DecideRecover(req, snap, codes)
  }

  // ---------- the atomic write ----------

  /** What the write makes of the user's record; an UPDATE of a missing row updates nothing. */
  function RowAfter(w: Write, row: Option<Row>): Option<Row> {
    match w
    case EnableWrite(_, email, issuer, ciphertext, nonce, _, _) =>
      Some(Row(email, issuer, Some(ciphertext), Some(nonce), false, true, 0, None))
    case FailureWrite(_, now) =>
      if row.None? then None
      else
        var n := row.value.failedAttempts + 1;
        Some(row.value.(failedAttempts := n,
                        lockedUntil := if n >= MAX_FAILED_ATTEMPTS then Some(LockoutDeadline(now)) else row.value.lockedUntil))
    case VerifyWrite(_, _) =>
      if row.None? then None
      else Some(row.value.(enabled := true, pending := false, failedAttempts := 0, lockedUntil := None))
    case LoginWrite(_) =>
      if row.None? then None else Some(row.value.(failedAttempts := 0, lockedUntil := None))
    case DisableWrite(_) =>
      if row.None? then None else Some(Cleared(row.value))
    case RecoverWrite(_, _) =>
      if row.None? then None else Some(Cleared(row.value))
  }

  function Cleared(row: Row): Row {
    row.(enabled := false, pending := false, ciphertext := None, nonce := None, failedAttempts := 0, lockedUntil := None)
  }

  function EventOf(w: Write): Option<AuditEvent> {
    match w
    case VerifyWrite(_, activating) => Some(if activating then EvEnabled else EvVerified)
    case LoginWrite(_) => Some(EvLogin)
    case DisableWrite(_) => Some(EvDisabled)
    case RecoverWrite(_, _) => Some(EvRecovered)
    case FailureWrite(_, _) => None
    case EnableWrite(_, _, _, _, _, _, _) => None
  }

  /** A write fails as a whole when the new row breaks a CHECK, or when `RETURNING` finds no row to return. */
  predicate Aborts(db: Db, w: Write) {
    var after := RowAfter(w, Lookup(db, w.user));
    if after.None? then w.FailureWrite? else !after.value.Checks()
  }

  function CodesAfter(db: Db, w: Write, stamp: Time): seq<CodeRow> {
    match w
    case EnableWrite(user, _, _, _, _, hashes, _) =>
      DeleteLive(db.codes, user) + NewCodes(user, hashes, db.nextCode)
    case DisableWrite(user) => DeleteLive(db.codes, user)
    case RecoverWrite(_, codeId) => Consume(db.codes, codeId, stamp)
    case VerifyWrite(_, _) => db.codes
    case LoginWrite(_) => db.codes
    case FailureWrite(_, _) => db.codes
  }

  function Commit(db: Db, w: Write, stamp: Time): Db {
    if Aborts(db, w) then db
    else
      var after := RowAfter(w, Lookup(db, w.user));
      Db(if after.Some? then db.records[w.user := after.value] else db.records,
         CodesAfter(db, w, stamp),
         if w.EnableWrite? then db.nextCode + |w.hashes| else db.nextCode,
         if EventOf(w).Some? then AppendAudit(db.audit, w.user, EventOf(w).value, stamp) else db.audit)
  }

  lemma OrderedCommit(db: Db, w: Write, stamp: Time)
    requires Ordered(db.codes, db.nextCode)
    ensures Ordered(Commit(db, w, stamp).codes, Commit(db, w, stamp).nextCode)
  {
    OrderedDelete(db.codes, w.user, db.nextCode);
    match w
    case EnableWrite(user, _, _, _, _, hashes, _) =>
      OrderedAppend(DeleteLive(db.codes, user), NewCodes(user, hashes, db.nextCode), db.nextCode);
    case RecoverWrite(_, id) => OrderedConsume(db.codes, id, stamp, db.nextCode);
    case _ =>
  }

  /** `SELECT COUNT(*) ... consumed = FALSE`, the last query of `recover`. */
  function Remaining(db: Db, u: UserId): nat {
    |Live(CodesOf(db.codes, u))|
  }

  /** The `total` of the recovery log. */
  function RecoveryTotal(db: Db, u: UserId): nat {
    |Spent(CodesOf(db.codes, u))|
  }

  /** What the caller is told once `w` has been tried on `before`, leaving `after`. */
  function ReplyTo(before: Db, w: Write, after: Db): Outcome {
    if Aborts(before, w) then Failure(Internal)
    else
      match w
      case FailureWrite(user, now) => Failure(FailureError(Lookup(after, user).Some? && Lookup(after, user).value.IsLocked(now)))
      case VerifyWrite(_, activating) => Success(if activating then Activated else TokenVerified)
      case LoginWrite(_) => Success(LoggedIn)
      case EnableWrite(_, _, _, _, _, _, reply) => Success(reply)
      case DisableWrite(_) => Success(TwoFactorDisabled)
      case RecoverWrite(user, _) => Success(RecoveredWith(Remaining(after, user)))
  }

  // ---------- a request on its own ----------

  datatype Handled = Handled(db: Db, outcome: Outcome)

  /** A whole request with nothing in between: the load, the decision and the write all happen at `t`. */
  function Handle(env: Env, db: Db, req: Request, t: Time): Handled {
    match Validate(req)
    case Some(outcome) => Handled(db, outcome)
    case None =>
      match Decide(env, req, t, Lookup(db, req.user), db.codes, t)
      case Answer(outcome) => Handled(db, outcome)
      case Proceed(w) => Handled(Commit(db, w, t), ReplyTo(db, w, Commit(db, w, t)))
  }

  lemma DecideKeepsUser(env: Env, req: Request, now: Time, snap: Option<Row>, codes: seq<CodeRow>, at: Time)
    ensures var d := Decide(env, req, now, snap, codes, at);
            d.Proceed? ==> d.write.user == req.user && (!d.write.EnableWrite? ==> snap.Some?)
  {
  }
}
