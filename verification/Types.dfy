/** The schema of the 2FA service: rows, tables, requests and replies. */
module Types {

  datatype Option<+T> = None | Some(value: T)

  type UserId = string

  /** An instant, in microseconds since the epoch (the resolution of TIMESTAMPTZ). */
  type Time = int

  type Byte = b: int | 0 <= b < 256

  const TICKS_PER_SECOND := 1_000_000
  /** How long a tripped lock lasts: 15 minutes. */
  const LOCKOUT_DURATION := 15 * 60 * TICKS_PER_SECOND
  const MAX_FAILED_ATTEMPTS := 5
  const BACKUP_CODE_COUNT := 10
  const NONCE_LENGTH := 12

  /** An ideal authenticated ciphertext: it opens under the key and nonce that sealed it and no others. */
  datatype Ciphertext = Sealed(key: seq<Byte>, nonce: seq<Byte>, plaintext: string) | Junk(bytes: seq<Byte>)

  /** A stored backup-code hash: an ideal Argon2 hash of a normalised code, or text that does not parse as one. */
  datatype CodeHash = Phc(digest: string) | Malformed(text: string)

  /** A row of `two_factor_records`, without the key column. */
  datatype Row = Row(
    email: string,
    issuer: string,
    ciphertext: Option<Ciphertext>,
    nonce: Option<seq<Byte>>,
    enabled: bool,
    pending: bool,
    failedAttempts: int,
    lockedUntil: Option<Time>)
  {
    predicate IsLocked(now: Time) {
      lockedUntil.Some? && lockedUntil.value > now
    }

    /** The two table constraints `secret_presence_matches_state` and `secret_nonce_paired`. */
    predicate Checks() {
      && ciphertext.Some? == (enabled || pending)
      && ciphertext.None? == nonce.None?
    }
  }

  /** A row of `backup_codes`. */
  datatype CodeRow = CodeRow(
    id: nat,
    user: UserId,
    index: nat,
    hash: CodeHash,
    consumed: bool,
    consumedAt: Option<Time>)

  datatype AuditEvent = EvEnabled | EvDisabled | EvVerified | EvRecovered | EvLogin

  /** A row of `audit_log`. */
  datatype AuditRow = AuditRow(id: nat, user: UserId, event: AuditEvent, createdAt: Time)

  datatype Db = Db(
    records: map<UserId, Row>,
    codes: seq<CodeRow>,
    nextCode: nat,
    audit: seq<AuditRow>)

  const EMPTY_DB := Db(map[], [], 0, [])

  function Lookup(db: Db, u: UserId): Option<Row> {
    if u in db.records then Some(db.records[u]) else None
  }

  /** What `enable` draws from the random generators, and whether sealing and hashing succeed. */
  datatype DrawsBase = Draws(secret: string, nonce: seq<Byte>, picks: seq<seq<nat>>, cryptoOk: bool)

  const PICKS_PER_CODE := 8
  const ALPHABET_SIZE := 32

  predicate IsPick(pick: seq<nat>) {
    |pick| == PICKS_PER_CODE && forall i :: 0 <= i < |pick| ==> pick[i] < ALPHABET_SIZE
  }

  type Draws = d: DrawsBase |
    && |d.nonce| == NONCE_LENGTH
    && |d.picks| == BACKUP_CODE_COUNT
    && forall i :: 0 <= i < |d.picks| ==> IsPick(d.picks[i])
    witness DrawsBase.Draws("", seq(NONCE_LENGTH, _ => 0), seq(BACKUP_CODE_COUNT, _ => seq(PICKS_PER_CODE, _ => 0)), true)

  /** A request body together with the bearer subject `sub`, where the endpoint is authenticated. */
  datatype Request =
    | Enable(sub: UserId, user: UserId, email: string, issuer: Option<string>, draws: Draws)
    | Disable(sub: UserId, user: UserId, token: string)
    | Verify(sub: UserId, user: UserId, token: string)
    | Login(user: UserId, token: string)
    | Recover(sub: UserId, user: UserId, code: string)
  {
    predicate IsGuess() { Verify? || Login? }
  }

  datatype Reply =
    | Enrolled(secret: string, codes: seq<string>)
    | Activated
    | TokenVerified
    | TwoFactorDisabled
    | LoggedIn
    | RecoveredWith(remaining: nat)

  datatype ErrorCode =
    | BadRequest          // 400
    | InvalidToken        // 401
    | NotEnabled          // 401
    | InvalidBackupCode   // 401
    | Forbidden           // 403
    | NotFound            // 404
    | AlreadyEnabled      // 409
    | AccountLocked       // 423
    | Internal            // 500

  datatype Outcome = Success(reply: Reply) | Failure(error: ErrorCode)

  /** The fixed environment: the sealing key, the TOTP code of a secret at a step, and which labels a TOTP can be built from. */
  datatype Env = Env(
    key: seq<Byte>,
    code: (string, int) -> string,
    builds: (string, string, string) -> bool)
}
