/**
 * What each endpoint answers, status by status, and what it leaves in the tables, in plain terms: who may call, what a
 * token looks like, which steps of the clock it may belong to, what is stored, shown and logged.
 */
module Endpoints {
  import opened Types
  import opened Crypto
  import opened Tables
  import opened Handlers
  import opened Interleaved
  import opened Serial
  import Text
  import Totp
  import Validation

  // ---------- callers ----------

  /** Of somebody else's account only `login` may speak; every other request about it is refused and changes nothing. */
  lemma OnlySelf(env: Env, db: Db, req: Request, t: Time)
    requires !req.Login? && req.sub != req.user
    ensures Handle(env, db, req, t) == Handled(db, Failure(Forbidden))
  {
  }

  /** A request is refused on arrival exactly for its caller or its arguments; its `now` is the clock at that moment. */
  lemma RefusedOnArrival(env: Env, s: System, req: Request)
    ensures var s' := Next(env, s, Arrive(req));
            && s'.db == s.db && |s'.flights| == |s.flights| + 1 && s'.flights[..|s.flights|] == s.flights
            && var f := s'.flights[|s.flights|];
            && f.req == req && f.now == s.clock
            && (f.phase == Done(Failure(Forbidden)) <==> !req.Login? && req.sub != req.user)
            && (f.phase == Done(Failure(BadRequest)) <==> req.Enable? && req.sub == req.user && !Admissible(req.user, req.email))
            && (f.phase == Arrived || f.phase == Done(Failure(Forbidden)) || f.phase == Done(Failure(BadRequest)))
  {
    if req.Enable? {
      Validation.EnableAccepted(req.sub, req.user, req.email, req.issuer, req.draws);
    }
  }

  lemma StepKeepsArrival(env: Env, s: System, step: Step, i: nat)
    requires i < |s.flights|
    ensures var s' := Next(env, s, step);
            i < |s'.flights| && s'.flights[i].now == s.flights[i].now && s'.flights[i].req == s.flights[i].req
  {
  }

  /** It keeps that reading of the clock whatever happens next. */
  lemma {:induction false} ArrivalTimeStays(env: Env, s: System, steps: seq<Step>, i: nat)
    requires i < |s.flights|
    ensures var s' := Exec(env, s, steps);
            i < |s'.flights| && s'.flights[i].now == s.flights[i].now && s'.flights[i].req == s.flights[i].req
    decreases |steps|
  {
    if steps == [] {
    } else {
      ArrivalTimeStays(env, s, Front(steps), i);
      StepKeepsArrival(env, Exec(env, s, Front(steps)), Last(steps), i);
    }
  }

  // ---------- tokens and secrets ----------

  predicate SixDigits(token: string) {
    |token| == 6 && forall i :: 0 <= i < |token| ==> token[i] in "0123456789"
  }

  /** The token of the 30-second step of `at`, of the one before or of the one after. */
  predicate InWindow(env: Env, secret: string, token: string, at: Time) {
    var step := at / 30_000_000;
    token == env.code(secret, step - 1) || token == env.code(secret, step) || token == env.code(secret, step + 1)
  }

  /** The stored ciphertext opens under the key with the stored 96-bit nonce, and a TOTP can be built with the labels. */
  predicate Opens(env: Env, row: Row) {
    && row.ciphertext.Some? && row.nonce.Some? && |row.nonce.value| == 12
    && row.ciphertext.value.Sealed?
    && row.ciphertext.value.key == env.key && row.ciphertext.value.nonce == row.nonce.value
    && env.builds(row.ciphertext.value.plaintext, row.issuer, row.email)
  }

  predicate Right(env: Env, row: Row, token: string, at: Time) {
    SixDigits(token) && Opens(env, row) && InWindow(env, row.ciphertext.value.plaintext, token, at)
  }

  predicate Wrong(env: Env, row: Row, token: string, at: Time) {
    SixDigits(token) && Opens(env, row) && !InWindow(env, row.ciphertext.value.plaintext, token, at)
  }

  predicate LockedAt(row: Row, now: Time) {
    row.lockedUntil.Some? && now < row.lockedUntil.value
  }

  predicate HasSecret(row: Row) {
    row.ciphertext.Some? && row.nonce.Some?
  }

  lemma FormatExactly(token: string)
    ensures Totp.IsValidFormat(token) <==> SixDigits(token)
  {
    if SixDigits(token) {
      forall i | 0 <= i < |token| ensures '0' <= token[i] <= '9' {
        assert token[i] in "0123456789";
      }
    } else if Totp.IsValidFormat(token) {
      forall i | 0 <= i < |token| ensures token[i] in "0123456789" {
        DigitIn(token[i]);
      }
    }
  }

  lemma DigitIn(c: char)
    requires '0' <= c <= '9'
    ensures c in "0123456789"
  {
    assert "0123456789"[c as int - '0' as int] == c;
  }

  lemma WindowExactly(env: Env, secret: string, token: string, at: Time)
    ensures Totp.Accepts(env, secret, at, token) <==> InWindow(env, secret, token, at)
  {
    var step := at / 30_000_000;
    assert Totp.StepOf(at) == step;
    if Totp.Accepts(env, secret, at, token) {
      var k :| step - 1 <= k <= step + 1 && env.code(secret, k) == token;
      assert k == step - 1 || k == step || k == step + 1;
    }
  }

  /** Without a secret a record gives the 401, with one that does not open a 500. */
  lemma SecretExactly(env: Env, row: Row)
    ensures TotpFromRecord(env, row) ==
            if !HasSecret(row) then NoTotp(NotEnabled)
            else if Opens(env, row) then Secret(row.ciphertext.value.plaintext)
            else NoTotp(Internal)
  {
  }

  /** A well-formed token at a record whose secret opens is right or wrong; the check sees exactly which. */
  lemma CheckExactly(env: Env, row: Row, token: string, at: Time)
    ensures Totp.IsValidFormat(token) <==> SixDigits(token)
    ensures TotpFromRecord(env, row).Secret? <==> Opens(env, row)
    ensures TotpFromRecord(env, row).NoTotp? ==>
              TotpFromRecord(env, row).error == if HasSecret(row) then Internal else NotEnabled
    ensures Opens(env, row) && SixDigits(token) ==>
              var accepted := Totp.Accepts(env, TotpFromRecord(env, row).secret, at, token);
              (accepted <==> Right(env, row, token, at)) && (!accepted <==> Wrong(env, row, token, at))
  {
    FormatExactly(token);
    SecretExactly(env, row);
    if Opens(env, row) {
      WindowExactly(env, row.ciphertext.value.plaintext, token, at);
    }
  }

  // ---------- the check step of an interleaving ----------

  /**
   * The check of a request in flight: the lock is read off its snapshot at the `now` it captured on arrival, the token
   * is compared at the clock of the check itself, and the failure write carries that `now`.
   */
  lemma TokenChecked(env: Env, s: System, id: nat)
    requires id < |s.flights| && s.flights[id].phase.Loaded? && s.flights[id].phase.snap.Some?
    requires s.flights[id].req.IsGuess() || s.flights[id].req.Disable?
    ensures var (f, row, s') := (s.flights[id], s.flights[id].phase.snap.value, Next(env, s, Check(id)));
            var (phase, u, token) := (s'.flights[id].phase, f.req.user, f.req.token);
            var checked := f.req.Disable? || (!LockedAt(row, f.now) && (f.req.Login? ==> row.enabled));
            && s'.db == s.db
            && (phase == Done(Failure(AccountLocked)) <==> f.req.IsGuess() && LockedAt(row, f.now))
            && (phase == Writing(FailureWrite(u, f.now)) <==> f.req.IsGuess() && checked && Wrong(env, row, token, s.clock))
            && (phase == Writing(VerifyWrite(u, row.pending)) <==> f.req.Verify? && checked && Right(env, row, token, s.clock))
            && (phase == Writing(LoginWrite(u)) <==> f.req.Login? && checked && Right(env, row, token, s.clock))
            && (phase == Writing(DisableWrite(u)) <==> f.req.Disable? && Right(env, row, token, s.clock))
            && (phase == Done(Failure(BadRequest)) <==> checked && (f.req.Disable? ==> HasSecret(row)) && !SixDigits(token))
  {
    CheckExactly(env, s.flights[id].phase.snap.value, s.flights[id].req.token, s.clock);
  }

  // ---------- verify and login ----------

  /** One failure more, and from the fifth on a lock of 15 minutes from `t`. */
  function Counted(row: Row, t: Time): Row {
    var n := row.failedAttempts + 1;
    row.(failedAttempts := n, lockedUntil := if n >= 5 then Some(t + 900_000_000) else row.lockedUntil)
  }

  predicate ConstraintsHold(db: Db, u: UserId) {
    u in db.records ==> db.records[u].Checks()
  }

  lemma VerifyAnswers(env: Env, db: Db, sub: UserId, user: UserId, token: string, t: Time)
    requires ConstraintsHold(db, user) && sub == user && user in db.records
    ensures var (h, row) := (Handle(env, db, Verify(sub, user, token), t), db.records[user]);
            var (locked, live) := (LockedAt(row, t), row.enabled || row.pending);
            var (right, wrong) := (!locked && Right(env, row, token, t), !locked && Wrong(env, row, token, t));
            && (h.outcome == Failure(AccountLocked) <==> locked || (wrong && row.failedAttempts + 1 >= 5))
            && (h.outcome == Failure(InvalidToken) <==> wrong && row.failedAttempts + 1 < 5)
            && (h.outcome == Failure(BadRequest) <==> !locked && !SixDigits(token))
            && (h.outcome == Failure(NotEnabled) <==> !locked && SixDigits(token) && !live)
            && (h.outcome == Failure(Internal) <==> !locked && SixDigits(token) && live && !Opens(env, row))
            && (h.outcome == Success(Activated) <==> right && row.pending)
            && (h.outcome == Success(TokenVerified) <==> right && !row.pending)
            && h.db.codes == db.codes
            && h.db.records == if right then
                 db.records[user := row.(enabled := true, pending := false, failedAttempts := 0, lockedUntil := None)]
               else if wrong then db.records[user := Counted(row, t)]
               else db.records
  {
    CheckExactly(env, db.records[user], token, t);
  }

  lemma LoginAnswers(env: Env, db: Db, user: UserId, token: string, t: Time)
    requires ConstraintsHold(db, user) && user in db.records
    ensures var (h, row) := (Handle(env, db, Login(user, token), t), db.records[user]);
            var (locked, tried) := (LockedAt(row, t), !LockedAt(row, t) && row.enabled);
            var (right, wrong) := (tried && Right(env, row, token, t), tried && Wrong(env, row, token, t));
            && (h.outcome == Failure(AccountLocked) <==> locked || (wrong && row.failedAttempts + 1 >= 5))
            && (h.outcome == Failure(InvalidToken) <==> (!locked && !row.enabled) || (wrong && row.failedAttempts + 1 < 5))
            && (h.outcome == Failure(BadRequest) <==> tried && !SixDigits(token))
            && (h.outcome == Failure(Internal) <==> tried && SixDigits(token) && !Opens(env, row))
            && (h.outcome == Success(LoggedIn) <==> right)
            && h.db.codes == db.codes
            && h.db.records == if right then db.records[user := row.(failedAttempts := 0, lockedUntil := None)]
               else if wrong then db.records[user := Counted(row, t)]
               else db.records
  {
    CheckExactly(env, db.records[user], token, t);
  }

  /** A user without a record learns nothing but the endpoint's own refusal. */
  lemma UnknownUser(env: Env, db: Db, req: Request, t: Time)
    requires req.user !in db.records && !req.Enable? && (req.Login? || req.sub == req.user)
    ensures Handle(env, db, req, t) ==
            Handled(db, Failure(if req.Verify? then NotEnabled else if req.Login? then InvalidToken else NotFound))
  {
  }

  /** Whatever the tables hold, a token is called malformed exactly if it is not six digits and gets as far as that. */
  lemma MalformedToken(env: Env, db: Db, req: Request, t: Time)
    requires req.user in db.records && (req.Login? || req.sub == req.user)
    requires req.IsGuess() || req.Disable?
    ensures var row := db.records[req.user];
            var asked := if req.Disable? then HasSecret(row) else !LockedAt(row, t) && (req.Login? ==> row.enabled);
            && (asked && !SixDigits(req.token) ==> Handle(env, db, req, t) == Handled(db, Failure(BadRequest)))
            && (Handle(env, db, req, t).outcome == Failure(BadRequest) ==> asked && !SixDigits(req.token))
  {
    CheckExactly(env, db.records[req.user], req.token, t);
  }

  /**
   * The fifth wrong token in a row is answered 423, and every guess in the 900 seconds after it is refused, right or
   * wrong; at their end the lock lets guesses through again.
   */
  lemma FifthFailureLocks(env: Env, db: Db, user: UserId, token: string, t: Time, next: string, t': Time)
    requires ConstraintsHold(db, user) && user in db.records && db.records[user].failedAttempts == 4
    requires db.records[user].enabled && !LockedAt(db.records[user], t) && Wrong(env, db.records[user], token, t)
    ensures var (h, after) := (Handle(env, db, Login(user, token), t), Handle(env, db, Login(user, token), t).db);
            && h.outcome == Failure(AccountLocked)
            && (t' < t + 900_000_000 ==>
                  && Handle(env, after, Login(user, next), t') == Handled(after, Failure(AccountLocked))
                  && Handle(env, after, Verify(user, user, next), t') == Handled(after, Failure(AccountLocked)))
            && (t' >= t + 900_000_000 && Right(env, db.records[user], next, t') ==>
                  && Handle(env, after, Login(user, next), t').outcome == Success(LoggedIn)
                  && Handle(env, after, Verify(user, user, next), t').outcome.Success?)
  {
    LoginAnswers(env, db, user, token, t);
    var after := Handle(env, db, Login(user, token), t).db;
    LoginAnswers(env, after, user, next, t');
    VerifyAnswers(env, after, user, user, next, t');
  }

  // ---------- disable and recover ----------

  /** Off: no flags, no secret, no nonce, no failures, no lock. */
  function Emptied(row: Row): Row {
    Row(row.email, row.issuer, None, None, false, false, 0, None)
  }

  lemma DisableAnswers(env: Env, db: Db, user: UserId, token: string, t: Time)
    requires ConstraintsHold(db, user) && user in db.records
    ensures var (h, row) := (Handle(env, db, Disable(user, user, token), t), db.records[user]);
            var live := row.enabled || row.pending;
            && (h.outcome == Failure(NotFound) <==> !live)
            && (h.outcome == Failure(BadRequest) <==> live && !SixDigits(token))
            && (h.outcome == Failure(Internal) <==> live && SixDigits(token) && !Opens(env, row))
            && (h.outcome == Failure(InvalidToken) <==> Wrong(env, row, token, t))
            && (h.outcome == Success(TwoFactorDisabled) <==> Right(env, row, token, t))
            && (h.outcome.Failure? ==> h.db == db)
            && (h.outcome.Success? ==> h.db.records == db.records[user := Emptied(row)])
            && (h.outcome.Success? ==> forall c :: c in h.db.codes <==> c in db.codes && (c.user == user ==> c.consumed))
  {
    CheckExactly(env, db.records[user], token, t);
    DeleteExactly(db.codes, user);
  }

  lemma {:induction false} DeleteExactly(codes: seq<CodeRow>, u: UserId)
    ensures forall c :: c in DeleteLive(codes, u) <==> c in codes && (c.user == u ==> c.consumed)
  {
    if codes == [] {
    } else {
      DeleteExactly(Front(codes), u);
      assert codes == Front(codes) + [Last(codes)];
    }
  }

  /** The row is the user's, not redeemed yet, and was made from this code. */
  predicate Offers(c: CodeRow, user: UserId, code: string) {
    c.user == user && !c.consumed && c.hash == Phc(Normalize(code))
  }

  lemma RecoverAnswers(env: Env, db: Db, user: UserId, code: string, t: Time)
    requires user in db.records
    ensures var (h, row) := (Handle(env, db, Recover(user, user, code), t), db.records[user]);
            var offered := exists c :: c in db.codes && Offers(c, user, code);
            && (h.outcome == Failure(NotFound) <==> !row.enabled)
            && (h.outcome == Failure(InvalidBackupCode) <==> row.enabled && !offered)
            && (h.outcome.Success? <==> row.enabled && offered)
            && (h.outcome.Failure? ==> h.db == db)
            && (h.outcome.Success? ==> h.db.records == db.records[user := Emptied(row)])
  {
    var mine := CodesOf(db.codes, user);
    CodesOfExactly(db.codes, user);
    if row :| row in db.codes && Offers(row, user, code) {
      assert row in mine;
      var p :| 0 <= p < |mine| && mine[p] == row;
      assert Redeems(mine[p], code);
    }
    if FirstMatch(mine, code).Some? {
      assert mine[FirstMatch(mine, code).value] in mine;
      assert Offers(mine[FirstMatch(mine, code).value], user, code);
    }
  }

  lemma {:induction false} CodesOfExactly(codes: seq<CodeRow>, u: UserId)
    ensures forall c :: c in CodesOf(codes, u) <==> c in codes && c.user == u
  {
    if codes == [] {
    } else {
      CodesOfExactly(Front(codes), u);
      assert codes == Front(codes) + [Last(codes)];
    }
  }

  predicate Marked(c: CodeRow, u: UserId, consumed: bool) {
    c.user == u && c.consumed == consumed
  }

  /** The positions of a user's rows in the table that are, or are not, redeemed. */
  function Positions(codes: seq<CodeRow>, u: UserId, consumed: bool): (p: set<nat>)
    ensures forall i: nat :: i in p <==> i < |codes| && Marked(codes[i], u, consumed)
  {
    set i: nat | i < |codes| && Marked(codes[i], u, consumed)
  }

  lemma PositionsSnoc(codes: seq<CodeRow>, u: UserId, consumed: bool)
    requires codes != []
    ensures |Positions(codes, u, consumed)| ==
            |Positions(Front(codes), u, consumed)| + if Marked(Last(codes), u, consumed) then 1 else 0
  {
    var (before, after, last) := (Positions(Front(codes), u, consumed), Positions(codes, u, consumed), |codes| - 1);
    forall i: nat ensures i in after <==> i in before || (Marked(codes[last], u, consumed) && i == last) {
      if i < last {
        assert Front(codes)[i] == codes[i];
      }
    }
    SetGrows(before, after, last, Marked(codes[last], u, consumed));
  }

  /** What is left and what is spent are counted row by row. */
  lemma {:induction false} StockCounted(codes: seq<CodeRow>, u: UserId)
    ensures |Live(CodesOf(codes, u))| == |Positions(codes, u, false)|
    ensures |Spent(CodesOf(codes, u))| == |Positions(codes, u, true)|
  {
    if codes == [] {
    } else {
      StockCounted(Front(codes), u);
      Snoc(CodesOf(Front(codes), u), Last(codes), u);
      PositionsSnoc(codes, u, false);
      PositionsSnoc(codes, u, true);
    }
  }

  /** The number `recover` answers is the number of the user's unredeemed rows when the last query runs. */
  lemma RemainingIsCounted(env: Env, s: System, id: nat)
    requires id < |s.flights| && s.flights[id].phase.Counting?
    ensures Next(env, s, Count(id)).flights[id].phase ==
            Done(Success(RecoveredWith(|Positions(s.db.codes, s.flights[id].req.user, false)|)))
  {
    StockCounted(s.db.codes, s.flights[id].req.user);
  }

  // ---------- enable ----------

  /** The user id is not blank; the address has an `@` and at least three bytes. */
  predicate Admissible(user: UserId, email: string) {
    !Text.AllWhitespace(user) && '@' in email && !(|email| <= 2 && Validation.IsAscii(email))
  }

  lemma EnableAnswers(env: Env, db: Db, user: UserId, email: string, issuer: Option<string>, draws: Draws, t: Time)
    ensures var h := Handle(env, db, Enable(user, user, email, issuer, draws), t);
            var active := user in db.records && db.records[user].enabled;
            var made := draws.cryptoOk && env.builds(draws.secret, Issuer(issuer), email);
            && (h.outcome == Failure(BadRequest) <==> !Admissible(user, email))
            && (h.outcome == Failure(AlreadyEnabled) <==> Admissible(user, email) && active)
            && (h.outcome == Failure(Internal) <==> Admissible(user, email) && !active && !made)
            && (h.outcome.Success? <==> Admissible(user, email) && !active && made)
            && (h.outcome.Failure? ==> h.db == db)
            && (h.outcome.Success? ==> h.db.records == db.records[user :=
                 Row(email, Issuer(issuer), Some(Sealed(env.key, draws.nonce, draws.secret)), Some(draws.nonce), false, true, 0, None)])
  {
    Validation.EnableAccepted(user, user, email, issuer, draws);
  }

  /** The code is written `XXXX-XXXX` with the alphabet's letters at the drawn places. */
  predicate Spells(code: string, pick: seq<nat>)
    requires IsPick(pick)
  {
    && |code| == 9 && code[4] == '-'
    && forall k :: 0 <= k < 8 ==> code[if k < 4 then k else k + 1] == BACKUP_ALPHABET[pick[k]]
  }

  lemma BackupCodeSpells(pick: seq<nat>)
    requires IsPick(pick)
    ensures Spells(BackupCode(pick), pick)
  {
    var (letters, code) := (Letters(pick), BackupCode(pick));
    assert letters[..4] + "-" == code[..5];
    forall k | 0 <= k < 8 ensures code[if k < 4 then k else k + 1] == BACKUP_ALPHABET[pick[k]] {
      assert letters[k] == BACKUP_ALPHABET[pick[k]];
    }
  }

  /** `enable` shows the drawn secret and ten codes, the i-th spelling the i-th draw, so different draws differ. */
  lemma EnableShows(env: Env, db: Db, req: Request, t: Time)
    requires req.Enable? && Handle(env, db, req, t).outcome.Success?
    ensures var reply := Handle(env, db, req, t).outcome.reply;
            && reply.Enrolled? && reply.secret == req.draws.secret && |reply.codes| == 10
            && (forall i :: 0 <= i < 10 ==> Spells(reply.codes[i], req.draws.picks[i]))
            && (forall i, j :: 0 <= i < j < 10 && req.draws.picks[i] != req.draws.picks[j] ==> reply.codes[i] != reply.codes[j])
  {
    var codes := GenerateBackupCodes(req.draws);
    assert Handle(env, db, req, t).outcome == Success(Enrolled(req.draws.secret, codes));
    forall i | 0 <= i < 10 ensures Spells(codes[i], req.draws.picks[i]) {
      BackupCodeSpells(req.draws.picks[i]);
    }
    forall i, j | 0 <= i < j < 10 && req.draws.picks[i] != req.draws.picks[j] ensures codes[i] != codes[j] {
      if codes[i] == codes[j] {
        BackupCodesInjective(req.draws.picks[i], req.draws.picks[j]);
      }
    }
  }

  /** The digest is the eight drawn letters, without the dash. */
  predicate DigestOf(hash: CodeHash, pick: seq<nat>)
    requires IsPick(pick)
  {
    hash.Phc? && |hash.digest| == 8 && forall k :: 0 <= k < 8 ==> hash.digest[k] == BACKUP_ALPHABET[pick[k]]
  }

  lemma EnableTables(env: Env, db: Db, req: Request, t: Time)
    requires req.Enable? && Handle(env, db, req, t).outcome.Success?
    ensures var (h, hashes) := (Handle(env, db, req, t), HashAll(GenerateBackupCodes(req.draws)));
            && h.db.codes == DeleteLive(db.codes, req.user) + NewCodes(req.user, hashes, db.nextCode)
            && h.db.nextCode == db.nextCode + 10
  {
  }

  /**
   * `enable` drops the user's unredeemed rows, keeps every other one, and adds ten at the end: numbered from 0,
   * unredeemed, with the next ids of the sequence and the hashes of the codes it shows.
   */
  lemma EnableStoresCodes(env: Env, db: Db, req: Request, t: Time)
    requires req.Enable? && Handle(env, db, req, t).outcome.Success?
    ensures var codes := Handle(env, db, req, t).db.codes;
            var kept := |codes| - 10;
            && kept >= 0
            && (forall c :: c in codes[..kept] <==> c in db.codes && (c.user == req.user ==> c.consumed))
            && (forall i :: 0 <= i < 10 ==>
                  && codes[kept + i] == CodeRow(db.nextCode + i, req.user, i, codes[kept + i].hash, false, None)
                  && DigestOf(codes[kept + i].hash, req.draws.picks[i]))
            && Handle(env, db, req, t).db.nextCode == db.nextCode + 10
  {
    var hashes := HashAll(GenerateBackupCodes(req.draws));
    var (left, codes) := (DeleteLive(db.codes, req.user), Handle(env, db, req, t).db.codes);
    EnableTables(env, db, req, t);
    DeleteExactly(db.codes, req.user);
    assert codes[..|codes| - 10] == left;
    forall i | 0 <= i < 10 ensures DigestOf(hashes[i], req.draws.picks[i]) {
      NormalizeBackupCode(req.draws.picks[i]);
    }
  }

  // ---------- the audit log ----------

  function EventFor(reply: Reply): Option<AuditEvent> {
    match reply
    case Enrolled(_, _) => None
    case Activated => Some(EvEnabled)
    case TokenVerified => Some(EvVerified)
    case TwoFactorDisabled => Some(EvDisabled)
    case LoggedIn => Some(EvLogin)
    case RecoveredWith(_) => Some(EvRecovered)
  }

  lemma WriteLogged(db: Db, w: Write, t: Time)
    requires w.EnableWrite? ==> w.reply.Enrolled?
    ensures var outcome := ReplyTo(db, w, Commit(db, w, t));
            Commit(db, w, t).audit == db.audit +
              if outcome.Success? && EventFor(outcome.reply).Some?
              then [AuditRow(|db.audit|, w.user, EventFor(outcome.reply).value, t)] else []
  {
  }

  /** Each success but that of `enable` appends the one event that names it; nothing else appends. */
  lemma EventLogged(env: Env, db: Db, req: Request, t: Time)
    ensures var h := Handle(env, db, req, t);
            h.db.audit == db.audit +
              if h.outcome.Success? && EventFor(h.outcome.reply).Some?
              then [AuditRow(|db.audit|, req.user, EventFor(h.outcome.reply).value, t)] else []
  {
    var d := Decide(env, req, t, Lookup(db, req.user), db.codes, t);
    DecideReplies(env, req, t, Lookup(db, req.user), db.codes, t);
    DecideKeepsUser(env, req, t, Lookup(db, req.user), db.codes, t);
    if d.Proceed? {
      WriteLogged(db, d.write, t);
    }
  }

  /** The kind of success belongs to the endpoint. */
  lemma ReplyOf(env: Env, db: Db, req: Request, t: Time)
    requires Handle(env, db, req, t).outcome.Success?
    ensures match Handle(env, db, req, t).outcome.reply
            case Enrolled(_, _) => req.Enable?
            case Activated => req.Verify?
            case TokenVerified => req.Verify?
            case TwoFactorDisabled => req.Disable?
            case LoggedIn => req.Login?
            case RecoveredWith(_) => req.Recover?
  {
  }
}
