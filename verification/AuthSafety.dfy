/** What holds over every run of authentication commands, from any database whose emails are
    unique: accounts may have been made, disabled or deleted by others before.  What is about refresh
    tokens alone does not even need that. */
module AuthSafety {
  import opened Prelude
  import opened AuthModel
  import opened AuthRuns

  lemma {:induction false} RunKeepsUnique(db0: Db, run: seq<Timed>)
    requires UniqueEmails(db0)
    ensures UniqueEmails(After(db0, run))
  {
    hide Step;
    if run != [] {
      var n := |run| - 1;
      RunKeepsUnique(db0, run[..n]);
      StepHasFacts(After(db0, run[..n]), run[n].at, run[n].cmd);
    }
  }

  /** One more command. */
  lemma Unroll(db0: Db, run: seq<Timed>, i: nat)
    requires i < |run|
    ensures (After(db0, run[..i + 1]), OutcomeOf(db0, run, i)) == Step(After(db0, run[..i]), run[i].at, run[i].cmd)
  {
    assert run[..i + 1][..i] == run[..i];
  }

  /** Every step of a run has the facts of a single step. */
  lemma StepOfRun(db0: Db, run: seq<Timed>, i: nat)
    requires UniqueEmails(db0) && i < |run|
    ensures Facts(After(db0, run[..i]), run[i].at, After(db0, run[..i + 1]), OutcomeOf(db0, run, i))
  {
    hide Step;
    Unroll(db0, run, i);
    RunKeepsUnique(db0, run[..i]);
    StepHasFacts(After(db0, run[..i]), run[i].at, run[i].cmd);
  }

  /** And the effect on every refresh row, from any database. */
  lemma RefreshStepOfRun(db0: Db, run: seq<Timed>, i: nat, t: string)
    requires i < |run|
    ensures RefreshEffect(After(db0, run[..i]), After(db0, run[..i + 1]), OutcomeOf(db0, run, i), t)
  {
    hide Step;
    Unroll(db0, run, i);
    StepRefreshEffect(After(db0, run[..i]), run[i].at, run[i].cmd, t);
  }

  // ---- lockout ----

  /** The wrong checks since the last success, after one more answer. */
  function NextWrong(w: seq<int>, o: Outcome, now: int, u: nat): seq<int> {
    if o == WrongPassword(u) then w + [now] else if o.LoggedIn? && o.user == u then [] else w
  }

  /** The times of the wrong-password checks of a user since the last successful login, where w0 are
      those before the run. */
  ghost function WrongTimes(db0: Db, w0: seq<int>, run: seq<Timed>, u: nat): seq<int> {
    if run == [] then w0
    else
      var n := |run| - 1;
      NextWrong(WrongTimes(db0, w0, run[..n], u), OutcomeOf(db0, run, n), run[n].at, u)
  }

  /** n wrong passwords leave this in the stored counter: from the fifth on each counts twice. */
  function Counter(n: nat): nat {
    if n < MAX_LOGIN_ATTEMPTS then n else 2 * n - 4
  }

  function LockAfter(w: seq<int>): Option<int> {
    if |w| < MAX_LOGIN_ATTEMPTS then None else Some(w[|w| - 1] + LOCKOUT)
  }

  /** From the sixth on, each wrong check comes at least a lockout after the one before. */
  predicate Spaced(w: seq<int>) {
    forall i :: MAX_LOGIN_ATTEMPTS <= i < |w| ==> w[i] >= w[i - 1] + LOCKOUT
  }

  /** A password check answered at all: the account was not locked at that time. */
  lemma CheckedMeansUnlocked(db: Db, now: int, cmd: Cmd, u: nat)
    requires var o := Step(db, now, cmd).1; o == WrongPassword(u) || (o.LoggedIn? && o.user == u)
    ensures SecurityOf(db, u).lockedUntil.Some? ==> now >= SecurityOf(db, u).lockedUntil.value
  {
    EmailReads(db, cmd.email);
  }

  /** The stored counter and lock, or those of a missing row, are the history's. */
  predicate Stored(db: Db, u: nat, w: seq<int>) {
    SecurityOf(db, u) == Security(Counter(|w|), LockAfter(w))
  }

  lemma StepStores(db: Db, now: int, cmd: Cmd, u: nat, w: seq<int>)
    requires UniqueEmails(db) && Stored(db, u, w) && Spaced(w)
    ensures var (d, o) := Step(db, now, cmd); var w2 := NextWrong(w, o, now, u);
      UniqueEmails(d) && Stored(d, u, w2) && Spaced(w2)
  {
    hide Step;
    var (d, o) := Step(db, now, cmd);
    StepHasFacts(db, now, cmd);
    assert UserEffect(db, now, d, o, u);
    if o == WrongPassword(u) {
      CheckedMeansUnlocked(db, now, cmd, u);
    }
  }

  lemma {:induction false} HistoryIsStored(db0: Db, w0: seq<int>, run: seq<Timed>, u: nat)
    requires UniqueEmails(db0) && Stored(db0, u, w0) && Spaced(w0)
    ensures var w := WrongTimes(db0, w0, run, u);
      UniqueEmails(After(db0, run)) && Spaced(w) && Stored(After(db0, run), u, w)
  {
    hide Step;
    if run != [] {
      var n := |run| - 1;
      HistoryIsStored(db0, w0, run[..n], u);
      StepStores(After(db0, run[..n]), run[n].at, run[n].cmd, u, WrongTimes(db0, w0, run[..n], u));
    }
  }

  lemma {:induction false} SpacedBound(w: seq<int>, i: nat)
    requires Spaced(w) && MAX_LOGIN_ATTEMPTS - 1 <= i < |w|
    ensures w[i] >= w[MAX_LOGIN_ATTEMPTS - 1] + (i - (MAX_LOGIN_ATTEMPTS - 1)) * LOCKOUT
  {
    if i >= MAX_LOGIN_ATTEMPTS {
      SpacedBound(w, i - 1);
    }
  }

  /** Lockout bound.  In any run, for any user: the n-th wrong-password check since the last success
      (n >= 5) happens at least n - 5 lockouts after the fifth, the stored counter is n below five
      and 2n - 4 from five on, and the stored lock ends a lockout after the last wrong check. */
  lemma LockoutBound(db0: Db, w0: seq<int>, run: seq<Timed>, u: nat, n: nat)
    requires UniqueEmails(db0) && Stored(db0, u, w0) && Spaced(w0)
    ensures var w := WrongTimes(db0, w0, run, u); var db := After(db0, run);
      && (MAX_LOGIN_ATTEMPTS <= n <= |w| ==>
            w[n - 1] >= w[MAX_LOGIN_ATTEMPTS - 1] + (n - MAX_LOGIN_ATTEMPTS) * LOCKOUT)
      && SecurityOf(db, u) == Security(Counter(|w|), LockAfter(w))
  {
    hide Step;
    HistoryIsStored(db0, w0, run, u);
    var w := WrongTimes(db0, w0, run, u);
    if MAX_LOGIN_ATTEMPTS <= n <= |w| { SpacedBound(w, n - 1); }
  }

  /** No login succeeds, and no password is even checked, while the account is locked. */
  lemma NoCheckWhileLocked(db0: Db, w0: seq<int>, run: seq<Timed>, i: nat, u: nat)
    requires UniqueEmails(db0) && Stored(db0, u, w0) && Spaced(w0)
    requires i < |run|
    ensures var o, w := OutcomeOf(db0, run, i), WrongTimes(db0, w0, run[..i], u);
      (o == WrongPassword(u) || (o.LoggedIn? && o.user == u)) && |w| >= MAX_LOGIN_ATTEMPTS ==>
        run[i].at >= w[|w| - 1] + LOCKOUT
  {
    hide Step;
    HistoryIsStored(db0, w0, run[..i], u);
    var o := OutcomeOf(db0, run, i);
    if o == WrongPassword(u) || (o.LoggedIn? && o.user == u) {
      CheckedMeansUnlocked(After(db0, run[..i]), run[i].at, run[i].cmd, u);
    }
  }

  /** No other command changes the counter or the lock. */
  lemma OnlyChecksTouchSecurity(db0: Db, run: seq<Timed>, i: nat, u: nat)
    requires UniqueEmails(db0) && i < |run|
    ensures var o := OutcomeOf(db0, run, i);
      o == WrongPassword(u) || (o.LoggedIn? && o.user == u)
      || SecurityOf(After(db0, run[..i + 1]), u) == SecurityOf(After(db0, run[..i]), u)
  {
    hide Step;
    StepOfRun(db0, run, i);
    assert UserEffect(After(db0, run[..i]), run[i].at, After(db0, run[..i + 1]), OutcomeOf(db0, run, i), u);
  }

  // ---- refresh tokens ----

  /** A token no refresh will accept any more, at any time. */
  predicate Dead(db: Db, t: string) {
    t in db.refresh && (db.refresh[t].revokedAt.Some? || db.refresh[t].deleted)
  }

  /** Revocation is permanent. */
  lemma {:induction false} DeadStaysDead(db0: Db, run: seq<Timed>, i: nat, j: nat, t: string)
    requires i <= j <= |run| && Dead(After(db0, run[..i]), t)
    ensures Dead(After(db0, run[..j]), t)
    ensures After(db0, run[..i]).refresh[t].revokedAt.Some? ==>
      After(db0, run[..j]).refresh[t].revokedAt == After(db0, run[..i]).refresh[t].revokedAt
    decreases j
  {
    hide Step;
    if i < j {
      DeadStaysDead(db0, run, i, j - 1, t);
      RefreshStepOfRun(db0, run, j - 1, t);
    }
  }

  predicate Accepts(o: Outcome) {
    o.Refreshed? || o.RevokedNotReissued?
  }

  /** Exactly the unexpired, unrevoked tokens of a live, active and verified user are accepted. */
  lemma AcceptedExactlyWhen(db: Db, now: int, cmd: Cmd)
    requires cmd.Refresh?
    ensures Accepts(Step(db, now, cmd).1) <==>
      && Usable(db, cmd.refreshToken, now)
      && var u := db.refresh[cmd.refreshToken].user; Live(db, u) && db.users[u].active && db.users[u].verifiedAt.Some?
  {
  }

  /** Accepting a token leaves it dead. */
  lemma AcceptingKills(db: Db, now: int, cmd: Cmd)
    requires cmd.Refresh? && Accepts(Step(db, now, cmd).1)
    ensures Dead(Step(db, now, cmd).0, cmd.refreshToken)
  {
  }

  /** A dead token is rejected and nothing changes. */
  lemma DeadIsRejected(db: Db, now: int, cmd: Cmd)
    requires cmd.Refresh? && Dead(db, cmd.refreshToken)
    ensures Step(db, now, cmd) == (db, RefreshRejected)
  {
  }

  /** Single use: whatever happens in between, a refresh token is accepted at most once. */
  lemma AcceptedAtMostOnce(db0: Db, run: seq<Timed>, i: nat, j: nat)
    requires i < j < |run|
    requires run[i].cmd.Refresh? && run[j].cmd.Refresh? && run[i].cmd.refreshToken == run[j].cmd.refreshToken
    requires Accepts(OutcomeOf(db0, run, i))
    ensures OutcomeOf(db0, run, j) == RefreshRejected && After(db0, run[..j + 1]) == After(db0, run[..j])
  {
    hide Step;
    Unroll(db0, run, i);
    Unroll(db0, run, j);
    AcceptingKills(After(db0, run[..i]), run[i].at, run[i].cmd);
    DeadStaysDead(db0, run, i + 1, j, run[i].cmd.refreshToken);
    DeadIsRejected(After(db0, run[..j]), run[j].at, run[j].cmd);
  }

  /** Which users' tokens a command revokes altogether. */
  ghost predicate RevokesAllOf(cmd: Cmd, o: Outcome, u: nat) {
    cmd == LogoutAll(u) || o == PasswordChanged(u)
  }

  lemma RevokeAllLeavesDead(db: Db, u: nat, now: int, t: string)
    requires t in db.refresh && db.refresh[t].user == u
    ensures Dead(RevokeAll(db, u, now), t)
  {
  }

  lemma ResetRevokes(db: Db, now: int, cmd: Cmd, u: nat)
    requires cmd.Reset? && Step(db, now, cmd).1 == PasswordChanged(u)
    ensures Step(db, now, cmd).0.refresh == RevokeAll(db, u, now).refresh
  {
    TokenReads(db, PasswordReset, Sha(cmd.token), now);
    hide GetByToken;
    hide RevokeAll;
  }

  lemma RevokeAllKills(db: Db, now: int, cmd: Cmd, u: nat, t: string)
    requires RevokesAllOf(cmd, Step(db, now, cmd).1, u)
    requires t in db.refresh && db.refresh[t].user == u
    ensures Dead(Step(db, now, cmd).0, t)
  {
    RevokeAllLeavesDead(db, u, now, t);
    if cmd.LogoutAll? {
    } else {
      OnlyResetChanges(db, now, cmd, u);
      ResetRevokes(db, now, cmd, u);
      hide Step;
    }
  }

  lemma OnlyResetChanges(db: Db, now: int, cmd: Cmd, u: nat)
    requires Step(db, now, cmd).1 == PasswordChanged(u)
    ensures cmd.Reset?
  {
  }

  /** After logging out everywhere or resetting the password, no token the user already had is ever
      accepted again. */
  lemma SessionsEndForGood(db0: Db, run: seq<Timed>, i: nat, j: nat, u: nat)
    requires i < j < |run| && RevokesAllOf(run[i].cmd, OutcomeOf(db0, run, i), u)
    requires run[j].cmd.Refresh?
    requires var t := run[j].cmd.refreshToken; var db := After(db0, run[..i]);
      t in db.refresh && db.refresh[t].user == u
    ensures OutcomeOf(db0, run, j) == RefreshRejected && After(db0, run[..j + 1]) == After(db0, run[..j])
  {
    hide Step;
    Unroll(db0, run, i);
    Unroll(db0, run, j);
    var t := run[j].cmd.refreshToken;
    RevokeAllKills(After(db0, run[..i]), run[i].at, run[i].cmd, u, t);
    DeadStaysDead(db0, run, i + 1, j, t);
    DeadIsRejected(After(db0, run[..j]), run[j].at, run[j].cmd);
  }

  /** The user's tokens that are neither revoked nor deleted. */
  function Unrevoked(db: Db, u: nat): set<string> {
    set t | t in db.refresh && db.refresh[t].user == u && !Dead(db, t)
  }

  /** The refresh rows after a refresh that succeeds: the old row revoked, a new one for its user. */
  lemma RefreshedRows(db: Db, now: int, cmd: Cmd, u: nat)
    requires cmd.Refresh? && Step(db, now, cmd).1 == Refreshed(u)
    ensures var rows := Step(db, now, cmd).0.refresh; var t, n := cmd.refreshToken, cmd.newToken;
      && t in db.refresh && db.refresh[t].user == u && !Dead(db, t)
      && n !in db.refresh && t in rows && n in rows && t != n
      && rows == db.refresh[t := rows[t]][n := rows[n]]
      && rows[t].user == u && rows[t].revokedAt.Some?
      && rows[n].user == u && rows[n].revokedAt.None? && !rows[n].deleted
  {
  }

  /** Rotation: a refresh trades one unrevoked token of the user for one other, so their number
      stays the same, and it leaves everyone else's tokens alone. */
  lemma RefreshRotates(db: Db, now: int, cmd: Cmd, u: nat)
    requires cmd.Refresh? && Step(db, now, cmd).1 == Refreshed(u)
    ensures var d := Step(db, now, cmd).0;
      && Unrevoked(d, u) == Unrevoked(db, u) - {cmd.refreshToken} + {cmd.newToken}
      && cmd.refreshToken in Unrevoked(db, u) && cmd.newToken !in db.refresh
      && |Unrevoked(d, u)| == |Unrevoked(db, u)|
      && forall v :: v != u ==> Unrevoked(d, v) == Unrevoked(db, v)
  {
    RefreshedRows(db, now, cmd, u);
    hide Step;
    var d := Step(db, now, cmd).0;
    assert Unrevoked(d, u) == Unrevoked(db, u) - {cmd.refreshToken} + {cmd.newToken};
    forall v | v != u ensures Unrevoked(d, v) == Unrevoked(db, v) {
    }
  }

  ghost predicate OfVerified(db: Db, t: string) {
    t in db.refresh ==> db.refresh[t].user in db.users && db.users[db.refresh[t].user].verifiedAt.Some?
  }

  /** Every refresh row of every run belongs to an email-verified user, if it did at the start or is
      new. */
  lemma {:induction false} TokensBelongToVerifiedUsers(db0: Db, run: seq<Timed>, t: string)
    requires UniqueEmails(db0) && OfVerified(db0, t)
    ensures OfVerified(After(db0, run), t)
  {
    hide Step;
    if run != [] {
      var n := |run| - 1;
      TokensBelongToVerifiedUsers(db0, run[..n], t);
      StepOfRun(db0, run, n);
      RefreshStepOfRun(db0, run, n, t);
      assert run[..n + 1] == run;
      var d := After(db0, run);
      if t in d.refresh {
        assert UserEffect(After(db0, run[..n]), run[n].at, d, OutcomeOf(db0, run, n), d.refresh[t].user);
      }
    }
  }

  // ---- verification and mailed tokens ----

  /** Email verification is monotone, with a fixed first timestamp: the time of a verify command. */
  lemma {:induction false} VerificationIsFixed(db0: Db, run: seq<Timed>, i: nat, j: nat, u: nat)
    requires UniqueEmails(db0)
    requires i <= j <= |run| && u in After(db0, run[..i]).users && After(db0, run[..i]).users[u].verifiedAt.Some?
    ensures u in After(db0, run[..j]).users
      && After(db0, run[..j]).users[u].verifiedAt == After(db0, run[..i]).users[u].verifiedAt
    decreases j
  {
    hide Step;
    if i < j {
      VerificationIsFixed(db0, run, i, j - 1, u);
      StepOfRun(db0, run, j - 1);
      assert UserEffect(After(db0, run[..j - 1]), run[j - 1].at, After(db0, run[..j]), OutcomeOf(db0, run, j - 1), u);
    }
  }

  lemma {:induction false} VerifiedByCommand(db0: Db, run: seq<Timed>, u: nat)
    requires UniqueEmails(db0)
    requires u in After(db0, run).users && After(db0, run).users[u].verifiedAt.Some?
    ensures var at := After(db0, run).users[u].verifiedAt;
      || (u in db0.users && db0.users[u].verifiedAt == at)
      || exists i :: 0 <= i < |run| && OutcomeOf(db0, run, i) == Verified(u) && at == Some(run[i].at)
  {
    hide Step;
    if run != [] {
      var n := |run| - 1;
      StepOfRun(db0, run, n);
      assert run[..n + 1] == run;
      var db, d, o := After(db0, run[..n]), After(db0, run), OutcomeOf(db0, run, n);
      assert UserEffect(db, run[n].at, d, o, u);
      if u in db.users && db.users[u].verifiedAt.Some? {
        VerifiedByCommand(db0, run[..n], u);
        if !(u in db0.users && db0.users[u].verifiedAt == db.users[u].verifiedAt) {
          var i :| 0 <= i < n && OutcomeOf(db0, run[..n], i) == Verified(u)
            && db.users[u].verifiedAt == Some(run[..n][i].at);
          assert run[..n][..i] == run[..i];
          assert OutcomeOf(db0, run, i) == Verified(u);
        }
      }
    }
  }

  /** How many commands of a run mailed a token: registrations, and resends and password requests
      that found their account. */
  ghost function TokensMailed(db0: Db, run: seq<Timed>): nat {
    if run == [] then 0
    else
      var n := |run| - 1;
      var o := OutcomeOf(db0, run, n);
      TokensMailed(db0, run[..n]) + if o.Registered? || o.Mailed? then 1 else 0
  }

  /** Token rows grow by exactly one per mailed token and never shrink. */
  lemma {:induction false} TokenRowsCountMails(db0: Db, run: seq<Timed>)
    requires UniqueEmails(db0)
    ensures |After(db0, run).tokens| == |db0.tokens| + TokensMailed(db0, run)
  {
    hide Step;
    if run != [] {
      var n := |run| - 1;
      TokenRowsCountMails(db0, run[..n]);
      StepOfRun(db0, run, n);
      assert run[..n + 1] == run;
    }
  }

  /** When a command mails a token: a registration that succeeds, a resend for an account that is
      not verified yet, and a password request for any account. */
  lemma MailedExactlyWhen(db: Db, now: int, cmd: Cmd)
    requires UniqueEmails(db)
    ensures var o := Step(db, now, cmd).1; (o.Registered? || o.Mailed?) <==>
      match cmd
      case Register(id, email, password, _, _) =>
        && |password| <= MAX_PASSWORD && !EmailTaken(db, id, email)
        && id !in db.users && id !in db.creds && id !in db.security
      case Resend(email, _) => GetByEmail(db, email).Some? && !GetByEmail(db, email).value.verified
      case Forgot(email, _) => GetByEmail(db, email).Some?
      case _ => false
  {
    StepHasFacts(db, now, cmd);
    match cmd
    case Register(id, email, password, name, token) =>
      EmailReads(db, email);
      var u := NewUser(id, email, password, name);
      if GetByEmail(db, email).Some? {
        var w := GetByEmail(db, email).value.id;
        assert Holds(db, w, email);
      } else if Create(db, u, now).Some? {
        CreateFacts(db, u, now);
        WriteBackSucceeds(Create(db, u, now).value,
                          u.(verifyToken := Some(Sha(token)), verifyExpires := Some(now + VERIFY_TTL)), now);
      }
    case Resend(email, token) =>
      EmailReads(db, email);
      var got := GetByEmail(db, email);
      if got.Some? {
        WriteBackSucceeds(db, got.value.(verifyToken := Some(Sha(token)), verifyExpires := Some(now + VERIFY_TTL)),
          now);
      }
    case Forgot(email, token) =>
      EmailReads(db, email);
      var got := GetByEmail(db, email);
      if got.Some? {
        WriteBackSucceeds(db, got.value.(resetToken := Some(Sha(token)), resetExpires := Some(now + RESET_TTL)), now);
      }
    case _ =>
  }

  /** No command deletes a user or a token row. */
  lemma {:induction false} RowsAndUsersStay(db0: Db, run: seq<Timed>, i: nat, j: nat)
    requires UniqueEmails(db0) && i <= j <= |run|
    ensures After(db0, run[..i]).tokens <= After(db0, run[..j]).tokens
    ensures forall v: nat :: Live(After(db0, run[..i]), v) ==> Live(After(db0, run[..j]), v)
    decreases j
  {
    hide Step;
    if i < j {
      RowsAndUsersStay(db0, run, i, j - 1);
      StepOfRun(db0, run, j - 1);
      forall v: nat | Live(After(db0, run[..j - 1]), v) ensures Live(After(db0, run[..j]), v) {
        assert UserEffect(After(db0, run[..j - 1]), run[j - 1].at, After(db0, run[..j]), OutcomeOf(db0, run, j - 1), v);
      }
    }
  }
}
