/** What each authentication command answers and leaves behind, said about the tables themselves: which
    account a command acts on, when it gives each answer, and every row it writes. */
module AuthOutcomes {
  import opened Prelude
  import opened AuthModel
  import opened AuthRuns

  const DAY := 86400

  // ---- who a command is about ----

  predicate HolderOf(db: Db, u: nat, email: string) {
    u in db.users && !db.users[u].deleted && db.users[u].email == email
  }

  predicate LockedAt(db: Db, u: nat, now: int) {
    u in db.security && db.security[u].lockedUntil.Some? && now < db.security[u].lockedUntil.value
  }

  /** A row by which a mailed token can be redeemed. */
  predicate Redeems(db: Db, row: TokenRow, kind: TokenKind, token: string, now: int) {
    && row in db.tokens && row.kind == kind && row.hash == Sha(token)
    && (row.expires.Some? ==> now < row.expires.value)
    && row.user in db.users && !db.users[row.user].deleted
  }

  /** The lookup by email finds the only holder. */
  lemma FindsHolder(db: Db, email: string)
    requires UniqueEmails(db)
    ensures var got := GetByEmail(db, email);
      && (got.None? <==> forall u: nat :: !HolderOf(db, u, email))
      && (got.Some? ==> HolderOf(db, got.value.id, email) && got.value == Fetch(db, got.value.id))
      && (got.Some? ==> forall u: nat :: HolderOf(db, u, email) ==> u == got.value.id)
  {
    EmailReads(db, email);
    var got := GetByEmail(db, email);
    assert got.Some? ==> HolderOf(db, got.value.id, email);
    forall u: nat | HolderOf(db, u, email) ensures got.Some? && u == got.value.id {
      assert HasEmail(db, u, email) && Holds(db, u, email);
      assert Holds(db, got.value.id, email);
    }
  }

  /** The lookup by token finds the owner of a row that redeems it. */
  lemma FindsOwner(db: Db, kind: TokenKind, token: string, now: int)
    ensures var got := GetByToken(db, kind, Sha(token), now);
      && (got.None? <==> forall row :: !Redeems(db, row, kind, token, now))
      && (got.Some? ==> exists row :: Redeems(db, row, kind, token, now) && row.user == got.value.id)
      && (got.Some? ==> got.value.id in db.users && WithoutTokens(got.value) == Fetch(db, got.value.id))
  {
    FirstOpenReads(db, db.tokens, kind, Sha(token), now);
    TokenReads(db, kind, Sha(token), now);
    var first := FirstOpen(db, db.tokens, kind, Sha(token), now);
    if first.Some? { assert Redeems(db, first.value, kind, token, now); }
    forall row | Redeems(db, row, kind, token, now) ensures first.Some? {
      assert Opens(db, row, kind, Sha(token), now);
    }
  }

  // ---- signing in ----

  /** An account that may try a password: the holder of the email, active, not locked and verified. */
  predicate MayTry(db: Db, u: nat, email: string, now: int) {
    HolderOf(db, u, email) && db.users[u].active && !LockedAt(db, u, now) && db.users[u].verifiedAt.Some?
  }

  /** Which answer signing in gives, for every database with unique emails. */
  lemma SignInExactly(db: Db, now: int, email: string, p: Password, t: string, u: nat)
    requires UniqueEmails(db)
    ensures var o := Step(db, now, SignIn(email, p, t)).1;
      && (o.LoggedIn? && o.user == u <==> MayTry(db, u, email, now) && CredentialsOf(db, u) == Hash(p))
      && (o == WrongPassword(u) <==> MayTry(db, u, email, now) && CredentialsOf(db, u) != Hash(p))
      && (o.UnknownEmail? <==> forall v: nat :: !HolderOf(db, v, email))
      && (HolderOf(db, u, email) ==>
           && (o.AccountDisabled? <==> !db.users[u].active)
           && (o.AccountLocked? <==> db.users[u].active && LockedAt(db, u, now))
           && (o.EmailNotVerified? <==>
                db.users[u].active && !LockedAt(db, u, now) && db.users[u].verifiedAt.None?))
      && (o.LoggedIn? || o.WrongPassword? || o.UnknownEmail? || o.AccountDisabled? || o.AccountLocked?
          || o.EmailNotVerified?)
  {
    FindsHolder(db, email);
    hide UniqueEmails;
    hide GetByEmail;
    hide Hash;
    hide UpdateOrSame;
  }

  /** In terms of the password typed, for passwords without zero bytes: signing in succeeds exactly with
      the password that was stored, or, when that has all 72 bytes, with one that continues it. */
  lemma SignInByPassword(db: Db, now: int, email: string, p: Password, t: string, u: nat, stored: Password)
    requires UniqueEmails(db) && CredentialsOf(db, u) == Hash(stored)
    requires |stored| <= 72 && 0 !in stored && 0 !in p
    ensures var o := Step(db, now, SignIn(email, p, t)).1;
      o.LoggedIn? && o.user == u <==>
        MayTry(db, u, email, now) && (p == stored || (|stored| == 72 && stored <= p))
  {
    SignInExactly(db, now, email, p, t, u);
    MatchesExactlyWhen(stored, p);
  }

  /** The session a successful sign-in opens: it ends after seven days. */
  lemma SignInOpensSession(db: Db, now: int, email: string, p: Password, t: string)
    ensures var (d, o) := Step(db, now, SignIn(email, p, t));
      o.LoggedIn? ==>
        && (o.issued <==> t !in db.refresh)
        && d.refresh == if o.issued then db.refresh[t := RefreshRow(o.user, now + 7 * DAY, None, false)] else db.refresh
  {
    LoginKeepsRefresh(db, email, p, now);
    hide Login;
  }

  /** Writing back an account as it was read, apart from the counter and the lock. */
  lemma WriteBackSecurity(db: Db, w: User, now: int)
    requires UniqueEmails(db) && Live(db, w.id)
    requires w == Fetch(db, w.id).(attempts := w.attempts, lockedUntil := w.lockedUntil)
    ensures var d := UpdateOrSame(db, w, now);
      && d.security == db.security[w.id := Security(w.attempts, w.lockedUntil)]
      && d.users == db.users && d.tokens == db.tokens
      && forall v: nat :: CredentialsOf(d, v) == CredentialsOf(db, v)
  {
    WriteBackSucceeds(db, w, now);
    UpdateWrites(db, w, now);
    assert NewTokens(w) == [];
    var d := UpdateOrSame(db, w, now);
    assert d.users.Keys == db.users.Keys && d.users[w.id] == db.users[w.id];
    assert d.users == db.users;
  }

  /** The counter and the lock after an answer; nothing else of the accounts changes. */
  predicate Counts(db: Db, now: int, d: Db, o: Outcome, u: nat) {
    var was := SecurityOf(db, u);
    && (o == WrongPassword(u) ==>
         d.security == db.security[u := if was.attempts < 4 then Security(was.attempts + 1, was.lockedUntil)
                                        else Security(was.attempts + 2, Some(now + 900))])
    && (o.LoggedIn? && o.user == u ==> d.security == db.security[u := Security(0, None)])
    && d.users == db.users && d.tokens == db.tokens && CredentialsOf(d, u) == CredentialsOf(db, u)
  }

  /** What an answer leaves in the counter and the lock: the fifth wrong password and every later one
      count twice and lock for 15 minutes, the right one clears both, anything else changes nothing. */
  lemma SignInCounts(db: Db, now: int, email: string, p: Password, t: string, u: nat)
    requires UniqueEmails(db)
    ensures var (d, o) := Step(db, now, SignIn(email, p, t));
      Counts(db, now, d, o, u) && (!o.LoggedIn? && !o.WrongPassword? ==> d == db)
  {
    LoginCounts(db, now, email, p, u);
    hide Login;
  }

  lemma LoginCounts(db: Db, now: int, email: string, p: Password, u: nat)
    requires UniqueEmails(db)
    ensures var (d, o) := Login(db, email, p, now);
      Counts(db, now, d, o, u) && (!o.LoggedIn? && !o.WrongPassword? ==> d == db)
  {
    FindsHolder(db, email);
    hide GetByEmail;
    hide UniqueEmails;
    hide UpdateOrSame;
    hide Hash;
    var got := GetByEmail(db, email);
    if got.Some? && got.value.active && !IsLocked(got.value, now) && got.value.verified {
      if got.value.password != Hash(p) {
        WriteBackSecurity(db, AfterWrongPassword(got.value, now), now);
      } else {
        WriteBackSecurity(db, Unlocked(got.value), now);
      }
    }
  }

  // ---- registering, and the tokens that are mailed ----

  /** Deleted accounts keep their email. */
  predicate EmailUsed(db: Db, email: string) {
    exists v :: v in db.users && db.users[v].email == email
  }

  /** When registering gives each answer, and everything a registration writes. */
  lemma RegisterExactly(db: Db, now: int, id: nat, email: string, p: Password, name: string, token: string)
    requires UniqueEmails(db)
    ensures var (d, o) := Step(db, now, Register(id, email, p, name, token));
      var taken := exists v: nat :: HolderOf(db, v, email);
      && (o.EmailAlreadyExists? <==> taken)
      && (o == Registered(id) <==>
           |p| <= 72 && !EmailUsed(db, email) && id !in db.users && id !in db.creds && id !in db.security)
      && (o != Registered(id) ==> d == db && (o.EmailAlreadyExists? || o.Failed?))
      && (o == Registered(id) ==>
           && d.users == db.users[id := UserRow(email, name, true, None, false)]
           && d.creds == db.creds[id := Hash(p)] && d.security == db.security[id := Security(0, None)]
           && d.tokens == db.tokens + [TokenRow(id, EmailVerification, Sha(token), Some(now + DAY))]
           && d.refresh == db.refresh)
  {
    FindsHolder(db, email);
    var u := NewUser(id, email, p, name);
    if GetByEmail(db, email).None? && |p| <= 72 && id !in db.users && id !in db.creds && id !in db.security {
      if EmailUsed(db, email) {
        var v :| v in db.users && db.users[v].email == email;
        assert Holds(db, v, email);
      } else if Create(db, u, now).Some? {
        var u2 := u.(verifyToken := Some(Sha(token)), verifyExpires := Some(now + DAY));
        RegistrationFacts(db, u, now, u2);
        CreateFacts(db, u, now);
        UpdateWrites(Create(db, u, now).value, u2, now);
      }
    }
    if GetByEmail(db, email).None? {
      CreatedIsSeen(db, u, now, id);
    }
  }

  /** A mail command leaves everything but the token rows alone and adds one of these. */
  ghost predicate OnlyAddsToken(db: Db, d: Db, row: TokenRow) {
    && d.users == db.users && d.refresh == db.refresh && d.tokens == db.tokens + [row]
    && (forall v: nat :: SecurityOf(d, v) == SecurityOf(db, v) && CredentialsOf(d, v) == CredentialsOf(db, v))
  }

  lemma ResendExactly(db: Db, now: int, email: string, token: string, u: nat)
    requires UniqueEmails(db)
    ensures var (d, o) := Step(db, now, Resend(email, token));
      && (o == Mailed(u) <==> HolderOf(db, u, email) && db.users[u].verifiedAt.None?)
      && (o == Mailed(u) ==> OnlyAddsToken(db, d, TokenRow(u, EmailVerification, Sha(token), Some(now + DAY))))
      && (!o.Mailed? ==> o.Silent? && d == db)
  {
    FindsHolder(db, email);
    var got := GetByEmail(db, email);
    if got.Some? && !got.value.verified {
      var w := got.value.(verifyToken := Some(Sha(token)), verifyExpires := Some(now + DAY));
      WriteBackSucceeds(db, w, now);
      WriteBackOnlyAdds(db, w, now);
    }
  }

  lemma ForgotExactly(db: Db, now: int, email: string, token: string, u: nat)
    requires UniqueEmails(db)
    ensures var (d, o) := Step(db, now, Forgot(email, token));
      && (o == Mailed(u) <==> HolderOf(db, u, email))
      && (o == Mailed(u) ==> OnlyAddsToken(db, d, TokenRow(u, PasswordReset, Sha(token), Some(now + 3600))))
      && (!o.Mailed? ==> o.Silent? && d == db)
  {
    FindsHolder(db, email);
    var got := GetByEmail(db, email);
    if got.Some? {
      var w := got.value.(resetToken := Some(Sha(token)), resetExpires := Some(now + 3600));
      WriteBackSucceeds(db, w, now);
      WriteBackOnlyAdds(db, w, now);
    }
  }

  /** Writing back an account as it was read, with tokens, changes no row but the added ones. */
  lemma WriteBackOnlyAdds(db: Db, w: User, now: int)
    requires w.id in db.users && WithoutTokens(w) == Fetch(db, w.id) && Update(db, w, now).Some?
    ensures var d := Update(db, w, now).value;
      && d.users == db.users && d.refresh == db.refresh && d.tokens == db.tokens + NewTokens(w)
      && (forall v: nat :: SecurityOf(d, v) == SecurityOf(db, v) && CredentialsOf(d, v) == CredentialsOf(db, v))
  {
    UpdateWrites(db, w, now);
    hide NewTokens;
    var d := Update(db, w, now).value;
    assert d.users[w.id] == db.users[w.id];
    assert d.users.Keys == db.users.Keys;
  }

  // ---- redeeming a mailed token ----

  /** Verifying acts on the owner of a row that redeems the token, and sets the first time only. */
  lemma VerifyExactly(db: Db, now: int, token: string)
    requires UniqueEmails(db)
    ensures var (d, o) := Step(db, now, VerifyEmail(token));
      && (o.InvalidToken? <==> forall row :: !Redeems(db, row, EmailVerification, token, now))
      && (!o.InvalidToken? ==>
           && o.Verified? && o.user in db.users
           && (exists row :: Redeems(db, row, EmailVerification, token, now) && row.user == o.user)
           && d.users == db.users[o.user := db.users[o.user].(verifiedAt :=
                if db.users[o.user].verifiedAt.Some? then db.users[o.user].verifiedAt else Some(now))]
           && (forall v: nat :: SecurityOf(d, v) == SecurityOf(db, v) && CredentialsOf(d, v) == CredentialsOf(db, v))
           && d.tokens == db.tokens && d.refresh == db.refresh)
      && (o.InvalidToken? ==> d == db)
  {
    FindsOwner(db, EmailVerification, token, now);
    var got := GetByToken(db, EmailVerification, Sha(token), now);
    if got.Some? {
      TokenReads(db, EmailVerification, Sha(token), now);
      var w := got.value.(verified := true, verifyToken := None, verifyExpires := None);
      WriteBackSucceeds(db, w, now);
      UpdateWrites(db, w, now);
    }
  }

  /** Resetting stores the new password of the owner of a row that redeems the token, and revokes that
      user's sessions. */
  lemma ResetExactly(db: Db, now: int, token: string, p: Password)
    requires UniqueEmails(db)
    ensures var (d, o) := Step(db, now, Reset(token, p));
      && (o.InvalidToken? <==> forall row :: !Redeems(db, row, PasswordReset, token, now))
      && (o.PasswordChanged? <==> !o.InvalidToken? && |p| <= 72)
      && (o.PasswordChanged? ==>
           && o.user in db.users
           && (exists row :: Redeems(db, row, PasswordReset, token, now) && row.user == o.user)
           && d.creds == db.creds[o.user := Hash(p)]
           && d.users == db.users && d.tokens == db.tokens && d.refresh.Keys == db.refresh.Keys
           && (forall v: nat :: SecurityOf(d, v) == SecurityOf(db, v)))
      && (!o.PasswordChanged? ==> d == db && (o.InvalidToken? || o.Failed?))
  {
    FindsOwner(db, PasswordReset, token, now);
    var got := GetByToken(db, PasswordReset, Sha(token), now);
    if got.Some? && |p| <= 72 {
      TokenReads(db, PasswordReset, Sha(token), now);
      var w := got.value.(password := Hash(p), resetToken := None, resetExpires := None);
      var d1 := RevokeAll(db, w.id, now);
      SameEmailsUnique(db, d1);
      WriteBackSucceeds(d1, w, now);
      UpdateWrites(d1, w, now);
      var d := Update(d1, w, now).value;
      assert d.users[w.id] == db.users[w.id] && d.users.Keys == db.users.Keys;
    }
  }

  // ---- refreshing ----

  predicate SessionOpen(db: Db, t: string, now: int) {
    t in db.refresh && !db.refresh[t].deleted && db.refresh[t].revokedAt.None? && now <= db.refresh[t].expires
  }

  /** Which answer a refresh gives, and the session it opens. */
  lemma RefreshExactly(db: Db, now: int, t: string, n: string, ttl: int)
    ensures var (d, o) := Step(db, now, Refresh(t, n, ttl));
      && (o.RefreshRejected? <==> !SessionOpen(db, t, now))
      && (SessionOpen(db, t, now) ==>
           var u := db.refresh[t].user;
           var live := u in db.users && !db.users[u].deleted;
           && (o.UserNotFound? <==> !live)
           && (o.AccountDisabled? <==> live && !db.users[u].active)
           && (o.EmailNotVerified? <==> live && db.users[u].active && db.users[u].verifiedAt.None?)
           && (o.RevokedNotReissued? <==>
                live && db.users[u].active && db.users[u].verifiedAt.Some? && n in db.refresh)
           && (o == Refreshed(u) <==>
                live && db.users[u].active && db.users[u].verifiedAt.Some? && n !in db.refresh))
      && (o.Refreshed? ==>
           && n in d.refresh
           && d.refresh[n] == RefreshRow(o.user, now + (if ttl > 0 then ttl else 7 * DAY), None, false))
      && d.users == db.users && d.creds == db.creds && d.security == db.security && d.tokens == db.tokens
  {
  }

  /** The commands that end a session, and when. */
  predicate Ends(cmd: Cmd, o: Outcome, now: int, t: string, row: RefreshRow) {
    || cmd == Logout(t)
    || (cmd.Refresh? && cmd.refreshToken == t && (o.Refreshed? || o.RevokedNotReissued?))
    || cmd == LogoutAll(row.user)
    || o == PasswordChanged(row.user)
  }

  /** What a command does to a refresh row: it is revoked exactly by the commands that end its session,
      and deleted exactly by a purge after its end; nothing else changes it. */
  lemma RefreshRowExactly(db: Db, now: int, cmd: Cmd, t: string)
    requires UniqueEmails(db) && t in db.refresh
    ensures var (d, o) := Step(db, now, cmd); var row := db.refresh[t];
      && t in d.refresh
      && d.refresh[t] == row.(
           revokedAt := if Ends(cmd, o, now, t, row) && !row.deleted && row.revokedAt.None? then Some(now)
                        else row.revokedAt,
           deleted := row.deleted || (cmd.Purge? && row.expires < now))
  {
    hide Step;
    match cmd
    case SignIn(_, _, _) => SignInKeepsRow(db, now, cmd, t);
    case Reset(token, p) => ResetRow(db, now, token, p, t);
    case Register(id, email, p, name, token) => RegisterExactly(db, now, id, email, p, name, token);
    case VerifyEmail(token) => VerifyExactly(db, now, token);
    case Resend(_, _) => MailKeepsRefresh(db, now, cmd);
    case Forgot(_, _) => MailKeepsRefresh(db, now, cmd);
    case _ => RevokedRow(db, now, cmd, t);
  }

  lemma SignInKeepsRow(db: Db, now: int, cmd: Cmd, t: string)
    requires cmd.SignIn? && t in db.refresh
    ensures var (d, o) := Step(db, now, cmd); t in d.refresh && d.refresh[t] == db.refresh[t] && !o.PasswordChanged?
  {
    LoginKeepsRefresh(db, cmd.email, cmd.password, now);
    LoginAnswers(db, cmd.email, cmd.password, now);
    hide Login;
  }

  lemma LoginAnswers(db: Db, email: string, p: Password, now: int)
    ensures !Login(db, email, p, now).1.PasswordChanged?
  {
    hide UpdateOrSame;
  }

  lemma RevokedRow(db: Db, now: int, cmd: Cmd, t: string)
    requires t in db.refresh && (cmd.Refresh? || cmd.Logout? || cmd.LogoutAll? || cmd.Purge?)
    ensures var (d, o) := Step(db, now, cmd); var row := db.refresh[t];
      && t in d.refresh
      && d.refresh[t] == row.(
           revokedAt := if Ends(cmd, o, now, t, row) && !row.deleted && row.revokedAt.None? then Some(now)
                        else row.revokedAt,
           deleted := row.deleted || (cmd.Purge? && row.expires < now))
  {
  }

  lemma MailKeepsRefresh(db: Db, now: int, cmd: Cmd)
    requires cmd.Resend? || cmd.Forgot?
    ensures Step(db, now, cmd).0.refresh == db.refresh && !Step(db, now, cmd).1.PasswordChanged?
  {
  }

  lemma ResetRow(db: Db, now: int, token: string, p: Password, t: string)
    requires UniqueEmails(db) && t in db.refresh
    ensures var (d, o) := Step(db, now, Reset(token, p)); var row := db.refresh[t];
      && t in d.refresh && d.refresh[t] == if o == PasswordChanged(row.user) then RevokeRow(row, now) else row
  {
    ResetExactly(db, now, token, p);
    var got := GetByToken(db, PasswordReset, Sha(token), now);
    if got.Some? && |p| <= 72 {
      TokenReads(db, PasswordReset, Sha(token), now);
      hide GetByToken;
      var w := got.value.(password := Hash(p), resetToken := None, resetExpires := None);
      var d1 := RevokeAll(db, w.id, now);
      SameEmailsUnique(db, d1);
      WriteBackSucceeds(d1, w, now);
      UpdateWrites(d1, w, now);
    }
  }

  // ---- the other commands ----

  /** Logging out, everywhere or not, and purging touch refresh rows only. */
  lemma LogoutKeepsAccounts(db: Db, now: int, cmd: Cmd)
    requires cmd.Logout? || cmd.LogoutAll? || cmd.Purge?
    ensures var (d, o) := Step(db, now, cmd);
      && o.SignedOut? && d.users == db.users && d.creds == db.creds && d.security == db.security
      && d.tokens == db.tokens
      && d.refresh.Keys == db.refresh.Keys
  {
  }
}
