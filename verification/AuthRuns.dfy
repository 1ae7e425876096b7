/** What reads return after an update, and what each authentication command does to every table. */
module AuthRuns {
  import opened Prelude
  import opened AuthModel

  // ---- what reads return ----

  lemma EmailReads(db: Db, email: string)
    ensures GetByEmail(db, email).Some? ==>
      var u := GetByEmail(db, email).value; Live(db, u.id) && u == Fetch(db, u.id) && u.email == email
    ensures GetByEmail(db, email).None? <==> !exists id :: HasEmail(db, id, email)
  {
  }

  lemma {:induction false} FirstOpenReads(db: Db, rows: seq<TokenRow>, kind: TokenKind, hash: Digest, now: int)
    ensures var r := FirstOpen(db, rows, kind, hash, now); r.Some? ==>
      r.value in rows && Opens(db, r.value, kind, hash, now)
    ensures FirstOpen(db, rows, kind, hash, now).None? ==> forall r :: r in rows ==> !Opens(db, r, kind, hash, now)
  {
    if rows != [] {
      FirstOpenReads(db, rows[1..], kind, hash, now);
      assert rows == [rows[0]] + rows[1..];
    }
  }

  /** The entity, without its pending token fields. */
  function WithoutTokens(u: User): User {
    u.(verifyToken := None, verifyExpires := None, resetToken := None, resetExpires := None)
  }

  lemma TokenReads(db: Db, kind: TokenKind, hash: Digest, now: int)
    ensures GetByToken(db, kind, hash, now).Some? ==>
      var u := GetByToken(db, kind, hash, now).value;
      && Live(db, u.id) && WithoutTokens(u) == Fetch(db, u.id)
      && (kind.EmailVerification? ==> u.resetToken.None?) && (kind.PasswordReset? ==> u.verifyToken.None?)
  {
    FirstOpenReads(db, db.tokens, kind, hash, now);
  }

  // ---- the repository: an update is seen by every getter and by no one else ----

  ghost predicate UniqueEmails(db: Db) {
    forall a, b, email :: Holds(db, a, email) && Holds(db, b, email) ==> a == b
  }

  /** After an update every getter returns the new account of that user, whichever way the user is
      looked up, and the old account of anyone else: a token found before is still found for the same
      user, and a token just stored is found. */
  lemma UpdateIsSeenByEveryGetter(db: Db, u: User, now: int, d: Db, v: nat, kind: TokenKind, hash: Digest, later: int)
    requires UniqueEmails(db) && Update(db, u, now) == Some(d)
    ensures UniqueEmails(d)
    ensures GetByID(d, u.id) == Some(WithoutTokens(u))
    ensures GetByEmail(d, u.email) == Some(WithoutTokens(u))
    ensures v != u.id ==> GetByID(d, v) == GetByID(db, v)
    ensures var was, r := GetByToken(db, kind, hash, later), GetByToken(d, kind, hash, later);
      && (r.Some? ==> WithoutTokens(r.value) == if r.value.id == u.id then WithoutTokens(u) else Fetch(db, r.value.id))
      && (was.Some? ==> r.Some? && r.value.id == was.value.id)
      && (was.None? ==> (r.Some? <==> exists row :: row in NewTokens(u) && OpenRow(row, kind, hash, later)))
      && (was.None? && r.Some? ==> r.value.id == u.id)
    ensures d.tokens == db.tokens + NewTokens(u) && d.refresh == db.refresh
  {
    UpdateKeepsUnique(db, u, now);
    UpdateTokenReads(db, u, now, d, kind, hash, later);
    assert Fetch(d, u.id) == WithoutTokens(u);
    assert HasEmail(d, u.id, u.email) && Holds(d, u.id, u.email);
    hide GetByToken;
    EmailReads(d, u.email);
    var w := GetByEmail(d, u.email).value.id;
    assert Holds(d, w, u.email);
  }

  /** A created account is found by id and by email as it was given, verified now if it is given verified;
      everyone else is found as before, and nothing is created for an id or email in use. */
  lemma CreatedIsSeen(db: Db, u: User, now: int, v: nat)
    requires UniqueEmails(db)
    ensures Create(db, u, now).Some? <==>
      && u.id !in db.users && u.id !in db.creds && u.id !in db.security
      && forall k :: k in db.users ==> db.users[k].email != u.email
    ensures Create(db, u, now).Some? ==> var d := Create(db, u, now).value;
      && UniqueEmails(d)
      && GetByID(d, u.id) == Some(WithoutTokens(u)) && GetByEmail(d, u.email) == Some(WithoutTokens(u))
      && d.users[u.id].verifiedAt == (if u.verified then Some(now) else None)
      && (v != u.id ==> GetByID(d, v) == GetByID(db, v))
      && d.tokens == db.tokens + NewTokens(u) && d.refresh == db.refresh
  {
    if k :| k in db.users && db.users[k].email == u.email {
      assert Holds(db, k, u.email);
    } else if Create(db, u, now).Some? {
      var d := Create(db, u, now).value;
      forall a, b, email | Holds(d, a, email) && Holds(d, b, email) ensures a == b {
        if a != u.id { assert Holds(db, a, email); }
        if b != u.id { assert Holds(db, b, email); }
      }
      assert HasEmail(d, u.id, u.email) && Holds(d, u.id, u.email);
      EmailReads(d, u.email);
      assert Holds(d, GetByEmail(d, u.email).value.id, u.email);
    }
  }

  /** What an update does to lookups by token. */
  lemma UpdateTokenReads(db: Db, u: User, now: int, d: Db, kind: TokenKind, hash: Digest, later: int)
    requires Update(db, u, now) == Some(d)
    ensures var was, r := GetByToken(db, kind, hash, later), GetByToken(d, kind, hash, later);
      && (r.Some? ==> WithoutTokens(r.value) == if r.value.id == u.id then WithoutTokens(u) else Fetch(db, r.value.id))
      && (was.Some? ==> r.Some? && r.value.id == was.value.id)
      && (was.None? ==> (r.Some? <==> exists row :: row in NewTokens(u) && OpenRow(row, kind, hash, later)))
      && (was.None? && r.Some? ==> r.value.id == u.id)
  {
    TokenReads(d, kind, hash, later);
    TokenReads(db, kind, hash, later);
    FirstOpenOfLive(db, d, db.tokens, kind, hash, later);
    FirstOpenConcat(d, db.tokens, NewTokens(u), kind, hash, later);
    FirstOpenReads(d, NewTokens(u), kind, hash, later);
    FirstOpenReads(d, db.tokens, kind, hash, later);
    hide EmailTaken;
    hide FirstOpen;
  }

  /** A row that a lookup of this token may find, as far as the row says. */
  predicate OpenRow(row: TokenRow, kind: TokenKind, hash: Digest, now: int) {
    row.kind == kind && row.hash == hash && (row.expires.Some? ==> row.expires.value > now)
  }

  lemma {:induction false} FirstOpenOfLive(db: Db, d: Db, rows: seq<TokenRow>, kind: TokenKind, hash: Digest, now: int)
    requires forall v: nat :: Live(db, v) <==> Live(d, v)
    ensures FirstOpen(d, rows, kind, hash, now) == FirstOpen(db, rows, kind, hash, now)
  {
    if rows != [] { FirstOpenOfLive(db, d, rows[1..], kind, hash, now); }
  }

  lemma {:induction false} FirstOpenConcat(db: Db, a: seq<TokenRow>, b: seq<TokenRow>, kind: TokenKind, hash: Digest,
        now: int)
    ensures FirstOpen(db, a + b, kind, hash, now) ==
      if FirstOpen(db, a, kind, hash, now).Some? then FirstOpen(db, a, kind, hash, now)
      else FirstOpen(db, b, kind, hash, now)
  {
    if a == [] {
      assert a + b == b;
    } else {
      assert (a + b)[1..] == a[1..] + b;
      FirstOpenConcat(db, a[1..], b, kind, hash, now);
    }
  }

  lemma UpdateKeepsUnique(db: Db, u: User, now: int)
    requires UniqueEmails(db) && Update(db, u, now).Some?
    ensures UniqueEmails(Update(db, u, now).value)
  {
    var d := Update(db, u, now).value;
    forall a, b, email | Holds(d, a, email) && Holds(d, b, email) ensures a == b {
      if a != u.id { assert Holds(db, a, email); }
      if b != u.id { assert Holds(db, b, email); }
    }
  }

  /** Finding someone else by email is not disturbed either. */
  lemma UpdateKeepsOtherEmails(db: Db, u: User, now: int, d: Db, email: string)
    requires UniqueEmails(db) && Update(db, u, now) == Some(d)
    requires email != u.email && email != db.users[u.id].email
    ensures GetByEmail(d, email) == GetByEmail(db, email)
  {
    EmailReads(db, email);
    EmailReads(d, email);
    if id :| HasEmail(db, id, email) { assert HasEmail(d, id, email) && Holds(db, id, email); }
    if id :| HasEmail(d, id, email) { assert HasEmail(db, id, email) && Holds(db, id, email); }
    if GetByEmail(db, email).Some? {
      assert Holds(db, GetByEmail(db, email).value.id, email);
      assert Holds(db, GetByEmail(d, email).value.id, email);
    }
  }

  // ---- what every command does ----

  /** Writing back an entity as it was read, apart from other fields, never fails. */
  lemma WriteBackSucceeds(db: Db, u: User, now: int)
    requires UniqueEmails(db) && Live(db, u.id) && u.email == db.users[u.id].email
    ensures Update(db, u, now).Some?
  {
    assert Holds(db, u.id, u.email);
  }

  /** The counter and the lock after one more wrong password. */
  function Worse(s: Security, now: int): Security {
    if s.attempts + 1 >= MAX_LOGIN_ATTEMPTS then Security(s.attempts + 2, Some(now + LOCKOUT))
    else Security(s.attempts + 1, s.lockedUntil)
  }

  function SecurityAfter(s: Security, now: int, o: Outcome, v: nat): Security {
    if o == WrongPassword(v) then Worse(s, now)
    else if o.LoggedIn? && o.user == v then Security(0, None)
    else s
  }

  /** What a step does to the record of one user, by its outcome. */
  ghost predicate UserEffect(db: Db, now: int, d: Db, o: Outcome, v: nat) {
    && SecurityOf(d, v) == SecurityAfter(SecurityOf(db, v), now, o, v)
    && (o != PasswordChanged(v) && o != Registered(v) ==> CredentialsOf(d, v) == CredentialsOf(db, v))
    && if v in db.users then
         && v in d.users
         && d.users[v] ==
              if o == Verified(v) && db.users[v].verifiedAt.None? then db.users[v].(verifiedAt := Some(now))
              else db.users[v]
       else v in d.users ==> o == Registered(v) && d.users[v].verifiedAt.None?
  }

  /** Token rows are only ever added: one for a registration or a mailed token, else none. */
  ghost predicate TokenEffect(db: Db, d: Db, o: Outcome) {
    && db.tokens <= d.tokens
    && |d.tokens| == |db.tokens| + (if o.Registered? || o.Mailed? then 1 else 0)
  }

  /** A refresh row never disappears, never changes owner or end, and stays revoked or deleted; a
      new row belongs to the verified user the command answered for. */
  ghost predicate RefreshEffect(db: Db, d: Db, o: Outcome, t: string) {
    if t in db.refresh then
      && t in d.refresh
      && d.refresh[t].user == db.refresh[t].user && d.refresh[t].expires == db.refresh[t].expires
      && (db.refresh[t].revokedAt.Some? ==> d.refresh[t].revokedAt == db.refresh[t].revokedAt)
      && (db.refresh[t].deleted ==> d.refresh[t].deleted)
    else t in d.refresh ==>
      && ((o.LoggedIn? && o.issued) || o.Refreshed?)
      && d.refresh[t].user == o.user && d.refresh[t].revokedAt.None? && !d.refresh[t].deleted
      && o.user in db.users && db.users[o.user].verifiedAt.Some?
  }

  /** What a step does to refresh rows, whatever the database holds. */
  lemma StepRefreshEffect(db: Db, now: int, cmd: Cmd, t: string)
    ensures var (d, o) := Step(db, now, cmd); RefreshEffect(db, d, o, t)
  {
    match cmd
    case SignIn(email, password, newToken) => LoginKeepsRefresh(db, email, password, now);
    case _ =>
  }

  lemma LoginKeepsRefresh(db: Db, email: string, password: Password, now: int)
    ensures var (d, o) := Login(db, email, password, now);
      && d.refresh == db.refresh
      && (o.LoggedIn? ==> o.user in db.users && db.users[o.user].verifiedAt.Some? && !o.issued)
  {
    EmailReads(db, email);
  }

  ghost predicate Facts(db: Db, now: int, d: Db, o: Outcome) {
    && UniqueEmails(d)
    && (forall v: nat :: UserEffect(db, now, d, o, v))
    && TokenEffect(db, d, o)
  }

  /** What an entity about to be written back may differ in from the stored account, by outcome. */
  ghost predicate Writes(db: Db, u: User, now: int, o: Outcome)
    requires Live(db, u.id)
  {
    && u.email == db.users[u.id].email && u.name == db.users[u.id].name && u.active == db.users[u.id].active
    && (u.verified <==> db.users[u.id].verifiedAt.Some? || o == Verified(u.id))
    && Security(u.attempts, u.lockedUntil) == SecurityAfter(SecurityOf(db, u.id), now, o, u.id)
    && (o != PasswordChanged(u.id) ==> u.password == CredentialsOf(db, u.id))
    && |NewTokens(u)| == (if o.Mailed? then 1 else 0)
    && !o.Registered? && (o.LoggedIn? || o.WrongPassword? || o.Verified? ==> o.user == u.id)
  }

  /** An update that succeeds writes the four rows of its user and no other. */
  lemma UpdateWrites(db: Db, u: User, now: int)
    requires Update(db, u, now).Some?
    ensures u.id in db.users
    ensures var d := Update(db, u, now).value; var was := db.users[u.id].verifiedAt;
      && d.users == db.users[u.id := UserRow(u.email, u.name, u.active,
                                if !u.verified then None else if was.Some? then was else Some(now), false)]
      && d.security == db.security[u.id := Security(u.attempts, u.lockedUntil)]
      && d.creds == db.creds[u.id := u.password]
      && d.tokens == db.tokens + NewTokens(u) && d.refresh == db.refresh
  {
    hide EmailTaken;
  }

  lemma UpdateUserEffect(db: Db, u: User, now: int, o: Outcome, v: nat)
    requires Live(db, u.id) && Writes(db, u, now, o) && Update(db, u, now).Some?
    ensures UserEffect(db, now, Update(db, u, now).value, o, v)
  {
    UpdateWrites(db, u, now);
    hide Update;
    hide NewTokens;
    hide Worse;
  }

  /** One update of an entity that keeps the user's email, name, activity and verification. */
  lemma UpdateFacts(db: Db, u: User, now: int, o: Outcome)
    requires UniqueEmails(db) && Live(db, u.id) && Writes(db, u, now, o)
    ensures Update(db, u, now).Some?
    ensures Facts(db, now, Update(db, u, now).value, o)
  {
    WriteBackSucceeds(db, u, now);
    UpdateKeepsUnique(db, u, now);
    UpdateWrites(db, u, now);
    var d := Update(db, u, now).value;
    assert TokenEffect(db, d, o);
    hide UniqueEmails;
    hide Update;
    hide Writes;
    forall v: nat ensures UserEffect(db, now, d, o, v) {
      UpdateUserEffect(db, u, now, o, v);
    }
  }

  ghost predicate StepFacts(db: Db, now: int, cmd: Cmd) {
    var (d, o) := Step(db, now, cmd);
    Facts(db, now, d, o)
  }

  lemma CreateFacts(db: Db, u: User, now: int)
    requires UniqueEmails(db) && Create(db, u, now).Some? && u.verifyToken.None? && u.resetToken.None? && !u.verified
    ensures var d := Create(db, u, now).value;
      && UniqueEmails(d) && u.id !in db.users && Live(d, u.id)
      && SecurityOf(db, u.id) == Security(0, None)
      && d.users == db.users[u.id := UserRow(u.email, u.name, u.active, None, false)]
      && d.security == db.security[u.id := Security(u.attempts, u.lockedUntil)]
      && d.creds == db.creds[u.id := u.password]
      && d.tokens == db.tokens && d.refresh == db.refresh
  {
    var d := Create(db, u, now).value;
    forall a, b, email | Holds(d, a, email) && Holds(d, b, email) ensures a == b {
      if a != u.id { assert Holds(db, a, email); }
      if b != u.id { assert Holds(db, b, email); }
    }
  }

  lemma RegisterFacts(db: Db, now: int, cmd: Cmd)
    requires UniqueEmails(db) && cmd.Register?
    ensures StepFacts(db, now, cmd)
  {
    var u := NewUser(cmd.id, cmd.email, cmd.password, cmd.name);
    if GetByEmail(db, cmd.email).None? && |cmd.password| <= MAX_PASSWORD && Create(db, u, now).Some? {
      RegistrationFacts(db, u, now, u.(verifyToken := Some(Sha(cmd.token)), verifyExpires := Some(now + VERIFY_TTL)));
    }
  }

  /** Creating an account and writing it back with its first token. */
  lemma RegistrationFacts(db: Db, u: User, now: int, u2: User)
    requires UniqueEmails(db) && Create(db, u, now).Some?
    requires u.verifyToken.None? && u.resetToken.None? && !u.verified && u.attempts == 0 && u.lockedUntil.None?
    requires WithoutTokens(u2) == WithoutTokens(u) && |NewTokens(u2)| == 1
    ensures var d := Create(db, u, now).value;
      Update(d, u2, now).Some? && Facts(db, now, Update(d, u2, now).value, Registered(u.id))
  {
    CreateFacts(db, u, now);
    var d := Create(db, u, now).value;
    hide Create;
    UpdateFacts(d, u2, now, Mailed(u.id));
    var d2 := Update(d, u2, now).value;
    hide Update;
    hide NewTokens;
    forall v: nat ensures UserEffect(db, now, d2, Registered(u.id), v) {
      assert UserEffect(d, now, d2, Mailed(u.id), v);
    }
  }

  lemma VerifyFacts(db: Db, now: int, cmd: Cmd)
    requires UniqueEmails(db) && cmd.VerifyEmail?
    ensures StepFacts(db, now, cmd)
  {
    TokenReads(db, EmailVerification, Sha(cmd.token), now);
    var got := GetByToken(db, EmailVerification, Sha(cmd.token), now);
    if got.Some? {
      assert WithoutTokens(got.value) == Fetch(db, got.value.id);
      UpdateFacts(db, got.value.(verified := true, verifyToken := None, verifyExpires := None), now,
        Verified(got.value.id));
    }
  }

  lemma MailFacts(db: Db, now: int, cmd: Cmd)
    requires UniqueEmails(db) && (cmd.Resend? || cmd.Forgot?)
    ensures StepFacts(db, now, cmd)
  {
    EmailReads(db, cmd.email);
    var got := GetByEmail(db, cmd.email);
    if got.Some? && (cmd.Forgot? || !got.value.verified) {
      var u := if cmd.Resend?
               then got.value.(verifyToken := Some(Sha(cmd.token)), verifyExpires := Some(now + VERIFY_TTL))
               else got.value.(resetToken := Some(Sha(cmd.token)), resetExpires := Some(now + RESET_TTL));
      UpdateFacts(db, u, now, Mailed(u.id));
    }
  }

  lemma LoginFacts(db: Db, email: string, password: Password, now: int)
    requires UniqueEmails(db)
    ensures var (d, o) := Login(db, email, password, now); Facts(db, now, d, o)
  {
    EmailReads(db, email);
    var got := GetByEmail(db, email);
    if got.Some? && got.value.active && !IsLocked(got.value, now) && got.value.verified {
      var u := got.value;
      if u.password != Hash(password) {
        UpdateFacts(db, AfterWrongPassword(u, now), now, WrongPassword(u.id));
      } else {
        UpdateFacts(db, Unlocked(u), now, LoggedIn(u.id, false));
      }
    }
  }

  lemma SignInFacts(db: Db, now: int, cmd: Cmd)
    requires UniqueEmails(db) && cmd.SignIn?
    ensures StepFacts(db, now, cmd)
  {
    LoginFacts(db, cmd.email, cmd.password, now);
    var (d1, o1) := Login(db, cmd.email, cmd.password, now);
    var (d, o) := Step(db, now, cmd);
    hide Login;
    forall v: nat ensures UserEffect(db, now, d, o, v) {
      assert UserEffect(db, now, d1, o1, v);
    }
    SameEmailsUnique(d1, d);
  }

  lemma SameEmailsUnique(d1: Db, d: Db)
    requires UniqueEmails(d1) && d.users == d1.users
    ensures UniqueEmails(d)
  {
    assert forall a, email :: Holds(d, a, email) ==> Holds(d1, a, email);
  }

  lemma ResetFacts(db: Db, now: int, cmd: Cmd)
    requires UniqueEmails(db) && cmd.Reset?
    ensures StepFacts(db, now, cmd)
  {
    TokenReads(db, PasswordReset, Sha(cmd.token), now);
    hide GetByToken;
    var got := GetByToken(db, PasswordReset, Sha(cmd.token), now);
    if got.Some? && |cmd.newPassword| <= MAX_PASSWORD {
      var u := got.value.(password := Hash(cmd.newPassword), resetToken := None, resetExpires := None);
      ChangePasswordFacts(db, u, now);
      hide Update;
      hide RevokeAll;
    } else {
      hide Update;
      hide RevokeAll;
      AccountsUntouched(db, now, db, Step(db, now, cmd).1);
    }
  }

  /** Revoking a user's sessions and storing a new password. */
  lemma ChangePasswordFacts(db: Db, u: User, now: int)
    requires UniqueEmails(db) && Live(db, u.id) && WithoutTokens(u) == Fetch(db, u.id).(password := u.password)
    requires NewTokens(u) == []
    ensures var d := RevokeAll(db, u.id, now);
      Update(d, u, now).Some? && Facts(db, now, Update(d, u, now).value, PasswordChanged(u.id))
  {
    var d := RevokeAll(db, u.id, now);
    SameEmailsUnique(db, d);
    UpdateFacts(d, u, now, PasswordChanged(u.id));
    var d2 := Update(d, u, now).value;
    hide Update;
    forall v: nat ensures UserEffect(db, now, d2, PasswordChanged(u.id), v) {
      assert UserEffect(d, now, d2, PasswordChanged(u.id), v);
    }
  }

  /** Commands that leave the account tables alone. */
  lemma AccountsUntouched(db: Db, now: int, d: Db, o: Outcome)
    requires UniqueEmails(db)
    requires d.users == db.users && d.creds == db.creds && d.security == db.security && d.tokens == db.tokens
    requires !o.Registered? && !o.Mailed? && !o.WrongPassword? && !o.LoggedIn? && !o.Verified?
    ensures Facts(db, now, d, o)
  {
    SameEmailsUnique(db, d);
  }

  lemma RevokeFacts(db: Db, now: int, cmd: Cmd)
    requires UniqueEmails(db) && (cmd.Refresh? || cmd.Logout? || cmd.LogoutAll? || cmd.Purge?)
    ensures StepFacts(db, now, cmd)
  {
    var (d, o) := Step(db, now, cmd);
    AccountsUntouched(db, now, d, o);
  }

  /** What every command does to the accounts and the token rows, by its outcome. */
  lemma StepHasFacts(db: Db, now: int, cmd: Cmd)
    requires UniqueEmails(db)
    ensures StepFacts(db, now, cmd)
  {
    match cmd
    case Register(_, _, _, _, _) => RegisterFacts(db, now, cmd);
    case VerifyEmail(_) => VerifyFacts(db, now, cmd);
    case Resend(_, _) => MailFacts(db, now, cmd);
    case SignIn(_, _, _) => SignInFacts(db, now, cmd);
    case Forgot(_, _) => MailFacts(db, now, cmd);
    case Reset(_, _) => ResetFacts(db, now, cmd);
    case _ => RevokeFacts(db, now, cmd);
  }
}
