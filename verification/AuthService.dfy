/** The account entity, the repositories over one database, and the command handlers, each proved
    to do what the step of the model says. */
module AuthService {
  import opened Prelude
  import opened AuthModel
  import opened AuthRuns
  import opened AuthOutcomes

  /** The user entity; handlers change its fields and hand it back to the repository. */
  class Account {
    var id: nat
    var email: string
    var name: string
    var password: PasswordHash
    var isActive: bool
    var failedLoginAttempts: nat
    var lockedUntil: Option<int>
    var emailVerified: bool
    var emailVerifyToken: Option<Digest>
    var emailVerifyExpires: Option<int>
    var passwordResetToken: Option<Digest>
    var passwordResetExpires: Option<int>

    function Value(): User
      reads this
    {
      User(id, email, name, password, isActive, failedLoginAttempts, lockedUntil, emailVerified,
           emailVerifyToken, emailVerifyExpires, passwordResetToken, passwordResetExpires)
    }

    constructor (u: User)
      ensures Value() == u
    {
      id, email, name, password, isActive := u.id, u.email, u.name, u.password, u.active;
      failedLoginAttempts, lockedUntil, emailVerified := u.attempts, u.lockedUntil, u.verified;
      emailVerifyToken, emailVerifyExpires := u.verifyToken, u.verifyExpires;
      passwordResetToken, passwordResetExpires := u.resetToken, u.resetExpires;
    }

    predicate Locked(now: int)
      reads this
    {
      if lockedUntil.None? then false else now < lockedUntil.value
    }

    method Lock(now: int, duration: int)
      modifies this
      ensures Value() == old(Value()).(attempts := old(failedLoginAttempts) + 1, lockedUntil := Some(now + duration))
    {
      failedLoginAttempts := failedLoginAttempts + 1;
      lockedUntil := Some(now + duration);
    }

    method Unlock()
      modifies this
      ensures Value() == Unlocked(old(Value()))
    {
      failedLoginAttempts := 0;
      lockedUntil := None;
    }
  }

  class Database {
    var users: map<nat, UserRow>
    var creds: map<nat, PasswordHash>
    var security: map<nat, Security>
    var tokens: seq<TokenRow>
    var refresh: map<string, RefreshRow>

    constructor ()
      ensures Snapshot() == EMPTY
    {
      users, creds, security, tokens, refresh := map[], map[], map[], [], map[];
    }

    function Snapshot(): Db
      reads this
    {
      Db(users, creds, security, tokens, refresh)
    }
  }

  class UserRepository {
    const db: Database

    constructor (db: Database)
      ensures this.db == db
    {
      this.db := db;
    }

    method InsertTokens(user: Account)
      modifies db`tokens
      ensures db.tokens == old(db.tokens) + NewTokens(user.Value())
    {
      if user.emailVerifyToken.Some? {
        db.tokens := db.tokens + [TokenRow(user.id, EmailVerification, user.emailVerifyToken.value,
          user.emailVerifyExpires)];
      }
      if user.passwordResetToken.Some? {
        db.tokens := db.tokens + [TokenRow(user.id, PasswordReset, user.passwordResetToken.value,
          user.passwordResetExpires)];
      }
    }

    method Create(user: Account, now: int) returns (ok: bool)
      modifies db
      ensures var after := AuthModel.Create(old(db.Snapshot()), user.Value(), now);
        ok == after.Some? && db.Snapshot() == if ok then after.value else old(db.Snapshot())
    {
      var emailVerifiedAt: Option<int> := None;
      if user.emailVerified {
        emailVerifiedAt := Some(now);
      }
      if user.id in db.users || EmailTaken(db.Snapshot(), user.id, user.email) { return false; }
      if user.id in db.creds || user.id in db.security { return false; }
      db.users := db.users[user.id := UserRow(user.email, user.name, user.isActive, emailVerifiedAt, false)];
      db.creds := db.creds[user.id := user.password];
      db.security := db.security[user.id := Security(user.failedLoginAttempts, user.lockedUntil)];
      InsertTokens(user);
      ok := true;
    }

    method Update(user: Account, now: int) returns (ok: bool)
      modifies db
      ensures var after := AuthModel.Update(old(db.Snapshot()), user.Value(), now);
        ok == after.Some? && db.Snapshot() == if ok then after.value else old(db.Snapshot())
      ensures ok ==> db.creds == old(db.creds)[user.id := user.password]
    {
      if user.id !in db.users || db.users[user.id].deleted { return false; }
      if EmailTaken(db.Snapshot(), user.id, user.email) { return false; }
      var row := db.users[user.id];
      row := row.(email := user.email, name := user.name, active := user.isActive);
      if !user.emailVerified {
        row := row.(verifiedAt := None);
      } else if row.verifiedAt.None? {
        row := row.(verifiedAt := Some(now));
      }
      db.users := db.users[user.id := row];
      db.creds := db.creds[user.id := user.password];
      db.security := db.security[user.id := Security(user.failedLoginAttempts, user.lockedUntil)];
      InsertTokens(user);
      ok := true;
    }

    method FindByID(id: nat) returns (user: Option<Account>)
      ensures user.Some? ==> fresh(user.value)
      ensures (if user.None? then None else Some(user.value.Value())) == GetByID(db.Snapshot(), id)
    {
      if id !in db.users || db.users[id].deleted { return None; }
      var found := new Account(Fetch(db.Snapshot(), id));
      user := Some(found);
    }

    method FindByEmail(email: string) returns (user: Option<Account>)
      requires UniqueEmails(db.Snapshot())
      ensures user.Some? ==> fresh(user.value)
      ensures (if user.None? then None else Some(user.value.Value())) == GetByEmail(db.Snapshot(), email)
    {
      EmailReads(db.Snapshot(), email);
      if !exists id :: id in db.users && HasEmail(db.Snapshot(), id, email) { return None; }
      var id :| id in db.users && HasEmail(db.Snapshot(), id, email);
      assert Holds(db.Snapshot(), id, email);
      assert Holds(db.Snapshot(), GetByEmail(db.Snapshot(), email).value.id, email);
      var found := new Account(Fetch(db.Snapshot(), id));
      user := Some(found);
    }

    /** Scans the token rows for the first one that opens. */
    method FindByToken(kind: TokenKind, hash: Digest, now: int) returns (user: Option<Account>)
      ensures user.Some? ==> fresh(user.value)
      ensures (if user.None? then None else Some(user.value.Value())) == GetByToken(db.Snapshot(), kind, hash, now)
    {
      var s := db.Snapshot();
      var i := 0;
      while i < |db.tokens| && !Opens(s, db.tokens[i], kind, hash, now)
        invariant 0 <= i <= |db.tokens|
        invariant FirstOpen(s, s.tokens, kind, hash, now) == FirstOpen(s, s.tokens[i..], kind, hash, now)
      {
        i := i + 1;
      }
      if i == |db.tokens| { return None; }
      var row := db.tokens[i];
      var u := Fetch(s, row.user);
      var found := new Account(if kind.EmailVerification?
                               then u.(verifyToken := Some(hash), verifyExpires := row.expires)
                               else u.(resetToken := Some(hash), resetExpires := row.expires));
      user := Some(found);
    }
  }

  class RefreshTokenRepository {
    const db: Database

    constructor (db: Database)
      ensures this.db == db
    {
      this.db := db;
    }

    method Create(user: nat, token: string, ttl: int, now: int) returns (ok: bool)
      modifies db`refresh
      ensures var after := Issue(old(db.Snapshot()), user, token, ttl, now);
        ok == after.Some? && db.Snapshot() == if ok then after.value else old(db.Snapshot())
      ensures ok <==> token !in old(db.refresh)
      ensures ok ==>
        db.refresh == old(db.refresh)[token := RefreshRow(user, now + if ttl > 0 then ttl else 604800, None, false)]
    {
      ok := token !in db.refresh;
      if ok {
        var refreshTokenTTL := REFRESH_TTL;
        if ttl > 0 { refreshTokenTTL := ttl; }
        db.refresh := db.refresh[token := RefreshRow(user, now + refreshTokenTTL, None, false)];
      }
    }

    method RevokeToken(token: string, now: int)
      modifies db`refresh
      ensures db.Snapshot() == Revoke(old(db.Snapshot()), token, now)
    {
      if token in db.refresh {
        var row := db.refresh[token];
        if !row.deleted && row.revokedAt.None? {
          db.refresh := db.refresh[token := row.(revokedAt := Some(now))];
        }
      }
    }

    method RevokeAllByUserID(user: nat, now: int)
      modifies db`refresh
      ensures db.Snapshot() == RevokeAll(old(db.Snapshot()), user, now)
    {
      var todo := db.refresh.Keys;
      ghost var before := db.Snapshot();
      while todo != {}
        invariant todo <= before.refresh.Keys
        invariant db.refresh.Keys == before.refresh.Keys
        invariant forall t :: t in todo ==> db.refresh[t] == before.refresh[t]
        invariant forall t :: t in db.refresh && t !in todo ==> db.refresh[t] == RevokeAll(before, user, now).refresh[t]
        decreases todo
      {
        var t :| t in todo;
        var row := db.refresh[t];
        if row.user == user && !row.deleted && row.revokedAt.None? {
          db.refresh := db.refresh[t := row.(revokedAt := Some(now))];
        }
        todo := todo - {t};
      }
    }

    method PurgeExpired(now: int)
      modifies db`refresh
      ensures db.Snapshot() == DeleteExpired(old(db.Snapshot()), now)
    {
      var todo := db.refresh.Keys;
      ghost var before := db.Snapshot();
      while todo != {}
        invariant todo <= before.refresh.Keys
        invariant db.refresh.Keys == before.refresh.Keys
        invariant forall t :: t in todo ==> db.refresh[t] == before.refresh[t]
        invariant forall t :: t in db.refresh && t !in todo ==> db.refresh[t] == DeleteExpired(before, now).refresh[t]
        decreases todo
      {
        var t :| t in todo;
        var row := db.refresh[t];
        if row.expires < now {
          db.refresh := db.refresh[t := row.(deleted := true)];
        }
        todo := todo - {t};
      }
    }
  }

  class Handlers {
    const db: Database
    const userRepo: UserRepository
    const refreshRepo: RefreshTokenRepository

    constructor (db: Database)
      ensures this.db == db && Wired()
    {
      this.db := db;
      userRepo := new UserRepository(db);
      refreshRepo := new RefreshTokenRepository(db);
    }

    predicate Wired() {
      userRepo.db == db && refreshRepo.db == db
    }

    method HandleRegister(id: nat, email: string, password: Password, name: string, token: string, now: int)
      returns (o: Outcome)
      requires Wired() && UniqueEmails(db.Snapshot())
      modifies db
      ensures (db.Snapshot(), o) == Step(old(db.Snapshot()), now, Register(id, email, password, name, token))
    {
      var existing := userRepo.FindByEmail(email);
      if existing.Some? { return EmailAlreadyExists; }
      if |password| > MAX_PASSWORD { return Failed; }
      var user := new Account(NewUser(id, email, password, name));
      var created := userRepo.Create(user, now);
      if !created { return Failed; }
      user.emailVerifyToken := Some(Sha(token));
      user.emailVerifyExpires := Some(now + VERIFY_TTL);
      var updated := userRepo.Update(user, now);
      o := if updated then Registered(id) else Failed;
    }

    method HandleVerifyEmail(token: string, now: int) returns (o: Outcome)
      requires Wired()
      modifies db
      ensures (db.Snapshot(), o) == Step(old(db.Snapshot()), now, VerifyEmail(token))
    {
      hide GetByToken;
      hide AuthModel.Update;
      var found := userRepo.FindByToken(EmailVerification, Sha(token), now);
      if found.None? { return InvalidToken; }
      var user := found.value;
      user.emailVerified := true;
      user.emailVerifyToken := None;
      user.emailVerifyExpires := None;
      var updated := userRepo.Update(user, now);
      o := if updated then Verified(user.id) else Failed;
    }

    method HandleResend(email: string, token: string, now: int) returns (o: Outcome)
      requires Wired() && UniqueEmails(db.Snapshot())
      modifies db
      ensures (db.Snapshot(), o) == Step(old(db.Snapshot()), now, Resend(email, token))
    {
      var found := userRepo.FindByEmail(email);
      if found.None? { return Silent; }
      var user := found.value;
      if user.emailVerified { return Silent; }
      user.emailVerifyToken := Some(Sha(token));
      user.emailVerifyExpires := Some(now + VERIFY_TTL);
      var updated := userRepo.Update(user, now);
      o := if updated then Mailed(user.id) else Failed;
    }

    method HandleForgot(email: string, token: string, now: int) returns (o: Outcome)
      requires Wired() && UniqueEmails(db.Snapshot())
      modifies db
      ensures (db.Snapshot(), o) == Step(old(db.Snapshot()), now, Forgot(email, token))
    {
      var found := userRepo.FindByEmail(email);
      if found.None? { return Silent; }
      var user := found.value;
      user.passwordResetToken := Some(Sha(token));
      user.passwordResetExpires := Some(now + RESET_TTL);
      var updated := userRepo.Update(user, now);
      o := if updated then Mailed(user.id) else Failed;
    }

    method HandleLogin(email: string, password: Password, now: int) returns (o: Outcome)
      requires Wired() && UniqueEmails(db.Snapshot())
      modifies db
      ensures (db.Snapshot(), o) == Login(old(db.Snapshot()), email, password, now)
    {
      var found := userRepo.FindByEmail(email);
      if found.None? { return UnknownEmail; }
      var user := found.value;
      if !user.isActive { return AccountDisabled; }
      if user.Locked(now) { return AccountLocked; }
      if !user.emailVerified { return EmailNotVerified; }
      if user.password != Hash(password) {
        user.failedLoginAttempts := user.failedLoginAttempts + 1;
        if user.failedLoginAttempts >= MAX_LOGIN_ATTEMPTS {
          user.Lock(now, LOCKOUT);
        }
        var stored := userRepo.Update(user, now);
        return WrongPassword(user.id);
      }
      user.Unlock();
      var stored := userRepo.Update(user, now);
      o := LoggedIn(user.id, false);
    }

    /** The login endpoint: the login query, then the command that generates tokens. */
    method HandleSignIn(email: string, password: Password, newToken: string, now: int) returns (o: Outcome)
      requires Wired() && UniqueEmails(db.Snapshot())
      modifies db
      ensures (db.Snapshot(), o) == Step(old(db.Snapshot()), now, SignIn(email, password, newToken))
      ensures forall u: nat :: o.LoggedIn? && o.user == u <==>
        MayTry(old(db.Snapshot()), u, email, now) && CredentialsOf(old(db.Snapshot()), u) == Hash(password)
    {
      ghost var was := db.Snapshot();
      forall u: nat
        ensures var o := Step(was, now, SignIn(email, password, newToken)).1;
          o.LoggedIn? && o.user == u <==> MayTry(was, u, email, now) && CredentialsOf(was, u) == Hash(password)
      {
        SignInExactly(was, now, email, password, newToken, u);
      }
      o := HandleLogin(email, password, now);
      hide Login;
      hide MayTry;
      hide Hash;
      hide UniqueEmails;
      if o.LoggedIn? {
        var issued := refreshRepo.Create(o.user, newToken, 0, now);
        o := LoggedIn(o.user, issued);
      }
    }

    method HandleRefresh(token: string, newToken: string, ttl: int, now: int) returns (o: Outcome)
      requires Wired()
      modifies db
      ensures (db.Snapshot(), o) == Step(old(db.Snapshot()), now, Refresh(token, newToken, ttl))
    {
      if token !in db.refresh || db.refresh[token].deleted { return RefreshRejected; }
      var row := db.refresh[token];
      if now > row.expires || row.revokedAt.Some? { return RefreshRejected; }
      var found := userRepo.FindByID(row.user);
      if found.None? { return UserNotFound; }
      var user := found.value;
      if !user.isActive { return AccountDisabled; }
      if !user.emailVerified { return EmailNotVerified; }
      refreshRepo.RevokeToken(token, now);
      var issued := refreshRepo.Create(user.id, newToken, ttl, now);
      o := if issued then Refreshed(user.id) else RevokedNotReissued;
    }

    method HandleReset(token: string, newPassword: Password, now: int) returns (o: Outcome)
      requires Wired()
      modifies db
      ensures (db.Snapshot(), o) == Step(old(db.Snapshot()), now, Reset(token, newPassword))
      ensures o.PasswordChanged? ==> db.creds == old(db.creds)[o.user := Hash(newPassword)]
    {
      hide GetByToken;
      hide RevokeAll;
      hide AuthModel.Update;
      hide BcryptKey;
      var found := userRepo.FindByToken(PasswordReset, Sha(token), now);
      if found.None? { return InvalidToken; }
      var user := found.value;
      if |newPassword| > MAX_PASSWORD { return Failed; }
      user.password := Hash(newPassword);
      user.passwordResetToken := None;
      user.passwordResetExpires := None;
      refreshRepo.RevokeAllByUserID(user.id, now);
      var updated := userRepo.Update(user, now);
      o := if updated then PasswordChanged(user.id) else Failed;
    }

    method HandleLogout(token: string, now: int) returns (o: Outcome)
      requires Wired()
      modifies db
      ensures (db.Snapshot(), o) == Step(old(db.Snapshot()), now, Logout(token))
    {
      refreshRepo.RevokeToken(token, now);
      o := SignedOut;
    }

    method HandleLogoutAll(user: nat, now: int) returns (o: Outcome)
      requires Wired()
      modifies db
      ensures (db.Snapshot(), o) == Step(old(db.Snapshot()), now, LogoutAll(user))
    {
      refreshRepo.RevokeAllByUserID(user, now);
      o := SignedOut;
    }
  }
}
