/** Accounts over normalised tables, and what each authentication command does to them.  A command
    is one atomic step at one point in time; times are seconds. */
module AuthModel {
  import opened Prelude

  const MAX_LOGIN_ATTEMPTS := 5
  const LOCKOUT := 15 * 60
  const VERIFY_TTL := 24 * 60 * 60
  const RESET_TTL := 60 * 60
  const REFRESH_TTL := 7 * 24 * 60 * 60
  const MAX_PASSWORD := 72    // bytes, for hashing

  /** SHA-256 of a token, taken as injective. */
  datatype Digest = Sha(text: string)

  /** Passwords are bytes. */
  type Password = seq<bv8>

  /** A bcrypt hash, taken as injective in the 72 bytes of key it is made of. */
  datatype PasswordHash = NoHash | Bcrypt(key: seq<bv8>)

  /** The key: the password and a zero byte, over and over. */
  function BcryptKey(password: Password): (key: seq<bv8>)
    ensures |key| == 72
  {
    seq(72, i requires 0 <= i < 72 => (password + [0])[i % (|password| + 1)])
  }

  function Hash(password: Password): PasswordHash { Bcrypt(BcryptKey(password)) }

  // ---- the tables ----

  datatype UserRow = UserRow(email: string, name: string, active: bool, verifiedAt: Option<int>, deleted: bool)
  datatype Security = Security(attempts: nat, lockedUntil: Option<int>)
  datatype TokenKind = EmailVerification | PasswordReset
  /** consumed_at is never written, so it is not here. */
  datatype TokenRow = TokenRow(user: nat, kind: TokenKind, hash: Digest, expires: Option<int>)
  datatype RefreshRow = RefreshRow(user: nat, expires: int, revokedAt: Option<int>, deleted: bool)

  datatype Db = Db(users: map<nat, UserRow>, creds: map<nat, PasswordHash>, security: map<nat, Security>,
                   tokens: seq<TokenRow>, refresh: map<string, RefreshRow>)

  const EMPTY := Db(map[], map[], map[], [], map[])

  /** The user entity handlers work on. */
  datatype User = User(id: nat, email: string, name: string, password: PasswordHash, active: bool, attempts: nat,
                       lockedUntil: Option<int>, verified: bool,
                       verifyToken: Option<Digest>, verifyExpires: Option<int>,
                       resetToken: Option<Digest>, resetExpires: Option<int>)

  predicate Live(db: Db, id: nat) {
    id in db.users && !db.users[id].deleted
  }

  // ---- reading ----

  /** The side rows of a user, either of which may be missing: an account made by an administrator has
      neither until it is first written back. */
  function SecurityOf(db: Db, id: nat): Security {
    if id in db.security then db.security[id] else Security(0, None)
  }

  function CredentialsOf(db: Db, id: nat): PasswordHash {
    if id in db.creds then db.creds[id] else NoHash
  }

  /** The row joined with credentials and security. */
  function Fetch(db: Db, id: nat): User
    requires id in db.users
  {
    var row := db.users[id];
    var security := SecurityOf(db, id);
    User(id, row.email, row.name, CredentialsOf(db, id), row.active,
         security.attempts, security.lockedUntil, row.verifiedAt.Some?, None, None, None, None)
  }

  function GetByID(db: Db, id: nat): Option<User> {
    if Live(db, id) then Some(Fetch(db, id)) else None
  }

  predicate HasEmail(db: Db, id: nat, email: string) {
    Live(db, id) && db.users[id].email == email
  }

  ghost function GetByEmail(db: Db, email: string): Option<User> {
    if exists id :: HasEmail(db, id, email) then (var id :| HasEmail(db, id, email); Some(Fetch(db, id))) else None
  }

  predicate Opens(db: Db, row: TokenRow, kind: TokenKind, hash: Digest, now: int) {
    row.kind == kind && row.hash == hash && (row.expires.Some? ==> row.expires.value > now) && Live(db, row.user)
  }

  /** The first token row that matches, is not past its time and has a live user. */
  function FirstOpen(db: Db, rows: seq<TokenRow>, kind: TokenKind, hash: Digest, now: int): Option<TokenRow> {
    if rows == [] then None
    else if Opens(db, rows[0], kind, hash, now) then Some(rows[0])
    else FirstOpen(db, rows[1..], kind, hash, now)
  }

  function GetByToken(db: Db, kind: TokenKind, hash: Digest, now: int): Option<User> {
    match FirstOpen(db, db.tokens, kind, hash, now)
    case None => None
    case Some(row) =>
      if row.user !in db.users then None
      else if kind.EmailVerification? then
        Some(Fetch(db, row.user).(verifyToken := Some(hash), verifyExpires := row.expires))
      else Some(Fetch(db, row.user).(resetToken := Some(hash), resetExpires := row.expires))
  }

  // ---- writing ----

  predicate Holds(db: Db, id: nat, email: string) {
    id in db.users && db.users[id].email == email
  }

  /** The unique constraint, which deleted rows keep. */
  predicate EmailTaken(db: Db, id: nat, email: string) {
    exists k :: k in db.users && Holds(db, k, email) && k != id
  }

  function NewTokens(u: User): seq<TokenRow> {
    (if u.verifyToken.Some? then [TokenRow(u.id, EmailVerification, u.verifyToken.value, u.verifyExpires)] else [])
    + (if u.resetToken.Some? then [TokenRow(u.id, PasswordReset, u.resetToken.value, u.resetExpires)] else [])
  }

  function Create(db: Db, u: User, now: int): Option<Db> {
    if u.id in db.users || EmailTaken(db, u.id, u.email) || u.id in db.creds || u.id in db.security then None
    else Some(Db(db.users[u.id := UserRow(u.email, u.name, u.active, if u.verified then Some(now) else None, false)],
                 db.creds[u.id := u.password],
                 db.security[u.id := Security(u.attempts, u.lockedUntil)],
                 db.tokens + NewTokens(u), db.refresh))
  }

  /** One transaction: a missing or deleted row, or an email of someone else, leaves everything. */
  function Update(db: Db, u: User, now: int): Option<Db> {
    if !Live(db, u.id) || EmailTaken(db, u.id, u.email) then None
    else
      var row := db.users[u.id];
      var verifiedAt := if !u.verified then None else if row.verifiedAt.Some? then row.verifiedAt else Some(now);
      Some(Db(db.users[u.id := UserRow(u.email, u.name, u.active, verifiedAt, false)],
              db.creds[u.id := u.password],
              db.security[u.id := Security(u.attempts, u.lockedUntil)],
              db.tokens + NewTokens(u), db.refresh))
  }

  function UpdateOrSame(db: Db, u: User, now: int): Db {
    match Update(db, u, now) case Some(d) => d case None => db
  }

  // ---- refresh tokens ----

  function RevokeRow(r: RefreshRow, now: int): RefreshRow {
    if !r.deleted && r.revokedAt.None? then r.(revokedAt := Some(now)) else r
  }

  function Revoke(db: Db, token: string, now: int): Db {
    if token in db.refresh then db.(refresh := db.refresh[token := RevokeRow(db.refresh[token], now)]) else db
  }

  function RevokeAll(db: Db, user: nat, now: int): Db {
    db.(refresh := map t | t in db.refresh ::
          if db.refresh[t].user == user then RevokeRow(db.refresh[t], now) else db.refresh[t])
  }

  function DeleteExpired(db: Db, now: int): Db {
    db.(refresh := map t | t in db.refresh ::
          if db.refresh[t].expires < now then db.refresh[t].(deleted := true) else db.refresh[t])
  }

  /** The token column is unique: an old token text is refused. */
  function Issue(db: Db, user: nat, token: string, ttl: int, now: int): Option<Db> {
    if token in db.refresh then None
    else
      var row := RefreshRow(user, now + (if ttl > 0 then ttl else REFRESH_TTL), None, false);
      Some(db.(refresh := db.refresh[token := row]))
  }

  /** A token that a refresh would accept at this time. */
  predicate Usable(db: Db, token: string, now: int) {
    && token in db.refresh && !db.refresh[token].deleted
    && db.refresh[token].revokedAt.None? && now <= db.refresh[token].expires
  }

  // ---- commands ----

  datatype Cmd =
    | Register(id: nat, email: string, password: Password, name: string, token: string)
    | VerifyEmail(token: string)
    | Resend(email: string, token: string)
    | SignIn(email: string, password: Password, newToken: string)
    | Refresh(refreshToken: string, newToken: string, ttl: int)
    | Logout(refreshToken: string)
    | LogoutAll(user: nat)
    | Forgot(email: string, token: string)
    | Reset(token: string, newPassword: Password)
    | Purge

  datatype Outcome =
    | Registered(user: nat)
    | EmailAlreadyExists
    | Verified(user: nat)
    | Mailed(user: nat)
    | Silent
    | LoggedIn(user: nat, issued: bool)
    | WrongPassword(user: nat)
    | UnknownEmail
    | AccountDisabled
    | AccountLocked
    | EmailNotVerified
    | Refreshed(user: nat)
    | RefreshRejected
    | UserNotFound
    | RevokedNotReissued
    | SignedOut
    | PasswordChanged(user: nat)
    | InvalidToken
    | Failed

  function NewUser(id: nat, email: string, password: Password, name: string): User {
    User(id, email, name, Hash(password), true, 0, None, false, None, None, None, None)
  }

  predicate IsLocked(u: User, now: int) {
    u.lockedUntil.Some? && now < u.lockedUntil.value
  }

  /** Lock counts the failure a second time. */
  function Locked(u: User, now: int): User {
    u.(attempts := u.attempts + 1, lockedUntil := Some(now + LOCKOUT))
  }

  function Unlocked(u: User): User {
    u.(attempts := 0, lockedUntil := None)
  }

  function AfterWrongPassword(u: User, now: int): User {
    var counted := u.(attempts := u.attempts + 1);
    if counted.attempts >= MAX_LOGIN_ATTEMPTS then Locked(counted, now) else counted
  }

  /** The password check of a login: the account after it, and whether it succeeded. */
  ghost function Login(db: Db, email: string, password: Password, now: int): (Db, Outcome) {
    match GetByEmail(db, email)
    case None => (db, UnknownEmail)
    case Some(u) =>
      if !u.active then (db, AccountDisabled)
      else if IsLocked(u, now) then (db, AccountLocked)
      else if !u.verified then (db, EmailNotVerified)
      else if u.password != Hash(password) then (UpdateOrSame(db, AfterWrongPassword(u, now), now), WrongPassword(u.id))
      else (UpdateOrSame(db, Unlocked(u), now), LoggedIn(u.id, false))
  }

  ghost function Step(db: Db, now: int, cmd: Cmd): (Db, Outcome) {
    match cmd
    case Register(id, email, password, name, token) =>
      if GetByEmail(db, email).Some? then (db, EmailAlreadyExists)
      else if |password| > MAX_PASSWORD then (db, Failed)
      else
        var u := NewUser(id, email, password, name);
        (match Create(db, u, now)
         case None => (db, Failed)
         case Some(d) =>
           match Update(d, u.(verifyToken := Some(Sha(token)), verifyExpires := Some(now + VERIFY_TTL)), now)
           case None => (d, Failed)
           case Some(d2) => (d2, Registered(id)))
    case VerifyEmail(token) =>
      (match GetByToken(db, EmailVerification, Sha(token), now)
       case None => (db, InvalidToken)
       case Some(u) =>
         match Update(db, u.(verified := true, verifyToken := None, verifyExpires := None), now)
         case None => (db, Failed)
         case Some(d) => (d, Verified(u.id)))
    case Resend(email, token) =>
      (match GetByEmail(db, email)
       case None => (db, Silent)
       case Some(u) =>
         if u.verified then (db, Silent)
         else match Update(db, u.(verifyToken := Some(Sha(token)), verifyExpires := Some(now + VERIFY_TTL)), now)
           case None => (db, Failed)
           case Some(d) => (d, Mailed(u.id)))
    case SignIn(email, password, newToken) =>
      var (d, o) := Login(db, email, password, now);
      if !o.LoggedIn? then (d, o)
      else (match Issue(d, o.user, newToken, 0, now)
            case None => (d, o)
            case Some(d2) => (d2, LoggedIn(o.user, true)))
    case Refresh(token, newToken, ttl) =>
      if !Usable(db, token, now) then (db, RefreshRejected)
      else (match GetByID(db, db.refresh[token].user)
            case None => (db, UserNotFound)
            case Some(u) =>
              if !u.active then (db, AccountDisabled)
              else if !u.verified then (db, EmailNotVerified)
              else
                var d := Revoke(db, token, now);
                match Issue(d, u.id, newToken, ttl, now)
                case None => (d, RevokedNotReissued)
                case Some(d2) => (d2, Refreshed(u.id)))
    case Logout(token) => (Revoke(db, token, now), SignedOut)
    case LogoutAll(user) => (RevokeAll(db, user, now), SignedOut)
    case Forgot(email, token) =>
      (match GetByEmail(db, email)
       case None => (db, Silent)
       case Some(u) =>
         match Update(db, u.(resetToken := Some(Sha(token)), resetExpires := Some(now + RESET_TTL)), now)
         case None => (db, Failed)
         case Some(d) => (d, Mailed(u.id)))
    case Reset(token, newPassword) =>
      (match GetByToken(db, PasswordReset, Sha(token), now)
       case None => (db, InvalidToken)
       case Some(u) =>
         if |newPassword| > MAX_PASSWORD then (db, Failed)
         else
           var d := RevokeAll(db, u.id, now);
           match Update(d, u.(password := Hash(newPassword), resetToken := None, resetExpires := None), now)
           case None => (d, Failed)
           case Some(d2) => (d2, PasswordChanged(u.id)))
    case Purge => (DeleteExpired(db, now), SignedOut)
  }

  // ---- runs ----

  datatype Timed = Timed(at: int, cmd: Cmd)

  /** The database after a run of commands from some database. */
  ghost function After(start: Db, run: seq<Timed>): Db {
    if run == [] then start
    else Step(After(start, run[..|run| - 1]), run[|run| - 1].at, run[|run| - 1].cmd).0
  }

  /** What the i-th command of a run answered. */
  ghost function OutcomeOf(start: Db, run: seq<Timed>, i: nat): Outcome
    requires i < |run|
  {
    Step(After(start, run[..i]), run[i].at, run[i].cmd).1
  }

  // ---- which passwords a hash matches ----

  lemma KeyByte(password: Password, i: nat)
    requires i < 72 && i <= |password|
    ensures BcryptKey(password)[i] == if i < |password| then password[i] else 0
  {
    assert i % (|password| + 1) == i by { SmallMod(i, |password| + 1); }
  }

  lemma SmallMod(i: nat, n: nat)
    requires i < n
    ensures i % n == i
  {
  }

  /** Among passwords without zero bytes, the hash of one that could be hashed matches that password,
      and, when it has all 72 bytes, every password that continues it. */
  lemma MatchesExactlyWhen(stored: Password, given: Password)
    requires |stored| <= MAX_PASSWORD && 0 !in stored && 0 !in given
    ensures Hash(given) == Hash(stored) <==> given == stored || (|stored| == MAX_PASSWORD && stored <= given)
  {
    var a, b := BcryptKey(stored), BcryptKey(given);
    forall i: nat | i < 72 && i <= |stored|
      ensures a[i] == if i < |stored| then stored[i] else 0
    {
      KeyByte(stored, i);
    }
    forall i: nat | i < 72 && i <= |given|
      ensures b[i] == if i < |given| then given[i] else 0
    {
      KeyByte(given, i);
    }
    hide BcryptKey;
    assert |given| < |stored| ==> stored[|given|] in stored;
    assert |stored| < |given| ==> given[|stored|] in given;
    if |stored| == MAX_PASSWORD && stored <= given {
      assert a == b;
    }
  }
}
