/** Passwords, sessions and mailed tokens over whole runs: which password signs in, how long a session
    lasts, and what a mailed token is good for. */
module AuthSessions {
  import opened Prelude
  import opened AuthModel
  import opened AuthRuns
  import opened AuthOutcomes
  import opened AuthSafety

  // ---- the password ----

  /** A command that stored this password for the user. */
  predicate SetsPassword(cmd: Cmd, o: Outcome, u: nat, p: Password) {
    || (cmd.Register? && o == Registered(u) && cmd.password == p)
    || (cmd.Reset? && o == PasswordChanged(u) && cmd.newPassword == p)
  }

  lemma StepPassword(db: Db, now: int, cmd: Cmd, u: nat)
    requires UniqueEmails(db)
    ensures var (d, o) := Step(db, now, cmd);
      if cmd.Register? && o == Registered(u) then CredentialsOf(d, u) == Hash(cmd.password) && |cmd.password| <= 72
      else if cmd.Reset? && o == PasswordChanged(u) then
        CredentialsOf(d, u) == Hash(cmd.newPassword) && |cmd.newPassword| <= 72
      else CredentialsOf(d, u) == CredentialsOf(db, u)
  {
    var (d, o) := Step(db, now, cmd);
    StepHasFacts(db, now, cmd);
    assert UserEffect(db, now, d, o, u);
    OwnAnswers(db, now, cmd);
    match cmd
    case Register(id, email, p, name, token) => RegisterExactly(db, now, id, email, p, name, token);
    case Reset(token, p) => ResetExactly(db, now, token, p);
    case _ =>
  }

  /** Which command gives which of these answers. */
  lemma OwnAnswers(db: Db, now: int, cmd: Cmd)
    ensures var o := Step(db, now, cmd).1;
      && (o.Registered? ==> cmd.Register? && o.user == cmd.id)
      && (o.PasswordChanged? ==> cmd.Reset?) && (o.LoggedIn? ==> cmd.SignIn?) && (o.Refreshed? ==> cmd.Refresh?)
  {
  }

  /** The stored hash is that of the last password registered or reset. */
  lemma {:induction false} PasswordIsLastSet(db0: Db, run: seq<Timed>, i: nat, j: nat, u: nat, p: Password)
    requires UniqueEmails(db0) && i < j <= |run|
    requires SetsPassword(run[i].cmd, OutcomeOf(db0, run, i), u, p)
    requires forall k, q :: i < k < j ==> !SetsPassword(run[k].cmd, OutcomeOf(db0, run, k), u, q)
    ensures CredentialsOf(After(db0, run[..j]), u) == Hash(p)
    decreases j
  {
    hide Step;
    hide Hash;
    Unroll(db0, run, j - 1);
    RunKeepsUnique(db0, run[..j - 1]);
    StepPassword(After(db0, run[..j - 1]), run[j - 1].at, run[j - 1].cmd, u);
    if j > i + 1 {
      PasswordIsLastSet(db0, run, i, j - 1, u, p);
      var c, o := run[j - 1].cmd, OutcomeOf(db0, run, j - 1);
      assert c.Register? ==> !SetsPassword(c, o, u, c.password);
      assert c.Reset? ==> !SetsPassword(c, o, u, c.newPassword);
    }
  }

  /** So a later sign-in of an account that may try succeeds exactly with that password, or one that
      continues it when it has all 72 bytes. */
  lemma SignsInWithLastPassword(db0: Db, run: seq<Timed>, i: nat, j: nat, u: nat, p: Password)
    requires UniqueEmails(db0) && i < j < |run|
    requires SetsPassword(run[i].cmd, OutcomeOf(db0, run, i), u, p)
    requires forall k, q :: i < k < j ==> !SetsPassword(run[k].cmd, OutcomeOf(db0, run, k), u, q)
    requires run[j].cmd.SignIn? && 0 !in p && 0 !in run[j].cmd.password
    ensures var o, typed := OutcomeOf(db0, run, j), run[j].cmd.password;
      var may := MayTry(After(db0, run[..j]), u, run[j].cmd.email, run[j].at);
      && (o.LoggedIn? && o.user == u <==> may && (typed == p || (|p| == 72 && p <= typed)))
      && (o == WrongPassword(u) <==> may && typed != p && !(|p| == 72 && p <= typed))
  {
    hide Hash;
    PasswordIsLastSet(db0, run, i, j, u, p);
    RunKeepsUnique(db0, run[..i]);
    RunKeepsUnique(db0, run[..j]);
    StepPassword(After(db0, run[..i]), run[i].at, run[i].cmd, u);
    hide Step;
    var cmd := run[j].cmd;
    SignInExactly(After(db0, run[..j]), run[j].at, cmd.email, cmd.password, cmd.newToken, u);
    MatchesExactlyWhen(p, cmd.password);
  }

  // ---- sessions ----

  /** A command that opened a session with this refresh token for the user, and when the session ends. */
  predicate Opened(cmd: Cmd, o: Outcome, now: int, n: string, u: nat, end: int) {
    || (cmd.SignIn? && cmd.newToken == n && o == LoggedIn(u, true) && end == now + 7 * DAY)
    || (cmd.Refresh? && cmd.newToken == n && o == Refreshed(u)
        && end == now + (if cmd.ttl > 0 then cmd.ttl else 7 * DAY))
  }

  predicate GoodUser(db: Db, u: nat) {
    u in db.users && !db.users[u].deleted && db.users[u].active && db.users[u].verifiedAt.Some?
  }

  lemma OpenedRow(db: Db, now: int, cmd: Cmd, n: string, u: nat, end: int)
    requires UniqueEmails(db)
    requires Opened(cmd, Step(db, now, cmd).1, now, n, u, end)
    ensures var d := Step(db, now, cmd).0;
      && n !in db.refresh && n in d.refresh && d.refresh[n] == RefreshRow(u, end, None, false)
      && GoodUser(d, u)
  {
    var o := Step(db, now, cmd).1;
    if cmd.SignIn? {
      SignInExactly(db, now, cmd.email, cmd.password, cmd.newToken, u);
      SignInOpensSession(db, now, cmd.email, cmd.password, cmd.newToken);
      SignInCounts(db, now, cmd.email, cmd.password, cmd.newToken, u);
      hide Step;
    } else {
      RefreshExactly(db, now, cmd.refreshToken, cmd.newToken, cmd.ttl);
    }
  }

  /** A good user stays one. */
  lemma GoodStays(db: Db, now: int, cmd: Cmd, u: nat)
    requires UniqueEmails(db) && GoodUser(db, u)
    ensures GoodUser(Step(db, now, cmd).0, u)
  {
    StepHasFacts(db, now, cmd);
    var (d, o) := Step(db, now, cmd);
    hide Step;
    assert UserEffect(db, now, d, o, u);
  }

  /** The command ends the session for good: a logout, a refresh with its token, a logout everywhere or a
      password reset of its user, or a purge after its end. */
  predicate Closes(cmd: Cmd, o: Outcome, now: int, n: string, u: nat, end: int) {
    Ends(cmd, o, now, n, RefreshRow(u, end, None, false)) || (cmd.Purge? && end < now)
  }

  ghost predicate ClosedBetween(db0: Db, run: seq<Timed>, i: nat, j: nat, n: string, u: nat, end: int)
    requires j <= |run|
  {
    exists k :: i < k < j && Closes(run[k].cmd, OutcomeOf(db0, run, k), run[k].at, n, u, end)
  }

  /** The row of an open session keeps owner and end, and is dead exactly once the session was closed. */
  lemma {:induction false} SessionRow(db0: Db, run: seq<Timed>, i: nat, j: nat, n: string, u: nat, end: int)
    requires UniqueEmails(db0) && i < j <= |run|
    requires Opened(run[i].cmd, OutcomeOf(db0, run, i), run[i].at, n, u, end)
    ensures var db := After(db0, run[..j]);
      && n in db.refresh && db.refresh[n].user == u && db.refresh[n].expires == end
      && (Dead(db, n) <==> ClosedBetween(db0, run, i, j, n, u, end))
      && GoodUser(db, u)
    decreases j
  {
    hide Step;
    Unroll(db0, run, j - 1);
    RunKeepsUnique(db0, run[..j - 1]);
    var was := After(db0, run[..j - 1]);
    if j == i + 1 {
      OpenedRow(was, run[i].at, run[i].cmd, n, u, end);
    } else {
      SessionRow(db0, run, i, j - 1, n, u, end);
      RefreshRowExactly(was, run[j - 1].at, run[j - 1].cmd, n);
      GoodStays(was, run[j - 1].at, run[j - 1].cmd, u);
      ClosedStep(db0, run, i, j - 1, n, u, end);
    }
  }

  lemma ClosedStep(db0: Db, run: seq<Timed>, i: nat, j: nat, n: string, u: nat, end: int)
    requires i < j < |run|
    ensures ClosedBetween(db0, run, i, j + 1, n, u, end) <==>
      || ClosedBetween(db0, run, i, j, n, u, end)
      || Closes(run[j].cmd, OutcomeOf(db0, run, j), run[j].at, n, u, end)
  {
    hide OutcomeOf;
    hide Closes;
    if ClosedBetween(db0, run, i, j, n, u, end) {
      var k :| i < k < j && Closes(run[k].cmd, OutcomeOf(db0, run, k), run[k].at, n, u, end);
      assert i < k < j + 1;
    }
  }

  /** A session.  Its refresh token is accepted until seven days after it was opened, or as long as was
      asked for, unless it was closed before, and not otherwise. */
  lemma SessionLasts(db0: Db, run: seq<Timed>, i: nat, j: nat, n: string, u: nat, end: int)
    requires UniqueEmails(db0) && i < j < |run|
    requires Opened(run[i].cmd, OutcomeOf(db0, run, i), run[i].at, n, u, end)
    requires run[j].cmd.Refresh? && run[j].cmd.refreshToken == n
    ensures var o := OutcomeOf(db0, run, j); var accepted := o == Refreshed(u) || o.RevokedNotReissued?;
      && (accepted <==> run[j].at <= end && !ClosedBetween(db0, run, i, j, n, u, end))
      && (!accepted ==> o.RefreshRejected?)
  {
    SessionRow(db0, run, i, j, n, u, end);
    var cmd := run[j].cmd;
    RefreshExactly(After(db0, run[..j]), run[j].at, n, cmd.newToken, cmd.ttl);
    hide Step;
  }

  /** A token that was logged out is never accepted again. */
  lemma LogoutEndsForGood(db0: Db, run: seq<Timed>, i: nat, j: nat, t: string)
    requires UniqueEmails(db0) && i < j < |run|
    requires run[i].cmd == Logout(t) && t in After(db0, run[..i]).refresh
    requires run[j].cmd.Refresh? && run[j].cmd.refreshToken == t
    ensures OutcomeOf(db0, run, j) == RefreshRejected && After(db0, run[..j + 1]) == After(db0, run[..j])
  {
    hide Step;
    RunKeepsUnique(db0, run[..i]);
    Unroll(db0, run, i);
    Unroll(db0, run, j);
    RefreshRowExactly(After(db0, run[..i]), run[i].at, run[i].cmd, t);
    DeadStaysDead(db0, run, i + 1, j, t);
    DeadIsRejected(After(db0, run[..j]), run[j].at, run[j].cmd);
  }

  // ---- mailed tokens ----

  /** A command that mailed this token to the user, and the row it stored. */
  predicate MailedRow(cmd: Cmd, o: Outcome, now: int, token: string, u: nat, row: TokenRow) {
    || (cmd.Register? && cmd.token == token && o == Registered(u)
        && row == TokenRow(u, EmailVerification, Sha(token), Some(now + DAY)))
    || (cmd.Resend? && cmd.token == token && o == Mailed(u)
        && row == TokenRow(u, EmailVerification, Sha(token), Some(now + DAY)))
    || (cmd.Forgot? && cmd.token == token && o == Mailed(u)
        && row == TokenRow(u, PasswordReset, Sha(token), Some(now + 3600)))
  }

  lemma MailedRowIsStored(db: Db, now: int, cmd: Cmd, token: string, u: nat, row: TokenRow)
    requires UniqueEmails(db) && MailedRow(cmd, Step(db, now, cmd).1, now, token, u, row)
    ensures var d := Step(db, now, cmd).0; row in d.tokens && Live(d, u)
  {
    match cmd
    case Register(id, email, p, name, t) => RegisterExactly(db, now, id, email, p, name, t);
    case Resend(email, t) => ResendExactly(db, now, email, t, u);
    case Forgot(email, t) => ForgotExactly(db, now, email, t, u);
    case _ =>
  }

  /** The row stays, and redeems its token exactly until its end. */
  lemma MailedRowRedeems(db0: Db, run: seq<Timed>, i: nat, j: nat, token: string, u: nat, row: TokenRow)
    requires UniqueEmails(db0) && i < j < |run|
    requires MailedRow(run[i].cmd, OutcomeOf(db0, run, i), run[i].at, token, u, row)
    ensures var db := After(db0, run[..j]);
      && row in db.tokens
      && (Redeems(db, row, row.kind, token, run[j].at) <==> run[j].at < row.expires.value)
  {
    hide Step;
    RunKeepsUnique(db0, run[..i]);
    Unroll(db0, run, i);
    MailedRowIsStored(After(db0, run[..i]), run[i].at, run[i].cmd, token, u, row);
    RowsAndUsersStay(db0, run, i + 1, j);
    assert Live(After(db0, run[..i + 1]), u);
  }

  /** No other row of this kind holds the token, as for random tokens. */
  ghost predicate OnlyRow(db: Db, row: TokenRow) {
    forall r :: r in db.tokens && r.kind == row.kind && r.hash == row.hash ==> r == row
  }

  /** The token a registration or a resend mails verifies its user for a day, and afterwards nobody. */
  lemma MailedTokenVerifies(db0: Db, run: seq<Timed>, i: nat, j: nat, token: string, u: nat, row: TokenRow)
    requires UniqueEmails(db0) && i < j < |run| && !run[i].cmd.Forgot?
    requires MailedRow(run[i].cmd, OutcomeOf(db0, run, i), run[i].at, token, u, row)
    requires run[j].cmd == VerifyEmail(token)
    ensures var o := OutcomeOf(db0, run, j);
      && (run[j].at < run[i].at + DAY ==> o.Verified?)
      && (OnlyRow(After(db0, run[..j]), row) ==>
           o == if run[j].at < run[i].at + DAY then Verified(u) else InvalidToken)
  {
    RunKeepsUnique(db0, run[..j]);
    MailedRowRedeems(db0, run, i, j, token, u, row);
    VerifyExactly(After(db0, run[..j]), run[j].at, token);
    hide Step;
  }

  /** The token a password request mails resets its user's password for an hour. */
  lemma MailedTokenResets(db0: Db, run: seq<Timed>, i: nat, j: nat, token: string, u: nat, row: TokenRow, p: Password)
    requires UniqueEmails(db0) && i < j < |run| && run[i].cmd.Forgot?
    requires MailedRow(run[i].cmd, OutcomeOf(db0, run, i), run[i].at, token, u, row)
    requires run[j].cmd == Reset(token, p) && |p| <= 72
    ensures var o := OutcomeOf(db0, run, j);
      && (run[j].at < run[i].at + 3600 ==> o.PasswordChanged?)
      && (OnlyRow(After(db0, run[..j]), row) ==>
           o == if run[j].at < run[i].at + 3600 then PasswordChanged(u) else InvalidToken)
  {
    RunKeepsUnique(db0, run[..j]);
    MailedRowRedeems(db0, run, i, j, token, u, row);
    ResetExactly(After(db0, run[..j]), run[j].at, token, p);
    hide Step;
  }

  /** A reset token that was used works again, whatever happened since, exactly when the new password
      can be hashed and a row with the token is unexpired and its user live; the row it was used with
      is such a row until it expires. */
  lemma UsedTokenWorksAgainExactlyWhen(db0: Db, run: seq<Timed>, i: nat, j: nat, token: string, first: Password,
        second: Password)
    returns (row: TokenRow)
    requires UniqueEmails(db0) && i < j < |run|
    requires run[i].cmd == Reset(token, first) && OutcomeOf(db0, run, i).PasswordChanged?
    requires run[j].cmd == Reset(token, second)
    ensures var db := After(db0, run[..j]);
      && (OutcomeOf(db0, run, j).PasswordChanged? <==>
           |second| <= 72 && exists r :: Redeems(db, r, PasswordReset, token, run[j].at))
      && Redeems(After(db0, run[..i]), row, PasswordReset, token, run[i].at)
      && row in db.tokens
      && (Redeems(db, row, PasswordReset, token, run[j].at) <==>
           (row.expires.Some? ==> run[j].at < row.expires.value))
  {
    RunKeepsUnique(db0, run[..i]);
    RunKeepsUnique(db0, run[..j]);
    ResetExactly(After(db0, run[..i]), run[i].at, token, first);
    ResetExactly(After(db0, run[..j]), run[j].at, token, second);
    hide Step;
    RowsAndUsersStay(db0, run, i, j);
    row :| Redeems(After(db0, run[..i]), row, PasswordReset, token, run[i].at);
    assert Live(After(db0, run[..i]), row.user);
  }

  // ---- a run in which a reset token is used twice ----

  const EMAIL := "a@b"

  /** Register, verify, ask for a reset, reset, reset again with the same token. */
  function TwoResets(p: Password, q: Password, r: Password): seq<Timed> {
    [Timed(0, Register(1, EMAIL, p, "A", "v")), Timed(1, VerifyEmail("v")), Timed(2, Forgot(EMAIL, "t")),
     Timed(3, Reset("t", q)), Timed(4, Reset("t", r))]
  }

  lemma MailsTheToken(p: Password, q: Password, r: Password)
    requires |p| <= 72
    ensures UniqueEmails(EMPTY) && OutcomeOf(EMPTY, TwoResets(p, q, r), 2) == Mailed(1)
  {
    var run := TwoResets(p, q, r);
    Unroll(EMPTY, run, 0);
    Unroll(EMPTY, run, 1);
    hide Step;
    assert run[..0] == [];
    RegisterExactly(EMPTY, 0, 1, EMAIL, p, "A", "v");
    RunKeepsUnique(EMPTY, run[..1]);
    RunKeepsUnique(EMPTY, run[..2]);
    VerifyExactly(After(EMPTY, run[..1]), 1, "v");
    ForgotExactly(After(EMPTY, run[..2]), 2, EMAIL, "t", 1);
  }

  /** A reset token works twice: for all passwords that can be hashed, both resets of this run succeed. */
  lemma ResetTokenWorksTwice(p: Password, q: Password, r: Password)
    requires |p| <= 72 && |q| <= 72 && |r| <= 72
    ensures UniqueEmails(EMPTY)
    ensures var run := TwoResets(p, q, r);
      OutcomeOf(EMPTY, run, 3).PasswordChanged? && OutcomeOf(EMPTY, run, 4).PasswordChanged?
  {
    var run, row := TwoResets(p, q, r), TokenRow(1, PasswordReset, Sha("t"), Some(2 + 3600));
    MailsTheToken(p, q, r);
    hide Step;
    MailedTokenResets(EMPTY, run, 2, 3, "t", 1, row, q);
    MailedTokenResets(EMPTY, run, 2, 4, "t", 1, row, r);
  }
}
