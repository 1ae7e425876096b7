/** Refreshes of one token that overlap.  A refresh is four statements: it reads the token, reads the
    user, revokes the token and inserts a new one.  A schedule says whose next statement runs when, so a
    statement about every schedule is one about every interleaving. */
module RefreshRace {
  import opened Prelude
  import opened AuthModel

  datatype Stage =
    | Start
    | HasToken(user: nat)    // has read the token and found it usable
    | HasUser(user: nat)     // has read the user, who may refresh
    | Revoked(user: nat)     // has revoked the token
    | Accepted(issued: bool)
    | Rejected

  datatype Call = Call(newToken: string, ttl: int)

  datatype Tick = Tick(caller: int, at: int)

  datatype Race = Race(db: Db, stages: map<int, Stage>)

  function Statement(token: string, calls: map<int, Call>, s: Race, tick: Tick): (s': Race)
    requires s.stages.Keys == calls.Keys && tick.caller in calls
    ensures s'.stages.Keys == calls.Keys
  {
    var c, db := tick.caller, s.db;
    match s.stages[c]
    case Start =>
      s.(stages := s.stages[c := if Usable(db, token, tick.at) then HasToken(db.refresh[token].user) else Rejected])
    case HasToken(u) =>
      var user := GetByID(db, u);
      var allowed := user.Some? && user.value.active && user.value.verified;
      s.(stages := s.stages[c := if allowed then HasUser(u) else Rejected])
    case HasUser(u) =>
      Race(Revoke(db, token, tick.at), s.stages[c := Revoked(u)])
    case Revoked(u) =>
      (match Issue(db, u, calls[c].newToken, calls[c].ttl, tick.at)
       case None => s.(stages := s.stages[c := Accepted(false)])
       case Some(d) => Race(d, s.stages[c := Accepted(true)]))
    case Accepted(_) => s
    case Rejected => s
  }

  predicate Callers(calls: map<int, Call>, schedule: seq<Tick>) {
    forall i :: 0 <= i < |schedule| ==> schedule[i].caller in calls
  }

  function Run(token: string, calls: map<int, Call>, start: Db, schedule: seq<Tick>): (s: Race)
    requires Callers(calls, schedule)
    ensures s.stages.Keys == calls.Keys
  {
    if schedule == [] then Race(start, map c | c in calls :: Start)
    else
      var n := |schedule| - 1;
      Statement(token, calls, Run(token, calls, start, schedule[..n]), schedule[n])
  }

  /** How many statements of a caller have run. */
  function Taken(schedule: seq<Tick>, c: int): nat {
    if schedule == [] then 0
    else Taken(schedule[..|schedule| - 1], c) + if schedule[|schedule| - 1].caller == c then 1 else 0
  }

  /** A token of a user who may refresh, neither revoked nor deleted at the start. */
  predicate Ready(db: Db, token: string) {
    && token in db.refresh && !db.refresh[token].deleted && db.refresh[token].revokedAt.None?
    && var u := db.refresh[token].user; Live(db, u) && db.users[u].active && db.users[u].verifiedAt.Some?
  }

  /** The read of a caller came before the token expired. */
  predicate InTime(start: Db, token: string, schedule: seq<Tick>, c: int)
    requires token in start.refresh
  {
    schedule != [] &&
      var n := |schedule| - 1;
      if Taken(schedule[..n], c) > 0 then InTime(start, token, schedule[..n], c)
      else schedule[n].caller == c && schedule[n].at <= start.refresh[token].expires
  }

  /** How many statements of d had run when c read the token. */
  function TakenAtRead(schedule: seq<Tick>, c: int, d: int): nat {
    if schedule == [] then 0
    else
      var n := |schedule| - 1;
      if Taken(schedule[..n], c) > 0 then TakenAtRead(schedule[..n], c, d) else Taken(schedule[..n], d)
  }

  /** The caller's read found the token usable. */
  predicate Passed(stage: Stage) { stage.HasToken? || stage.HasUser? || stage.Revoked? || stage.Accepted? }

  predicate HasRevoked(stage: Stage) { stage.Revoked? || stage.Accepted? }

  /** A caller's stage follows from whether its read passed and how many statements it has taken. */
  predicate StageFits(stage: Stage, owner: nat, taken: nat) {
    match stage
    case Start => taken == 0
    case HasToken(u) => u == owner && taken == 1
    case HasUser(u) => u == owner && taken == 2
    case Revoked(u) => u == owner && taken == 3
    case Accepted(_) => taken >= 4
    case Rejected => taken >= 1
  }

  /** What every schedule keeps: the account tables, the token row apart from its revocation, and that it
      is revoked exactly when some caller has revoked it. */
  ghost predicate RaceInv(token: string, start: Db, s: Race, schedule: seq<Tick>)
    requires Ready(start, token)
  {
    && s.db.users == start.users && token in s.db.refresh
    && s.db.refresh[token].(revokedAt := None) == start.refresh[token]
    && (s.db.refresh[token].revokedAt.Some? <==> exists c :: c in s.stages && HasRevoked(s.stages[c]))
    && (forall c :: c in s.stages ==> StageFits(s.stages[c], start.refresh[token].user, Taken(schedule, c)))
  }

  lemma StatementKeepsInv(token: string, calls: map<int, Call>, start: Db, s: Race, schedule: seq<Tick>, tick: Tick)
    requires Ready(start, token) && s.stages.Keys == calls.Keys && tick.caller in calls
    requires RaceInv(token, start, s, schedule)
    ensures RaceInv(token, start, Statement(token, calls, s, tick), schedule + [tick])
  {
    var s', all := Statement(token, calls, s, tick), schedule + [tick];
    assert all[..|all| - 1] == schedule;
    forall c | c in s'.stages
      ensures StageFits(s'.stages[c], start.refresh[token].user, Taken(all, c))
    {
      assert StageFits(s.stages[c], start.refresh[token].user, Taken(schedule, c));
    }
    assert forall c :: c in s.stages && HasRevoked(s.stages[c]) ==> HasRevoked(s'.stages[c]);
    if s.stages[tick.caller].HasUser? { assert HasRevoked(s'.stages[tick.caller]); }
    if c :| c in s'.stages && HasRevoked(s'.stages[c]) {
      assert HasRevoked(s.stages[c]) || (c == tick.caller && s.stages[c].HasUser?);
    }
  }

  lemma {:induction false} RunKeepsInv(token: string, calls: map<int, Call>, start: Db, schedule: seq<Tick>)
    requires Ready(start, token) && Callers(calls, schedule)
    ensures RaceInv(token, start, Run(token, calls, start, schedule), schedule)
  {
    if schedule != [] {
      var n := |schedule| - 1;
      RunKeepsInv(token, calls, start, schedule[..n]);
      assert schedule[..n] + [schedule[n]] == schedule;
      StatementKeepsInv(token, calls, start, Run(token, calls, start, schedule[..n]), schedule[..n], schedule[n]);
    }
  }

  ghost predicate NobodyRevoked(s: Race) {
    forall d :: d in s.stages ==> !HasRevoked(s.stages[d])
  }

  /** No caller other than c had revoked the token when c read it. */
  ghost predicate ReadFirst(token: string, calls: map<int, Call>, start: Db, schedule: seq<Tick>, c: int)
    requires Callers(calls, schedule)
  {
    schedule != [] &&
      var n := |schedule| - 1;
      if Taken(schedule[..n], c) > 0 then ReadFirst(token, calls, start, schedule[..n], c)
      else
        var s := Run(token, calls, start, schedule[..n]);
        schedule[n].caller == c && NobodyRevoked(s)
  }

  /** Only the first statement of a caller decides whether it passes. */
  lemma StatementPasses(token: string, calls: map<int, Call>, start: Db, s: Race, schedule: seq<Tick>, tick: Tick,
                        c: int)
    requires Ready(start, token) && s.stages.Keys == calls.Keys && tick.caller in calls && c in calls
    requires RaceInv(token, start, s, schedule)
    ensures s.stages[c].Start? <==> Taken(schedule, c) == 0
    ensures Passed(Statement(token, calls, s, tick).stages[c]) <==>
      if Taken(schedule, c) == 0 then tick.caller == c && tick.at <= start.refresh[token].expires && NobodyRevoked(s)
      else Passed(s.stages[c])
  {
    assert StageFits(s.stages[c], start.refresh[token].user, Taken(schedule, c));
    if tick.caller == c && s.stages[c].HasToken? {
      assert GetByID(s.db, s.stages[c].user).Some?;
    }
  }

  /** However many refreshes of one token overlap and in whatever order their statements run: a caller
      that has begun passes exactly when it read the token in time and before anyone had revoked it. */
  lemma {:induction false} PassedExactlyWhen(token: string, calls: map<int, Call>, start: Db, schedule: seq<Tick>,
        c: int)
    requires Ready(start, token) && Callers(calls, schedule) && c in calls
    ensures Passed(Run(token, calls, start, schedule).stages[c]) <==>
      InTime(start, token, schedule, c) && ReadFirst(token, calls, start, schedule, c)
  {
    hide Statement;
    hide RaceInv;
    hide Ready;
    if schedule != [] {
      var n := |schedule| - 1;
      var before := schedule[..n];
      PassedExactlyWhen(token, calls, start, before, c);
      RunKeepsInv(token, calls, start, before);
      StatementPasses(token, calls, start, Run(token, calls, start, before), before, schedule[n], c);
    }
  }

  /** A caller that has taken its four statements was accepted or rejected. */
  lemma AcceptedExactlyWhen(token: string, calls: map<int, Call>, start: Db, schedule: seq<Tick>, c: int)
    requires Ready(start, token) && Callers(calls, schedule) && c in calls && Taken(schedule, c) >= 4
    ensures Run(token, calls, start, schedule).stages[c].Accepted? <==>
      InTime(start, token, schedule, c) && ReadFirst(token, calls, start, schedule, c)
  {
    PassedExactlyWhen(token, calls, start, schedule, c);
    RunKeepsInv(token, calls, start, schedule);
    assert StageFits(Run(token, calls, start, schedule).stages[c], start.refresh[token].user, Taken(schedule, c));
  }

  // ---- two refreshes ----

  /** When c read the token, the only other caller d had revoked it or had not passed. */
  lemma {:induction false} ReadFirstOfTwo(token: string, calls: map<int, Call>, start: Db, schedule: seq<Tick>,
        c: int, d: int)
    requires Ready(start, token) && Callers(calls, schedule) && calls.Keys == {c, d} && c != d
    requires Taken(schedule, c) > 0
    ensures TakenAtRead(schedule, c, d) <= 2 ==> ReadFirst(token, calls, start, schedule, c)
    ensures TakenAtRead(schedule, c, d) >= 3 && Passed(Run(token, calls, start, schedule).stages[d]) ==>
      !ReadFirst(token, calls, start, schedule, c)
  {
    var n := |schedule| - 1;
    var before := schedule[..n];
    var s := Run(token, calls, start, before);
    RunKeepsInv(token, calls, start, before);
    assert StageFits(s.stages[d], start.refresh[token].user, Taken(before, d));
    assert StageFits(s.stages[c], start.refresh[token].user, Taken(before, c));
    if Taken(before, c) > 0 {
      ReadFirstOfTwo(token, calls, start, before, c, d);
      TakenAtReadBounded(before, c, d);
    }
  }

  lemma {:induction false} TakenAtReadBounded(schedule: seq<Tick>, c: int, d: int)
    ensures TakenAtRead(schedule, c, d) <= Taken(schedule, d)
  {
    if schedule != [] { TakenAtReadBounded(schedule[..|schedule| - 1], c, d); }
  }

  /** Two overlapping refreshes of one token, both in time: both are accepted exactly when each reads the
      token before the other's third statement, the revocation.  At least one always is. */
  lemma BothAcceptedExactlyWhen(token: string, calls: map<int, Call>, start: Db, schedule: seq<Tick>, a: int, b: int)
    requires Ready(start, token) && Callers(calls, schedule) && calls.Keys == {a, b} && a != b
    requires Taken(schedule, a) >= 4 && Taken(schedule, b) >= 4
    requires InTime(start, token, schedule, a) && InTime(start, token, schedule, b)
    ensures var s := Run(token, calls, start, schedule);
      && (s.stages[a].Accepted? && s.stages[b].Accepted? <==>
            TakenAtRead(schedule, a, b) <= 2 && TakenAtRead(schedule, b, a) <= 2)
      && (s.stages[a].Accepted? || s.stages[b].Accepted?)
  {
    AcceptedExactlyWhen(token, calls, start, schedule, a);
    AcceptedExactlyWhen(token, calls, start, schedule, b);
    ReadFirstOfTwo(token, calls, start, schedule, a, b);
    ReadFirstOfTwo(token, calls, start, schedule, b, a);
    OneReadsFirst(schedule, a, b);
  }

  /** Of two callers the one that reads first has the other at its start. */
  lemma {:induction false} OneReadsFirst(schedule: seq<Tick>, a: int, b: int)
    requires a != b && Taken(schedule, a) > 0 && Taken(schedule, b) > 0
    ensures TakenAtRead(schedule, a, b) == 0 || TakenAtRead(schedule, b, a) == 0
  {
    var before := schedule[..|schedule| - 1];
    if Taken(before, a) > 0 && Taken(before, b) > 0 {
      OneReadsFirst(before, a, b);
    } else if Taken(before, a) > 0 {
      TakenAtReadBounded(before, a, b);
    } else if Taken(before, b) > 0 {
      TakenAtReadBounded(before, b, a);
    }
  }

  // ---- one refresh by itself ----

  /** n statements of one caller at one time. */
  function Statements(token: string, calls: map<int, Call>, s: Race, tick: Tick, n: nat): (s': Race)
    requires s.stages.Keys == calls.Keys && tick.caller in calls
    ensures s'.stages.Keys == calls.Keys
    decreases n
  {
    if n == 0 then s else Statements(token, calls, Statement(token, calls, s, tick), tick, n - 1)
  }

  /** The four statements of a refresh that nobody interrupts come to the refresh command. */
  lemma AloneIsTheCommand(token: string, calls: map<int, Call>, s: Race, tick: Tick)
    requires s.stages.Keys == calls.Keys && tick.caller in calls && s.stages[tick.caller].Start?
    ensures var call := calls[tick.caller];
      var (d, o) := Step(s.db, tick.at, AuthModel.Refresh(token, call.newToken, call.ttl));
      var e := Statements(token, calls, s, tick, 4);
      && e.db == d
      && (e.stages[tick.caller] == Accepted(true) <==> o.Refreshed?)
      && (e.stages[tick.caller] == Accepted(false) <==> o.RevokedNotReissued?)
      && (e.stages[tick.caller] == Rejected <==> !o.Refreshed? && !o.RevokedNotReissued?)
  {
    var s1 := Statement(token, calls, s, tick);
    var s2 := Statement(token, calls, s1, tick);
    var s3 := Statement(token, calls, s2, tick);
    var s4 := Statement(token, calls, s3, tick);
    assert Statements(token, calls, s, tick, 4) == Statements(token, calls, s1, tick, 3);
    assert Statements(token, calls, s1, tick, 3) == Statements(token, calls, s2, tick, 2);
    assert Statements(token, calls, s2, tick, 2) == Statements(token, calls, s3, tick, 1);
    assert Statements(token, calls, s3, tick, 1) == Statements(token, calls, s4, tick, 0);
  }
}
