/** Whole runs of role and permission commands, with the users whose rows or loaded policies may be
    out of date. */
module RbacRuns {
  import opened Prelude
  import opened PolicyLine
  import opened Rbac

  /** What goes wrong around a policy reload, besides the policy text itself. */
  datatype Fault = NoFault | CommitFault | LoadFault

  /** How far a policy reload got: a failure before the commit leaves the copy as it was, one while
      loading leaves the enforcer as it was. */
  datatype Reload = Done | NotCommitted | NotLoaded

  /** Without a fault a reload still fails when the rows it would load do not all load. */
  function Outcome(rules: set<RuleRow>, fault: Fault): Reload {
    match fault
    case CommitFault => NotCommitted
    case LoadFault => NotLoaded
    case NoFault => if Loads(rules) then Done else NotLoaded
  }

  datatype Op =
    | CreateRole(id: nat, name: string)
    | UpdateRole(id: nat, name: string)
    | DeleteRole(id: nat)
    | CreatePermission(id: nat, name: string, resource: string, action: string)
    | UpdatePermission(id: nat, name: string, resource: string, action: string)
    | DeletePermission(id: nat)
    | AssignRole(user: string, role: nat, fault: Fault)
    | UnassignRole(user: string, role: nat, fault: Fault)
    | AssignPermission(role: nat, perm: nat, fault: Fault)
    | UnassignPermission(role: nat, perm: nat, fault: Fault)

  predicate RoleNameTaken(t: Tables, id: nat, name: string) {
    exists k :: k in t.roles && k != id && t.roles[k].name == name
  }

  predicate PermNameTaken(t: Tables, id: nat, name: string) {
    exists k :: k in t.perms && k != id && t.perms[k].name == name
  }

  /** An empty field of an update command keeps the stored value. */
  function Keep(new_: string, stored: string): string {
    if new_ != "" then new_ else stored
  }

  function Updated(p: Perm, name: string, resource: string, action: string): Perm {
    p.(name := Keep(name, p.name), resource := Keep(resource, p.resource), action := Keep(action, p.action))
  }

  /** Whether the handler gets past its checks and changes the tables. */
  predicate Succeeds(t: Tables, op: Op) {
    match op
    case CreateRole(id, name) => id !in t.roles && !RoleNameTaken(t, id, name)
    case UpdateRole(id, name) => LiveRole(t, id) && !RoleNameTaken(t, id, Keep(name, t.roles[id].name))
    case DeleteRole(id) => LiveRole(t, id)
    case CreatePermission(id, name, _, _) => id !in t.perms && !PermNameTaken(t, id, name)
    case UpdatePermission(id, name, _, _) => LivePerm(t, id) && !PermNameTaken(t, id, Keep(name, t.perms[id].name))
    case DeletePermission(id) => LivePerm(t, id)
    case AssignRole(_, role, _) => LiveRole(t, role)
    case UnassignRole(_, _, _) => true
    case AssignPermission(role, perm, _) => LiveRole(t, role) && LivePerm(t, perm)
    case UnassignPermission(_, _, _) => true
  }

  function Change(t: Tables, op: Op): Tables
    requires Succeeds(t, op)
  {
    match op
    case CreateRole(id, name) => t.(roles := t.roles[id := Role(name, false)])
    case UpdateRole(id, name) => t.(roles := t.roles[id := t.roles[id].(name := Keep(name, t.roles[id].name))])
    case DeleteRole(id) => t.(roles := t.roles[id := t.roles[id].(deleted := true)])
    case CreatePermission(id, name, resource, action) => t.(perms := t.perms[id := Perm(name, resource, action, false)])
    case UpdatePermission(id, name, resource, action) =>
      t.(perms := t.perms[id := Updated(t.perms[id], name, resource, action)])
    case DeletePermission(id) => t.(perms := t.perms[id := t.perms[id].(deleted := true)])
    case AssignRole(user, role, _) => t.(userRoles := t.userRoles + {(user, role)})
    case UnassignRole(user, role, _) => t.(userRoles := t.userRoles - {(user, role)})
    case AssignPermission(role, perm, _) => t.(rolePerms := t.rolePerms + {(role, perm)})
    case UnassignPermission(role, perm, _) => t.(rolePerms := t.rolePerms - {(role, perm)})
  }

  function Reloaded(s: State, rules: set<RuleRow>, how: Reload): State {
    match how
    case Done => s.(rules := rules, loaded := Policies(rules))
    case NotCommitted => s
    case NotLoaded => s.(rules := rules)
  }

  function ReloadUser(s: State, u: string, how: Reload): State {
    Reloaded(s, SyncUserRules(s.rules, s.tables, u), how)
  }

  function ReloadAll(s: State, how: Reload): State {
    Reloaded(s, SyncAllRules(s.rules, s.tables), how)
  }

  function UserOutcome(s: State, u: string, fault: Fault): Reload {
    Outcome(SyncUserRules(s.rules, s.tables, u), fault)
  }

  function AllOutcome(s: State, fault: Fault): Reload {
    Outcome(SyncAllRules(s.rules, s.tables), fault)
  }

  function Step(s: State, op: Op): State {
    if !Succeeds(s.tables, op) then s
    else
      var changed := s.(tables := Change(s.tables, op));
      match op
      case AssignRole(user, _, fault) => ReloadUser(changed, user, UserOutcome(changed, user, fault))
      case UnassignRole(user, _, fault) => ReloadUser(changed, user, UserOutcome(changed, user, fault))
      case AssignPermission(_, _, fault) => ReloadAll(changed, AllOutcome(changed, fault))
      case UnassignPermission(_, _, fault) => ReloadAll(changed, AllOutcome(changed, fault))
      case _ => changed
  }

  function Run(s: State, ops: seq<Op>): State
    decreases |ops|
  {
    if ops == [] then s else Run(Step(s, ops[0]), ops[1..])
  }

  // ---- possibly stale users ----

  function UsersOf(t: Tables, role: nat): set<string> {
    set ur | ur in t.userRoles && ur.1 == role :: ur.0
  }

  function UsersReaching(t: Tables, perm: nat): set<string> {
    set ur | ur in t.userRoles && (ur.1, perm) in t.rolePerms && LiveRole(t, ur.1) :: ur.0
  }

  /** Whom a change of the tables can reach at all. */
  function Reached(t: Tables, op: Op): set<string> {
    match op
    case DeleteRole(id) => UsersOf(t, id)
    case DeletePermission(id) => UsersReaching(t, id)
    case UpdatePermission(id, _, _, _) => UsersReaching(t, id)
    case AssignRole(user, _, _) => {user}
    case UnassignRole(user, _, _) => {user}
    case AssignPermission(role, _, _) => UsersOf(t, role)
    case UnassignPermission(role, _, _) => UsersOf(t, role)
    case _ => {}
  }

  /** Who may be out of date: rows are the users whose rows of the copy may be, loaded those whose
      policies in the enforcer may be. */
  datatype Stale = Stale(rows: set<string>, loaded: set<string>)

  const NOBODY := Stale({}, {})

  /** A per-user reload that commits brings that user's rows up to date, and one that is done loads
      whatever rows are. */
  function UserReloaded(stale: Stale, u: string, how: Reload): Stale {
    match how
    case NotCommitted => stale
    case NotLoaded => stale.(rows := stale.rows - {u})
    case Done => Stale(stale.rows - {u}, stale.rows - {u})
  }

  /** A full reload does the same for everyone. */
  function AllReloaded(stale: Stale, how: Reload): Stale {
    match how
    case NotCommitted => stale
    case NotLoaded => stale.(rows := {})
    case Done => NOBODY
  }

  /** Who may be out of date after a command: a change adds whoever it reaches, and then the reload, if
      there is one, takes away what it gets to. */
  function Track(stale: Stale, s: State, op: Op): Stale {
    if !Succeeds(s.tables, op) then stale
    else
      var changed := s.(tables := Change(s.tables, op));
      var reached := Reached(s.tables, op);
      var more := Stale(stale.rows + reached, stale.loaded + reached);
      match op
      case AssignRole(user, _, fault) => UserReloaded(more, user, UserOutcome(changed, user, fault))
      case UnassignRole(user, _, fault) => UserReloaded(more, user, UserOutcome(changed, user, fault))
      case AssignPermission(_, _, fault) => AllReloaded(more, AllOutcome(changed, fault))
      case UnassignPermission(_, _, fault) => AllReloaded(more, AllOutcome(changed, fault))
      case _ => more
  }

  function TrackAll(stale: Stale, s: State, ops: seq<Op>): Stale
    decreases |ops|
  {
    if ops == [] then stale else TrackAll(Track(stale, s, ops[0]), Step(s, ops[0]), ops[1..])
  }

  // ---- the invariant ----

  /** Foreign keys of the join tables; users are UUIDs. */
  predicate KeysExist(t: Tables) {
    && (forall ur :: ur in t.userRoles ==> UuidText(ur.0) && ur.1 in t.roles)
    && (forall rp :: rp in t.rolePerms ==> rp.0 in t.roles && rp.1 in t.perms)
  }

  ghost predicate IsLine(r: RuleRow) {
    exists x: (string, string, string) :: UuidText(x.0) && r == LineRow(x)
  }

  ghost predicate RulesAreLines(rules: set<RuleRow>) {
    forall r :: r in rules ==> IsLine(r) || Foreign(r)
  }

  ghost predicate Inv(s: State, stale: Stale) {
    && KeysExist(s.tables)
    && RulesAreLines(s.rules)
    && (forall u :: UuidText(u) && u !in stale.rows ==> RulesCurrent(s, u))
    && (forall u :: UuidText(u) && u !in stale.loaded ==> LoadedCurrent(s, u))
  }

  predicate ValidOp(op: Op) {
    op.AssignRole? || op.UnassignRole? ==> UuidText(op.user)
  }

  predicate ValidOps(ops: seq<Op>) {
    forall op :: op in ops ==> ValidOp(op)
  }

  // ---- what a change leaves alone ----

  lemma SamePathsSameRows(t: Tables, t2: Tables, u: string)
    requires forall r: nat, p: nat, o: string, a: string :: Path(t, u, r, p, o, a) <==> Path(t2, u, r, p, o, a)
    ensures UserRows(t, u) == UserRows(t2, u)
  {
    forall x: (string, string, string) | x.0 == u ensures x in FlatRows(t) <==> x in FlatRows(t2) {
      FlatRowsAreGrants(t, u, x.1, x.2);
      FlatRowsAreGrants(t2, u, x.1, x.2);
      assert x == (u, x.1, x.2);
    }
    forall r ensures r in UserRows(t, u) <==> r in UserRows(t2, u) {
      if r in UserRows(t, u) { var x :| x in FlatRows(t) && x.0 == u && r == LineRow(x); }
      if r in UserRows(t2, u) { var x :| x in FlatRows(t2) && x.0 == u && r == LineRow(x); }
    }
  }

  lemma InUsersOf(t: Tables, u: string, role: nat)
    requires (u, role) in t.userRoles
    ensures u in UsersOf(t, role)
  {
    assert (u, role).1 == role;
  }

  lemma InUsersReaching(t: Tables, u: string, role: nat, perm: nat)
    requires (u, role) in t.userRoles && (role, perm) in t.rolePerms && LiveRole(t, role)
    ensures u in UsersReaching(t, perm)
  {
    assert (u, role).1 == role;
  }

  /** The grants of a user outside the reach of a command stay as they are. */
  lemma ChangeIsLocal(t: Tables, op: Op, u: string)
    requires KeysExist(t) && Succeeds(t, op) && u !in Reached(t, op)
    ensures UserRows(t, u) == UserRows(Change(t, op), u)
  {
    var t2 := Change(t, op);
    forall r: nat, p: nat, o: string, a: string ensures Path(t, u, r, p, o, a) <==> Path(t2, u, r, p, o, a) {
      if (u, r) in t.userRoles {
        InUsersOf(t, u, r);
        if (r, p) in t.rolePerms && LiveRole(t, r) { InUsersReaching(t, u, r, p); }
      }
    }
    SamePathsSameRows(t, t2, u);
  }

  lemma ChangeKeepsKeys(t: Tables, op: Op)
    requires KeysExist(t) && Succeeds(t, op) && ValidOp(op)
    ensures KeysExist(Change(t, op))
  {
  }

  /** Only the new tables matter for whether the copies are current. */
  lemma SameRowsStayCurrent(s: State, t2: Tables, u: string)
    requires UserRows(s.tables, u) == UserRows(t2, u)
    ensures RulesCurrent(s, u) <==> RulesCurrent(s.(tables := t2), u)
    ensures LoadedCurrent(s, u) <==> LoadedCurrent(s.(tables := t2), u)
  {
  }

  // ---- what a reload establishes ----

  lemma RowsAreLines(t: Tables)
    requires KeysExist(t)
    ensures forall r :: r in AllRows(t) ==> IsLine(r)
  {
    forall r | r in AllRows(t) ensures IsLine(r) {
      var x :| x in FlatRows(t) && r == LineRow(x);
    }
  }

  lemma LineOfUser(r: RuleRow, p: Policy)
    requires IsLine(r) && LoadLine(r) == Loaded(p)
    ensures exists u :: UuidText(u) && OfUser(r, u) && OfSubject(p, u)
  {
    var x: (string, string, string) :| UuidText(x.0) && r == LineRow(x);
    LineRowFields(x);
    LoadKeepsUser(x);
    assert OfUser(r, x.0) && OfSubject(p, x.0);
  }

  lemma LoadMakesCurrent(s: State, u: string)
    requires RulesAreLines(s.rules) && RulesCurrent(s, u) && s.loaded == Policies(s.rules)
    requires KeysExist(s.tables)
    ensures LoadedCurrent(s, u)
  {
    hide LoadLine;
    forall p | OfSubject(p, u) ensures p in s.loaded <==> p in Policies(UserRows(s.tables, u)) {
      if p in s.loaded {
        var r :| r in s.rules && LoadLine(r) == Loaded(p);
        assert IsLine(r);
        LineOfUser(r, p);
        assert OfUser(r, u);
      }
      if p in Policies(UserRows(s.tables, u)) {
        var r :| r in UserRows(s.tables, u) && LoadLine(r) == Loaded(p);
        UserRowsOfUser(s.tables, u);
        assert OfUser(r, u);
      }
    }
  }

  lemma SyncUserKeepsLines(s: State, u: string)
    requires KeysExist(s.tables) && RulesAreLines(s.rules)
    ensures RulesAreLines(SyncUserRules(s.rules, s.tables, u))
  {
    RowsAreLines(s.tables);
    UserRowsOfUser(s.tables, u);
  }

  lemma SyncAllKeepsLines(s: State)
    requires KeysExist(s.tables) && forall r :: r in s.rules && r.ptype != "p" ==> Foreign(r)
    ensures RulesAreLines(SyncAllRules(s.rules, s.tables))
  {
    RowsAreLines(s.tables);
  }

  lemma LinesArePRows(rules: set<RuleRow>)
    requires RulesAreLines(rules)
    ensures forall r :: r in rules && r.ptype != "p" ==> Foreign(r)
  {
    forall r | r in rules && IsLine(r) ensures r.ptype == "p" {
      var x: (string, string, string) :| UuidText(x.0) && r == LineRow(x);
    }
  }

  lemma SyncUserRulesCurrent(s: State, u: string, v: string)
    requires v == u || RulesCurrent(s, v)
    ensures RulesCurrent(s.(rules := SyncUserRules(s.rules, s.tables, u)), v)
  {
    forall r | OfUser(r, v)
      ensures r in SyncUserRules(s.rules, s.tables, u) <==> r in UserRows(s.tables, v)
    {
      SyncUserIsLocal(s.rules, s.tables, u, r);
    }
  }

  lemma SyncAllRulesCurrent(s: State, v: string)
    ensures RulesCurrent(s.(rules := SyncAllRules(s.rules, s.tables)), v)
  {
    UserRowsOfUser(s.tables, v);
  }

  /** A per-user reload disturbs no one and clears what it gets to. */
  lemma ReloadUserInv(s: State, stale: Stale, u: string, how: Reload)
    requires Inv(s, stale)
    ensures Inv(ReloadUser(s, u, how), UserReloaded(stale, u, how))
  {
    var s2 := ReloadUser(s, u, how);
    if !how.NotCommitted? {
      SyncUserKeepsLines(s, u);
      hide RulesCurrent;
      hide LoadedCurrent;
      forall v | UuidText(v) && v !in stale.rows - {u}
        ensures RulesCurrent(s2, v) && (how.Done? ==> LoadedCurrent(s2, v))
      {
        RowsAfterUserSync(s, u, v, how);
        if how.Done? { LoadMakesCurrent(s2, v); }
      }
      if how.NotLoaded? {
        forall v | UuidText(v) && v !in stale.loaded ensures LoadedCurrent(s2, v) {
          SameLoaded(s, s2, v);
        }
      }
    }
  }

  lemma RowsAfterUserSync(s: State, u: string, v: string, how: Reload)
    requires v == u || RulesCurrent(s, v)
    requires !how.NotCommitted?
    ensures RulesCurrent(ReloadUser(s, u, how), v)
  {
    SyncUserRulesCurrent(s, u, v);
  }

  lemma RowsAfterAllSync(s: State, v: string, how: Reload)
    requires !how.NotCommitted?
    ensures RulesCurrent(ReloadAll(s, how), v)
  {
    SyncAllRulesCurrent(s, v);
  }

  lemma SameLoaded(s: State, s2: State, v: string)
    requires s2.loaded == s.loaded && s2.tables == s.tables && LoadedCurrent(s, v)
    ensures LoadedCurrent(s2, v)
  {
  }

  lemma ReloadAllInv(s: State, stale: Stale, how: Reload)
    requires KeysExist(s.tables) && forall r :: r in s.rules && r.ptype != "p" ==> Foreign(r)
    requires how.Done? || Inv(s, stale)
    ensures Inv(ReloadAll(s, how), AllReloaded(stale, how))
  {
    var s2 := ReloadAll(s, how);
    if !how.NotCommitted? {
      SyncAllKeepsLines(s);
      hide RulesCurrent;
      hide LoadedCurrent;
      forall v | UuidText(v) ensures RulesCurrent(s2, v) && (how.Done? ==> LoadedCurrent(s2, v)) {
        RowsAfterAllSync(s, v, how);
        if how.Done? { LoadMakesCurrent(s2, v); }
      }
      if how.NotLoaded? {
        forall v | UuidText(v) && v !in stale.loaded ensures LoadedCurrent(s2, v) {
          SameLoaded(s, s2, v);
        }
      }
    }
  }

  /** A change of the tables adds whoever it reaches. */
  lemma ChangeInv(s: State, stale: Stale, op: Op)
    requires Inv(s, stale) && ValidOp(op) && Succeeds(s.tables, op)
    ensures var reached := Reached(s.tables, op);
      Inv(s.(tables := Change(s.tables, op)), Stale(stale.rows + reached, stale.loaded + reached))
  {
    var t2 := Change(s.tables, op);
    ChangeKeepsKeys(s.tables, op);
    hide RulesCurrent;
    hide LoadedCurrent;
    hide Change;
    forall u | UuidText(u) && u !in Reached(s.tables, op)
      ensures RulesCurrent(s, u) <==> RulesCurrent(s.(tables := t2), u)
      ensures LoadedCurrent(s, u) <==> LoadedCurrent(s.(tables := t2), u)
    {
      ChangeIsLocal(s.tables, op, u);
      SameRowsStayCurrent(s, t2, u);
    }
  }

  /** What every command keeps: the rows and the loaded policies of whoever is not tracked are current. */
  lemma StepKeepsInv(s: State, stale: Stale, op: Op)
    requires Inv(s, stale) && ValidOp(op)
    ensures Inv(Step(s, op), Track(stale, s, op))
  {
    if Succeeds(s.tables, op) {
      ChangeInv(s, stale, op);
      ChangeKeepsKeys(s.tables, op);
      LinesArePRows(s.rules);
      var changed := s.(tables := Change(s.tables, op));
      var reached := Reached(s.tables, op);
      var more := Stale(stale.rows + reached, stale.loaded + reached);
      hide Inv;
      hide Change;
      hide Reached;
      assert Inv(changed, more);
      match op
      case AssignRole(user, _, fault) => ReloadUserInv(changed, more, user, UserOutcome(changed, user, fault));
      case UnassignRole(user, _, fault) => ReloadUserInv(changed, more, user, UserOutcome(changed, user, fault));
      case AssignPermission(_, _, fault) => ReloadAllInv(changed, more, AllOutcome(changed, fault));
      case UnassignPermission(_, _, fault) => ReloadAllInv(changed, more, AllOutcome(changed, fault));
      case _ =>
    }
  }

  lemma {:induction false} RunKeepsInv(s: State, stale: Stale, ops: seq<Op>)
    requires Inv(s, stale) && ValidOps(ops)
    ensures Inv(Run(s, ops), TrackAll(stale, s, ops))
    decreases |ops|
  {
    if ops != [] {
      assert ops[0] in ops;
      StepKeepsInv(s, stale, ops[0]);
      assert forall op :: op in ops[1..] ==> op in ops;
      RunKeepsInv(Step(s, ops[0]), Track(stale, s, ops[0]), ops[1..]);
    }
  }

  // ---- the theorems ----

  /** The enforcer over an existing database: it starts once everything is synced and loaded. */
  function Boot(t: Tables, rules: set<RuleRow>): Option<State> {
    var s := State(t, rules, {});
    if AllOutcome(s, NoFault).Done? then Some(ReloadAll(s, Done)) else None
  }

  ghost predicate NoOtherPolicies(rules: set<RuleRow>) {
    forall r :: r in rules && r.ptype != "p" ==> Foreign(r)
  }

  /** Role-based access agrees with the live join.  From start-up, through any commands whose reloads
      may also fail, for every user whose loaded policies are not tracked as out of date the enforcer's
      answers equal the live four-table join, for every resource and action, exactly when each of the
      user's granted lines is storable as policy text. */
  lemma EnforcerAgreesOutsideStale(t: Tables, rules: set<RuleRow>, ops: seq<Op>, u: string)
    requires KeysExist(t) && NoOtherPolicies(rules) && Boot(t, rules).Some?
    requires ValidOps(ops) && UuidText(u)
    requires u !in TrackAll(NOBODY, Boot(t, rules).value, ops).loaded
    ensures var s := Run(Boot(t, rules).value, ops); Agrees(s, u) <==> StorableGrants(s.tables, u)
  {
    var s := Boot(t, rules).value;
    ReloadAllInv(State(t, rules, {}), NOBODY, Done);
    RunKeepsInv(s, NOBODY, ops);
    assert LoadedCurrent(Run(s, ops), u);
    AgreesIffStorable(Run(s, ops), u);
  }

  /** A full reload without a fault is done exactly when every granted line of every user loads, and no
      other row is refused: one line that does not keeps everyone from being reloaded. */
  lemma ReloadedExactlyWhenAllLinesLoad(s: State)
    requires KeysExist(s.tables)
    ensures AllOutcome(s, NoFault).Done? <==>
      && (forall x :: x in FlatRows(s.tables) ==> LoadLine(LineRow(x)).Loaded?)
      && (forall r :: r in s.rules && r.ptype != "p" ==> !LoadLine(r).Refused?)
  {
    hide LoadLine;
    var rules := SyncAllRules(s.rules, s.tables);
    forall x | x in FlatRows(s.tables) ensures LineRow(x) in rules && !LoadLine(LineRow(x)).Skipped? {
      LoadKeepsUser(x);
    }
  }

  // ---- how stale the stale users are ----

  /** A live path to the resource and action that does not use the role. */
  ghost predicate GrantsWithout(t: Tables, u: string, role: nat, resource: string, action: string) {
    exists r: nat, p: nat :: r != role && Path(t, u, r, p, resource, action)
  }

  /** A live path to the resource and action that does not use the permission. */
  ghost predicate GrantsBesides(t: Tables, u: string, perm: nat, resource: string, action: string) {
    exists r: nat, p: nat :: p != perm && Path(t, u, r, p, resource, action)
  }

  /** The stale users are really stale: after a role is deleted, an enforcer that agreed before
      wrongly allows exactly what only that role granted. */
  lemma DeletedRoleStillAllows(s: State, role: nat, u: string, resource: string, action: string)
    requires LiveRole(s.tables, role)
    requires Agrees(s, u)
    ensures var s2 := Step(s, DeleteRole(role));
      (Enforce(s2, u, resource, action) && !Grants(s2.tables, u, resource, action)) <==>
      (Grants(s.tables, u, resource, action) && !GrantsWithout(s.tables, u, role, resource, action))
  {
    var t, t2 := s.tables, Change(s.tables, DeleteRole(role));
    forall r: nat, p: nat
      ensures Path(t2, u, r, p, resource, action) <==> r != role && Path(t, u, r, p, resource, action)
    {
    }
    assert Enforce(s, u, resource, action) <==> Grants(t, u, resource, action);
    if Grants(t2, u, resource, action) {
      var r: nat, p: nat :| Path(t2, u, r, p, resource, action);
      assert Path(t, u, r, p, resource, action);
    }
    if GrantsWithout(t, u, role, resource, action) {
      var r: nat, p: nat :| r != role && Path(t, u, r, p, resource, action);
      assert Path(t2, u, r, p, resource, action);
    }
  }

  /** The same for a deleted permission. */
  lemma DeletedPermissionStillAllows(s: State, perm: nat, u: string, resource: string, action: string)
    requires LivePerm(s.tables, perm)
    requires Agrees(s, u)
    ensures var s2 := Step(s, DeletePermission(perm));
      (Enforce(s2, u, resource, action) && !Grants(s2.tables, u, resource, action)) <==>
      (Grants(s.tables, u, resource, action) && !GrantsBesides(s.tables, u, perm, resource, action))
  {
    var t, t2 := s.tables, Change(s.tables, DeletePermission(perm));
    forall r: nat, p: nat
      ensures Path(t2, u, r, p, resource, action) <==> p != perm && Path(t, u, r, p, resource, action)
    {
    }
    assert Enforce(s, u, resource, action) <==> Grants(t, u, resource, action);
    if Grants(t2, u, resource, action) {
      var r: nat, p: nat :| Path(t2, u, r, p, resource, action);
      assert Path(t, u, r, p, resource, action);
    }
    if GrantsBesides(t, u, perm, resource, action) {
      var r: nat, p: nat :| p != perm && Path(t, u, r, p, resource, action);
      assert Path(t2, u, r, p, resource, action);
    }
  }

  /** The user has the permission through some live role. */
  ghost predicate Reaches(t: Tables, u: string, perm: nat) {
    exists r: nat :: (u, r) in t.userRoles && (r, perm) in t.rolePerms && LiveRole(t, r)
  }

  predicate Is(t: Tables, perm: nat, resource: string, action: string) {
    LivePerm(t, perm) && t.perms[perm].resource == resource && t.perms[perm].action == action
  }

  /** What a permission grants, beside all other ways. */
  lemma GrantsSplit(t: Tables, u: string, perm: nat, resource: string, action: string)
    ensures Grants(t, u, resource, action) <==>
      GrantsBesides(t, u, perm, resource, action) || (Reaches(t, u, perm) && Is(t, perm, resource, action))
  {
    if r: nat, p: nat :| Path(t, u, r, p, resource, action) && p == perm {
      assert Reaches(t, u, perm);
    }
    if Reaches(t, u, perm) && Is(t, perm, resource, action) {
      var r: nat :| (u, r) in t.userRoles && (r, perm) in t.rolePerms && LiveRole(t, r);
      assert Path(t, u, r, perm, resource, action);
    }
    if r: nat, p: nat :| p != perm && Path(t, u, r, p, resource, action) {
      assert Grants(t, u, resource, action);
    }
    if r: nat, p: nat :| Path(t, u, r, p, resource, action) && p != perm {
      assert GrantsBesides(t, u, perm, resource, action);
    }
  }

  /** After a permission is changed to another resource or action, an enforcer that agreed before is
      wrong for exactly the users the permission reaches, and nothing else grants it: it still allows
      the old pair and does not yet allow the new one. */
  lemma UpdatedPermissionIsStale(s: State, op: Op, u: string, resource: string, action: string)
    requires op.UpdatePermission? && Succeeds(s.tables, op) && Agrees(s, u)
    ensures var t := s.tables; var s2 := Step(s, op); var t2 := s2.tables;
      && ((Enforce(s2, u, resource, action) && !Grants(t2, u, resource, action)) <==>
            Reaches(t, u, op.id) && !GrantsBesides(t, u, op.id, resource, action)
            && Is(t, op.id, resource, action) && !Is(t2, op.id, resource, action))
      && ((!Enforce(s2, u, resource, action) && Grants(t2, u, resource, action)) <==>
            Reaches(t, u, op.id) && !GrantsBesides(t, u, op.id, resource, action)
            && !Is(t, op.id, resource, action) && Is(t2, op.id, resource, action))
  {
    var t, t2 := s.tables, Change(s.tables, op);
    assert Enforce(s, u, resource, action) <==> Grants(t, u, resource, action);
    GrantsSplit(t, u, op.id, resource, action);
    GrantsSplit(t2, u, op.id, resource, action);
    assert Reaches(t2, u, op.id) <==> Reaches(t, u, op.id);
    forall r: nat, p: nat | p != op.id
      ensures Path(t2, u, r, p, resource, action) <==> Path(t, u, r, p, resource, action)
    {
    }
    assert GrantsBesides(t2, u, op.id, resource, action) <==> GrantsBesides(t, u, op.id, resource, action) by {
      if r: nat, p: nat :| p != op.id && Path(t, u, r, p, resource, action) {
        assert Path(t2, u, r, p, resource, action);
      }
      if r: nat, p: nat :| p != op.id && Path(t2, u, r, p, resource, action) {
        assert Path(t, u, r, p, resource, action);
      }
    }
  }

  // ---- runs in which the enforcer is wrong ----

  /** One user with one role that has one permission. */
  function OneGrant(u: string, resource: string, action: string): Tables {
    Tables({(u, 1)}, {(1, 2)}, map[1 := Role("editor", false)], map[2 := Perm("edit", resource, action, false)])
  }

  lemma OneGrantGrants(u: string, resource: string, action: string)
    ensures FlatRows(OneGrant(u, resource, action)) == {(u, resource, action)}
  {
    var t := OneGrant(u, resource, action);
    forall x ensures x in FlatRows(t) <==> x == (u, resource, action) {
      if x == (u, resource, action) {
        assert (u, 1) in t.userRoles && (1, 2) in t.rolePerms && LiveRole(t, 1) && LivePerm(t, 2);
      }
    }
  }

  /** What the enforcer starts with over one grant. */
  lemma OneGrantBoots(u: string, resource: string, action: string)
    ensures var t := OneGrant(u, resource, action); var x := (u, resource, action);
      && (Boot(t, {}).Some? <==> !LoadLine(LineRow(x)).Refused?)
      && (LoadLine(LineRow(x)).Loaded? ==> Boot(t, {}) == Some(State(t, {LineRow(x)}, {LoadLine(LineRow(x)).policy})))
  {
    hide LoadLine;
    OneGrantGrants(u, resource, action);
    var t, x := OneGrant(u, resource, action), (u, resource, action);
    assert SyncAllRules({}, t) == {LineRow(x)};
    assert LoadLine(LineRow(x)).Loaded? ==> Policies({LineRow(x)}) == {LoadLine(LineRow(x)).policy};
  }

  /** Deleting a role leaves its grants in force: after start-up and one DeleteRole the enforcer allows
      what no table grants any more. */
  lemma DeletedRoleRun(u: string, resource: string, action: string)
    requires UuidText(u) && Storable([u, resource, action])
    ensures var t := OneGrant(u, resource, action);
      && KeysExist(t) && Boot(t, {}).Some?
      && var s := Run(Boot(t, {}).value, [DeleteRole(1)]);
         Enforce(s, u, resource, action) && !Grants(s.tables, u, resource, action)
  {
    var t, x := OneGrant(u, resource, action), (u, resource, action);
    LineStorable(x);
    OneGrantBoots(u, resource, action);
    hide LoadLine;
    hide Storable;
    var s0 := Boot(t, {}).value;
    var op := DeleteRole(1);
    assert [op][1..] == [];
    assert Run(s0, [op]) == Step(s0, op);
  }

  /** The blank at the end of an action is lost: after start-up, with nothing failing, the enforcer
      denies the granted action and allows the one without the blank, which is not granted. */
  lemma TrailingBlankRun(u: string, resource: string, action: string)
    requires UuidText(u) && Storable([u, resource, action])
    ensures var t := OneGrant(u, resource, action + " ");
      && KeysExist(t) && Boot(t, {}).Some?
      && var s := Boot(t, {}).value;
         && Grants(t, u, resource, action + " ") && !Enforce(s, u, resource, action + " ")
         && !Grants(t, u, resource, action) && Enforce(s, u, resource, action)
  {
    var t, x := OneGrant(u, resource, action + " "), (u, resource, action + " ");
    BlankIsLost(u, resource, action);
    OneGrantBoots(u, resource, action + " ");
    OneGrantGrants(u, resource, action + " ");
    FlatRowsAreGrants(t, u, resource, action + " ");
    FlatRowsAreGrants(t, u, resource, action);
    hide LoadLine;
    hide Storable;
    assert action + " " != action;
    assert Line(u, resource, action + " ").rule[2] != Line(u, resource, action).rule[2];
  }

  lemma SameTextLoadsAlike(r: RuleRow, q: RuleRow)
    requires LineText(r) == LineText(q)
    ensures LoadLine(r) == LoadLine(q)
  {
  }

  lemma LineTextOf(u: string, resource: string, action: string)
    ensures LineText(LineRow((u, resource, action))) == TrimRight(Join(["p", u, resource] + [action]))
  {
    PTypeIsPlain();
    LineStarts(Line(u, resource, action));
    assert Fields(Line(u, resource, action)) == ["p", u, resource] + [action];
  }

  lemma BlankIsLost(u: string, resource: string, action: string)
    requires Storable([u, resource, action])
    ensures LoadLine(LineRow((u, resource, action + " "))) == Loaded(Line(u, resource, action))
  {
    hide *;
    LineStorable((u, resource, action));
    LineTextOf(u, resource, action);
    LineTextOf(u, resource, action + " ");
    JoinAddsBlank(["p", u, resource], action);
    TrimBlank(Join(["p", u, resource] + [action]));
    SameTextLoadsAlike(LineRow((u, resource, action)), LineRow((u, resource, action + " ")));
  }

  lemma TrimBlank(s: string)
    ensures TrimRight(s + " ") == TrimRight(s)
  {
    assert (s + " ")[..|s|] == s;
  }

  lemma JoinAddsBlank(fields: seq<string>, last: string)
    requires fields != []
    ensures Join(fields + [last + " "]) == Join(fields + [last]) + " "
  {
    JoinAppend(fields, last);
    JoinAppend(fields, last + " ");
    Associate(Join(fields), "," + (" " + last), " ");
    Associate(",", " " + last, " ");
    Associate(" ", last, " ");
  }

  /** One line stops every reload: while some user is granted a line whose text does not have exactly
      three commas, a full reload without any fault is not done, and once the line is in the copy no
      reload for any user is. */
  lemma LineStopsReloads(s: State, x: (string, string, string), v: string)
    requires KeysExist(s.tables) && x in FlatRows(s.tables)
    requires QuoteFree(x) && Count(',', FirstLine(GrantText(x))) != 3
    ensures AllOutcome(s, NoFault) == NotLoaded
    ensures v == x.0 || LineRow(x) in s.rules ==> UserOutcome(s, v, NoFault) == NotLoaded
  {
    LoadsExactlyWithThreeCommas(x);
    LineRowFields(x);
    hide LoadLine;
    hide Count;
    hide GrantText;
    assert LineRow(x) in SyncAllRules(s.rules, s.tables);
    if v == x.0 {
      assert LineRow(x) in UserRows(s.tables, v);
    }
    if v == x.0 || LineRow(x) in s.rules {
      assert LineRow(x) in SyncUserRules(s.rules, s.tables, v);
    }
  }

  lemma {:induction false} CommasTrimmed(s: string)
    ensures Count(',', FirstLine(TrimRight(s))) <= Count(',', s)
  {
    CommasOfFirstLine(TrimRight(s));
    CommasOfTrim(s);
  }

  lemma {:induction false} CommasOfFirstLine(s: string)
    ensures Count(',', FirstLine(s)) <= Count(',', s)
  {
    if s != [] && s[0] != '\n' {
      CommasOfFirstLine(s[1..]);
      CountConcat(',', [s[0]], FirstLine(s[1..]));
    }
  }

  lemma {:induction false} CommasOfTrim(s: string)
    ensures Count(',', TrimRight(s)) <= Count(',', s)
  {
    if s != [] && Cut(s[|s| - 1]) {
      var n := |s| - 1;
      CommasOfTrim(s[..n]);
      CountConcat(',', s[..n], [s[n]]);
      assert s == s[..n] + [s[n]];
    }
  }

  /** The commas of "p, user, resource" with a resource that has none. */
  lemma TwoCommas(u: string, resource: string)
    requires UuidText(u) && ',' !in resource
    ensures Count(',', Join(["p", u, resource])) == 2
  {
    JoinTwo("p", u, "");
    JoinAppend(["p", u], resource);
    assert ["p", u] + [resource] == ["p", u, resource];
    var tail := " " + resource;
    CountConcat(',', Join(["p", u]), "," + tail);
    CountConcat(',', "p", "," + (" " + u));
    CountConcat(',', ",", " " + u);
    CountConcat(',', ",", tail);
    CountNone(',', "p");
    CountNone(',', " " + u);
    CountNone(',', tail);
    assert Count(',', ",") == 1 by { assert ","[1..] == ""; }
  }

  /** An action of one blank, which has no comma, keeps the enforcer from starting: its line is trimmed
      to three fields. */
  lemma BlankActionNeverStarts(u: string, resource: string)
    requires UuidText(u) && ',' !in resource && '"' !in resource
    ensures KeysExist(OneGrant(u, resource, " ")) && Boot(OneGrant(u, resource, " "), {}) == None
  {
    var x := (u, resource, " ");
    var three := ["p", u, resource];
    JoinAddsBlank(three, "");
    JoinAppend(three, "");
    TrimBlank(Join(three + [""]));
    TrimRightAppend(Join(three));
    assert "" + " " == " ";
    assert three + ["" + " "] == ["p", u, resource, " "];
    assert GrantText(x) == TrimRight(Join(three));
    TwoCommas(u, resource);
    CommasTrimmed(Join(three));
    LoadsExactlyWithThreeCommas(x);
    OneGrantBoots(u, resource, " ");
  }
}
