/** What each role and permission command does to the tables, when it refuses, and what the four link
    commands do to every user's grants and to the enforcer's answers. */
module RbacEffects {
  import opened Prelude
  import opened PolicyLine
  import opened Rbac
  import opened RbacRuns

  // ---- the commands that change one role or one permission ----

  /** Names are unique, and deleted rows keep theirs. */
  ghost predicate RoleNameFree(t: Tables, name: string, besides: set<nat>) {
    forall k :: k in t.roles && k !in besides ==> t.roles[k].name != name
  }

  ghost predicate PermNameFree(t: Tables, name: string, besides: set<nat>) {
    forall k :: k in t.perms && k !in besides ==> t.perms[k].name != name
  }

  /** A command that succeeds leaves these tables and no reload; one that is refused leaves everything. */
  ghost predicate LeavesTables(s: State, op: Op, succeeds: bool, after: Tables) {
    && (Succeeds(s.tables, op) <==> succeeds)
    && Step(s, op) == if succeeds then State(after, s.rules, s.loaded) else s
  }

  lemma CreateRoleExactly(s: State, id: nat, name: string)
    ensures var t := s.tables;
      LeavesTables(s, CreateRole(id, name), id !in t.roles && RoleNameFree(t, name, {}),
                   Tables(t.userRoles, t.rolePerms, t.roles[id := Role(name, false)], t.perms))
  {
  }

  /** An empty name keeps the stored one. */
  lemma UpdateRoleExactly(s: State, id: nat, name: string)
    ensures var t := s.tables;
      var live := id in t.roles && !t.roles[id].deleted;
      var kept := if live && name == "" then t.roles[id].name else name;
      LeavesTables(s, UpdateRole(id, name), live && RoleNameFree(t, kept, {id}),
                   Tables(t.userRoles, t.rolePerms, t.roles[id := Role(kept, false)], t.perms))
  {
  }

  lemma DeleteRoleExactly(s: State, id: nat)
    ensures var t := s.tables;
      var live := id in t.roles && !t.roles[id].deleted;
      LeavesTables(s, DeleteRole(id), live,
                   Tables(t.userRoles, t.rolePerms, if live then t.roles[id := Role(t.roles[id].name, true)]
                                                    else t.roles, t.perms))
  {
  }

  lemma CreatePermissionExactly(s: State, id: nat, name: string, resource: string, action: string)
    ensures var t := s.tables;
      LeavesTables(s, CreatePermission(id, name, resource, action), id !in t.perms && PermNameFree(t, name, {}),
                   Tables(t.userRoles, t.rolePerms, t.roles, t.perms[id := Perm(name, resource, action, false)]))
  {
  }

  /** Each argument goes to its own field, and an empty one keeps the stored value. */
  lemma UpdatePermissionExactly(s: State, id: nat, name: string, resource: string, action: string)
    ensures var t := s.tables;
      var live := id in t.perms && !t.perms[id].deleted;
      var name2 := if live && name == "" then t.perms[id].name else name;
      var resource2 := if live && resource == "" then t.perms[id].resource else resource;
      var action2 := if live && action == "" then t.perms[id].action else action;
      LeavesTables(s, UpdatePermission(id, name, resource, action), live && PermNameFree(t, name2, {id}),
                   Tables(t.userRoles, t.rolePerms, t.roles, t.perms[id := Perm(name2, resource2, action2, false)]))
  {
  }

  lemma DeletePermissionExactly(s: State, id: nat)
    ensures var t := s.tables;
      var live := id in t.perms && !t.perms[id].deleted;
      LeavesTables(s, DeletePermission(id), live,
                   Tables(t.userRoles, t.rolePerms, t.roles, if live then t.perms[id := t.perms[id].(deleted := true)]
                                                             else t.perms))
  {
  }

  // ---- what the link commands do to the grants ----

  /** A way from the user to the resource and action that does not go over this role of this user. */
  ghost predicate GrantsOffRole(t: Tables, v: string, user: string, role: nat, resource: string, action: string) {
    exists r: nat, p: nat :: Path(t, v, r, p, resource, action) && !(v == user && r == role)
  }

  /** A way that does not go over this permission of this role. */
  ghost predicate GrantsOffPerm(t: Tables, v: string, role: nat, perm: nat, resource: string, action: string) {
    exists r: nat, p: nat :: Path(t, v, r, p, resource, action) && !(r == role && p == perm)
  }

  /** The live role has a live permission for this resource and action. */
  ghost predicate RoleOffers(t: Tables, role: nat, resource: string, action: string) {
    && role in t.roles && !t.roles[role].deleted
    && exists p: nat :: (role, p) in t.rolePerms && Is(t, p, resource, action)
  }

  /** Assigning a live role adds to that user what the role offers, and nothing to anyone else; assigning
      any other role changes nothing. */
  lemma AssignRoleGrants(s: State, user: string, role: nat, fault: Fault, v: string, resource: string, action: string)
    ensures var t, s2 := s.tables, Step(s, AssignRole(user, role, fault));
      && (LiveRole(t, role) ==>
           && s2.tables == Tables(t.userRoles + {(user, role)}, t.rolePerms, t.roles, t.perms)
           && (Grants(s2.tables, v, resource, action) <==>
                || GrantsOffRole(t, v, user, role, resource, action)
                || (v == user && RoleOffers(t, role, resource, action)))
           && (v != user ==> (Grants(s2.tables, v, resource, action) <==> Grants(t, v, resource, action))))
      && (!LiveRole(t, role) ==> s2 == s)
  {
    var t, t2 := s.tables, Step(s, AssignRole(user, role, fault)).tables;
    if LiveRole(t, role) {
      assert t2 == Tables(t.userRoles + {(user, role)}, t.rolePerms, t.roles, t.perms);
      hide Step;
      if r: nat, p: nat :| Path(t2, v, r, p, resource, action) {
        if !(v == user && r == role) {
          assert Path(t, v, r, p, resource, action);
        } else {
          assert (role, p) in t.rolePerms && Is(t, p, resource, action);
        }
      }
      if r: nat, p: nat :| Path(t, v, r, p, resource, action) && !(v == user && r == role) {
        assert Path(t2, v, r, p, resource, action);
      }
      if v == user && RoleOffers(t, role, resource, action) {
        var p: nat :| (role, p) in t.rolePerms && Is(t, p, resource, action);
        assert Path(t2, v, role, p, resource, action);
      }
    }
  }

  /** Unassigning leaves a user exactly the grants that do not go over the link. */
  lemma UnassignRoleGrants(s: State, user: string, role: nat, fault: Fault, v: string, resource: string, action: string)
    ensures var t, s2 := s.tables, Step(s, UnassignRole(user, role, fault));
      && s2.tables == Tables(t.userRoles - {(user, role)}, t.rolePerms, t.roles, t.perms)
      && (Grants(s2.tables, v, resource, action) <==> GrantsOffRole(t, v, user, role, resource, action))
      && (v != user ==> (Grants(s2.tables, v, resource, action) <==> Grants(t, v, resource, action)))
  {
    var t, t2 := s.tables, Step(s, UnassignRole(user, role, fault)).tables;
    assert t2 == Tables(t.userRoles - {(user, role)}, t.rolePerms, t.roles, t.perms);
    hide Step;
    forall r: nat, p: nat
      ensures Path(t2, v, r, p, resource, action) <==> Path(t, v, r, p, resource, action) && !(v == user && r == role)
    {
    }
  }

  /** Assigning a live permission to a live role adds it to whoever has the role. */
  lemma AssignPermissionGrants(s: State, role: nat, perm: nat, fault: Fault, v: string, resource: string,
                               action: string)
    ensures var t, s2 := s.tables, Step(s, AssignPermission(role, perm, fault));
      && (LiveRole(t, role) && LivePerm(t, perm) ==>
           && s2.tables == Tables(t.userRoles, t.rolePerms + {(role, perm)}, t.roles, t.perms)
           && (Grants(s2.tables, v, resource, action) <==>
                || GrantsOffPerm(t, v, role, perm, resource, action)
                || ((v, role) in t.userRoles && Is(t, perm, resource, action))))
      && (!LiveRole(t, role) || !LivePerm(t, perm) ==> s2 == s)
  {
    var t, t2 := s.tables, Step(s, AssignPermission(role, perm, fault)).tables;
    if LiveRole(t, role) && LivePerm(t, perm) {
      assert t2 == Tables(t.userRoles, t.rolePerms + {(role, perm)}, t.roles, t.perms);
      hide Step;
      if r: nat, p: nat :| Path(t2, v, r, p, resource, action) {
        if !(r == role && p == perm) { assert Path(t, v, r, p, resource, action); }
      }
      if r: nat, p: nat :| Path(t, v, r, p, resource, action) && !(r == role && p == perm) {
        assert Path(t2, v, r, p, resource, action);
      }
      if (v, role) in t.userRoles && Is(t, perm, resource, action) {
        assert Path(t2, v, role, perm, resource, action);
      }
    }
  }

  lemma UnassignPermissionGrants(s: State, role: nat, perm: nat, fault: Fault, v: string, resource: string,
                                 action: string)
    ensures var t, s2 := s.tables, Step(s, UnassignPermission(role, perm, fault));
      && s2.tables == Tables(t.userRoles, t.rolePerms - {(role, perm)}, t.roles, t.perms)
      && (Grants(s2.tables, v, resource, action) <==> GrantsOffPerm(t, v, role, perm, resource, action))
  {
    var t, t2 := s.tables, Step(s, UnassignPermission(role, perm, fault)).tables;
    assert t2 == Tables(t.userRoles, t.rolePerms - {(role, perm)}, t.roles, t.perms);
    hide Step;
    forall r: nat, p: nat
      ensures Path(t2, v, r, p, resource, action) <==> Path(t, v, r, p, resource, action) && !(r == role && p == perm)
    {
    }
  }

  // ---- and to the answers ----

  lemma {:induction false} RunAppend(s: State, stale: Stale, ops: seq<Op>, op: Op)
    ensures Run(s, ops + [op]) == Step(Run(s, ops), op)
    ensures TrackAll(stale, s, ops + [op]) == Track(TrackAll(stale, s, ops), Run(s, ops), op)
    decreases |ops|
  {
    hide Step;
    hide Track;
    if ops == [] {
      assert [op][1..] == [] && [] + [op] == [op];
    } else {
      assert (ops + [op])[1..] == ops[1..] + [op];
      RunAppend(Step(s, ops[0]), Track(stale, s, ops[0]), ops[1..], op);
    }
  }

  /** The state an enforcer is in after start-up and these commands. */
  function Reach(t: Tables, rules: set<RuleRow>, ops: seq<Op>): State
    requires Boot(t, rules).Some?
  {
    Run(Boot(t, rules).value, ops)
  }

  ghost predicate Runs(t: Tables, rules: set<RuleRow>, ops: seq<Op>) {
    KeysExist(t) && NoOtherPolicies(rules) && Boot(t, rules).Some? && ValidOps(ops)
  }

  /** One more command, for a user it does not leave with policies out of date. */
  lemma AnswersAfter(t: Tables, rules: set<RuleRow>, ops: seq<Op>, op: Op, v: string)
    requires Runs(t, rules, ops) && ValidOp(op) && UuidText(v)
    requires v !in Track(TrackAll(NOBODY, Boot(t, rules).value, ops), Reach(t, rules, ops), op).loaded
    requires StorableGrants(Step(Reach(t, rules, ops), op).tables, v)
    ensures Agrees(Step(Reach(t, rules, ops), op), v)
  {
    RunAppend(Boot(t, rules).value, NOBODY, ops, op);
    EnforcerAgreesOutsideStale(t, rules, ops + [op], v);
  }

  /** After a role is unassigned and the reload is done, the enforcer allows the user what ways other than
      the link grant.  If it agreed before, it newly denies exactly what only the link granted. */
  lemma UnassignedRoleIsDenied(t: Tables, rules: set<RuleRow>, ops: seq<Op>, user: string, role: nat,
                               resource: string, action: string)
    requires Runs(t, rules, ops) && UuidText(user)
    requires var s := Reach(t, rules, ops); var s2 := Step(s, UnassignRole(user, role, NoFault));
      Loads(SyncUserRules(s.rules, s2.tables, user)) && StorableGrants(s2.tables, user)
    ensures var s := Reach(t, rules, ops); var s2 := Step(s, UnassignRole(user, role, NoFault));
      var other := GrantsOffRole(s.tables, user, user, role, resource, action);
      && (Enforce(s2, user, resource, action) <==> other)
      && (Agrees(s, user) ==>
           (Enforce(s, user, resource, action) && !Enforce(s2, user, resource, action) <==>
             Grants(s.tables, user, resource, action) && !other))
  {
    var s, op := Reach(t, rules, ops), UnassignRole(user, role, NoFault);
    hide Reach;
    UnassignRoleGrants(s, user, role, NoFault, user, resource, action);
    AnswersAfter(t, rules, ops, op, user);
  }

  /** The same after a permission is unassigned, for every user. */
  lemma UnassignedPermissionIsDenied(t: Tables, rules: set<RuleRow>, ops: seq<Op>, role: nat, perm: nat, v: string,
                                     resource: string, action: string)
    requires Runs(t, rules, ops) && UuidText(v)
    requires var s := Reach(t, rules, ops); var s2 := Step(s, UnassignPermission(role, perm, NoFault));
      Loads(SyncAllRules(s.rules, s2.tables)) && StorableGrants(s2.tables, v)
    ensures var s := Reach(t, rules, ops); var s2 := Step(s, UnassignPermission(role, perm, NoFault));
      var other := GrantsOffPerm(s.tables, v, role, perm, resource, action);
      && (Enforce(s2, v, resource, action) <==> other)
      && (Agrees(s, v) ==>
           (Enforce(s, v, resource, action) && !Enforce(s2, v, resource, action) <==>
             Grants(s.tables, v, resource, action) && !other))
  {
    var s, op := Reach(t, rules, ops), UnassignPermission(role, perm, NoFault);
    hide Reach;
    UnassignPermissionGrants(s, role, perm, NoFault, v, resource, action);
    AnswersAfter(t, rules, ops, op, v);
  }

  /** After a live role is assigned and the reload is done, the enforcer allows the user what was granted
      before and what the role offers. */
  lemma AssignedRoleIsAllowed(t: Tables, rules: set<RuleRow>, ops: seq<Op>, user: string, role: nat,
                              resource: string, action: string)
    requires Runs(t, rules, ops) && UuidText(user) && LiveRole(Reach(t, rules, ops).tables, role)
    requires var s := Reach(t, rules, ops); var s2 := Step(s, AssignRole(user, role, NoFault));
      Loads(SyncUserRules(s.rules, s2.tables, user)) && StorableGrants(s2.tables, user)
    ensures var s := Reach(t, rules, ops); var s2 := Step(s, AssignRole(user, role, NoFault));
      Enforce(s2, user, resource, action) <==>
        GrantsOffRole(s.tables, user, user, role, resource, action) || RoleOffers(s.tables, role, resource, action)
  {
    var s, op := Reach(t, rules, ops), AssignRole(user, role, NoFault);
    hide Reach;
    AssignRoleGrants(s, user, role, NoFault, user, resource, action);
    AnswersAfter(t, rules, ops, op, user);
  }

  /** The same after a live permission is assigned to a live role, for every user. */
  lemma AssignedPermissionIsAllowed(t: Tables, rules: set<RuleRow>, ops: seq<Op>, role: nat, perm: nat, v: string,
                                    resource: string, action: string)
    requires Runs(t, rules, ops) && UuidText(v)
    requires LiveRole(Reach(t, rules, ops).tables, role) && LivePerm(Reach(t, rules, ops).tables, perm)
    requires var s := Reach(t, rules, ops); var s2 := Step(s, AssignPermission(role, perm, NoFault));
      Loads(SyncAllRules(s.rules, s2.tables)) && StorableGrants(s2.tables, v)
    ensures var s := Reach(t, rules, ops); var s2 := Step(s, AssignPermission(role, perm, NoFault));
      Enforce(s2, v, resource, action) <==>
        || GrantsOffPerm(s.tables, v, role, perm, resource, action)
        || ((v, role) in s.tables.userRoles && Is(s.tables, perm, resource, action))
  {
    var s, op := Reach(t, rules, ops), AssignPermission(role, perm, NoFault);
    hide Reach;
    AssignPermissionGrants(s, role, perm, NoFault, v, resource, action);
    AnswersAfter(t, rules, ops, op, v);
  }

  /** A per-user reload that is done leaves the answers for everyone else who was up to date. */
  lemma OthersKeepTheirAnswers(t: Tables, rules: set<RuleRow>, ops: seq<Op>, op: Op, v: string, resource: string,
                               action: string)
    requires Runs(t, rules, ops) && ValidOp(op) && UuidText(v)
    requires (op.AssignRole? || op.UnassignRole?) && v != op.user
    requires var stale := TrackAll(NOBODY, Boot(t, rules).value, ops); v !in stale.rows && v !in stale.loaded
    requires StorableGrants(Reach(t, rules, ops).tables, v)
    ensures var s := Reach(t, rules, ops);
      Enforce(Step(s, op), v, resource, action) <==> Enforce(s, v, resource, action)
  {
    var s := Reach(t, rules, ops);
    EnforcerAgreesOutsideStale(t, rules, ops, v);
    hide Reach;
    var t2 := Step(s, op).tables;
    forall o, a ensures Grants(t2, v, o, a) <==> Grants(s.tables, v, o, a) {
      match op
      case AssignRole(user, role, fault) => AssignRoleGrants(s, user, role, fault, v, o, a);
      case UnassignRole(user, role, fault) => UnassignRoleGrants(s, user, role, fault, v, o, a);
    }
    forall x | x in FlatRows(t2) && x.0 == v ensures Storable([x.0, x.1, x.2]) {
      FlatRowsAreGrants(t2, v, x.1, x.2);
      FlatRowsAreGrants(s.tables, v, x.1, x.2);
      assert x == (v, x.1, x.2);
    }
    AnswersAfter(t, rules, ops, op, v);
  }
}
