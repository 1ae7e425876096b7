/** The stores and handlers of role-based access control: commands over the four tables, the
    per-user and the full policy sync, and the enforcer's loaded copy. */
module RbacService {
  import opened Prelude
  import opened PolicyLine
  import opened Rbac
  import opened RbacRuns

  class Service {
    var userRoles: set<(string, nat)>
    var rolePerms: set<(nat, nat)>
    var roles: map<nat, Role>
    var perms: map<nat, Perm>
    var rules: seq<RuleRow>    // casbin_rule, in insertion order
    var loaded: set<Policy>    // the enforcer's policies
    var started: bool          // whether the enforcer came up

    function CurrentTables(): Tables
      reads this
    {
      Tables(userRoles, rolePerms, roles, perms)
    }

    function RuleSet(): set<RuleRow>
      reads this
    {
      set r | r in rules
    }

    function Snapshot(): State
      reads this
    {
      State(CurrentTables(), RuleSet(), loaded)
    }

    /** Starting the enforcer over an existing database, which fails when the policies do not load. */
    constructor (t: Tables, rules0: seq<RuleRow>)
      ensures started <==> Boot(t, set r | r in rules0).Some?
      ensures started ==> Boot(t, set r | r in rules0) == Some(Snapshot())
    {
      userRoles, rolePerms, roles, perms := t.userRoles, t.rolePerms, t.roles, t.perms;
      rules, loaded, started := rules0, {}, false;
      new;
      var fault, how := SyncAllPolicies(None, false);
      started := how.Done?;
    }

    /** The result rows of the flattening query, in an order the database chooses, without repeats. */
    method LoadFlattenedPolicies(user: Option<string>) returns (policies: seq<(string, string, string)>)
      ensures forall x :: x in policies <==> x in FlatRows(CurrentTables()) && (user.Some? ==> x.0 == user.value)
      ensures forall i, j :: 0 <= i < j < |policies| ==> policies[i] != policies[j]
    {
      var rows := set x | x in FlatRows(CurrentTables()) && (user.Some? ==> x.0 == user.value);
      ghost var all := rows;
      policies := [];
      while rows != {}
        invariant rows <= all
        invariant forall x :: x in policies <==> x in all && x !in rows
        invariant forall i, j :: 0 <= i < j < |policies| ==> policies[i] != policies[j]
        decreases rows
      {
        var x :| x in rows;
        policies := policies + [x];
        rows := rows - {x};
      }
    }

    /** Reads the whole copy into a fresh policy model, which replaces the old one unless a row is
        refused. */
    method LoadPolicy() returns (ok: bool)
      modifies this`loaded
      ensures ok <==> Loads(RuleSet())
      ensures loaded == if ok then Policies(RuleSet()) else old(loaded)
    {
      var model: set<Policy> := {};
      var i := 0;
      while i < |rules|
        invariant 0 <= i <= |rules|
        invariant forall r :: r in rules[..i] ==> !LoadLine(r).Refused?
        invariant model == set r | r in rules[..i] && LoadLine(r).Loaded? :: LoadLine(r).policy
      {
        assert rules[..i + 1] == rules[..i] + [rules[i]];
        var line := LoadLine(rules[i]);
        if line.Refused? {
          assert rules[i] in RuleSet();
          return false;
        }
        if line.Loaded? {
          model := model + {line.policy};
        }
        i := i + 1;
      }
      assert rules[..i] == rules;
      loaded := model;
      ok := true;
    }

    /** Inserts the policies into the transaction's table, one row each.  The fault is the number of
        statements that succeed before the database fails, if it does. */
    method InsertAll(start: seq<RuleRow>, policies: seq<(string, string, string)>, fault: Option<nat>)
      returns (table: Option<seq<RuleRow>>)
      ensures table.None? ==> fault.Some?
      ensures table.Some? ==> forall r :: r in table.value <==>
        r in start || exists x :: x in policies && r == LineRow(x)
    {
      var tx := start;
      var i := 0;
      while i < |policies|
        invariant 0 <= i <= |policies|
        invariant forall r :: r in tx <==> r in start || exists x :: x in policies[..i] && r == LineRow(x)
      {
        if fault == Some(i) { return None; }
        var p := policies[i];
        assert policies[..i + 1] == policies[..i] + [p];
        LineRowFields(p);
        ghost var before := tx;
        tx := tx + [RuleRow("p", [p.0, p.1, p.2, "", "", ""])];
        assert forall r :: r in tx <==> r in before || r == LineRow(p);
        i := i + 1;
      }
      assert policies[..i] == policies;
      table := Some(tx);
    }

    /** Rebuilds one user's rows in a transaction, then reloads.  faults.0 makes a statement of the
        transaction fail, faults.1 the query that reads the copy; fault is what came of that. */
    method SyncUserPolicies(user: string, faults: (Option<nat>, bool)) returns (fault: Fault, how: Reload)
      modifies this`rules, this`loaded
      ensures how == UserOutcome(old(Snapshot()), user, fault)
      ensures Snapshot() == ReloadUser(old(Snapshot()), user, how)
      ensures Happened(faults, fault)
    {
      var policies := LoadFlattenedPolicies(Some(user));
      var tx := Filter(rules, r => !OfUser(r, user));
      var table := InsertAll(tx, policies, faults.0);
      if table.None? { return CommitFault, NotCommitted; }
      rules := table.value;
      assert RuleSet() == SyncUserRules(old(RuleSet()), CurrentTables(), user) by {
        InsertedRows(tx, policies, rules, UserRows(CurrentTables(), user));
      }
      if faults.1 { return LoadFault, NotLoaded; }
      var ok := LoadPolicy();
      fault, how := NoFault, if ok then Done else NotLoaded;
    }

    method SyncAllPolicies(statement: Option<nat>, query: bool) returns (fault: Fault, how: Reload)
      modifies this`rules, this`loaded
      ensures how == AllOutcome(old(Snapshot()), fault)
      ensures Snapshot() == ReloadAll(old(Snapshot()), how)
      ensures Happened((statement, query), fault)
    {
      var policies := LoadFlattenedPolicies(None);
      var tx := Filter(rules, (r: RuleRow) => r.ptype != "p");
      var table := InsertAll(tx, policies, statement);
      if table.None? { return CommitFault, NotCommitted; }
      rules := table.value;
      assert RuleSet() == SyncAllRules(old(RuleSet()), CurrentTables()) by {
        InsertedRows(tx, policies, rules, AllRows(CurrentTables()));
      }
      if query { return LoadFault, NotLoaded; }
      var ok := LoadPolicy();
      fault, how := NoFault, if ok then Done else NotLoaded;
    }

    /** For a user whose loaded policies are current and whose grants are storable, the answer is that
        of the live tables. */
    method EnforceRequest(user: string, resource: string, action: string) returns (allowed: bool)
      ensures LoadedCurrent(Snapshot(), user) && StorableGrants(CurrentTables(), user) ==>
        (allowed <==> Grants(CurrentTables(), user, resource, action))
      ensures allowed <==> Enforce(Snapshot(), user, resource, action)
    {
      allowed := Line(user, resource, action) in loaded;
      if LoadedCurrent(Snapshot(), user) && StorableGrants(CurrentTables(), user) {
        CurrentAndStorableAgrees(Snapshot(), user);
      }
    }

    // ---- handlers ----

    method HandleCreateRole(id: nat, name: string) returns (ok: bool)
      modifies this
      ensures Snapshot() == Step(old(Snapshot()), CreateRole(id, name))
      ensures ok <==> Succeeds(old(CurrentTables()), CreateRole(id, name))
    {
      if exists k :: k in roles && roles[k].name == name && !roles[k].deleted { return false; }
      // the insert itself: primary key and the unique name, which deleted rows keep
      if id in roles || exists k :: k in roles && roles[k].name == name { return false; }
      roles := roles[id := Role(name, false)];
      ok := true;
    }

    method HandleUpdateRole(id: nat, name: string) returns (ok: bool)
      modifies this
      ensures Snapshot() == Step(old(Snapshot()), UpdateRole(id, name))
      ensures ok <==> Succeeds(old(CurrentTables()), UpdateRole(id, name))
    {
      if id !in roles || roles[id].deleted { return false; }
      var role := roles[id];
      if name != "" { role := role.(name := name); }
      if exists k :: k in roles && k != id && roles[k].name == role.name { return false; }
      roles := roles[id := role];
      ok := true;
    }

    method HandleDeleteRole(id: nat) returns (ok: bool)
      modifies this
      ensures Snapshot() == Step(old(Snapshot()), DeleteRole(id))
      ensures ok <==> Succeeds(old(CurrentTables()), DeleteRole(id))
    {
      ok := id in roles && !roles[id].deleted;
      if ok { roles := roles[id := roles[id].(deleted := true)]; }
    }

    method HandleCreatePermission(id: nat, name: string, resource: string, action: string) returns (ok: bool)
      modifies this
      ensures Snapshot() == Step(old(Snapshot()), CreatePermission(id, name, resource, action))
      ensures ok <==> Succeeds(old(CurrentTables()), CreatePermission(id, name, resource, action))
    {
      if exists k :: k in perms && perms[k].name == name && !perms[k].deleted { return false; }
      if id in perms || exists k :: k in perms && perms[k].name == name { return false; }
      perms := perms[id := Perm(name, resource, action, false)];
      ok := true;
    }

    method HandleUpdatePermission(id: nat, name: string, resource: string, action: string) returns (ok: bool)
      modifies this
      ensures Snapshot() == Step(old(Snapshot()), UpdatePermission(id, name, resource, action))
      ensures ok <==> Succeeds(old(CurrentTables()), UpdatePermission(id, name, resource, action))
    {
      if id !in perms || perms[id].deleted { return false; }
      var perm := perms[id];
      if name != "" { perm := perm.(name := name); }
      if resource != "" { perm := perm.(resource := resource); }
      if action != "" { perm := perm.(action := action); }
      if exists k :: k in perms && k != id && perms[k].name == perm.name { return false; }
      perms := perms[id := perm];
      ok := true;
    }

    method HandleDeletePermission(id: nat) returns (ok: bool)
      modifies this
      ensures Snapshot() == Step(old(Snapshot()), DeletePermission(id))
      ensures ok <==> Succeeds(old(CurrentTables()), DeletePermission(id))
    {
      ok := id in perms && !perms[id].deleted;
      if ok { perms := perms[id := perms[id].(deleted := true)]; }
    }

    method HandleAssignRole(user: string, role: nat, faults: (Option<nat>, bool))
      returns (found: bool, fault: Fault, how: Reload)
      modifies this
      ensures found <==> LiveRole(old(CurrentTables()), role)
      ensures Snapshot() == Step(old(Snapshot()), AssignRole(user, role, fault)) && (found ==> Happened(faults, fault))
    {
      fault, how := NoFault, NotCommitted;
      found := role in roles && !roles[role].deleted;
      if found {
        userRoles := userRoles + {(user, role)};
        fault, how := SyncUserPolicies(user, faults);
      }
    }

    method HandleUnassignRole(user: string, role: nat, faults: (Option<nat>, bool)) returns (fault: Fault, how: Reload)
      modifies this
      ensures Snapshot() == Step(old(Snapshot()), UnassignRole(user, role, fault)) && Happened(faults, fault)
    {
      userRoles := userRoles - {(user, role)};
      fault, how := SyncUserPolicies(user, faults);
    }

    method HandleAssignPermission(role: nat, perm: nat, faults: (Option<nat>, bool))
      returns (found: bool, fault: Fault, how: Reload)
      modifies this
      ensures found <==> LiveRole(old(CurrentTables()), role) && LivePerm(old(CurrentTables()), perm)
      ensures Snapshot() == Step(old(Snapshot()), AssignPermission(role, perm, fault))
      ensures found ==> Happened(faults, fault)
    {
      fault, how := NoFault, NotCommitted;
      found := role in roles && !roles[role].deleted && perm in perms && !perms[perm].deleted;
      if found {
        rolePerms := rolePerms + {(role, perm)};
        fault, how := SyncAllPolicies(faults.0, faults.1);
      }
    }

    method HandleUnassignPermission(role: nat, perm: nat, faults: (Option<nat>, bool))
      returns (fault: Fault, how: Reload)
      modifies this
      ensures Snapshot() == Step(old(Snapshot()), UnassignPermission(role, perm, fault)) && Happened(faults, fault)
    {
      rolePerms := rolePerms - {(role, perm)};
      fault, how := SyncAllPolicies(faults.0, faults.1);
    }
  }

  /** A fault is one that was to happen, and without any nothing fails but the policy text itself. */
  predicate Happened(faults: (Option<nat>, bool), fault: Fault) {
    && (fault.CommitFault? ==> faults.0.Some?)
    && (fault.LoadFault? ==> faults.1)
    && (fault.NoFault? ==> !faults.1)
  }

  /** The committed table is what was kept plus one row per policy. */
  lemma InsertedRows(kept: seq<RuleRow>, policies: seq<(string, string, string)>, table: seq<RuleRow>,
                     rows: set<RuleRow>)
    requires forall r :: r in table <==> r in kept || exists x :: x in policies && r == LineRow(x)
    requires rows == set x | x in policies :: LineRow(x)
    ensures (set r | r in table) == (set r | r in kept) + rows
  {
  }
}
