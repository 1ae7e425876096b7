/** Role-based access control.  Four tables say what is granted; casbin_rule is a flattened copy
    of their join, rebuilt for one user or for everyone; the enforcer answers from the policies it
    last loaded from that copy.  This module is the tables, the copy and what loading it answers; whole
    runs of commands are in RbacRuns.dfy, and RbacService.dfy has the methods that change them. */
module Rbac {
  import opened PolicyLine

  datatype Role = Role(name: string, deleted: bool)
  datatype Perm = Perm(name: string, resource: string, action: string, deleted: bool)

  /** user_roles, role_permissions, roles and permissions.  Users are known by their UUID text. */
  datatype Tables = Tables(userRoles: set<(string, nat)>, rolePerms: set<(nat, nat)>, roles: map<nat, Role>,
    perms: map<nat, Perm>)

  /** loaded is what the enforcer holds in memory. */
  datatype State = State(tables: Tables, rules: set<RuleRow>, loaded: set<Policy>)

  predicate UuidText(u: string) {
    |u| == 36 && forall c :: c in u ==> '0' <= c <= '9' || 'a' <= c <= 'f' || c == '-'
  }

  predicate LiveRole(t: Tables, r: nat) { r in t.roles && !t.roles[r].deleted }
  predicate LivePerm(t: Tables, p: nat) { p in t.perms && !t.perms[p].deleted }

  // ---- the live join, as a question and as rows ----

  /** u has role r, r has permission p, both are live, and p is for this resource and action. */
  predicate Path(t: Tables, u: string, r: nat, p: nat, resource: string, action: string) {
    && (u, r) in t.userRoles && (r, p) in t.rolePerms
    && LiveRole(t, r) && LivePerm(t, p)
    && t.perms[p].resource == resource && t.perms[p].action == action
  }

  ghost predicate Grants(t: Tables, u: string, resource: string, action: string) {
    exists r: nat, p: nat :: Path(t, u, r, p, resource, action)
  }

  /** SELECT DISTINCT user, resource, action over the join. */
  function FlatRows(t: Tables): set<(string, string, string)> {
    set ur, rp | ur in t.userRoles && rp in t.rolePerms && ur.1 == rp.0 && LiveRole(t, ur.1) && LivePerm(t, rp.1)
      :: (ur.0, t.perms[rp.1].resource, t.perms[rp.1].action)
  }

  lemma FlatRowsAreGrants(t: Tables, u: string, resource: string, action: string)
    ensures (u, resource, action) in FlatRows(t) <==> Grants(t, u, resource, action)
  {
    if r: nat, p: nat :| Path(t, u, r, p, resource, action) {
      assert (u, r) in t.userRoles && (r, p) in t.rolePerms;
      assert (u, r).1 == (r, p).0;
    }
    if (u, resource, action) in FlatRows(t) {
      var ur, rp :| ur in t.userRoles && rp in t.rolePerms && ur.1 == rp.0 && LiveRole(t, ur.1) && LivePerm(t, rp.1)
        && (u, resource, action) == (ur.0, t.perms[rp.1].resource, t.perms[rp.1].action);
      assert ur == (ur.0, ur.1) && rp == (rp.0, rp.1);
      assert Path(t, u, ur.1, rp.1, resource, action);
    }
  }

  function Line(u: string, resource: string, action: string): Policy {
    Policy("p", [u, resource, action])
  }

  function LineRow(x: (string, string, string)): RuleRow {
    Store(Line(x.0, x.1, x.2))
  }

  lemma LineRowFields(x: (string, string, string))
    ensures LineRow(x) == RuleRow("p", [x.0, x.1, x.2, "", "", ""])
  {
    var rule := [x.0, x.1, x.2];
    assert Pad(rule) == Pad(rule + [""]);
    assert Pad(rule + [""]) == Pad(rule + [""] + [""]);
    assert rule + [""] + [""] + [""] == [x.0, x.1, x.2, "", "", ""];
  }

  // ---- the flattened copy ----

  predicate OfUser(r: RuleRow, u: string) {
    r.ptype == "p" && r.v != [] && r.v[0] == u
  }

  function UserRows(t: Tables, u: string): set<RuleRow> {
    set x | x in FlatRows(t) && x.0 == u :: LineRow(x)
  }

  function AllRows(t: Tables): set<RuleRow> {
    set x | x in FlatRows(t) :: LineRow(x)
  }

  function SyncUserRules(rules: set<RuleRow>, t: Tables, u: string): set<RuleRow> {
    (set r | r in rules && !OfUser(r, u)) + UserRows(t, u)
  }

  function SyncAllRules(rules: set<RuleRow>, t: Tables): set<RuleRow> {
    (set r | r in rules && r.ptype != "p") + AllRows(t)
  }

  /** The policies the authorization model declares: p = sub, obj, act and g = _, _. */
  predicate Declared(p: Policy) {
    (p.ptype == "p" && |p.rule| == 3) || (p.ptype == "g" && |p.rule| >= 2)
  }

  function LoadLine(r: RuleRow): Loading { LoadRow(Declared, r) }

  /** What rows load as, one by one. */
  function Policies(rules: set<RuleRow>): set<Policy> {
    set r | r in rules && LoadLine(r).Loaded? :: LoadLine(r).policy
  }

  /** A load takes all rows or, when one of them is refused, fails and keeps what was loaded. */
  predicate Loads(rules: set<RuleRow>) {
    forall r :: r in rules ==> !LoadLine(r).Refused?
  }

  predicate Enforce(s: State, u: string, resource: string, action: string) {
    Line(u, resource, action) in s.loaded
  }

  // ---- an incremental rebuild of everyone equals the full rebuild ----

  function SyncUsers(rules: set<RuleRow>, t: Tables, users: seq<string>): set<RuleRow>
    decreases |users|
  {
    if users == [] then rules else SyncUsers(SyncUserRules(rules, t, users[0]), t, users[1..])
  }

  lemma UserRowsOfUser(t: Tables, u: string)
    ensures forall r :: r in UserRows(t, u) ==> OfUser(r, u)
    ensures forall r :: r in AllRows(t) && OfUser(r, u) ==> r in UserRows(t, u)
    ensures UserRows(t, u) <= AllRows(t)
  {
    forall x | x in FlatRows(t) ensures OfUser(LineRow(x), u) <==> x.0 == u {
      LineRowFields(x);
    }
  }

  /** A per-user rebuild leaves the rows of everyone else alone. */
  lemma SyncUserIsLocal(rules: set<RuleRow>, t: Tables, u: string, r: RuleRow)
    ensures OfUser(r, u) ==> (r in SyncUserRules(rules, t, u) <==> r in UserRows(t, u))
    ensures !OfUser(r, u) ==> (r in SyncUserRules(rules, t, u) <==> r in rules)
  {
    UserRowsOfUser(t, u);
  }

  lemma {:induction false} SyncUsersByRow(rules: set<RuleRow>, t: Tables, users: seq<string>, r: RuleRow)
    ensures r in SyncUsers(rules, t, users) <==>
      if exists u :: u in users && OfUser(r, u) then r in AllRows(t) else r in rules
    decreases |users|
  {
    if users != [] {
      var u := users[0];
      assert users == [u] + users[1..];
      SyncUsersByRow(SyncUserRules(rules, t, u), t, users[1..], r);
      SyncUserIsLocal(rules, t, u, r);
      UserRowsOfUser(t, u);
    }
  }

  /** Syncing users one at a time, in any order and with repeats, gives what one full sync gives,
      as soon as every user with rows or with grants is among them. */
  lemma IncrementalEqualsFull(rules: set<RuleRow>, t: Tables, users: seq<string>)
    requires forall r :: r in rules && r.ptype == "p" ==> r.v != [] && r.v[0] in users
    requires forall x :: x in FlatRows(t) ==> x.0 in users
    ensures SyncUsers(rules, t, users) == SyncAllRules(rules, t)
  {
    forall r ensures r in SyncUsers(rules, t, users) <==> r in SyncAllRules(rules, t) {
      SyncUsersByRow(rules, t, users, r);
      if r in AllRows(t) {
        var x :| x in FlatRows(t) && r == LineRow(x);
        LineRowFields(x);
        assert OfUser(r, x.0);
      }
    }
  }

  // ---- what a load of the copy answers ----

  /** A row of another policy type that the model does not turn into a policy. */
  predicate Foreign(r: RuleRow) {
    r.ptype != "p" && !LoadLine(r).Loaded?
  }

  predicate StorableGrants(t: Tables, u: string) {
    forall x :: x in FlatRows(t) && x.0 == u ==> Storable([x.0, x.1, x.2])
  }

  lemma UuidIsPlain(u: string)
    requires UuidText(u)
    ensures PlainField(u) && EndsSolid(u) && '\r' !in u
  {
    assert u[0] in u && u[|u| - 1] in u;
  }

  lemma PTypeIsPlain()
    ensures PolicyType("p")
  {
  }

  /** A stored line never reads as a comment, and if it loads it keeps its user, however the rest of it
      is read back. */
  lemma LoadKeepsUser(x: (string, string, string))
    requires UuidText(x.0)
    ensures !LoadLine(LineRow(x)).Skipped?
    ensures LoadLine(LineRow(x)).Loaded? ==>
      var p := LoadLine(LineRow(x)).policy; p.ptype == "p" && |p.rule| == 3 && p.rule[0] == x.0
  {
    UuidIsPlain(x.0);
    PTypeIsPlain();
    LineStarts(Line(x.0, x.1, x.2));
    var rest := [x.1, x.2];
    assert Fields(Line(x.0, x.1, x.2)) == ["p", x.0] + rest;
    hide Join;
    hide TrimRight;
    hide Normalize;
    hide ReadFields;
    hide ReadRecord;
    KeepsFirstTwo("p", x.0, rest);
  }

  lemma KeepsFirstTwo(a: string, b: string, rest: seq<string>)
    requires PlainField(a) && EndsSolid(a) && PlainField(b) && EndsSolid(b) && '\r' !in a && '\r' !in b
    ensures var r := ReadFields(Normalize(TrimRight(Join([a, b] + rest))));
      r.Some? && |r.value| > 2 ==> r.value[0] == a && r.value[1] == b
  {
    var head := [a, b];
    var tail := JoinFrom(head, rest);
    JoinEndsLikeLast(head);
    assert b[|b| - 1] in b;
    JoinTwo(a, b, "");
    assert '\r' !in Join(head);
    hide ReadFields;
    hide Join;
    var cut := TrimKeepsSolid(Join(head), tail);
    hide TrimRight;
    NormalizeConcat(Join(head), cut);
    assert cut != "" ==> Normalize(cut) != "" && Normalize(cut)[0] == ',';
    hide Normalize;
    ReadHead(a, b, Normalize(cut));
  }

  lemma ReadHead(a: string, b: string, cut: string)
    requires PlainField(a) && PlainField(b) && (cut != "" ==> cut[0] == ',')
    ensures var r := ReadFields(Join([a, b]) + cut); r.Some? && |r.value| > 2 ==> r.value[0] == a && r.value[1] == b
  {
    if cut == "" {
      ReadJoined([a, b]);
      hide *;
      assert Join([a, b]) + "" == Join([a, b]);
    } else {
      ReadTwo(a, b, cut[1..]);
      hide *;
      assert cut == "," + cut[1..];
    }
  }

  lemma ReadTwo(a: string, b: string, more: string)
    requires PlainField(a) && PlainField(b)
    ensures ReadFields(Join([a, b]) + ("," + more)) == NewField(a, NewField(b, ReadFields(more)))
  {
    JoinTwo(a, b, "," + more);
    ReadPlain(b, more);
    LeadingBlank(b + ("," + more));
    ReadPlain(a, " " + (b + ("," + more)));
  }

  lemma JoinTwo(a: string, b: string, tail: string)
    ensures Join([a, b]) + tail == a + ("," + (" " + (b + tail)))
    ensures Join([a, b]) == a + ("," + (" " + b))
  {
    assert [a, b][1..] == [b];
    Associate(a, "," + (" " + b), tail);
    Associate(",", " " + b, tail);
    Associate(" ", b, tail);
  }

  // ---- agreement of the enforcer with the live join ----

  predicate OfSubject(p: Policy, u: string) {
    p.ptype == "p" && p.rule != [] && p.rule[0] == u
  }

  /** The copy holds exactly the user's live lines. */
  ghost predicate RulesCurrent(s: State, u: string) {
    forall r :: OfUser(r, u) ==> (r in s.rules <==> r in UserRows(s.tables, u))
  }

  /** The enforcer holds exactly what the user's live lines load as. */
  ghost predicate LoadedCurrent(s: State, u: string) {
    forall p :: OfSubject(p, u) ==> (p in s.loaded <==> p in Policies(UserRows(s.tables, u)))
  }

  ghost predicate Agrees(s: State, u: string) {
    forall resource, action :: Enforce(s, u, resource, action) <==> Grants(s.tables, u, resource, action)
  }

  lemma LoadedLine(t: Tables, u: string, p: Policy)
    ensures p in Policies(UserRows(t, u)) <==>
      exists x :: x in FlatRows(t) && x.0 == u && LoadLine(LineRow(x)) == Loaded(p)
  {
    if p in Policies(UserRows(t, u)) {
      var r :| r in UserRows(t, u) && LoadLine(r) == Loaded(p);
      var x :| x in FlatRows(t) && x.0 == u && r == LineRow(x);
    }
    if x :| x in FlatRows(t) && x.0 == u && LoadLine(LineRow(x)) == Loaded(p) {
      assert LineRow(x) in UserRows(t, u);
    }
  }

  lemma LineStorable(x: (string, string, string))
    ensures LoadLine(LineRow(x)) == Loaded(Line(x.0, x.1, x.2)) <==> Storable([x.0, x.1, x.2])
  {
    PTypeIsPlain();
    ComesBackIffStorable(Declared, Line(x.0, x.1, x.2));
  }

  lemma CurrentAndStorableAgrees(s: State, u: string)
    requires LoadedCurrent(s, u) && StorableGrants(s.tables, u)
    ensures Agrees(s, u)
  {
    hide LoadLine;
    forall resource, action
      ensures Enforce(s, u, resource, action) <==> Grants(s.tables, u, resource, action)
    {
      var p := Line(u, resource, action);
      assert OfSubject(p, u);
      LoadedLine(s.tables, u, p);
      FlatRowsAreGrants(s.tables, u, resource, action);
      forall x | x in FlatRows(s.tables) && x.0 == u ensures LoadLine(LineRow(x)) == Loaded(Line(x.0, x.1, x.2)) {
        LineStorable(x);
      }
      if Grants(s.tables, u, resource, action) {
        assert (u, resource, action) in FlatRows(s.tables);
      }
    }
  }

  /** A granted line that is answered was read back from a granted line. */
  lemma ReadFrom(s: State, u: string, x: (string, string, string)) returns (y: (string, string, string))
    requires LoadedCurrent(s, u) && Agrees(s, u) && x in FlatRows(s.tables) && x.0 == u
    ensures y in FlatRows(s.tables) && y.0 == u
      && LoadRow(Declared, Store(Line(y.0, y.1, y.2))) == Loaded(Line(x.0, x.1, x.2))
  {
    hide LoadRow;
    var p := Line(x.0, x.1, x.2);
    FlatRowsAreGrants(s.tables, u, x.1, x.2);
    assert Enforce(s, u, x.1, x.2) && OfSubject(p, u);
    LoadedLine(s.tables, u, p);
    y :| y in FlatRows(s.tables) && y.0 == u && LoadLine(LineRow(y)) == Loaded(p);
  }

  /** When every granted line is answered, each is read back from some granted line, and then none can
      have been misread. */
  lemma AgreeingGrantsAreStorable(s: State, u: string)
    requires LoadedCurrent(s, u) && Agrees(s, u)
    ensures StorableGrants(s.tables, u)
  {
    var t := s.tables;
    var lines := set x | x in FlatRows(t) && x.0 == u :: Line(x.0, x.1, x.2);
    PTypeIsPlain();
    hide LoadRow;
    hide Storable;
    hide Store;
    hide FlatRows;
    hide Grants;
    hide PolicyType;
    hide LoadedCurrent;
    forall p | p in lines ensures p.ptype == "p" && Declared(p) {
      var x :| x in FlatRows(t) && x.0 == u && p == Line(x.0, x.1, x.2);
    }
    forall p | p in lines ensures exists q :: q in lines && LoadRow(Declared, Store(q)) == Loaded(p) {
      var x :| x in FlatRows(t) && x.0 == u && p == Line(x.0, x.1, x.2);
      var y := ReadFrom(s, u, x);
      assert Line(y.0, y.1, y.2) in lines;
    }
    NoCircles(Declared, lines);
    forall x | x in FlatRows(t) && x.0 == u ensures Storable([x.0, x.1, x.2]) {
      assert Line(x.0, x.1, x.2) in lines;
    }
  }

  /** For a user whose policies are loaded and current, the enforcer agrees with the live join
      exactly when each of the user's granted lines is storable as policy text. */
  lemma AgreesIffStorable(s: State, u: string)
    requires LoadedCurrent(s, u)
    ensures Agrees(s, u) <==> StorableGrants(s.tables, u)
  {
    if StorableGrants(s.tables, u) {
      CurrentAndStorableAgrees(s, u);
    } else if Agrees(s, u) {
      AgreeingGrantsAreStorable(s, u);
    }
  }

  // ---- which lines load at all ----

  /** The text of a granted line, before it is read. */
  function GrantText(x: (string, string, string)): string {
    TrimRight(Join(["p", x.0, x.1, x.2]))
  }

  lemma GrantTextIsRead(x: (string, string, string))
    requires UuidText(x.0)
    ensures LineText(LineRow(x)) == GrantText(x)
    ensures var t := GrantText(x); t != [] && t[0] != '#' && ReadRecord(Normalize(t)) == ReadFields(Normalize(t))
  {
    PTypeIsPlain();
    LineStarts(Line(x.0, x.1, x.2));
    assert Fields(Line(x.0, x.1, x.2)) == ["p", x.0, x.1, x.2];
  }

  /** A granted line loads exactly when it reads as four fields: "p", the user and two more.  Otherwise
      it is refused. */
  lemma LoadsExactlyWithFourFields(x: (string, string, string))
    requires UuidText(x.0)
    ensures var fields := ReadFields(Normalize(GrantText(x)));
      && (LoadLine(LineRow(x)).Loaded? <==> fields.Some? && |fields.value| == 4)
      && (!LoadLine(LineRow(x)).Loaded? ==> LoadLine(LineRow(x)).Refused?)
  {
    GrantTextIsRead(x);
    UuidIsPlain(x.0);
    PTypeIsPlain();
    KeepsFirstTwo("p", x.0, [x.1, x.2]);
    assert ["p", x.0] + [x.1, x.2] == ["p", x.0, x.1, x.2];
    hide ReadFields;
    hide ReadRecord;
    hide Normalize;
    hide TrimRight;
    hide Join;
  }

  function FirstLine(s: string): string {
    if s == [] || s[0] == '\n' then [] else [s[0]] + FirstLine(s[1..])
  }

  lemma {:induction false} FirstLineConcat(a: string, b: string)
    requires '\n' !in a
    ensures FirstLine(a + b) == a + FirstLine(b)
  {
    if a == [] {
      assert a + b == b;
    } else {
      assert (a + b)[1..] == a[1..] + b;
      FirstLineConcat(a[1..], b);
    }
  }

  lemma {:induction false} FieldCount(s: string)
    requires '"' !in s
    ensures ReadFields(s).Some? && |ReadFields(s).value| == Count(',', FirstLine(s)) + 1
    decreases |s|
  {
    var space, f, more := ReadSplit(s);
    hide ReadFields;
    CountNone(',', space);
    CountNone(',', f);
    var line := FirstLine(more);
    FirstLineConcat(f, more);
    FirstLineConcat(space, f + more);
    CountConcat(',', space, f + line);
    CountConcat(',', f, line);
    if more != [] && more[0] == ',' {
      var rest := more[1..];
      assert line == [','] + FirstLine(rest);
      FieldCount(rest);
    }
  }

  /** Line-end handling leaves the commas of the first line alone. */
  lemma {:induction false} CommasNormalized(s: string)
    ensures Count(',', FirstLine(Normalize(s))) == Count(',', FirstLine(s))
    decreases |s|
  {
    if s == [] || s == ['\r'] {
      CountNone(',', FirstLine(s));
    } else if |s| >= 2 && s[0] == '\r' && s[1] == '\n' {
      assert FirstLine(s) == ['\r'] + FirstLine(s[1..]);
      assert FirstLine(s[1..]) == [];
      CountNone(',', ['\r']);
    } else {
      CommasNormalized(s[1..]);
      assert ([s[0]] + Normalize(s[1..]))[1..] == Normalize(s[1..]);
      if s[0] != '\n' {
        CountConcat(',', [s[0]], FirstLine(s[1..]));
        CountConcat(',', [s[0]], FirstLine(Normalize(s[1..])));
      }
    }
  }

  lemma {:induction false} JoinHasNoQuote(fields: seq<string>)
    requires forall i :: 0 <= i < |fields| ==> '"' !in fields[i]
    ensures '"' !in Join(fields)
  {
    if |fields| > 1 { JoinHasNoQuote(fields[1..]); }
  }

  predicate QuoteFree(x: (string, string, string)) {
    '"' !in x.1 && '"' !in x.2
  }

  /** A granted line without quotes loads exactly when the first line of its text, trimmed on the right,
      has three commas; otherwise it is refused. */
  lemma LoadsExactlyWithThreeCommas(x: (string, string, string))
    requires UuidText(x.0) && QuoteFree(x)
    ensures LoadLine(LineRow(x)).Loaded? <==> Count(',', FirstLine(GrantText(x))) == 3
    ensures !LoadLine(LineRow(x)).Loaded? ==> LoadLine(LineRow(x)).Refused?
  {
    UuidIsPlain(x.0);
    LoadsExactlyWithFourFields(x);
    var text := GrantText(x);
    JoinHasNoQuote(["p", x.0, x.1, x.2]);
    CountNormalize(text);
    CountNone('"', text);
    CountNone('"', Normalize(text));
    hide LoadLine;
    FieldCount(Normalize(text));
    CommasNormalized(text);
  }
}
