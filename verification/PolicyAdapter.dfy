/** The casbin_rule table behind the policy adapter: saving and loading a whole model, and the
    two delete queries that are built condition by condition. */
module PolicyAdapter {
  import opened Prelude
  import opened PolicyLine

  /** The "p" and "g" sections of a casbin model: the rules of each policy type. */
  datatype Model = Model(p: map<string, seq<Rule>>, g: map<string, seq<Rule>>)

  ghost predicate InSection(section: map<string, seq<Rule>>, p: Policy) {
    p.ptype in section && p.rule in section[p.ptype]
  }

  ghost predicate InModel(m: Model, p: Policy) {
    InSection(m.p, p) || InSection(m.g, p)
  }

  predicate Fits(rules: seq<Rule>) {
    forall i :: 0 <= i < |rules| ==> |rules[i]| <= COLUMNS
  }

  /** Rules of more than six fields do not fit the seven placeholders of the insert. */
  predicate SectionFits(section: map<string, seq<Rule>>) {
    forall k :: k in section ==> Fits(section[k])
  }

  function InsertRule(rows: seq<RuleRow>, values: seq<string>): Result<seq<RuleRow>, string> {
    if |values| == COLUMNS + 1 then Ok(rows + [RuleRow(values[0], values[1..])]) else Err("wrong number of arguments")
  }

  // ---- the delete queries ----

  /** The conjunct "v<col> = $<p>" after the leading "ptype = $1". */
  datatype Cond = Cond(col: int, p: nat)

  /** Columns v0 to v5 exist, and the placeholders after $1 count up to the number of arguments. */
  predicate Accepted(conds: seq<Cond>, args: seq<string>) {
    && |args| == |conds| + 1
    && InTable(conds)
    && forall i :: 0 <= i < |conds| ==> conds[i].p == i + 2
  }

  predicate InTable(conds: seq<Cond>) {
    forall i :: 0 <= i < |conds| ==> 0 <= conds[i].col < COLUMNS
  }

  lemma InTableStep(conds: seq<Cond>, c: Cond)
    ensures InTable(conds + [c]) <==> InTable(conds) && 0 <= c.col < COLUMNS
  {
    var all := conds + [c];
    assert all[|conds|] == c && forall i :: 0 <= i < |conds| ==> all[i] == conds[i];
  }

  predicate Selected(conds: seq<Cond>, args: seq<string>, r: RuleRow) {
    && args != [] && r.ptype == args[0]
    && forall i :: 0 <= i < |conds| ==>
         && 0 <= conds[i].col < |r.v| && 1 <= conds[i].p <= |args|
         && r.v[conds[i].col] == args[conds[i].p - 1]
  }

  function DeleteWhere(conds: seq<Cond>, args: seq<string>, rows: seq<RuleRow>): Result<seq<RuleRow>, string> {
    if Accepted(conds, args) then Ok(Filter(rows, r => !Selected(conds, args, r))) else Err("bad query")
  }

  /** Every non-empty value is found at its shifted column. */
  predicate AgreesFrom(r: RuleRow, fieldIndex: int, values: seq<string>) {
    forall i :: 0 <= i < |values| && values[i] != "" ==>
      0 <= fieldIndex + i < |r.v| && r.v[fieldIndex + i] == values[i]
  }

  predicate ColumnsExist(fieldIndex: int, values: seq<string>) {
    forall i :: 0 <= i < |values| && values[i] != "" ==> 0 <= fieldIndex + i < COLUMNS
  }

  predicate WellFormed(rows: seq<RuleRow>) {
    forall r :: r in rows ==> |r.v| == COLUMNS
  }

  /** The policies are exactly those the rows load as. */
  ghost predicate LoadsAs(accepts: Policy -> bool, rows: seq<RuleRow>, model: seq<Policy>) {
    forall p :: p in model <==> exists r :: r in rows && LoadRow(accepts, r) == Loaded(p)
  }

  /** An answer LoadPolicy may give for these rows. */
  ghost predicate Answer(accepts: Policy -> bool, rows: seq<RuleRow>, loaded: Option<seq<Policy>>) {
    match loaded
    case None => exists r :: r in rows && LoadRow(accepts, r).Refused?
    case Some(model) => LoadsAs(accepts, rows, model) && forall r :: r in rows ==> !LoadRow(accepts, r).Refused?
  }

  /** The rows are exactly the stored rules of the model. */
  ghost predicate Saved(m: Model, rows: seq<RuleRow>) {
    forall r :: r in rows <==> exists p :: InModel(m, p) && r == Store(p)
  }

  class Adapter {
    var rows: seq<RuleRow>

    constructor ()
      ensures rows == []
    {
      rows := [];
    }

    ghost predicate Valid()
      reads this
    {
      WellFormed(rows)
    }

    /** Pads one section's rules and inserts them inside the transaction. */
    method InsertSection(section: map<string, seq<Rule>>, before: seq<RuleRow>)
      returns (tx: Result<seq<RuleRow>, string>)
      requires WellFormed(before)
      ensures tx.Ok? <==> SectionFits(section)
      ensures tx.Ok? ==> WellFormed(tx.value) && forall r :: r in tx.value <==>
        r in before || exists p :: InSection(section, p) && r == Store(p)
    {
      var table := before;
      var todo := section.Keys;
      while todo != {}
        invariant todo <= section.Keys && WellFormed(table)
        invariant forall k :: k in section && k !in todo ==> Fits(section[k])
        invariant forall r :: r in table <==>
          r in before || exists p :: InSection(section, p) && p.ptype !in todo && r == Store(p)
        decreases todo
      {
        var ptype :| ptype in todo;
        var rules := section[ptype];
        ghost var start := table;
        var i := 0;
        while i < |rules|
          invariant 0 <= i <= |rules| && WellFormed(table)
          invariant Fits(rules[..i])
          invariant forall r :: r in table <==>
            r in start || exists k :: 0 <= k < i && r == Store(Policy(ptype, rules[k]))
        {
          var ruleParts := rules[i];
          while |ruleParts| < COLUMNS
            invariant Pad(ruleParts) == Pad(rules[i])
            invariant |ruleParts| <= COLUMNS || ruleParts == rules[i]
            decreases COLUMNS - |ruleParts|
          {
            ruleParts := ruleParts + [""];
          }
          var values := [ptype] + ruleParts;
          var inserted := InsertRule(table, values);
          if inserted.Err? {
            assert !Fits(section[ptype]);
            return Err(inserted.error);
          }
          assert values[1..] == Pad(rules[i]);
          table := inserted.value;
          i := i + 1;
        }
        assert rules[..i] == rules;
        var rest := todo - {ptype};
        forall r
          ensures r in table <==> r in before || exists p :: InSection(section, p) && p.ptype !in rest && r == Store(p)
        {
          SectionStep(section, ptype, todo, r);
        }
        todo := rest;
      }
      tx := Ok(table);
    }

    /** Replaces the whole table by the model, in one transaction: a rule that does not fit leaves
        the table as it was. */
    method SavePolicy(m: Model) returns (ok: bool)
      requires Valid()
      modifies this
      ensures Valid()
      ensures ok <==> SectionFits(m.p) && SectionFits(m.g)
      ensures !ok ==> rows == old(rows)
      ensures ok ==> Saved(m, rows)
    {
      var p := InsertSection(m.p, []);
      if p.Err? { return false; }
      var g := InsertSection(m.g, p.value);
      if g.Err? { return false; }
      rows := g.value;
      ok := true;
      forall r ensures r in rows <==> exists q :: InModel(m, q) && r == Store(q) {
        if q :| InSection(m.p, q) && r == Store(q) { assert InModel(m, q); }
        if q :| InSection(m.g, q) && r == Store(q) { assert InModel(m, q); }
      }
    }

    /** The policies a fresh model holds after loading, line by line; a line already present is not
        added again, and one that is refused ends the load. */
    method LoadPolicy(accepts: Policy -> bool) returns (loaded: Option<seq<Policy>>)
      ensures Answer(accepts, rows, loaded)
      ensures loaded.Some? ==> forall i, j :: 0 <= i < j < |loaded.value| ==> loaded.value[i] != loaded.value[j]
    {
      hide LoadRow;
      var model: seq<Policy> := [];
      var i := 0;
      while i < |rows|
        invariant 0 <= i <= |rows|
        invariant forall r :: r in rows[..i] ==> !LoadRow(accepts, r).Refused?
        invariant LoadsAs(accepts, rows[..i], model)
        invariant forall i, j :: 0 <= i < j < |model| ==> model[i] != model[j]
      {
        var line := LoadRow(accepts, rows[i]);
        assert rows[..i + 1] == rows[..i] + [rows[i]];
        if line.Refused? { return None; }
        if line.Loaded? && line.policy !in model {
          model := model + [line.policy];
        }
        i := i + 1;
      }
      assert rows[..i] == rows;
      loaded := Some(model);
    }

    /** Runs a delete query; one the database refuses changes nothing. */
    method Exec(conds: seq<Cond>, args: seq<string>) returns (ok: bool)
      requires Valid()
      modifies this
      ensures Valid()
      ensures ok <==> Accepted(conds, args)
      ensures rows == if ok then Filter(old(rows), r => !Selected(conds, args, r)) else old(rows)
    {
      var result := DeleteWhere(conds, args, rows);
      ok := result.Ok?;
      if ok {
        rows := result.value;
      }
    }

    /** Deletes exactly the rows of the type whose values start with the given rule. */
    method RemovePolicy(ptype: string, rule: Rule) returns (ok: bool)
      requires Valid()
      modifies this
      ensures Valid()
      ensures ok <==> |rule| <= COLUMNS
      ensures rows == if ok then Filter(old(rows), (r: RuleRow) => !(r.ptype == ptype && rule <= r.v)) else old(rows)
    {
      var conds: seq<Cond> := [];
      var args := [ptype];
      for i := 0 to |rule|
        invariant |conds| == i && args == [ptype] + rule[..i]
        invariant forall k :: 0 <= k < i ==> conds[k] == Cond(k, k + 2)
      {
        conds := conds + [Cond(i, i + 2)];
        args := args + [rule[i]];
      }
      assert |rule| > COLUMNS ==> conds[COLUMNS].col == COLUMNS;
      forall r | r in rows ensures Selected(conds, args, r) <==> r.ptype == ptype && rule <= r.v {
        PrefixSelected(conds, args, ptype, rule, r);
      }
      FilterCongruence(rows, r => !Selected(conds, args, r), (r: RuleRow) => !(r.ptype == ptype && rule <= r.v));
      ok := Exec(conds, args);
    }

    /** Deletes exactly the rows of the type that agree with every non-empty value at its column. */
    method RemoveFilteredPolicy(ptype: string, fieldIndex: int, fieldValues: seq<string>) returns (ok: bool)
      requires Valid()
      modifies this
      ensures Valid()
      ensures ok <==> ColumnsExist(fieldIndex, fieldValues)
      ensures rows ==
        if ok then Filter(old(rows), (r: RuleRow) => !(r.ptype == ptype && AgreesFrom(r, fieldIndex, fieldValues)))
        else old(rows)
      ensures ok ==> forall r :: r in rows <==>
        r in old(rows) && (r.ptype != ptype || exists i ::
                             0 <= i < |fieldValues| && fieldValues[i] != ""
                             && !(0 <= fieldIndex + i < 6 && r.v[fieldIndex + i] == fieldValues[i]))
    {
      var conds, args := BuildFilter(ptype, fieldIndex, fieldValues);
      FilterCongruence(rows, r => !Selected(conds, args, r),
                       (r: RuleRow) => !(r.ptype == ptype && AgreesFrom(r, fieldIndex, fieldValues)));
      ok := Exec(conds, args);
    }
  }

  /** The query-growing loop of RemoveFilteredPolicy. */
  method BuildFilter(ptype: string, fieldIndex: int, fieldValues: seq<string>)
    returns (conds: seq<Cond>, args: seq<string>)
    ensures Built(conds, args, ptype, fieldIndex, fieldValues)
  {
    conds := [];
    args := [ptype];
    var i := 0;
    while i < |fieldValues|
      invariant 0 <= i <= |fieldValues|
      invariant Built(conds, args, ptype, fieldIndex, fieldValues[..i])
    {
      var v := fieldValues[i];
      BuiltStep(conds, args, ptype, fieldIndex, fieldValues, i);
      if v != "" {
        conds := conds + [Cond(fieldIndex + i, |args| + 1)];
        args := args + [v];
      }
      i := i + 1;
    }
    assert fieldValues[..i] == fieldValues;
  }

  /** The query built from a prefix of the values: numbered placeholders, real columns exactly when
      they exist, and selecting exactly the rows that agree with the prefix. */
  ghost predicate Built(conds: seq<Cond>, args: seq<string>, ptype: string, fieldIndex: int, prefix: seq<string>) {
    && |args| == |conds| + 1 && args[0] == ptype
    && (forall k :: 0 <= k < |conds| ==> conds[k].p == k + 2)
    && (InTable(conds) <==> ColumnsExist(fieldIndex, prefix))
    && (forall r :: Selected(conds, args, r) <==> r.ptype == ptype && AgreesFrom(r, fieldIndex, prefix))
  }

  lemma BuiltStep(conds: seq<Cond>, args: seq<string>, ptype: string, fieldIndex: int, values: seq<string>, i: nat)
    requires i < |values| && Built(conds, args, ptype, fieldIndex, values[..i])
    ensures if values[i] == "" then Built(conds, args, ptype, fieldIndex, values[..i + 1])
            else Built(conds + [Cond(fieldIndex + i, |args| + 1)], args + [values[i]], ptype, fieldIndex,
              values[..i + 1])
  {
    AgreesStep(fieldIndex, values, i);
    if values[i] != "" {
      var c := Cond(fieldIndex + i, |args| + 1);
      SelectedStep(conds, args, c, values[i]);
      InTableStep(conds, c);
    }
  }

  lemma SectionStep(section: map<string, seq<Rule>>, ptype: string, todo: set<string>, r: RuleRow)
    requires ptype in section && ptype in todo
    ensures (exists p :: InSection(section, p) && p.ptype !in todo - {ptype} && r == Store(p)) <==>
      ((exists p :: InSection(section, p) && p.ptype !in todo && r == Store(p))
       || (exists k :: 0 <= k < |section[ptype]| && r == Store(Policy(ptype, section[ptype][k]))))
  {
    if k :| 0 <= k < |section[ptype]| && r == Store(Policy(ptype, section[ptype][k])) {
      assert InSection(section, Policy(ptype, section[ptype][k]));
    }
    if p :| InSection(section, p) && p.ptype == ptype && r == Store(p) {
      var k :| 0 <= k < |section[ptype]| && section[ptype][k] == p.rule;
      assert p == Policy(ptype, section[ptype][k]);
    }
  }

  lemma PrefixSelected(conds: seq<Cond>, args: seq<string>, ptype: string, rule: Rule, r: RuleRow)
    requires |conds| == |rule| && args == [ptype] + rule
    requires forall k :: 0 <= k < |rule| ==> conds[k] == Cond(k, k + 2)
    ensures Selected(conds, args, r) <==> r.ptype == ptype && rule <= r.v
  {
    var each := |rule| <= |r.v| && forall k :: 0 <= k < |rule| ==> r.v[k] == rule[k];
    assert each <==> rule <= r.v;
    assert forall k :: 0 <= k < |conds| ==> conds[k].col == k && args[conds[k].p - 1] == rule[k];
    if Selected(conds, args, r) {
      assert rule != [] ==> conds[|rule| - 1].col < |r.v|;
      assert forall k :: 0 <= k < |rule| ==> conds[k] == Cond(k, k + 2) && r.v[k] == rule[k];
    }
  }

  lemma SelectedStep(conds: seq<Cond>, args: seq<string>, c: Cond, v: string)
    requires |args| == |conds| + 1 && c.p == |args| + 1
    requires forall k :: 0 <= k < |conds| ==> conds[k].p == k + 2
    ensures forall r :: Selected(conds + [c], args + [v], r) <==>
      Selected(conds, args, r) && 0 <= c.col < |r.v| && r.v[c.col] == v
  {
    var conds2, args2 := conds + [c], args + [v];
    forall r ensures Selected(conds2, args2, r) <==> Selected(conds, args, r) && 0 <= c.col < |r.v| && r.v[c.col] == v {
      assert conds2[|conds|] == c && args2[c.p - 1] == v;
      assert forall k :: 0 <= k < |conds| ==> conds2[k] == conds[k] && args2[conds[k].p - 1] == args[conds[k].p - 1];
    }
  }

  lemma AgreesStep(fieldIndex: int, values: seq<string>, i: nat)
    requires i < |values|
    ensures ColumnsExist(fieldIndex, values[..i + 1]) <==>
      ColumnsExist(fieldIndex, values[..i]) && (values[i] != "" ==> 0 <= fieldIndex + i < COLUMNS)
    ensures forall r :: AgreesFrom(r, fieldIndex, values[..i + 1]) <==>
      AgreesFrom(r, fieldIndex, values[..i])
      && (values[i] != "" ==> 0 <= fieldIndex + i < |r.v| && r.v[fieldIndex + i] == values[i])
  {
    var shorter, longer := values[..i], values[..i + 1];
    assert longer == shorter + [values[i]];
    ColumnsAppend(fieldIndex, shorter, values[i]);
    forall r ensures AgreesFrom(r, fieldIndex, longer) <==>
      AgreesFrom(r, fieldIndex, shorter)
      && (values[i] != "" ==> 0 <= fieldIndex + i < |r.v| && r.v[fieldIndex + i] == values[i])
    {
      AgreesAppend(r, fieldIndex, shorter, values[i]);
    }
  }

  lemma ColumnsAppend(fieldIndex: int, values: seq<string>, x: string)
    ensures ColumnsExist(fieldIndex, values + [x]) <==>
      ColumnsExist(fieldIndex, values) && (x != "" ==> 0 <= fieldIndex + |values| < COLUMNS)
  {
    var all := values + [x];
    assert all[|values|] == x && forall k :: 0 <= k < |values| ==> all[k] == values[k];
  }

  lemma AgreesAppend(r: RuleRow, fieldIndex: int, values: seq<string>, x: string)
    ensures AgreesFrom(r, fieldIndex, values + [x]) <==>
      AgreesFrom(r, fieldIndex, values)
      && (x != "" ==> 0 <= fieldIndex + |values| < |r.v| && r.v[fieldIndex + |values|] == x)
  {
    var all := values + [x];
    assert all[|values|] == x && forall k :: 0 <= k < |values| ==> all[k] == values[k];
  }

  ghost predicate Declared(accepts: Policy -> bool, m: Model) {
    forall p :: InModel(m, p) ==> PolicyType(p.ptype) && accepts(p)
  }

  ghost predicate CameBack(m: Model, loaded: Option<seq<Policy>>) {
    loaded.Some? && forall p :: p in loaded.value <==> InModel(m, p)
  }

  /** Save, then load.  For a model of rules its own declarations accept, rows is any table SavePolicy
      may have written and loaded any answer LoadPolicy may give for it: the model comes back, rule for
      rule, exactly when every rule is storable. */
  lemma SaveLoadRoundTrip(accepts: Policy -> bool, m: Model, rows: seq<RuleRow>, loaded: Option<seq<Policy>>)
    requires Declared(accepts, m) && Saved(m, rows) && Answer(accepts, rows, loaded)
    ensures CameBack(m, loaded) <==> forall p :: InModel(m, p) ==> Storable(p.rule)
  {
    if forall p :: InModel(m, p) ==> Storable(p.rule) {
      StorableModelComesBack(accepts, m, rows, loaded);
    }
    if CameBack(m, loaded) {
      OnlyStorableModelsComeBack(accepts, m, rows, loaded);
    }
  }

  lemma OnlyStorableModelsComeBack(accepts: Policy -> bool, m: Model, rows: seq<RuleRow>, loaded: Option<seq<Policy>>)
    requires Declared(accepts, m) && Saved(m, rows) && Answer(accepts, rows, loaded) && CameBack(m, loaded)
    ensures forall p :: InModel(m, p) ==> Storable(p.rule)
  {
    hide LoadRow;
    hide Storable;
    hide PolicyType;
    hide InModel;
    hide Store;
    var all := set p | p in loaded.value;
    forall p | p in all ensures exists q :: q in all && LoadRow(accepts, Store(q)) == Loaded(p) {
      var r :| r in rows && LoadRow(accepts, r) == Loaded(p);
      var q :| InModel(m, q) && r == Store(q);
      assert q in all;
    }
    NoCircles(accepts, all);
    forall p | InModel(m, p) ensures Storable(p.rule) {
      assert p in all;
    }
  }

  lemma StorableModelComesBack(accepts: Policy -> bool, m: Model, rows: seq<RuleRow>, loaded: Option<seq<Policy>>)
    requires Declared(accepts, m) && Saved(m, rows) && Answer(accepts, rows, loaded)
    requires forall p :: InModel(m, p) ==> Storable(p.rule)
    ensures CameBack(m, loaded)
  {
    forall p | InModel(m, p) ensures LoadRow(accepts, Store(p)) == Loaded(p) {
      StorableComesBack(accepts, p);
    }
    hide LoadRow;
    hide Storable;
    hide PolicyType;
    hide InModel;
    hide Store;
    forall r | r in rows ensures !LoadRow(accepts, r).Refused? {
      var p :| InModel(m, p) && r == Store(p);
    }
    forall p ensures p in loaded.value <==> InModel(m, p) {
      if InModel(m, p) { assert Store(p) in rows; }
    }
  }

  /** A rule that is not storable is lost even when it is all there is. */
  lemma UnstorableRuleIsLost(accepts: Policy -> bool, m: Model, p: Policy, rows: seq<RuleRow>,
                             loaded: Option<seq<Policy>>)
    requires Declared(accepts, m) && Saved(m, rows) && Answer(accepts, rows, loaded)
    requires (forall q :: InModel(m, q) <==> q == p) && !Storable(p.rule)
    ensures loaded.None? || p !in loaded.value
  {
    ComesBackIffStorable(accepts, p);
    hide LoadRow;
    hide Storable;
    forall r | r in rows ensures LoadRow(accepts, r) != Loaded(p) {
      var q :| InModel(m, q) && r == Store(q);
    }
  }
}
