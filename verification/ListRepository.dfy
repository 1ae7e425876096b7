/** The listing queries of the todo, role, permission, tenant and user repositories, with the
    WHERE clause they grow condition by condition and placeholder by placeholder.  Walks over a
    table that other requests change between the pages are in ListWalks.dfy. */
module ListRepository {
  import opened Prelude
  import opened LikePattern
  import opened Keyset

  // ---- statements ----

  datatype Arg = TextArg(text: string) | TimeArg(at: int) | IdArg(id: nat) | CountArg(count: nat)

  /** One conjunct of the WHERE clause; the numbers are placeholders, counted from 1.  A pattern is
      matched under the database's case folding. */
  datatype Cond =
    | NotDeleted
    | TitleOrDescriptionILike(p: nat, fold: char -> char)
    | TenantIs(p: nat)
    | KeyBelow(p: nat, q: nat)

  function Used(conds: seq<Cond>): set<nat> {
    if conds == [] then {}
    else Used(conds[..|conds| - 1]) + match conds[|conds| - 1]
      case NotDeleted => {}
      case TitleOrDescriptionILike(p, _) => {p}
      case TenantIs(p) => {p}
      case KeyBelow(p, q) => {p, q}
  }

  predicate Typed(c: Cond, args: seq<Arg>) {
    match c
    case NotDeleted => true
    case TitleOrDescriptionILike(p, _) => 1 <= p <= |args| && args[p - 1].TextArg?
    case TenantIs(p) => 1 <= p <= |args| && args[p - 1].TextArg?
    case KeyBelow(p, q) => 1 <= p <= |args| && args[p - 1].TimeArg? && 1 <= q <= |args| && args[q - 1].IdArg?
  }

  predicate AllTyped(conds: seq<Cond>, args: seq<Arg>) {
    forall i :: 0 <= i < |conds| ==> Typed(conds[i], args)
  }

  predicate Holds(c: Cond, args: seq<Arg>, r: Row)
    requires Typed(c, args)
  {
    match c
    case NotDeleted => !r.deleted
    case TitleOrDescriptionILike(p, fold) =>
      ILike(fold, args[p - 1].text, r.title) || ILike(fold, args[p - 1].text, r.description)
    case TenantIs(p) => r.tenant == args[p - 1].text
    case KeyBelow(p, q) => Below(KeyOf(r), Key(args[p - 1].at, args[q - 1].id))
  }

  predicate AllHold(conds: seq<Cond>, args: seq<Arg>, r: Row)
    requires AllTyped(conds, args)
  {
    forall i :: 0 <= i < |conds| ==> Holds(conds[i], args, r)
  }

  /** The database answers a statement only when every placeholder has an argument of its kind
      and every argument a placeholder. */
  predicate Accepted(conds: seq<Cond>, limitAt: nat, args: seq<Arg>) {
    && AllTyped(conds, args)
    && 1 <= limitAt <= |args| && args[limitAt - 1].CountArg?
    && Used(conds) + {limitAt} == Positions(|args|)
  }

  /** The placeholder numbers 1 to n. */
  function Positions(n: nat): (s: set<nat>)
    ensures forall k :: k in s <==> 1 <= k <= n
  {
    if n == 0 then {} else Positions(n - 1) + {n}
  }

  function Select(conds: seq<Cond>, args: seq<Arg>, rows: seq<Row>): seq<Row>
    requires AllTyped(conds, args)
  {
    SortDescending(Filter(rows, r => AllHold(conds, args, r)))
  }

  function Execute(conds: seq<Cond>, limitAt: nat, args: seq<Arg>, rows: seq<Row>): Result<seq<Row>, string> {
    if !Accepted(conds, limitAt, args) then Err("bind error")
    else
      var found := Select(conds, args, rows);
      var limit := args[limitAt - 1].count;
      Ok(if |found| > limit then found[..limit] else found)
  }

  /** Adding a condition over new arguments leaves what the old ones say alone. */
  lemma AddCond(conds: seq<Cond>, args: seq<Arg>, c: Cond, more: seq<Arg>)
    requires AllTyped(conds, args) && Typed(c, args + more)
    ensures AllTyped(conds + [c], args + more)
    ensures Used(conds + [c]) == Used(conds) + Used([c])
    ensures forall r :: AllHold(conds + [c], args + more, r) <==> AllHold(conds, args, r) && Holds(c, args + more, r)
  {
    var both := conds + [c];
    assert both[..|conds|] == conds && [c][..0] == [];
    forall i | 0 <= i < |conds|
      ensures Typed(conds[i], args + more) && forall r :: Holds(conds[i], args + more, r) <==> Holds(conds[i], args, r)
    {
      assert Typed(conds[i], args);
    }
    forall r ensures AllHold(both, args + more, r) <==> AllHold(conds, args, r) && Holds(c, args + more, r) {
      assert forall i :: 0 <= i < |conds| ==> both[i] == conds[i];
      assert both[|conds|] == c;
    }
  }

  lemma AddLimit(conds: seq<Cond>, args: seq<Arg>, limit: nat)
    requires AllTyped(conds, args)
    requires Used(conds) == Positions(|args|)
    ensures Accepted(conds, |args| + 1, args + [CountArg(limit)])
    ensures forall r :: AllHold(conds, args + [CountArg(limit)], r) <==> AllHold(conds, args, r)
  {
    var all := args + [CountArg(limit)];
    forall i | 0 <= i < |conds|
      ensures Typed(conds[i], all) && forall r :: Holds(conds[i], all, r) <==> Holds(conds[i], args, r)
    {
      assert Typed(conds[i], args);
    }
  }

  // ---- page tokens ----

  /** Cursor text: an encoded key, or any other text, which does not decode. */
  datatype CursorText = Encoded(key: Key) | OtherText(text: string)

  function Decode(t: CursorText): Result<Key, string> {
    match t case Encoded(k) => Ok(k) case OtherText(_) => Err("invalid cursor")
  }

  datatype TokenPage = TokenPage(items: seq<Row>, next: Option<CursorText>, prev: Option<CursorText>, hasNext: bool,
    hasPrev: bool)

  function Encode(k: Option<Key>): Option<CursorText> {
    if k.None? then None else Some(Encoded(k.value))
  }

  function Render(p: Page): TokenPage {
    TokenPage(p.items, Encode(p.next), Encode(p.prev), p.hasNext, p.hasPrev)
  }

  /** The page a request gets: an error for a cursor that does not decode, else the page of the
      rows in scope under the cursor. */
  function Listing(rows: seq<Row>, scope: Scope, cursor: Option<CursorText>, limit: nat): Result<TokenPage, string> {
    if cursor.None? then Ok(Render(PageAt(rows, scope, None, limit)))
    else match Decode(cursor.value)
      case Err(e) => Err(e)
      case Ok(k) => Ok(Render(PageAt(rows, scope, Some(k), limit)))
  }

  /** a comes before b in a listing. */
  predicate Newer(a: Row, b: Row) {
    b.createdAt < a.createdAt || (b.createdAt == a.createdAt && b.id < a.id)
  }

  /** A row past a cursor; without a cursor every row is. */
  predicate Past(cursor: Option<CursorText>, r: Row) {
    cursor.Some? ==>
      && cursor.value.Encoded?
      && (r.createdAt < cursor.value.key.at || (r.createdAt == cursor.value.key.at && r.id < cursor.value.key.id))
  }

  function TokenOf(r: Row): CursorText { Encoded(Key(r.createdAt, r.id)) }

  /** The page of the wanted rows past the cursor: the newest of them, newest first, as many as the limit
      allows; the next token is that of its last row, the previous one that of its first, and there is a
      next page exactly when wanted rows are left over. */
  ghost predicate ExactPage(rows: seq<Row>, wanted: Row -> bool, cursor: Option<CursorText>, limit: nat, p: TokenPage) {
    && (forall i, j :: 0 <= i < j < |p.items| ==> Newer(p.items[i], p.items[j]))
    && (forall r :: r in p.items ==> r in rows && wanted(r) && Past(cursor, r))
    && (forall r, x :: r in rows && wanted(r) && Past(cursor, r) && r !in p.items && x in p.items ==> Newer(x, r))
    && (p.hasNext <==> exists r :: r in rows && wanted(r) && Past(cursor, r) && r !in p.items)
    && (if p.hasNext then |p.items| == limit else |p.items| <= limit)
    && p.next == (if p.items == [] then None else Some(TokenOf(p.items[|p.items| - 1])))
    && p.prev == (if p.items == [] then None else Some(TokenOf(p.items[0])))
    && (p.hasPrev <==> cursor.Some? && p.items != [])
  }

  /** The answer to a listing request: an error exactly for a cursor that does not decode. */
  ghost predicate ExactAnswer(rows: seq<Row>, wanted: Row -> bool, cursor: Option<CursorText>, limit: nat,
                              answer: Result<TokenPage, string>) {
    && (answer.Err? <==> cursor.Some? && cursor.value.OtherText?)
    && (answer.Ok? ==> ExactPage(rows, wanted, cursor, limit, answer.value))
  }

  lemma CutIsExact(rows: seq<Row>, wanted: Row -> bool, cursor: Option<CursorText>, limit: nat, all: seq<Row>)
    requires Descending(all) && (cursor.Some? ==> cursor.value.Encoded?)
    requires forall r :: r in all <==> r in rows && wanted(r) && Past(cursor, r)
    ensures ExactPage(rows, wanted, cursor, limit, Render(PageOf(all, cursor.Some?, limit)))
  {
    var p := Render(PageOf(all, cursor.Some?, limit));
    forall r | r in all && r !in p.items ensures forall x :: x in p.items ==> Newer(x, r) {
      var i :| 0 <= i < |all| && all[i] == r;
      forall x | x in p.items ensures Newer(x, r) {
        var j :| 0 <= j < |p.items| && p.items[j] == x;
      }
    }
    if |all| > limit {
      assert all[limit] in all && all[limit] !in p.items;
    }
  }

  /** Every listing answers with the exact page of what its scope shows. */
  lemma ListingIsExact(rows: seq<Row>, scope: Scope, cursor: Option<CursorText>, limit: nat)
    requires UniqueIds(rows)
    ensures ExactAnswer(rows, r => Visible(scope, r), cursor, limit, Listing(rows, scope, cursor, limit))
  {
    if cursor.None? {
      RemainingFacts(rows, scope, None);
      CutIsExact(rows, r => Visible(scope, r), cursor, limit, Remaining(rows, scope, None));
    } else if cursor.value.Encoded? {
      RemainingFacts(rows, scope, Some(cursor.value.key));
      CutIsExact(rows, r => Visible(scope, r), cursor, limit, Remaining(rows, scope, Some(cursor.value.key)));
    }
  }

  lemma SameWanted(rows: seq<Row>, f: Row -> bool, g: Row -> bool, cursor: Option<CursorText>, limit: nat,
                   answer: Result<TokenPage, string>)
    requires forall r :: f(r) <==> g(r)
    requires ExactAnswer(rows, f, cursor, limit, answer)
    ensures ExactAnswer(rows, g, cursor, limit, answer)
  {
  }

  /** What a request asks for: rows that are not soft-deleted, of its tenant if tenants are enabled and it
      has one, and with the query's pattern in title or description if it searches. */
  predicate Asked(softDelete: bool, tenantEnabled: bool, tenantId: string, search: Option<Query>, r: Row) {
    && !(softDelete && r.deleted)
    && (tenantEnabled && tenantId != "" ==> r.tenant == tenantId)
    && (search.Some? ==>
         || ILike(search.value.fold, "%" + Escape(search.value.text) + "%", r.title)
         || ILike(search.value.fold, "%" + Escape(search.value.text) + "%", r.description))
  }

  // ---- changes to the table ----

  datatype Op =
    | Insert(row: Row)
    | Edit(id: nat, title: string, description: string)
    | Remove(id: nat)

  predicate HasId(rows: seq<Row>, id: nat) {
    exists i :: 0 <= i < |rows| && rows[i].id == id
  }

  function MapRows(rows: seq<Row>, f: Row -> Row): (r: seq<Row>)
    ensures |r| == |rows| && forall i :: 0 <= i < |rows| ==> r[i] == f(rows[i])
  {
    seq(|rows|, i requires 0 <= i < |rows| => f(rows[i]))
  }

  /** The table after one change; a change the database refuses leaves it as it is. */
  function Apply(op: Op, softDelete: bool, rows: seq<Row>): seq<Row> {
    match op
    case Insert(row) => if HasId(rows, row.id) then rows else rows + [row.(deleted := false)]
    case Edit(id, title, description) =>
      MapRows(rows, (r: Row) =>
        if r.id == id && !(softDelete && r.deleted) then r.(title := title, description := description) else r)
    case Remove(id) =>
      if softDelete then MapRows(rows, (r: Row) => if r.id == id then r.(deleted := true) else r)
      else Filter(rows, (r: Row) => r.id != id)
  }

  function ApplyAll(ops: seq<Op>, softDelete: bool, rows: seq<Row>): seq<Row> {
    if ops == [] then rows else ApplyAll(ops[1..], softDelete, Apply(ops[0], softDelete, rows))
  }

  /** What a search starts from. */
  lemma SearchConds(query: Query)
    ensures var conds := [NotDeleted, TitleOrDescriptionILike(1, query.fold)];
      var args := [TextArg("%" + Escape(query.text) + "%")];
      && AllTyped(conds, args) && Used(conds) == Positions(1)
      && forall r :: AllHold(conds, args, r) <==> Visible(Scope(true, None, Some(query)), r)
  {
    var conds, args := [NotDeleted, TitleOrDescriptionILike(1, query.fold)], [TextArg("%" + Escape(query.text) + "%")];
    assert conds[..1] == [NotDeleted] && [NotDeleted][..0] == [];
    assert Positions(0) == {} && Positions(1) == {1};
    assert AllTyped(conds, args);
    forall r ensures AllHold(conds, args, r) <==> Visible(Scope(true, None, Some(query)), r) {
      assert AllHold(conds, args, r) <==> Holds(conds[0], args, r) && Holds(conds[1], args, r);
    }
  }

  /** A statement that holds of the rows in scope under the cursor selects the remaining rows. */
  lemma SelectsRemaining(rows: seq<Row>, conds: seq<Cond>, args: seq<Arg>, scope: Scope, key: Option<Key>)
    requires AllTyped(conds, args)
    requires forall r :: AllHold(conds, args, r) <==> Visible(scope, r) && Under(key, r)
    ensures Select(conds, args, rows) == Remaining(rows, scope, key)
  {
    FilterCongruence(rows, r => AllHold(conds, args, r), r => Visible(scope, r) && Under(key, r));
  }

  /** A tenant condition is the tenant part of the scope. */
  lemma AddTenant(conds: seq<Cond>, args: seq<Arg>, scope: Scope, tenantId: string)
    requires AllTyped(conds, args) && Used(conds) == Positions(|args|) && scope.tenant.None?
    requires forall r :: AllHold(conds, args, r) <==> Visible(scope, r)
    ensures var more, args2 := conds + [TenantIs(|args| + 1)], args + [TextArg(tenantId)];
      && AllTyped(more, args2) && Used(more) == Positions(|args2|)
      && forall r :: AllHold(more, args2, r) <==> Visible(scope.(tenant := Some(tenantId)), r)
  {
    AddCond(conds, args, TenantIs(|args| + 1), [TextArg(tenantId)]);
    assert [TenantIs(|args| + 1)][..0] == [];
  }

  // ---- the repository ----

  class Repository {
    const softDelete: bool
    const tenantEnabled: bool
    const fold: char -> char    // the case folding of the database
    var rows: seq<Row>

    constructor (softDelete: bool, tenantEnabled: bool, fold: char -> char)
      ensures this.softDelete == softDelete && this.tenantEnabled == tenantEnabled && this.fold == fold && rows == []
    {
      this.fold := fold;
      this.softDelete := softDelete;
      this.tenantEnabled := tenantEnabled;
      rows := [];
    }

    function ScopeFor(tenantId: string, search: Option<Query>): Scope {
      Scope(softDelete, if tenantEnabled && tenantId != "" then Some(tenantId) else None, search)
    }

    /** The scope of a request shows what the request asks for. */
    lemma AnswerAsked(tenantId: string, search: Option<Query>, cursor: Option<CursorText>, limit: nat)
      ensures UniqueIds(rows) ==>
        ExactAnswer(rows, r => Asked(softDelete, tenantEnabled, tenantId, search, r), cursor, limit,
                    Listing(rows, ScopeFor(tenantId, search), cursor, limit))
    {
      if UniqueIds(rows) {
        var scope := ScopeFor(tenantId, search);
        ListingIsExact(rows, scope, cursor, limit);
        forall r ensures Visible(scope, r) <==> Asked(softDelete, tenantEnabled, tenantId, search, r) {
        }
        SameWanted(rows, r => Visible(scope, r), r => Asked(softDelete, tenantEnabled, tenantId, search, r), cursor,
          limit, Listing(rows, scope, cursor, limit));
      }
    }

    method Create(id: nat, createdAt: int, title: string, description: string) returns (ok: bool)
      modifies this
      ensures rows == old(rows) + if ok then [Row(id, createdAt, "", title, description, false)] else []
      ensures rows == Apply(Insert(Row(id, createdAt, "", title, description, false)), softDelete, old(rows))
      ensures ok <==> !HasId(old(rows), id)
    {
      ok := !HasId(rows, id);
      if ok {
        rows := rows + [Row(id, createdAt, "", title, description, false)];
      }
    }

    method Update(id: nat, title: string, description: string) returns (ok: bool)
      modifies this
      ensures rows == Apply(Edit(id, title, description), softDelete, old(rows))
      ensures |rows| == |old(rows)| && forall i :: 0 <= i < |rows| ==>
        var was := old(rows)[i];
        rows[i] == if was.id == id && !(softDelete && was.deleted)
                   then Row(id, was.createdAt, was.tenant, title, description, was.deleted) else was
      ensures ok <==> exists i :: 0 <= i < |old(rows)| && old(rows)[i].id == id && !(softDelete && old(rows)[i].deleted)
    {
      ok := false;
      var before := rows;
      var i := 0;
      while i < |rows|
        invariant 0 <= i <= |rows| == |before|
        invariant forall k :: 0 <= k < i ==> rows[k] == Apply(Edit(id, title, description), softDelete, before)[k]
        invariant forall k :: i <= k < |rows| ==> rows[k] == before[k]
        invariant ok <==> exists k :: 0 <= k < i && before[k].id == id && !(softDelete && before[k].deleted)
      {
        if rows[i].id == id && !(softDelete && rows[i].deleted) {
          rows := rows[i := rows[i].(title := title, description := description)];
          ok := true;
        }
        i := i + 1;
      }
    }

    method Delete(id: nat) returns (ok: bool)
      modifies this
      ensures rows == Apply(Remove(id), softDelete, old(rows))
      ensures softDelete ==> |rows| == |old(rows)| && forall i :: 0 <= i < |rows| ==>
        rows[i] == if old(rows)[i].id == id then old(rows)[i].(deleted := true) else old(rows)[i]
      ensures !softDelete ==> forall r :: r in rows <==> r in old(rows) && r.id != id
      ensures ok <==> exists i :: 0 <= i < |old(rows)| && old(rows)[i].id == id && !(softDelete && old(rows)[i].deleted)
    {
      ok := exists i :: 0 <= i < |rows| && rows[i].id == id && !(softDelete && rows[i].deleted);
      if softDelete {
        var before := rows;
        var i := 0;
        while i < |rows|
          invariant 0 <= i <= |rows| == |before|
          invariant forall k :: 0 <= k < i ==> rows[k] == Apply(Remove(id), true, before)[k]
          invariant forall k :: i <= k < |rows| ==> rows[k] == before[k]
        {
          if rows[i].id == id && !rows[i].deleted {
            rows := rows[i := rows[i].(deleted := true)];
          }
          i := i + 1;
        }
      } else {
        rows := Filter(rows, (r: Row) => r.id != id);
      }
    }

    /** The tail every listing shares: run the statement, copy its rows, truncate, make tokens. */
    method FetchPage(conds: seq<Cond>, limitAt: nat, args: seq<Arg>, cursorArg: Option<CursorText>, limit: nat)
      returns (page: Result<TokenPage, string>)
      requires Accepted(conds, limitAt, args) ==> args[limitAt - 1].count == limit + 1
      ensures page == if Accepted(conds, limitAt, args)
                      then Ok(Render(PageOf(Select(conds, args, rows), cursorArg.Some?, limit))) else Err("bind error")
    {
      var result := Execute(conds, limitAt, args, rows);
      if result.Err? { return Err(result.error); }
      var found := result.value;
      var items: seq<Row> := [];
      var i := 0;
      while i < |found|
        invariant 0 <= i <= |found| && items == found[..i]
      {
        items := items + [found[i]];
        i := i + 1;
      }
      assert items == found;
      var hasNext := |items| > limit;
      if hasNext {
        items := items[..limit];
      }
      ghost var all := Select(conds, args, rows);
      assert hasNext <==> |all| > limit;
      assert items == if |all| > limit then all[..limit] else all;
      var next: Option<CursorText>, prev: Option<CursorText> := None, None;
      if |items| > 0 {
        next := Some(Encoded(KeyOf(items[|items| - 1])));
        prev := Some(Encoded(KeyOf(items[0])));
      }
      var hasPrev := cursorArg.Some?;
      if hasPrev && |items| == 0 {
        hasPrev := false;
      }
      page := Ok(TokenPage(items, next, prev, hasNext, hasPrev));
    }

    /** GetAll of todos, roles and permissions, and List of tenants and users. */
    method GetAll(tenantId: string, cursorArg: Option<CursorText>, limit: nat) returns (page: Result<TokenPage, string>)
      ensures page == Listing(rows, ScopeFor(tenantId, None), cursorArg, limit)
      ensures UniqueIds(rows) ==>
        ExactAnswer(rows, r => Asked(softDelete, tenantEnabled, tenantId, None, r), cursorArg, limit, page)
    {
      AnswerAsked(tenantId, None, cursorArg, limit);
      hide ExactAnswer;
      hide Asked;
      hide UniqueIds;
      var scope := ScopeFor(tenantId, None);
      var args: seq<Arg> := [];
      var conds := if softDelete then [NotDeleted] else [];
      assert Used(conds) == Positions(0) by { assert conds[..0] == []; }
      assert forall r :: AllHold(conds, args, r) <==> Visible(Scope(softDelete, None, None), r);
      hide AllHold;
      hide AllTyped;
      hide Used;
      hide Listing;

      if tenantEnabled {
        if tenantId != "" {
          AddTenant(conds, args, Scope(softDelete, None, None), tenantId);
          conds := conds + [TenantIs(|args| + 1)];
          args := args + [TextArg(tenantId)];
        }
      }

      page := AddCursorAndFetch(conds, args, scope, cursorArg, limit);
    }

    method Search(query: string, tenantId: string, cursorArg: Option<CursorText>, limit: nat)
      returns (page: Result<TokenPage, string>)
      requires softDelete
      ensures page == Listing(rows, ScopeFor(tenantId, Some(Query(query, fold))), cursorArg, limit)
      ensures UniqueIds(rows) ==>
        ExactAnswer(rows, r => Asked(true, tenantEnabled, tenantId, Some(Query(query, fold)), r), cursorArg, limit,
                    page)
    {
      AnswerAsked(tenantId, Some(Query(query, fold)), cursorArg, limit);
      hide ExactAnswer;
      hide Asked;
      hide UniqueIds;
      var scope := ScopeFor(tenantId, Some(Query(query, fold)));
      var searchPattern := "%" + Escape(query) + "%";
      var args := [TextArg(searchPattern)];
      var conds := [NotDeleted, TitleOrDescriptionILike(1, fold)];
      SearchConds(Query(query, fold));
      hide AllHold;
      hide AllTyped;
      hide Used;
      hide ILike;
      hide Listing;
      hide SearchPattern;
      var nextPos := 2;

      if tenantEnabled {
        if tenantId != "" {
          AddTenant(conds, args, Scope(true, None, Some(Query(query, fold))), tenantId);
          conds := conds + [TenantIs(nextPos)];
          args := args + [TextArg(tenantId)];
          nextPos := nextPos + 1;
        }
      }

      page := AddCursorAndFetch(conds, args, scope, cursorArg, limit);
    }

    method AddCursorAndFetch(conds0: seq<Cond>, args0: seq<Arg>, ghost scope: Scope, cursorArg: Option<CursorText>,
                             limit: nat)
      returns (page: Result<TokenPage, string>)
      requires AllTyped(conds0, args0) && Used(conds0) == Positions(|args0|)
      requires forall r :: AllHold(conds0, args0, r) <==> Visible(scope, r)
      ensures page == Listing(rows, scope, cursorArg, limit)
    {
      var conds, args := conds0, args0;
      var nextPos := |args| + 1;
      ghost var key: Option<Key> := None;
      if cursorArg.Some? {
        var c := Decode(cursorArg.value);
        if c.Err? { return Err(c.error); }
        key := Some(c.value);
        AddCond(conds, args, KeyBelow(nextPos, nextPos + 1), [TimeArg(c.value.at), IdArg(c.value.id)]);
        conds := conds + [KeyBelow(nextPos, nextPos + 1)];
        args := args + [TimeArg(c.value.at), IdArg(c.value.id)];
        assert Used([KeyBelow(nextPos, nextPos + 1)]) == {nextPos, nextPos + 1};
        nextPos := nextPos + 2;
      }
      assert forall r :: AllHold(conds, args, r) <==> Visible(scope, r) && Under(key, r);
      hide Visible;
      hide Under;
      hide AllHold;
      hide AllTyped;
      AddLimit(conds, args, limit + 1);
      args := args + [CountArg(limit + 1)];
      page := FetchPage(conds, nextPos, args, cursorArg, limit);
      SelectsRemaining(rows, conds, args, scope, key);
    }
  }
}
