/** Walks over a soft-deleting table that other requests change between the pages: a client asks for the
    next page with the next token of the page it has. */
module ListWalks {
  import opened Prelude
  import opened LikePattern
  import opened Keyset
  import opened ListRepository

  // ---- following next tokens ----

  /** A client that sends each answer's next token as the cursor of its next request, as long as there is a
      next page.  tables[i] is what the database holds when its i-th request arrives. */
  function Follow(scope: Scope, tables: seq<seq<Row>>, cursor: Option<CursorText>, limit: nat): (pages: seq<TokenPage>)
    ensures |pages| <= |tables|
  {
    if tables == [] then []
    else match Listing(tables[0], scope, cursor, limit)
      case Err(_) => []
      case Ok(p) => [p] + if p.hasNext then Follow(scope, tables[1..], p.next, limit) else []
  }

  function Listed(pages: seq<TokenPage>): seq<Row> {
    if pages == [] then [] else pages[0].items + Listed(pages[1..])
  }

  /** The client got a page without a next one. */
  predicate Ended(pages: seq<TokenPage>) {
    pages != [] && !pages[|pages| - 1].hasNext
  }

  /** The tokens a client follows carry the keys of a keyset walk. */
  lemma {:induction false} FollowsKeys(scope: Scope, tables: seq<seq<Row>>, key: Option<Key>, limit: nat)
    ensures var pages, walk := Follow(scope, tables, Encode(key), limit), Walk(scope, tables, key, limit);
      && |pages| == |walk| && Listed(pages) == Items(walk)
      && forall i :: 0 <= i < |pages| ==> pages[i] == Render(walk[i])
  {
    if tables != [] {
      var p := PageAt(tables[0], scope, key, limit);
      assert Listing(tables[0], scope, Encode(key), limit) == Ok(Render(p));
      if p.hasNext {
        FollowsKeys(scope, tables[1..], p.next, limit);
      } else {
        assert [Render(p)][1..] == [] && [p][1..] == [];
      }
    }
  }

  /** Newest first, so that no row is repeated. */
  predicate NewestFirst(rows: seq<Row>) {
    forall i, j :: 0 <= i < j < |rows| ==> Newer(rows[i], rows[j])
  }

  // ---- walks while the table changes ----

  /** The tables the requests of a walk find: batches[i] is what happens between request i and
      request i + 1. */
  function Tables(rows: seq<Row>, softDelete: bool, batches: seq<seq<Op>>): (tables: seq<seq<Row>>)
    ensures |tables| == |batches| + 1 && tables[0] == rows
    decreases |batches|
  {
    if batches == [] then [rows] else [rows] + Tables(ApplyAll(batches[0], softDelete, rows), softDelete, batches[1..])
  }

  /** rows2 is a later state of a soft-deleting table: rows keep their place, key and tenant, and
      a deleted row stays deleted. */
  predicate Later(rows: seq<Row>, rows2: seq<Row>) {
    && |rows| <= |rows2|
    && forall i :: 0 <= i < |rows| ==>
         && KeyOf(rows2[i]) == KeyOf(rows[i])
         && rows2[i].tenant == rows[i].tenant
         && (rows[i].deleted ==> rows2[i].deleted)
  }

  lemma {:induction false} ChangesAreLater(ops: seq<Op>, rows: seq<Row>)
    requires UniqueIds(rows)
    ensures Later(rows, ApplyAll(ops, true, rows)) && UniqueIds(ApplyAll(ops, true, rows))
  {
    if ops != [] {
      var next := Apply(ops[0], true, rows);
      if ops[0].Insert? {
        forall i, j | 0 <= i < j < |next| ensures next[i].id != next[j].id {
        }
      }
      assert Later(rows, next) && UniqueIds(next);
      ChangesAreLater(ops[1..], next);
    }
  }

  predicate OneHistory(tables: seq<seq<Row>>) {
    && (forall i :: 0 <= i < |tables| ==> UniqueIds(tables[i]))
    && (forall i, j :: 0 <= i <= j < |tables| ==> Later(tables[i], tables[j]))
  }

  lemma {:induction false} TablesAreOneHistory(rows: seq<Row>, batches: seq<seq<Op>>)
    requires UniqueIds(rows)
    ensures OneHistory(Tables(rows, true, batches))
    decreases |batches|
  {
    if batches != [] {
      var next := ApplyAll(batches[0], true, rows);
      ChangesAreLater(batches[0], rows);
      TablesAreOneHistory(next, batches[1..]);
      var ts, rest := Tables(rows, true, batches), Tables(next, true, batches[1..]);
      assert ts == [rows] + rest;
      forall i, j | 0 <= i <= j < |ts| ensures Later(ts[i], ts[j]) {
        if i > 0 {
          assert Later(rest[i - 1], rest[j - 1]);
        } else if j > 0 {
          assert Later(rest[0], rest[j - 1]);
        }
      }
    }
  }

  predicate ListsOnce(items: seq<Row>, id: nat) {
    exists i :: 0 <= i < |items| && items[i].id == id && forall j :: 0 <= j < |items| && items[j].id == id ==> j == i
  }

  /** What a listing or a search of a soft-deleting table shows. */
  function Scoped(tenant: Option<string>, search: Option<Query>): Scope { Scope(true, tenant, search) }

  /** What a client gets that follows a listing or a search of a soft-deleting table from the start. */
  function Walked(rows: seq<Row>, batches: seq<seq<Op>>, scope: Scope, limit: nat): seq<TokenPage> {
    Follow(scope, Tables(rows, true, batches), None, limit)
  }

  /** Whatever the tables do, following next tokens lists rows newest first, each shown by its table. */
  lemma FollowDescends(scope: Scope, tables: seq<seq<Row>>, limit: nat)
    requires forall t :: t in tables ==> UniqueIds(t)
    requires limit > 0
    ensures var items := Listed(Follow(scope, tables, None, limit));
      && NewestFirst(items)
      && forall r :: r in items ==> Visible(scope, r) && FromSome(tables, r)
  {
    FollowsKeys(scope, tables, None, limit);
    WalkDescends(scope, tables, None, limit);
  }

  /** Keyset walk under change.  Whatever inserts, edits and soft deletes happen between the page
      requests of a listing or a search, following the next tokens never lists an id twice, lists
      newest first, and lists only rows that were visible when their page was read. */
  lemma WalkNeverRepeats(rows: seq<Row>, batches: seq<seq<Op>>, scope: Scope, limit: nat)
    requires UniqueIds(rows) && limit > 0
    ensures var items := Listed(Walked(rows, batches, scope, limit));
      && NewestFirst(items)
      && UniqueIds(items)
      && forall r :: r in items ==> Visible(scope, r) && FromSome(Tables(rows, true, batches), r)
  {
    var tables := Tables(rows, true, batches);
    var items := Listed(Walked(rows, batches, scope, limit));
    TablesAreOneHistory(rows, batches);
    FollowDescends(scope, tables, limit);
    forall i, j | 0 <= i < j < |items| ensures items[i].id != items[j].id {
      assert items[i] in items && items[j] in items;
      assert Newer(items[i], items[j]);
      if items[i].id == items[j].id { SameIdSameKey(tables, items[i], items[j]); }
    }
  }

  /** When such a walk reaches a page without a next one, a row that was in scope at every one of its
      requests has been listed exactly once. */
  lemma WalkListsShown(rows: seq<Row>, batches: seq<seq<Op>>, scope: Scope, limit: nat, k: Key)
    requires UniqueIds(rows) && limit > 0
    requires Ended(Walked(rows, batches, scope, limit))
    requires forall i :: 0 <= i < |Walked(rows, batches, scope, limit)| ==>
      Shows(Tables(rows, true, batches)[i], scope, k)
    ensures ListsOnce(Listed(Walked(rows, batches, scope, limit)), k.id)
  {
    TablesAreOneHistory(rows, batches);
    FollowsKeys(scope, Tables(rows, true, batches), None, limit);
    WalkCovers(scope, Tables(rows, true, batches), None, limit, k);
    WalkNeverRepeats(rows, batches, scope, limit);
    OnceIfUnique(Listed(Walked(rows, batches, scope, limit)), k);
  }

  /** For a listing it is enough to look at both ends: a row that was visible at the first request and
      is not deleted by the last one has been listed exactly once. */
  lemma WalkListsSurvivors(rows: seq<Row>, batches: seq<seq<Op>>, tenant: Option<string>, limit: nat, i: nat)
    requires UniqueIds(rows) && limit > 0
    requires Ended(Walked(rows, batches, Scoped(tenant, None), limit))
    requires i < |rows| && Visible(Scoped(tenant, None), rows[i])
    requires var last := Tables(rows, true, batches)[|Walked(rows, batches, Scoped(tenant, None), limit)| - 1];
      i < |last| && !last[i].deleted
    ensures ListsOnce(Listed(Walked(rows, batches, Scoped(tenant, None), limit)), rows[i].id)
  {
    ShownThroughout(rows, batches, tenant, |Walked(rows, batches, Scoped(tenant, None), limit)| - 1, i);
    WalkListsShown(rows, batches, Scoped(tenant, None), limit, KeyOf(rows[i]));
  }

  /** While nothing changes, a client that makes enough requests gets every visible row exactly once, newest
      first, in max(1, ceil(n / limit)) pages, all but the last with a next one. */
  lemma UnchangedWalkIsComplete(rows: seq<Row>, scope: Scope, limit: nat, n: nat)
    requires UniqueIds(rows) && 0 < limit && |rows| < n
    ensures var pages := Follow(scope, Unchanging(rows, n), None, limit); var items := Listed(pages);
      && NewestFirst(items) && UniqueIds(items)
      && (forall r :: r in items <==> r in rows && Visible(scope, r))
      && Ended(pages)
      && |items| <= |pages| * limit && (|pages| > 1 ==> (|pages| - 1) * limit < |items|)
      && (forall i :: 0 <= i < |pages| - 1 ==> pages[i].hasNext && |pages[i].items| == limit)
  {
    var all := Remaining(rows, scope, None);
    RemainingFacts(rows, scope, None);
    FilterKeepsUnique(rows, r => Visible(scope, r) && Under(None, r));
    SortFacts(Filter(rows, r => Visible(scope, r) && Under(None, r)));
    PageCountBound(|all|, limit);
    PageCountIsCeiling(|all|, limit);
    StaticWalkIsComplete(rows, scope, None, limit, n);
    FollowsKeys(scope, Unchanging(rows, n), None, limit);
    SubsetOfUnique(all, rows);
  }

  lemma {:induction false} PageCountBound(n: nat, limit: nat)
    requires limit > 0
    ensures PageCount(n, limit) <= n + 1
  {
    if n > limit { PageCountBound(n - limit, limit); }
  }

  lemma SubsetOfUnique(some: seq<Row>, rows: seq<Row>)
    requires UniqueIds(rows) && Descending(some) && forall r :: r in some ==> r in rows
    ensures UniqueIds(some)
  {
    forall i, j | 0 <= i < j < |some| ensures some[i].id != some[j].id {
      assert some[i] in some && some[j] in some;
      var a :| 0 <= a < |rows| && rows[a] == some[i];
      var b :| 0 <= b < |rows| && rows[b] == some[j];
      assert Below(KeyOf(some[j]), KeyOf(some[i]));
    }
  }

  lemma OnceIfUnique(items: seq<Row>, k: Key)
    requires UniqueIds(items)
    requires exists r :: r in items && KeyOf(r) == k
    ensures ListsOnce(items, k.id)
  {
    var r :| r in items && KeyOf(r) == k;
    var at :| 0 <= at < |items| && items[at] == r;
    assert forall j :: 0 <= j < |items| && j != at ==> items[j].id != items[at].id;
  }

  /** A visible row that is live in the last table is shown by all tables before it. */
  lemma ShownThroughout(rows: seq<Row>, batches: seq<seq<Op>>, tenant: Option<string>, last: nat, i: nat)
    requires UniqueIds(rows) && last < |Tables(rows, true, batches)|
    requires i < |rows| && Visible(Scoped(tenant, None), rows[i])
    requires var t := Tables(rows, true, batches)[last]; i < |t| && !t[i].deleted
    ensures forall k :: 0 <= k <= last ==> Shows(Tables(rows, true, batches)[k], Scoped(tenant, None), KeyOf(rows[i]))
  {
    var tables := Tables(rows, true, batches);
    TablesAreOneHistory(rows, batches);
    SurvivorIsLiveThroughout(rows, batches, last, i);
    forall k | 0 <= k <= last ensures Shows(tables[k], Scoped(tenant, None), KeyOf(rows[i])) {
      assert Later(tables[0], tables[k]);
      assert tables[k][i] in tables[k];
    }
  }

  /** A soft delete is final, so it is enough to look at the last table of the walk. */
  lemma SurvivorIsLiveThroughout(rows: seq<Row>, batches: seq<seq<Op>>, last: nat, i: nat)
    requires UniqueIds(rows) && i < |rows|
    requires last < |Tables(rows, true, batches)|
    ensures i < |Tables(rows, true, batches)[last]|
    ensures !Tables(rows, true, batches)[last][i].deleted
      ==> forall k :: 0 <= k <= last ==>
        i < |Tables(rows, true, batches)[k]| && !Tables(rows, true, batches)[k][i].deleted
  {
    TablesAreOneHistory(rows, batches);
    var tables := Tables(rows, true, batches);
    assert Later(tables[0], tables[last]);
    forall k | 0 <= k <= last ensures i < |tables[k]| && (tables[k][i].deleted ==> tables[last][i].deleted) {
      assert Later(tables[0], tables[k]) && Later(tables[k], tables[last]);
    }
  }

  /** In one history an id always has the same key. */
  lemma SameIdSameKey(tables: seq<seq<Row>>, a: Row, b: Row)
    requires OneHistory(tables) && FromSome(tables, a) && FromSome(tables, b)
    requires a.id == b.id
    ensures KeyOf(a) == KeyOf(b)
  {
    var i :| 0 <= i < |tables| && a in tables[i];
    var j :| 0 <= j < |tables| && b in tables[j];
    if i <= j {
      LaterSameKey(tables[i], tables[j], a, b);
    } else {
      LaterSameKey(tables[j], tables[i], b, a);
    }
  }

  lemma LaterSameKey(t: seq<Row>, u: seq<Row>, a: Row, b: Row)
    requires Later(t, u) && UniqueIds(u)
    requires a in t && b in u && a.id == b.id
    ensures KeyOf(a) == KeyOf(b)
  {
    var x :| 0 <= x < |t| && t[x] == a;
    var y :| 0 <= y < |u| && u[y] == b;
    assert u[x].id == u[y].id;
  }

  // ---- edited, removed and created rows ----

  /** A row with this id is in the answer to this request. */
  ghost predicate FoundBy(rows: seq<Row>, scope: Scope, cursor: Option<CursorText>, limit: nat, id: nat) {
    var a := Listing(rows, scope, cursor, limit);
    a.Ok? && exists r :: r in a.value.items && r.id == id
  }

  ghost predicate OnSomePage(rows: seq<Row>, scope: Scope, id: nat) {
    exists cursor, limit :: FoundBy(rows, scope, cursor, limit, id)
  }

  lemma FoundIsVisible(rows: seq<Row>, scope: Scope, cursor: Option<CursorText>, limit: nat, id: nat)
    requires UniqueIds(rows) && FoundBy(rows, scope, cursor, limit, id)
    ensures exists r :: r in rows && r.id == id && Visible(scope, r)
  {
    ListingIsExact(rows, scope, cursor, limit);
  }

  /** A request whose limit is the size of the table finds everything visible. */
  lemma VisibleIsFound(rows: seq<Row>, scope: Scope, r: Row)
    requires UniqueIds(rows) && r in rows && Visible(scope, r)
    ensures FoundBy(rows, scope, None, |rows|, r.id)
  {
    FilterKeepsUnique(rows, r => Visible(scope, r) && Under(None, r));
    SortFacts(Filter(rows, r => Visible(scope, r) && Under(None, r)));
    RemainingFacts(rows, scope, None);
  }

  /** Requests find exactly the visible rows. */
  lemma OnSomePageExactly(rows: seq<Row>, scope: Scope, id: nat)
    requires UniqueIds(rows)
    ensures OnSomePage(rows, scope, id) <==> exists r :: r in rows && r.id == id && Visible(scope, r)
  {
    hide FoundBy;
    hide Visible;
    hide UniqueIds;
    if cursor, limit :| FoundBy(rows, scope, cursor, limit, id) {
      FoundIsVisible(rows, scope, cursor, limit, id);
    }
    if r :| r in rows && r.id == id && Visible(scope, r) {
      VisibleIsFound(rows, scope, r);
    }
  }

  /** A removed row is on no page of any later request, whatever else happens to the table, and its removal
      takes no other row off the pages. */
  lemma RemovedIsNeverFound(rows: seq<Row>, id: nat, batches: seq<seq<Op>>, k: nat, scope: Scope, other: nat)
    requires UniqueIds(rows) && HasId(rows, id) && k <= |batches| && scope.softDelete && other != id
    ensures var after := Apply(Remove(id), true, rows);
      && !OnSomePage(Tables(after, true, batches)[k], scope, id)
      && (OnSomePage(after, scope, other) <==> OnSomePage(rows, scope, other))
  {
    var after := Apply(Remove(id), true, rows);
    var i :| 0 <= i < |rows| && rows[i].id == id;
    SameOthers(rows, after, scope, other);
    DeletedIsNeverFound(after, batches, k, scope, i);
  }

  lemma DeletedIsNeverFound(rows: seq<Row>, batches: seq<seq<Op>>, k: nat, scope: Scope, i: nat)
    requires UniqueIds(rows) && k <= |batches| && scope.softDelete && i < |rows| && rows[i].deleted
    ensures !OnSomePage(Tables(rows, true, batches)[k], scope, rows[i].id)
  {
    TablesAreOneHistory(rows, batches);
    var t := Tables(rows, true, batches)[k];
    assert Later(Tables(rows, true, batches)[0], t);
    OnSomePageExactly(t, scope, rows[i].id);
    hide OnSomePage;
    hide Tables;
    hide Listing;
    assert KeyOf(t[i]) == KeyOf(rows[i]);
    forall r | r in t && r.id == rows[i].id ensures r.deleted {
      var j :| 0 <= j < |t| && t[j] == r;
    }
  }

  lemma SameOthers(rows: seq<Row>, after: seq<Row>, scope: Scope, other: nat)
    requires UniqueIds(rows) && UniqueIds(after) && |after| == |rows|
    requires forall i :: 0 <= i < |rows| ==>
      after[i].id == rows[i].id && (rows[i].id == other ==> (Visible(scope, after[i]) <==> Visible(scope, rows[i])))
    ensures OnSomePage(after, scope, other) <==> OnSomePage(rows, scope, other)
  {
    OnSomePageExactly(rows, scope, other);
    OnSomePageExactly(after, scope, other);
    hide OnSomePage;
    hide Visible;
    if r :| r in rows && r.id == other && Visible(scope, r) {
      var i :| 0 <= i < |rows| && rows[i] == r;
      assert after[i] in after;
    }
    if r :| r in after && r.id == other && Visible(scope, r) {
      var i :| 0 <= i < |rows| && after[i] == r;
      assert rows[i] in rows;
    }
  }

  /** Where rows are removed for good the row is gone at once. */
  lemma DroppedIsNotFound(rows: seq<Row>, id: nat, scope: Scope)
    requires UniqueIds(rows)
    ensures !OnSomePage(Apply(Remove(id), false, rows), scope, id)
  {
    FilterKeepsUnique(rows, (r: Row) => r.id != id);
    OnSomePageExactly(Apply(Remove(id), false, rows), scope, id);
  }

  /** An edited row is listed with its new text, and a listing shows the same ids as before the edit. */
  lemma EditedIsListedAnew(rows: seq<Row>, id: nat, title: string, description: string, tenant: Option<string>,
                           cursor: Option<CursorText>, limit: nat, other: nat)
    requires UniqueIds(rows)
    ensures var after := Apply(Edit(id, title, description), true, rows); var scope := Scoped(tenant, None);
      && (var a := Listing(after, scope, cursor, limit);
          a.Ok? ==> forall r :: r in a.value.items && r.id == id ==> r.title == title && r.description == description)
      && (OnSomePage(after, scope, other) <==> OnSomePage(rows, scope, other))
  {
    var after, scope := Apply(Edit(id, title, description), true, rows), Scoped(tenant, None);
    SameOthers(rows, after, scope, other);
    ListingIsExact(after, scope, cursor, limit);
    hide Listing;
    hide OnSomePage;
    forall r | r in after && r.id == id && Visible(scope, r) ensures r.title == title && r.description == description {
      var i :| 0 <= i < |rows| && after[i] == r;
    }
  }

  /** A row without a tenant keeps its place in every later table and stays without a tenant, so requests
      find it exactly while it is live and only without a tenant. */
  lemma TenantlessShownExactlyWhen(rows: seq<Row>, batches: seq<seq<Op>>, i: nat, k: nat, tenant: Option<string>)
    requires UniqueIds(rows) && i < |rows| && rows[i].tenant == "" && k <= |batches|
    requires tenant.Some? ==> tenant.value != ""
    ensures var t := Tables(rows, true, batches)[k];
      && i < |t| && t[i].id == rows[i].id && t[i].tenant == ""
      && (OnSomePage(t, Scoped(tenant, None), rows[i].id) <==> !t[i].deleted && tenant.None?)
  {
    var tables := Tables(rows, true, batches);
    TablesAreOneHistory(rows, batches);
    assert Later(tables[0], tables[k]);
    var t, scope := tables[k], Scoped(tenant, None);
    OnSomePageExactly(t, scope, rows[i].id);
    hide OnSomePage;
    hide Tables;
    assert KeyOf(t[i]) == KeyOf(rows[i]) && t[i] in t;
    forall r | r in t && r.id == rows[i].id ensures r == t[i] {
      var j :| 0 <= j < |t| && t[j] == r;
    }
  }

  /** The repository creates rows without a tenant: whatever happens to the table afterwards, no request
      for a tenant ever lists or finds the row, on any page, and a listing without one shows it exactly while
      it is live. */
  lemma CreatedRowsHaveNoTenant(rows: seq<Row>, id: nat, createdAt: int, title: string, description: string,
                                batches: seq<seq<Op>>, k: nat, tenant: Option<string>, search: Option<Query>)
    requires UniqueIds(rows) && !HasId(rows, id) && k <= |batches|
    requires tenant.Some? ==> tenant.value != ""
    ensures var t := Tables(rows + [Row(id, createdAt, "", title, description, false)], true, batches)[k];
      && |rows| < |t| && t[|rows|].id == id
      && (tenant.Some? ==> !OnSomePage(t, Scoped(tenant, search), id))
      && (OnSomePage(t, Scoped(tenant, None), id) <==> !t[|rows|].deleted && tenant.None?)
  {
    var rows2 := rows + [Row(id, createdAt, "", title, description, false)];
    TenantlessShownExactlyWhen(rows2, batches, |rows|, k, tenant);
    TablesAreOneHistory(rows2, batches);
    var t := Tables(rows2, true, batches)[k];
    OnSomePageExactly(t, Scoped(tenant, search), id);
    hide OnSomePage;
    hide Tables;
    forall r | r in t && r.id == id ensures r == t[|rows|] {
      var j :| 0 <= j < |t| && t[j] == r;
    }
  }
}
