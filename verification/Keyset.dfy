/** Keyset pagination: pages of rows in descending (created_at, id) order, each page taken
    strictly below the key of the last row of the page before.  The repositories' query
    building is in ListRepository.dfy; this module is the order, the pages and whole walks. */
module Keyset {
  import opened Prelude
  import opened LikePattern

  datatype Key = Key(at: int, id: nat)

  datatype Row = Row(id: nat, createdAt: int, tenant: string, title: string, description: string, deleted: bool)

  function KeyOf(r: Row): Key { Key(r.createdAt, r.id) }

  /** SQL row comparison: (a.at, a.id) < (b.at, b.id). */
  predicate Below(a: Key, b: Key) {
    a.at < b.at || (a.at == b.at && a.id < b.id)
  }

  predicate Descending(rows: seq<Row>) {
    forall i, j :: 0 <= i < j < |rows| ==> Below(KeyOf(rows[j]), KeyOf(rows[i]))
  }

  /** The primary key of the table. */
  predicate UniqueIds(rows: seq<Row>) {
    forall i, j :: 0 <= i < j < |rows| ==> rows[i].id != rows[j].id
  }

  /** Which rows a listing shows: live ones where the table soft-deletes, of one tenant when
      the request has one, and matching a search when there is one. */
  datatype Scope = Scope(softDelete: bool, tenant: Option<string>, search: Option<Query>)

  /** A search text, and the case folding of the database it goes to. */
  datatype Query = Query(text: string, fold: char -> char)

  predicate Finds(q: Query, r: Row) {
    ILike(q.fold, SearchPattern(q.text), r.title) || ILike(q.fold, SearchPattern(q.text), r.description)
  }

  predicate Visible(scope: Scope, r: Row) {
    && (scope.softDelete ==> !r.deleted)
    && (scope.tenant.Some? ==> r.tenant == scope.tenant.value)
    && (scope.search.Some? ==> Finds(scope.search.value, r))
  }

  predicate Under(cursor: Option<Key>, r: Row) {
    cursor.Some? ==> Below(KeyOf(r), cursor.value)
  }

  // ---- ORDER BY created_at DESC, id DESC ----

  function InsertDescending(r: Row, sorted: seq<Row>): seq<Row> {
    if sorted == [] || Below(KeyOf(sorted[0]), KeyOf(r)) then [r] + sorted
    else [sorted[0]] + InsertDescending(r, sorted[1..])
  }

  function SortDescending(rows: seq<Row>): seq<Row> {
    if rows == [] then [] else InsertDescending(rows[0], SortDescending(rows[1..]))
  }

  lemma {:induction false} InsertKeepsOrder(r: Row, sorted: seq<Row>)
    requires Descending(sorted)
    requires forall x :: x in sorted ==> x.id != r.id
    ensures Descending(InsertDescending(r, sorted))
    ensures forall x :: x in InsertDescending(r, sorted) <==> x == r || x in sorted
    ensures |InsertDescending(r, sorted)| == |sorted| + 1
  {
    if !(sorted == [] || Below(KeyOf(sorted[0]), KeyOf(r))) {
      InsertKeepsOrder(r, sorted[1..]);
      var rest := InsertDescending(r, sorted[1..]);
      assert sorted == [sorted[0]] + sorted[1..];
      forall x | x in rest ensures Below(KeyOf(x), KeyOf(sorted[0])) {
        if x != r { assert x in sorted[1..]; }
      }
    }
  }

  lemma {:induction false} SortFacts(rows: seq<Row>)
    requires UniqueIds(rows)
    ensures Descending(SortDescending(rows))
    ensures forall x :: x in SortDescending(rows) <==> x in rows
    ensures |SortDescending(rows)| == |rows|
  {
    if rows != [] {
      SortFacts(rows[1..]);
      assert rows == [rows[0]] + rows[1..];
      InsertKeepsOrder(rows[0], SortDescending(rows[1..]));
    }
  }

  lemma {:induction false} FilterKeepsUnique(rows: seq<Row>, keep: Row -> bool)
    requires UniqueIds(rows)
    ensures UniqueIds(Filter(rows, keep))
  {
    if rows != [] {
      FilterKeepsUnique(rows[1..], keep);
      var rest := Filter(rows[1..], keep);
      forall i | 0 <= i < |rest| ensures rest[i].id != rows[0].id {
        assert rest[i] in rest;
        var k :| 0 <= k < |rows[1..]| && rows[1..][k] == rest[i];
        assert rows[k + 1] == rest[i];
      }
      var all := Filter(rows, keep);
      assert all == if keep(rows[0]) then [rows[0]] + rest else rest;
    }
  }

  /** A strictly descending list is determined by its members. */
  lemma {:induction false} DescendingIsUnique(a: seq<Row>, b: seq<Row>)
    requires Descending(a) && Descending(b)
    requires forall x :: x in a <==> x in b
    ensures a == b
  {
    assert a == [] || a[0] in a;
    assert b == [] || b[0] in b;
    if a != [] && b != [] {
      assert a[0] in b && b[0] in a;
      forall x ensures x in a[1..] <==> x in b[1..] {
        if x in a[1..] { assert x in a && x != a[0]; }
        if x in b[1..] { assert x in b && x != b[0]; }
      }
      DescendingIsUnique(a[1..], b[1..]);
    }
  }

  // ---- pages ----

  datatype Page = Page(items: seq<Row>, next: Option<Key>, prev: Option<Key>, hasNext: bool, hasPrev: bool)

  /** The rows still to be shown below a cursor, in listing order. */
  function Remaining(rows: seq<Row>, scope: Scope, cursor: Option<Key>): seq<Row> {
    SortDescending(Filter(rows, r => Visible(scope, r) && Under(cursor, r)))
  }

  lemma RemainingFacts(rows: seq<Row>, scope: Scope, cursor: Option<Key>)
    requires UniqueIds(rows)
    ensures Descending(Remaining(rows, scope, cursor))
    ensures forall r :: r in Remaining(rows, scope, cursor) <==> r in rows && Visible(scope, r) && Under(cursor, r)
  {
    FilterKeepsUnique(rows, r => Visible(scope, r) && Under(cursor, r));
    SortFacts(Filter(rows, r => Visible(scope, r) && Under(cursor, r)));
  }

  function PageOf(remaining: seq<Row>, afterCursor: bool, limit: nat): Page {
    var items := if |remaining| > limit then remaining[..limit] else remaining;
    Page(items,
         if items == [] then None else Some(KeyOf(items[|items| - 1])),
         if items == [] then None else Some(KeyOf(items[0])),
         |remaining| > limit,
         afterCursor && items != [])
  }

  function PageAt(rows: seq<Row>, scope: Scope, cursor: Option<Key>, limit: nat): Page {
    PageOf(Remaining(rows, scope, cursor), cursor.Some?, limit)
  }

  lemma CutAtKey(all: seq<Row>, limit: nat, r: Row)
    requires Descending(all) && 0 < limit <= |all|
    ensures r in all[limit..] <==> r in all && Below(KeyOf(r), KeyOf(all[limit - 1]))
  {
    if r in all {
      var i :| 0 <= i < |all| && all[i] == r;
      if i >= limit {
        assert all[limit..][i - limit] == r;
      } else {
        assert i == limit - 1 || Below(KeyOf(all[limit - 1]), KeyOf(r));
      }
    }
  }

  lemma PageCutsList(all: seq<Row>, afterCursor: bool, limit: nat)
    requires Descending(all) && limit > 0
    ensures var p := PageOf(all, afterCursor, limit);
      && Descending(p.items)
      && (p.hasNext ==> p.next.Some? && |p.items| == limit)
      && (p.next.Some? ==> exists r :: r in all && p.next == Some(KeyOf(r)))
      && (forall r :: r in p.items <==> r in all && !(p.hasNext && Below(KeyOf(r), p.next.value)))
  {
    var p := PageOf(all, afterCursor, limit);
    assert p.next.Some? ==> all[|p.items| - 1] in all;
    if p.hasNext {
      forall r ensures r in p.items <==> r in all && !Below(KeyOf(r), p.next.value) {
        InFirst(all, limit, r);
      }
    }
  }

  lemma InFirst(all: seq<Row>, limit: nat, r: Row)
    requires Descending(all) && 0 < limit <= |all|
    ensures r in all[..limit] <==> r in all && !Below(KeyOf(r), KeyOf(all[limit - 1]))
  {
    CutAtKey(all, limit, r);
    assert all == all[..limit] + all[limit..];
    if r in all[..limit] {
      var i :| 0 <= i < limit && all[..limit][i] == r;
      assert all[i] == r && (i == limit - 1 || Below(KeyOf(all[limit - 1]), KeyOf(r)));
    }
  }

  /** A page cuts the remaining rows at its last key: what is below the cursor is either on the
      page or, when there is a next page, below the next cursor. */
  lemma PageCutsRemaining(rows: seq<Row>, scope: Scope, cursor: Option<Key>, limit: nat)
    requires UniqueIds(rows) && limit > 0
    ensures var p := PageAt(rows, scope, cursor, limit);
      && Descending(p.items)
      && (p.hasNext ==> p.next.Some? && |p.items| == limit)
      && (p.next.Some? && cursor.Some? ==> Below(p.next.value, cursor.value))
      && (forall r :: r in p.items <==>
            r in rows && Visible(scope, r) && Under(cursor, r) && !(p.hasNext && Under(p.next, r)))
  {
    RemainingFacts(rows, scope, cursor);
    PageCutsList(Remaining(rows, scope, cursor), cursor.Some?, limit);
  }

  // ---- walks ----

  /** Following next cursors until a page has no next one.  tables[i] is what the database holds
      when the i-th request of the walk arrives. */
  function Walk(scope: Scope, tables: seq<seq<Row>>, cursor: Option<Key>, limit: nat): (pages: seq<Page>)
    ensures |pages| <= |tables|
    ensures tables != [] ==> pages != []
  {
    if tables == [] then []
    else
      var p := PageAt(tables[0], scope, cursor, limit);
      [p] + (if p.hasNext then Walk(scope, tables[1..], p.next, limit) else [])
  }

  function Items(pages: seq<Page>): seq<Row> {
    if pages == [] then [] else pages[0].items + Items(pages[1..])
  }

  predicate Finished(pages: seq<Page>) {
    pages != [] && !pages[|pages| - 1].hasNext
  }

  predicate FromSome(tables: seq<seq<Row>>, r: Row) {
    exists i :: 0 <= i < |tables| && r in tables[i]
  }

  lemma WalkSplit(scope: Scope, tables: seq<seq<Row>>, cursor: Option<Key>, limit: nat)
    requires tables != []
    ensures var pages := Walk(scope, tables, cursor, limit); var p := PageAt(tables[0], scope, cursor, limit);
      && pages[0] == p
      && pages[1..] == (if p.hasNext then Walk(scope, tables[1..], p.next, limit) else [])
      && Items(pages) == p.items + Items(pages[1..])
  {
  }

  /** Whatever the database does between the requests, a walk lists strictly descending keys,
      each of a row its table showed. */
  lemma {:induction false} WalkDescends(scope: Scope, tables: seq<seq<Row>>, cursor: Option<Key>, limit: nat)
    requires forall t :: t in tables ==> UniqueIds(t)
    requires limit > 0
    ensures Descending(Items(Walk(scope, tables, cursor, limit)))
    ensures forall r :: r in Items(Walk(scope, tables, cursor, limit)) ==>
      Under(cursor, r) && Visible(scope, r) && FromSome(tables, r)
  {
    if tables != [] {
      var p := PageAt(tables[0], scope, cursor, limit);
      WalkSplit(scope, tables, cursor, limit);
      assert tables[0] in tables;
      PageCutsRemaining(tables[0], scope, cursor, limit);
      if p.hasNext {
        WalkDescends(scope, tables[1..], p.next, limit);
        var rest := Items(Walk(scope, tables[1..], p.next, limit));
        forall i, j | 0 <= i < |p.items| && 0 <= j < |rest| ensures Below(KeyOf(rest[j]), KeyOf(p.items[i])) {
          assert p.items[i] in p.items && rest[j] in rest;
        }
        forall r | r in rest ensures Under(cursor, r) && FromSome(tables, r) {
          var i :| 0 <= i < |tables[1..]| && r in tables[1..][i];
          assert r in tables[i + 1];
        }
      }
    }
  }

  /** A row keeps its place while it has this key and stays visible. */
  predicate Shows(rows: seq<Row>, scope: Scope, k: Key) {
    exists r :: r in rows && Visible(scope, r) && KeyOf(r) == k
  }

  /** A key that every table of a finished walk shows is listed by the walk. */
  lemma {:induction false} WalkCovers(scope: Scope, tables: seq<seq<Row>>, cursor: Option<Key>, limit: nat, k: Key)
    requires forall t :: t in tables ==> UniqueIds(t)
    requires limit > 0
    requires Finished(Walk(scope, tables, cursor, limit))
    requires forall i :: 0 <= i < |Walk(scope, tables, cursor, limit)| ==> Shows(tables[i], scope, k)
    requires cursor.Some? ==> Below(k, cursor.value)
    ensures exists r :: r in Items(Walk(scope, tables, cursor, limit)) && KeyOf(r) == k
  {
    var pages := Walk(scope, tables, cursor, limit);
    var p := PageAt(tables[0], scope, cursor, limit);
    WalkSplit(scope, tables, cursor, limit);
    PageCutsRemaining(tables[0], scope, cursor, limit);
    hide Walk;
    hide PageAt;
    hide Visible;
    assert Shows(tables[0], scope, k);
    var r :| r in tables[0] && Visible(scope, r) && KeyOf(r) == k;
    if r !in p.items {
      var rest := Walk(scope, tables[1..], p.next, limit);
      assert rest == pages[1..] && Items(pages) == p.items + Items(rest);
      assert |pages| > 1 ==> pages[|pages| - 1] == rest[|rest| - 1];
      forall i | 0 <= i < |rest| ensures Shows(tables[1..][i], scope, k) {
        assert Shows(tables[i + 1], scope, k);
      }
      WalkCovers(scope, tables[1..], p.next, limit, k);
    }
  }

  // ---- a walk over an unchanging table ----

  function PageCount(n: nat, limit: nat): (k: nat)
    requires limit > 0
    ensures k >= 1
  {
    if n <= limit then 1 else 1 + PageCount(n - limit, limit)
  }

  /** PageCount is max(1, ceil(n / limit)). */
  lemma {:induction false} PageCountIsCeiling(n: nat, limit: nat)
    requires limit > 0
    ensures PageCount(n, limit) >= 1 && n <= PageCount(n, limit) * limit
    ensures PageCount(n, limit) > 1 ==> (PageCount(n, limit) - 1) * limit < n
  {
    if n > limit {
      PageCountIsCeiling(n - limit, limit);
      var k := PageCount(n - limit, limit);
      assert (k + 1) * limit == k * limit + limit;
      assert k * limit == (k - 1) * limit + limit;
    }
  }

  /** On an unchanging table the next page starts where this one stopped. */
  lemma NextPageContinues(rows: seq<Row>, scope: Scope, cursor: Option<Key>, limit: nat)
    requires UniqueIds(rows) && limit > 0
    requires PageAt(rows, scope, cursor, limit).hasNext
    ensures Remaining(rows, scope, PageAt(rows, scope, cursor, limit).next) == Remaining(rows, scope, cursor)[limit..]
  {
    var next := PageAt(rows, scope, cursor, limit).next;
    var all := Remaining(rows, scope, cursor);
    RemainingFacts(rows, scope, cursor);
    RemainingFacts(rows, scope, next);
    assert next == Some(KeyOf(all[limit - 1])) && all[limit - 1] in all;
    forall r ensures r in Remaining(rows, scope, next) <==> r in all[limit..] {
      CutAtKey(all, limit, r);
    }
    DescendingIsUnique(Remaining(rows, scope, next), all[limit..]);
  }

  /** The table as n requests in a row find it when nothing changes. */
  function Unchanging(rows: seq<Row>, n: nat): (tables: seq<seq<Row>>)
    ensures |tables| == n
  {
    if n == 0 then [] else [rows] + Unchanging(rows, n - 1)
  }

  /** The pages a list of n rows is cut into. */
  predicate CutsInto(all: seq<Row>, limit: nat, pages: seq<Page>)
    requires limit > 0
  {
    && |pages| == PageCount(|all|, limit)
    && Items(pages) == all
    && (forall i :: 0 <= i < |pages| ==> (pages[i].hasNext <==> i < |pages| - 1))
    && (forall i :: 0 <= i < |pages| - 1 ==> |pages[i].items| == limit)
  }

  lemma CutStep(all: seq<Row>, afterCursor: bool, limit: nat, rest: seq<Page>)
    requires 0 < limit < |all|
    requires CutsInto(all[limit..], limit, rest)
    ensures CutsInto(all, limit, [PageOf(all, afterCursor, limit)] + rest)
  {
    var pages := [PageOf(all, afterCursor, limit)] + rest;
    assert pages[1..] == rest;
    assert all == all[..limit] + all[limit..];
  }

  /** On an unchanging table a walk of max(1, ceil(n / limit)) requests lists exactly the rows in
      scope, in order, and a page has a next one exactly when rows remain after it. */
  lemma {:induction false} StaticWalkIsComplete(rows: seq<Row>, scope: Scope, cursor: Option<Key>, limit: nat, n: nat)
    requires UniqueIds(rows) && limit > 0
    requires n >= PageCount(|Remaining(rows, scope, cursor)|, limit)
    ensures CutsInto(Remaining(rows, scope, cursor), limit, Walk(scope, Unchanging(rows, n), cursor, limit))
    decreases n
  {
    var all := Remaining(rows, scope, cursor);
    var p := PageAt(rows, scope, cursor, limit);
    var tables := Unchanging(rows, n);
    assert tables[1..] == Unchanging(rows, n - 1);
    var pages := Walk(scope, tables, cursor, limit);
    if p.hasNext {
      NextPageContinues(rows, scope, cursor, limit);
      StaticWalkIsComplete(rows, scope, p.next, limit, n - 1);
      CutStep(all, cursor.Some?, limit, Walk(scope, tables[1..], p.next, limit));
    } else {
      assert pages == [p];
      assert Items([p][1..]) == [];
    }
  }
}
