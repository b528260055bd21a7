/** The widget use cases over their repository. */
module Service {
  import opened Wrappers
  import opened Calendar
  import opened Cursor
  import opened Listing
  import opened Table
  import opened Failures
  import Names

  const DEFAULT_LIST_LIMIT := 20
  const MAXIMUM_LIST_LIMIT := 100

  /** A limit is an int32; zero selects the default. */
  datatype ListOptions = ListOptions(limit: int, cursor: Option<ListCursor>)

  datatype Page = Page(items: seq<Widget>, limit: int, nextCursor: Option<ListCursor>)

  function AppliedLimit(limit: int): int { if limit == 0 then DEFAULT_LIST_LIMIT else limit }

  /** Go's zero time, 0001-01-01T00:00:00Z. */
  predicate IsZero(i: Instant) { i == 0 }

  predicate ValidPagination(options: ListOptions) {
    && 1 <= AppliedLimit(options.limit) <= MAXIMUM_LIST_LIMIT
    && (options.cursor.Some? ==> options.cursor.value.id >= 1 && !IsZero(options.cursor.value.createdAt))
  }

  /** The first page of a listing, and a cursor exactly when rows are left. */
  function FirstPage(all: seq<Widget>, limit: nat): Page
    requires limit > 0
  {
    Page(Take(all, limit), limit, if |all| > limit then Some(Key(all[limit - 1])) else None)
  }

  /** The page a client should get: the first rows below the cursor. */
  ghost function PageOf(rows: set<Widget>, limit: nat, cursor: Option<ListCursor>): Page
    requires UniqueIds(rows) && limit > 0
  {
    FirstPage(Sorted(After(rows, cursor)), limit)
  }

  /** The outcome of List over one snapshot; failure is what the database
      returned instead of rows. */
  ghost function ListOutcome(rows: set<Widget>, options: ListOptions, failure: Option<Error>): Result<Page, Error>
    requires UniqueIds(rows)
  {
    if !ValidPagination(options) then Err(InvalidPagination)
    else if failure.Some? then Err(WrapAll(["list widgets", "select widgets"], failure.value))
    else Ok(PageOf(rows, AppliedLimit(options.limit), Truncated(options.cursor)))
  }

  class PostgresRepository {
    const table: WidgetTable

    constructor (table: WidgetTable)
      ensures this.table == table
    {
      this.table := table;
    }

    /** Selects the rows below the cursor, as the driver passes it on, and copies
        them into domain widgets one by one. */
    method List(options: ListOptions, failure: Option<Error>) returns (r: Result<seq<Widget>, Error>)
      requires table.Valid() && options.limit >= 0
      ensures r == if failure.Some? then Err(Wrapped("select widgets", failure.value))
                   else Ok(Select(table.Snapshot(), Truncated(options.cursor), options.limit))
    {
      if failure.Some? {
        return Err(Wrapped("select widgets", failure.value));
      }
      var rows := table.List(Truncated(options.cursor), options.limit);
      var results := [];
      for i := 0 to |rows|
        invariant results == rows[..i]
      {
        results := results + [rows[i]];
      }
      assert rows[..|rows|] == rows;
      r := Ok(results);
    }

    method Create(id: int, name: string, now: Timestamp, failure: Option<Error>) returns (r: Result<Widget, Error>)
      requires table.Valid() && 1 <= id <= MAX_INT64 && id !in table.rows
      modifies table
      ensures table.Valid()
      ensures r == if failure.Some? then Err(Wrapped("insert widget", failure.value))
                   else if !Names.SatisfiesChecks(name) then Err(Wrapped("insert widget", Other("check_violation")))
                   else Ok(Widget(id, name, now, now))
      ensures table.rows == if r.Ok? then old(table.rows)[id := r.value] else old(table.rows)
    {
      if failure.Some? {
        return Err(Wrapped("insert widget", failure.value));
      }
      var created := table.Insert(id, name, now);
      match created {
        case None => r := Err(Wrapped("insert widget", Other("check_violation")));
        case Some(row) => r := Ok(row);
      }
    }

    method Delete(id: int, failure: Option<Error>) returns (r: Option<Error>)
      requires table.Valid()
      modifies table
      ensures table.Valid()
      ensures r == if failure.Some? then Some(Wrapped("delete widget", failure.value))
                   else if id in old(table.rows) then None else Some(NotFound)
      ensures table.rows == if failure.Some? then old(table.rows) else old(table.rows) - {id}
    {
      if failure.Some? {
        return Some(Wrapped("delete widget", failure.value));
      }
      var deletedRows := table.Delete(id);
      r := if deletedRows == 0 then Some(NotFound) else None;
    }
  }

  class WidgetService {
    const repository: PostgresRepository

    constructor (repository: PostgresRepository)
      ensures this.repository == repository
    {
      this.repository := repository;
    }

    /** Reads one row beyond the page; the extra row is trimmed, and its
        presence is what a continuation cursor stands for. */
    method List(options: ListOptions, failure: Option<Error>) returns (r: Result<Page, Error>)
      requires repository.table.Valid()
      ensures r == ListOutcome(repository.table.Snapshot(), options, failure)
      ensures r == Err(InvalidPagination) <==>
                || options.limit < 0 || options.limit > 100
                || (options.cursor.Some? && (options.cursor.value.id < 1 || options.cursor.value.createdAt == 0))
      ensures r.Ok? ==>
                && r.value.limit == (if options.limit == 0 then 20 else options.limit) && |r.value.items| <= r.value.limit
                && (forall i, j :: 0 <= i < j < |r.value.items| ==>
                      var a, b := r.value.items[i], r.value.items[j];
                      b.createdAt < a.createdAt || (b.createdAt == a.createdAt && b.id < a.id))
                && (options.cursor.Some? ==>
                      forall w :: w in r.value.items ==>
                        || w.createdAt < options.cursor.value.createdAt
                        || (w.createdAt == options.cursor.value.createdAt && w.id < options.cursor.value.id))
    {
      hide Sorted, After, Truncated, UniqueIds;
      if ValidPagination(options) {
        PageOrder(repository.table.Snapshot(), AppliedLimit(options.limit), options.cursor);
      }
      var limit := options.limit;
      if limit == 0 {
        limit := DEFAULT_LIST_LIMIT;
      }
      if limit < 1 || limit > MAXIMUM_LIST_LIMIT
         || (options.cursor.Some? && (options.cursor.value.id < 1 || IsZero(options.cursor.value.createdAt))) {
        return Err(InvalidPagination);
      }
      var requestedLimit := limit;
      limit := limit + 1;
      var listed := repository.List(ListOptions(limit, options.cursor), failure);
      match listed {
        case Err(err) => r := Err(Wrapped("list widgets", err));
        case Ok(results) =>
          var page := Page(results, requestedLimit, None);
          if |results| > requestedLimit {
            page := page.(items := results[..requestedLimit]);
            var last := page.items[|page.items| - 1];
            page := page.(nextCursor := Some(ListCursor(last.createdAt, last.id)));
          }
          r := Ok(page);
          AfterUnique(repository.table.Snapshot(), Truncated(options.cursor));
          Lookahead(Sorted(After(repository.table.Snapshot(), Truncated(options.cursor))), requestedLimit);
      }
      if failure.Some? {
        WrapTwice("list widgets", "select widgets", failure.value);
      }
    }

    /** Trims and bounds the name; the table's CHECKs can then refuse nothing. */
    method Create(id: int, name: string, now: Timestamp, failure: Option<Error>) returns (r: Result<Widget, Error>)
      requires repository.table.Valid() && 1 <= id <= MAX_INT64 && id !in repository.table.rows
      modifies repository.table
      ensures repository.table.Valid()
      ensures r == match Names.ServiceName(name)
                   case None => Err(InvalidName)
                   case Some(stored) =>
                     if failure.Some? then Err(WrapAll(["create widget", "insert widget"], failure.value))
                     else Ok(Widget(id, stored, now, now))
      ensures repository.table.rows == if r.Ok? then old(repository.table.rows)[id := r.value] else old(repository.table.rows)
      ensures r.Ok? ==>
                && Names.IsTrimmed(name, r.value.name) && 1 <= |r.value.name| <= 120
                && r.value.id == id && r.value.createdAt == r.value.updatedAt == now
                && id in repository.table.rows && repository.table.rows[id].name == r.value.name
      ensures r == Err(InvalidName) <==> !exists t :: Names.IsTrimmed(name, t) && 1 <= |t| <= 120
    {
      Names.ServiceNameExactly(name);
      var trimmed := Names.TrimSpace(name);
      if trimmed == "" || |trimmed| > Names.MAXIMUM_NAME_LENGTH {
        return Err(InvalidName);
      }
      Names.ServiceNameSatisfiesChecks(name);
      var created := repository.Create(id, trimmed, now, failure);
      match created {
        case Err(err) => r := Err(Wrapped("create widget", err));
        case Ok(row) => r := Ok(row);
      }
      if failure.Some? {
        WrapTwice("create widget", "insert widget", failure.value);
      }
    }

    method Delete(id: int, failure: Option<Error>) returns (r: Option<Error>)
      requires repository.table.Valid()
      modifies repository.table
      ensures repository.table.Valid()
      ensures r == if id < 1 then Some(NotFound)
                   else if failure.Some? then Some(WrapAll(["delete widget", "delete widget"], failure.value))
                   else if id in old(repository.table.rows) then None
                   else Some(Wrapped("delete widget", NotFound))
      ensures repository.table.rows == if failure.Some? then old(repository.table.rows) else old(repository.table.rows) - {id}
    {
      if id < 1 {
        return Some(NotFound);
      }
      var err := repository.Delete(id, failure);
      r := if err.Some? then Some(Wrapped("delete widget", err.value)) else None;
      if failure.Some? {
        WrapTwice("delete widget", "delete widget", failure.value);
      }
    }
  }

  /** One row beyond the limit tells whether more are left. */
  lemma Lookahead(all: seq<Widget>, limit: nat)
    requires limit > 0
    ensures var results := Take(all, limit + 1);
            FirstPage(all, limit) ==
            if |results| > limit then Page(results[..limit], limit, Some(Key(results[limit - 1]))) else Page(results, limit, None)
  {
  }

  lemma WrapTwice(outer: string, inner: string, err: Error)
    ensures WrapAll([outer, inner], err) == Wrapped(outer, Wrapped(inner, err))
  {
    assert [outer, inner][1..] == [inner];
    assert WrapAll([inner], err) == Wrapped(inner, err);
  }

  // ---- Laws of a page ----

  /** A page in the words of the query's ORDER BY and of its row comparison: newest
      first, of one time the highest identifier first, and below the cursor. */
  lemma PageOrder(rows: set<Widget>, limit: nat, cursor: Option<ListCursor>)
    requires UniqueIds(rows) && limit > 0
    ensures var page := PageOf(rows, limit, Truncated(cursor));
            && page.limit == limit && |page.items| <= limit
            && (forall i, j :: 0 <= i < j < |page.items| ==>
                  var a, b := page.items[i], page.items[j];
                  b.createdAt < a.createdAt || (b.createdAt == a.createdAt && b.id < a.id))
            && (cursor.Some? ==>
                  forall w :: w in page.items ==>
                    w.createdAt < cursor.value.createdAt || (w.createdAt == cursor.value.createdAt && w.id < cursor.value.id))
  {
    NextCursorExactly(rows, limit, Truncated(cursor));
    hide Sorted, UniqueIds, Truncated;
    var page := PageOf(rows, limit, Truncated(cursor));
    DescendingExactly(page.items);
    forall w | w in page.items && cursor.Some?
      ensures w.createdAt < cursor.value.createdAt || (w.createdAt == cursor.value.createdAt && w.id < cursor.value.id)
    {
      assert w in Elements(page.items);
      TruncatedBelow(w, cursor.value);
    }
  }

  lemma FirstPageOf(all: seq<Widget>, limit: nat, w: Widget)
    requires Descending(all) && limit > 0 && w in all
    ensures var page := FirstPage(all, limit);
            && (w in page.items <==> !(page.nextCursor.Some? && Below(Key(w), page.nextCursor.value)))
            && (w in page.items ==> !Below(Key(w), Key(page.items[|page.items| - 1])))
  {
    var page := FirstPage(all, limit);
    var i :| 0 <= i < |all| && all[i] == w;
    assert forall j :: 0 <= j < |page.items| ==> page.items[j] == all[j];
    if i < |page.items| {
      assert page.items[i] == w;
      assert i < |page.items| - 1 ==> Below(Key(all[|page.items| - 1]), Key(w));
    } else {
      assert forall j :: 0 <= j < limit ==> Below(Key(w), Key(all[j]));
    }
  }

  lemma FirstPageItems(all: seq<Widget>, limit: nat)
    requires Descending(all) && limit > 0
    ensures var items := FirstPage(all, limit).items;
            Descending(items) && Elements(items) <= Elements(all) && |items| <= limit
  {
    var items := FirstPage(all, limit).items;
    assert forall j :: 0 <= j < |items| ==> items[j] == all[j];
  }

  /** Lookahead exactness: a cursor is returned exactly when some row of the
      snapshot lies below the page's last item, and it is that item's key. A
      page without a cursor holds every row that was left to list. */
  lemma NextCursorExactly(rows: set<Widget>, limit: nat, cursor: Option<ListCursor>)
    requires UniqueIds(rows) && limit > 0
    ensures var page := PageOf(rows, limit, cursor);
            && Descending(page.items) && Elements(page.items) <= After(rows, cursor) && |page.items| <= limit
            && (page.nextCursor.Some? <==>
                  page.items != [] && exists w :: w in rows && Below(Key(w), Key(page.items[|page.items| - 1])))
            && (page.nextCursor.Some? ==>
                  |page.items| == limit && page.nextCursor.value == Key(page.items[limit - 1]))
            && (page.nextCursor.None? ==> Elements(page.items) == After(rows, cursor))
  {
    AfterUnique(rows, cursor);
    hide Sorted, UniqueIds;
    var all := Sorted(After(rows, cursor));
    var page := PageOf(rows, limit, cursor);
    FirstPageItems(all, limit);
    if |all| > limit {
      assert page.items[limit - 1] == all[limit - 1];
      assert Below(Key(all[limit]), Key(page.items[limit - 1]));
      assert all[limit] in Elements(all);
    } else if page.items != [] {
      var last := page.items[|page.items| - 1];
      assert last in Elements(page.items);
      forall w | w in rows
        ensures !Below(Key(w), Key(last))
      {
        if Below(Key(w), Key(last)) {
          assert w in After(rows, cursor) && w in Elements(all);
          FirstPageOf(all, limit, w);
        }
      }
    }
  }

  /** A page leaves exactly the rows that it did not show: each row below the
      old cursor is in the page or else below the new cursor, never both. */
  lemma PageSplits(rows: set<Widget>, limit: nat, cursor: Option<ListCursor>, w: Widget)
    requires UniqueIds(rows) && limit > 0 && w in After(rows, cursor)
    ensures var page := PageOf(rows, limit, cursor);
            w in page.items <==> !(page.nextCursor.Some? && Below(Key(w), page.nextCursor.value))
  {
    var all := Sorted(After(rows, cursor));
    assert w in Elements(all);
    FirstPageOf(all, limit, w);
  }
}
