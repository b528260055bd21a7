/** A client's walk through the pages while others write to the table. The
    steps of the walk and of the writers interleave freely; every page read
    sees one snapshot. */
module Walk {
  import opened Wrappers
  import opened Calendar
  import opened Cursor
  import opened Listing
  import opened Table
  import opened Service
  import Names
  import Failures

  datatype Event =
    | Insert(id: int, name: string, createdAt: Timestamp)
    | Delete(id: int)
    | Rename(id: int, name: string, now: Timestamp)
    | Read(limit: int)

  /** The table, the creation time of every identifier ever handed out, and what
      the walk has so far: its cursor, its items, and the keys of the rows that
      each page was read from. */
  datatype State = State(
    rows: map<int, Widget>,
    born: map<int, Timestamp>,
    cursor: Option<ListCursor>,
    done: bool,
    items: seq<Widget>,
    snapshots: seq<set<ListCursor>>)

  ghost function Keys(rows: set<Widget>): set<ListCursor> { set w | w in rows :: Key(w) }

  ghost predicate Initial(s: State) {
    && Keyed(s.rows)
    && (forall id :: id in s.born ==> 1 <= id <= MAX_INT64)
    && (forall id :: id in s.rows ==> id in s.born && s.born[id] == s.rows[id].createdAt)
    && s.cursor.None? && !s.done && s.items == [] && s.snapshots == []
  }

  /** Writers may do anything the schema allows, but the identity sequence never
      hands out an identifier twice. The walk reads until it is done. */
  predicate Enabled(s: State, e: Event) {
    match e
    case Insert(id, _, _) => 1 <= id <= MAX_INT64 && id !in s.born
    case Read(_) => !s.done
    case _ => true
  }

  /** A page request that is answered with a page: not one whose limit is out of
      bounds, or whose cursor the service refuses. */
  predicate Answered(s: State, e: Event) { e.Read? && ValidPagination(ListOptions(e.limit, s.cursor)) }

  ghost function Step(s: State, e: Event): State
    requires Keyed(s.rows)
  {
    match e
    case Insert(id, name, createdAt) =>
      s.(born := s.born[id := createdAt],
         rows := if id in s.rows || !Names.SatisfiesChecks(name) then s.rows
                 else s.rows[id := Widget(id, name, createdAt, createdAt)])
    case Delete(id) => s.(rows := s.rows - {id})
    case Rename(id, name, now) =>
      s.(rows := if id !in s.rows || !Names.SatisfiesChecks(name) then s.rows
                 else s.rows[id := s.rows[id].(name := name, updatedAt := now)])
    case Read(limit) =>
      RowSetUnique(s.rows);
      match ListOutcome(RowSet(s.rows), ListOptions(limit, s.cursor), None)
      case Err(_) => s
      case Ok(page) =>
        s.(cursor := page.nextCursor, done := page.nextCursor.None?, items := s.items + page.items,
           snapshots := s.snapshots + [Keys(RowSet(s.rows))])
  }

  /** A row's key was in every snapshot the walk has read. */
  ghost predicate Stable(s: State, k: ListCursor) {
    s.snapshots != [] && forall i :: 0 <= i < |s.snapshots| ==> k in s.snapshots[i]
  }

  ghost predicate Shown(s: State, k: ListCursor) { exists w :: w in s.items && Key(w) == k }

  /** Every row, present or shown, has the one creation time its identifier was born with. */
  ghost predicate Born(s: State) {
    && (forall id :: id in s.born ==> 1 <= id <= MAX_INT64)
    && (forall id :: id in s.rows ==> id in s.born && s.born[id] == s.rows[id].createdAt)
    && (forall w :: w in s.items ==> w.id in s.born && s.born[w.id] == w.createdAt)
  }

  /** The walk stands right below the last item it has shown. */
  ghost predicate Positioned(s: State) {
    && (s.cursor.Some? ==> !s.done && s.items != [] && s.cursor.value == Key(s.items[|s.items| - 1]))
    && (s.cursor.None? && !s.done ==> s.items == [] && s.snapshots == [])
  }

  ghost predicate Complete(s: State) {
    forall k :: Stable(s, k) ==> Shown(s, k) || (s.cursor.Some? && Below(k, s.cursor.value))
  }

  ghost predicate Genuine(s: State) {
    forall w :: w in s.items ==> exists i :: 0 <= i < |s.snapshots| && Key(w) in s.snapshots[i]
  }

  ghost predicate Inv(s: State) {
    Keyed(s.rows) && Born(s) && Descending(s.items) && Positioned(s) && Complete(s) && Genuine(s)
  }

  /** A run: every event enabled when it happens. That every table on the way is
      keyed only makes Step applicable; by RunKeepsInv it excludes no run. */
  ghost predicate IsRun(states: seq<State>, events: seq<Event>) {
    && |states| == |events| + 1
    && Initial(states[0])
    && forall i :: 0 <= i < |events| ==>
         Keyed(states[i].rows) && Enabled(states[i], events[i]) && states[i + 1] == Step(states[i], events[i])
  }

  /** The concrete table and service do what the steps say. A page that the
      service returns is what the step of the walk appends and follows, and an
      error leaves the walk where it is; no write changes a row's creation time. */
  method Perform(service: WidgetService, s: State, e: Event)
      returns (ghost t: State, response: Option<Result<Page, Failures.Error>>)
    requires service.repository.table.Valid() && service.repository.table.rows == s.rows && Enabled(s, e)
    modifies service.repository.table
    ensures service.repository.table.Valid() && t == Step(s, e) && service.repository.table.rows == t.rows
    ensures response.Some? <==> e.Read?
    ensures e.Read? ==>
              match response.value
              case Ok(page) =>
                t.items == s.items + page.items && t.cursor == page.nextCursor && (t.done <==> page.nextCursor.None?)
              case Err(err) => t == s && err == Failures.InvalidPagination
    ensures e.Read? && response.value.Ok? <==> Answered(s, e)
    ensures !e.Read? ==>
              forall id :: id in s.rows && id in service.repository.table.rows ==>
                service.repository.table.rows[id].createdAt == s.rows[id].createdAt
  {
    hide PageOf;
    var table := service.repository.table;
    response := None;
    match e {
      case Insert(id, name, createdAt) => var _ := table.Insert(id, name, createdAt);
      case Delete(id) => var _ := table.Delete(id);
      case Rename(id, name, now) => var _ := table.Rename(id, name, now);
      case Read(limit) =>
        var listed := service.List(ListOptions(limit, s.cursor), None);
        response := Some(listed);
    }
    t := Step(s, e);
  }

  // ---- Every step keeps the invariant ----

  lemma WritesBorn(s: State, e: Event)
    requires Keyed(s.rows) && Born(s) && Enabled(s, e) && !e.Read?
    ensures Keyed(Step(s, e).rows) && Born(Step(s, e))
  {
  }

  lemma SameWalk(s: State, t: State)
    requires Positioned(s) && Complete(s) && Genuine(s)
    requires t.(rows := s.rows, born := s.born) == s
    ensures Positioned(t) && Complete(t) && Genuine(t)
  {
    assert forall k :: Stable(t, k) ==> Stable(s, k);
    assert forall k :: Shown(s, k) ==> Shown(t, k);
  }

  lemma WriteKeepsInv(s: State, e: Event)
    requires Inv(s) && Enabled(s, e) && !e.Read?
    ensures Inv(Step(s, e))
  {
    hide Positioned, Complete, Genuine, Descending;
    WritesBorn(s, e);
    SameWalk(s, Step(s, e));
  }

  lemma DescendingConcat(s: seq<Widget>, t: seq<Widget>)
    requires Descending(s) && Descending(t)
    requires s != [] ==> forall w :: w in t ==> Below(Key(w), Key(s[|s| - 1]))
    ensures Descending(s + t)
  {
    forall i, j | 0 <= i < j < |s + t|
      ensures Below(Key((s + t)[j]), Key((s + t)[i]))
    {
      if i < |s| <= j {
        assert (s + t)[j] in t;
      }
    }
  }

  lemma ReadShows(s: State, limit: int)
    requires Inv(s) && !s.done && ValidPagination(ListOptions(limit, s.cursor))
    ensures var t := Step(s, Read(limit));
            Complete(t) && Genuine(t)
  {
    hide Sorted, UniqueIds, FirstPage, PageOf;
    RowSetUnique(s.rows);
    if s.cursor.Some? {
      TruncatedKey(s.items[|s.items| - 1]);
    }
    assert Truncated(s.cursor) == s.cursor;
    hide Truncated;
    var rows, applied := RowSet(s.rows), AppliedLimit(limit);
    var page := PageOf(rows, applied, s.cursor);
    var t := Step(s, Read(limit));
    NextCursorExactly(rows, applied, s.cursor);
    forall k | Stable(t, k)
      ensures Shown(t, k) || (t.cursor.Some? && Below(k, t.cursor.value))
    {
      assert t.snapshots[|s.snapshots|] == Keys(rows);
      var w :| w in rows && Key(w) == k;
      assert s.snapshots != [] ==> Stable(s, k) by {
        assert forall i :: 0 <= i < |s.snapshots| ==> t.snapshots[i] == s.snapshots[i];
      }
      if s.snapshots != [] && Shown(s, k) {
        var v :| v in s.items && Key(v) == k;
        assert v in t.items;
      } else {
        assert w in After(rows, s.cursor);
        PageSplits(rows, applied, s.cursor, w);
        assert w in page.items ==> w in t.items;
      }
    }
    forall w | w in t.items
      ensures exists i :: 0 <= i < |t.snapshots| && Key(w) in t.snapshots[i]
    {
      if w in s.items {
        var i :| 0 <= i < |s.snapshots| && Key(w) in s.snapshots[i];
        assert t.snapshots[i] == s.snapshots[i];
      } else {
        assert w in Elements(page.items) && w in rows;
        assert t.snapshots[|s.snapshots|] == Keys(rows);
      }
    }
  }

  /** What a page adds to the walk, without how it was selected. */
  lemma ReadPage(s: State, limit: int) returns (page: Page)
    requires Keyed(s.rows) && !s.done && ValidPagination(ListOptions(limit, s.cursor))
    ensures Step(s, Read(limit)) ==
            s.(cursor := page.nextCursor, done := page.nextCursor.None?, items := s.items + page.items,
               snapshots := s.snapshots + [Keys(RowSet(s.rows))])
    ensures Descending(page.items)
    ensures forall w :: w in page.items ==>
              w.id in s.rows && s.rows[w.id] == w && (s.cursor.Some? ==> Below(Key(w), s.cursor.value))
    ensures page.nextCursor.Some? ==> page.items != [] && page.nextCursor.value == Key(page.items[|page.items| - 1])
  {
    RowSetUnique(s.rows);
    hide Sorted, UniqueIds, FirstPage, PageOf, Descending;
    var rows, applied := RowSet(s.rows), AppliedLimit(limit);
    page := PageOf(rows, applied, Truncated(s.cursor));
    NextCursorExactly(rows, applied, Truncated(s.cursor));
    forall w | w in page.items
      ensures w in rows && (s.cursor.Some? ==> Below(Key(w), s.cursor.value))
    {
      assert w in Elements(page.items);
      if s.cursor.Some? {
        TruncatedBelow(w, s.cursor.value);
      }
    }
  }

  lemma ReadAppends(s: State, limit: int)
    requires Inv(s) && !s.done && ValidPagination(ListOptions(limit, s.cursor))
    ensures var t := Step(s, Read(limit));
            Descending(t.items) && Positioned(t) && Born(t)
  {
    var page := ReadPage(s, limit);
    hide Step, Complete, Genuine, Descending, Keyed;
    DescendingConcat(s.items, page.items);
  }

  lemma ReadKeepsInv(s: State, limit: int)
    requires Inv(s) && !s.done
    ensures Inv(Step(s, Read(limit)))
  {
    hide Sorted, FirstPage, PageOf, Complete, Genuine, Descending, Positioned, Born;
    if ValidPagination(ListOptions(limit, s.cursor)) {
      ReadAppends(s, limit);
      ReadShows(s, limit);
    }
  }

  lemma {:induction false} RunKeepsInv(states: seq<State>, events: seq<Event>, n: nat)
    requires IsRun(states, events) && n <= |events|
    ensures Inv(states[n])
  {
    if n == 0 {
      assert Complete(states[0]);
    } else {
      RunKeepsInv(states, events, n - 1);
      if events[n - 1].Read? {
        ReadKeepsInv(states[n - 1], events[n - 1].limit);
      } else {
        WriteKeepsInv(states[n - 1], events[n - 1]);
      }
    }
  }

  // ---- Whole walks ----

  /** The walk has gone past a key: it is done, or stands at it or below it. */
  predicate Passed(s: State, k: ListCursor) { s.cursor.Some? ==> !Below(k, s.cursor.value) }

  /** However writers interleave, whatever limits are asked for, and whether or
      not the row a cursor names still exists: the items shown are strictly
      descending, no identifier is shown twice, each was in a snapshot, and every
      row that was in all snapshots so far and that the walk has gone past was
      shown, exactly once. A walk that is done has gone past every row. */
  lemma WalkShowsStableRowsOnce(states: seq<State>, events: seq<Event>)
    requires IsRun(states, events)
    ensures var s := states[|events|];
            && Descending(s.items)
            && (forall i, j :: 0 <= i < j < |s.items| ==>
                  && s.items[i].id != s.items[j].id
                  && (s.items[j].createdAt < s.items[i].createdAt
                      || (s.items[j].createdAt == s.items[i].createdAt && s.items[j].id < s.items[i].id)))
            && Genuine(s)
            && (forall k :: Stable(s, k) && Passed(s, k) ==> exists i :: ShownOnlyAt(s, k, i))
            && (s.done ==> forall k :: Passed(s, k))
  {
    RunKeepsInv(states, events, |events|);
    var s := states[|events|];
    DescendingExactly(s.items);
    forall i, j | 0 <= i < j < |s.items|
      ensures s.items[i].id != s.items[j].id
    {
      assert s.items[i] in s.items && s.items[j] in s.items;
    }
    forall k | Stable(s, k) && Passed(s, k)
      ensures exists i :: ShownOnlyAt(s, k, i)
    {
      var w :| w in s.items && Key(w) == k;
      var i :| 0 <= i < |s.items| && s.items[i] == w;
      assert forall j :: 0 <= j < |s.items| && j != i ==> s.items[j].id != s.items[i].id;
      assert ShownOnlyAt(s, k, i);
    }
  }

  ghost predicate ShownOnlyAt(s: State, k: ListCursor, i: int) {
    && 0 <= i < |s.items| && Key(s.items[i]) == k
    && forall j :: 0 <= j < |s.items| && j != i ==> Key(s.items[j]) != k
  }

  /** Each answered page but the last moves the cursor strictly down. */
  lemma ReadDescends(s: State, limit: int)
    requires Inv(s) && !s.done && ValidPagination(ListOptions(limit, s.cursor))
    ensures var t := Step(s, Read(limit));
            || t.done
            || (t.cursor.Some? && (s.cursor.Some? ==>
                                     var a, b := s.cursor.value, t.cursor.value;
                                     b.createdAt < a.createdAt || (b.createdAt == a.createdAt && b.id < a.id)))
  {
    var page := ReadPage(s, limit);
    if page.nextCursor.Some? {
      assert page.items[|page.items| - 1] in page.items;
    }
  }

  // ---- Termination ----

  /** A run that never ends. */
  ghost predicate EndlessRun(states: nat -> State, events: nat -> Event) {
    && Initial(states(0))
    && forall i: nat :: Keyed(states(i).rows) && Enabled(states(i), events(i)) && states(i + 1) == Step(states(i), events(i))
  }

  /** No row is ever created before some earliest time. */
  ghost predicate CreatedAfter(states: nat -> State, earliest: Instant) {
    forall i: nat, id :: id in states(i).born ==> earliest <= states(i).born[id]
  }

  ghost predicate AnsweredFrom(states: nat -> State, events: nat -> Event, n: nat) {
    exists j: nat :: n <= j && Answered(states(j), events(j))
  }

  lemma {:induction false} EndlessInv(states: nat -> State, events: nat -> Event, n: nat)
    requires EndlessRun(states, events)
    ensures Inv(states(n))
  {
    if n == 0 {
      assert Complete(states(0));
    } else {
      EndlessInv(states, events, n - 1);
      assert states(n - 1 + 1) == Step(states(n - 1), events(n - 1));
      if events(n - 1).Read? {
        ReadKeepsInv(states(n - 1), events(n - 1).limit);
      } else {
        WriteKeepsInv(states(n - 1), events(n - 1));
      }
    }
  }

  predicate NotAbove(a: Option<ListCursor>, b: Option<ListCursor>) {
    b.None? || (a.Some? && (a == b || Below(a.value, b.value)))
  }

  lemma StepFalls(s: State, e: Event)
    requires Inv(s) && Enabled(s, e) && !Step(s, e).done
    ensures !s.done && NotAbove(Step(s, e).cursor, s.cursor)
  {
    if e.Read? && ValidPagination(ListOptions(e.limit, s.cursor)) {
      ReadDescends(s, e.limit);
    }
  }

  lemma {:induction false} CursorFalls(states: nat -> State, events: nat -> Event, i: nat, j: nat)
    requires EndlessRun(states, events) && i <= j && !states(j).done
    ensures !states(i).done && NotAbove(states(j).cursor, states(i).cursor)
    decreases j
  {
    if i < j {
      EndlessInv(states, events, j - 1);
      hide Step, Inv, Enabled, Keyed, Initial;
      assert states(j - 1 + 1) == Step(states(j - 1), events(j - 1));
      StepFalls(states(j - 1), events(j - 1));
      CursorFalls(states, events, i, j - 1);
    }
  }

  /** The cursor of a walk that is not done is bounded below. */
  lemma CursorBounded(states: nat -> State, events: nat -> Event, i: nat, earliest: Instant)
    requires EndlessRun(states, events) && CreatedAfter(states, earliest)
    ensures states(i).cursor.Some? ==>
              var c := states(i).cursor.value; c.id >= 1 && earliest <= c.createdAt
  {
    EndlessInv(states, events, i);
    var s := states(i);
    if s.cursor.Some? {
      assert s.items[|s.items| - 1] in s.items;
    }
  }

  lemma {:induction false} NoEndlessDescent(states: nat -> State, events: nat -> Event, i: nat, earliest: Instant)
    requires EndlessRun(states, events) && CreatedAfter(states, earliest)
    requires forall n: nat :: AnsweredFrom(states, events, n)
    ensures false
    decreases states(i).cursor.None?,
              if states(i).cursor.Some? then states(i).cursor.value.createdAt - earliest else 0,
              if states(i).cursor.Some? then states(i).cursor.value.id else 0
  {
    CursorBounded(states, events, i, earliest);
    assert AnsweredFrom(states, events, i);
    var j: nat :| i <= j && Answered(states(j), events(j));
    assert Enabled(states(j), events(j));
    CursorFalls(states, events, i, j);
    CursorBounded(states, events, j, earliest);
    EndlessInv(states, events, j);
    ReadDescends(states(j), events(j).limit);
    assert states(j + 1) == Step(states(j), events(j));
    assert AnsweredFrom(states, events, j + 1);
    var k: nat :| j + 1 <= k && Answered(states(k), events(k));
    assert Enabled(states(k), events(k));
    CursorFalls(states, events, j + 1, k);
    CursorBounded(states, events, j + 1, earliest);
    NoEndlessDescent(states, events, j + 1, earliest);
  }

  /** Every walk ends: even if rows are inserted forever, only finitely many
      pages can be answered before the null cursor. */
  lemma WalkTerminates(states: nat -> State, events: nat -> Event, earliest: Instant)
    requires EndlessRun(states, events) && CreatedAfter(states, earliest)
    ensures exists n: nat :: !AnsweredFrom(states, events, n)
  {
    if forall n: nat :: AnsweredFrom(states, events, n) {
      NoEndlessDescent(states, events, 0, earliest);
    }
  }
}
