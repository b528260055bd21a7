/** The widgets table with its ordered index. Every change keeps the two in
    agreement, and a list query is a scan of the index from the cursor on. */
module Table {
  import opened Wrappers
  import opened Calendar
  import opened Cursor
  import opened Listing
  import Names

  ghost predicate DescendingKeys(index: seq<ListCursor>) {
    forall i, j :: 0 <= i < j < |index| ==> Below(index[j], index[i])
  }

  /** The primary key column holds each row's own identifier. */
  ghost predicate Keyed(rows: map<int, Widget>) {
    forall id :: id in rows ==> rows[id].id == id && 1 <= id <= MAX_INT64
  }

  /** The index lists the key of every row, once, in descending order. */
  ghost predicate IndexAgrees(rows: map<int, Widget>, index: seq<ListCursor>) {
    && DescendingKeys(index)
    && (forall k :: k in index ==> k.id in rows && Key(rows[k.id]) == k)
    && (forall id :: id in rows ==> Key(rows[id]) in index)
  }

  ghost function RowSet(rows: map<int, Widget>): set<Widget> { set id | id in rows :: rows[id] }

  function Listed(rows: map<int, Widget>, index: seq<ListCursor>): seq<Widget>
    requires forall k :: k in index ==> k.id in rows
  {
    seq(|index|, i requires 0 <= i < |index| => rows[index[i].id])
  }

  /** The keys below a cursor start at a position; without a cursor, at the front. */
  ghost predicate StartsAt(index: seq<ListCursor>, cursor: Option<ListCursor>, pos: nat) {
    && pos <= |index|
    && (cursor.None? ==> pos == 0)
    && (cursor.Some? ==>
          && (forall i :: 0 <= i < pos ==> !Below(index[i], cursor.value))
          && (forall i :: pos <= i < |index| ==> Below(index[i], cursor.value)))
  }

  lemma RowSetUnique(rows: map<int, Widget>)
    requires Keyed(rows)
    ensures UniqueIds(RowSet(rows))
  {
  }

  /** A suffix of the index is the listing of the rows below the cursor it was
      sought with: the scan agrees with filter, sort and take. */
  lemma ScanAgrees(rows: map<int, Widget>, index: seq<ListCursor>, cursor: Option<ListCursor>, pos: nat)
    requires Keyed(rows) && IndexAgrees(rows, index) && StartsAt(index, cursor, pos)
    ensures UniqueIds(RowSet(rows))
    ensures Sorted(After(RowSet(rows), cursor)) == Listed(rows, index[pos..])
  {
    hide Sorted;
    RowSetUnique(rows);
    var tail := index[pos..];
    var listing := Listed(rows, tail);
    var wanted := After(RowSet(rows), cursor);
    assert forall i :: 0 <= i < |listing| ==> Key(listing[i]) == index[pos + i];
    forall w
      ensures w in listing <==> w in wanted
    {
      if w in listing {
        var i :| 0 <= i < |listing| && listing[i] == w;
        assert w == rows[index[pos + i].id] && Key(w) == index[pos + i];
      }
      if w in wanted {
        var id :| id in rows && rows[id] == w;
        assert Key(rows[id]) in index;
        var i :| 0 <= i < |index| && index[i] == Key(w);
        assert tail[i - pos] == index[i] && listing[i - pos] == w;
      }
    }
    assert Elements(listing) == wanted;
    SortedIs(wanted, listing);
  }

  lemma ScanSelects(rows: map<int, Widget>, index: seq<ListCursor>, cursor: Option<ListCursor>, pos: nat, limit: nat, items: seq<Widget>)
    requires Keyed(rows) && IndexAgrees(rows, index) && StartsAt(index, cursor, pos)
    requires |items| == if |index| - pos < limit then |index| - pos else limit
    requires forall i :: 0 <= i < |items| ==> index[pos + i].id in rows && items[i] == rows[index[pos + i].id]
    ensures UniqueIds(RowSet(rows))
    ensures items == Select(RowSet(rows), cursor, limit)
  {
    hide Sorted, After, UniqueIds, Below, Descending;
    ScanAgrees(rows, index, cursor, pos);
    hide IndexAgrees, Keyed, RowSet;
    var tail := index[pos..];
    assert forall i :: 0 <= i < |items| ==> tail[i] == index[pos + i];
  }

  lemma SelectedBelow(rows: map<int, Widget>, cursor: Option<ListCursor>, w: Widget)
    requires Keyed(rows) && w in After(RowSet(rows), cursor)
    ensures w.id in rows && rows[w.id] == w
    ensures cursor.Some? ==>
              w.createdAt < cursor.value.createdAt || (w.createdAt == cursor.value.createdAt && w.id < cursor.value.id)
  {
  }

  lemma UnselectedAbove(rows: map<int, Widget>, cursor: Option<ListCursor>, id: int)
    requires Keyed(rows) && id in rows && rows[id] !in After(RowSet(rows), cursor)
    ensures cursor.Some?
    ensures cursor.value.createdAt < rows[id].createdAt
            || (cursor.value.createdAt == rows[id].createdAt && cursor.value.id <= id)
  {
    assert rows[id] in RowSet(rows);
  }

  lemma InTake(all: seq<Widget>, limit: nat)
    ensures forall k :: 0 <= k < |all| && k < limit ==> all[k] in Take(all, limit)
  {
    assert forall k :: 0 <= k < |Take(all, limit)| ==> Take(all, limit)[k] == all[k];
  }

  lemma CutOffLast(all: seq<Widget>, limit: nat, v: Widget)
    requires Descending(all) && v in all && v !in Take(all, limit)
    ensures |Take(all, limit)| == limit
    ensures forall w :: w in Take(all, limit) ==> v.createdAt < w.createdAt || (v.createdAt == w.createdAt && v.id < w.id)
  {
    DescendingExactly(all);
    hide Below, Descending;
    var k :| 0 <= k < |all| && all[k] == v;
    assert forall j :: 0 <= j < |Take(all, limit)| ==> Take(all, limit)[j] == all[j];
    InTake(all, limit);
  }

  lemma SelectedOrder(all: seq<Widget>, limit: nat)
    requires Descending(all)
    ensures var items := Take(all, limit);
            forall i, j :: 0 <= i < j < |items| ==>
              items[j].createdAt < items[i].createdAt
              || (items[j].createdAt == items[i].createdAt && items[j].id < items[i].id)
  {
    DescendingExactly(all);
    hide Below, Descending;
  }

  /** What a list query returns, in the words of its text: rows of the table below
      the cursor, newest first; and all of them but those that come after a full
      page. */
  lemma SelectedRows(rows: map<int, Widget>, cursor: Option<ListCursor>, limit: nat, items: seq<Widget>)
    requires Keyed(rows) && UniqueIds(RowSet(rows)) && items == Select(RowSet(rows), cursor, limit)
    ensures |items| <= limit && forall w :: w in items ==> w.id in rows && rows[w.id] == w
    ensures forall i, j :: 0 <= i < j < |items| ==>
              items[j].createdAt < items[i].createdAt
              || (items[j].createdAt == items[i].createdAt && items[j].id < items[i].id)
    ensures cursor.Some? ==>
              forall w :: w in items ==>
                w.createdAt < cursor.value.createdAt || (w.createdAt == cursor.value.createdAt && w.id < cursor.value.id)
    ensures forall id :: id in rows && rows[id] !in items ==>
              || (cursor.Some?
                  && (cursor.value.createdAt < rows[id].createdAt
                      || (cursor.value.createdAt == rows[id].createdAt && cursor.value.id <= id)))
              || (|items| == limit && forall w :: w in items ==>
                    rows[id].createdAt < w.createdAt || (rows[id].createdAt == w.createdAt && id < w.id))
  {
    AfterUnique(RowSet(rows), cursor);
    hide Sorted, Below, Descending, Keyed, UniqueIds, RowSet, After;
    var all := Sorted(After(RowSet(rows), cursor));
    SelectedOrder(all, limit);
    forall w | w in items
      ensures w in After(RowSet(rows), cursor)
    {
      assert w in Elements(all);
    }
    forall w | w in items
      ensures w.id in rows && rows[w.id] == w
      ensures cursor.Some? ==>
                w.createdAt < cursor.value.createdAt || (w.createdAt == cursor.value.createdAt && w.id < cursor.value.id)
    {
      SelectedBelow(rows, cursor, w);
    }
    forall id | id in rows && rows[id] !in items
      ensures || (cursor.Some?
                  && (cursor.value.createdAt < rows[id].createdAt
                      || (cursor.value.createdAt == rows[id].createdAt && cursor.value.id <= id)))
              || (|items| == limit && forall w :: w in items ==>
                    rows[id].createdAt < w.createdAt || (rows[id].createdAt == w.createdAt && id < w.id))
    {
      UnselectedLater(rows, cursor, limit, id);
    }
  }

  lemma UnselectedLater(rows: map<int, Widget>, cursor: Option<ListCursor>, limit: nat, id: int)
    requires Keyed(rows) && UniqueIds(RowSet(rows)) && id in rows && rows[id] !in Select(RowSet(rows), cursor, limit)
    ensures var items := Select(RowSet(rows), cursor, limit);
            || (cursor.Some?
                && (cursor.value.createdAt < rows[id].createdAt
                    || (cursor.value.createdAt == rows[id].createdAt && cursor.value.id <= id)))
            || (|items| == limit && forall w :: w in items ==>
                  rows[id].createdAt < w.createdAt || (rows[id].createdAt == w.createdAt && id < w.id))
  {
    AfterUnique(RowSet(rows), cursor);
    OwnIdentifier(rows, id);
    hide Sorted, Below, Descending, Keyed, UniqueIds, RowSet, After, Take;
    var all := Sorted(After(RowSet(rows), cursor));
    if rows[id] in After(RowSet(rows), cursor) {
      assert rows[id] in Elements(all);
      CutOffLast(all, limit, rows[id]);
    } else {
      UnselectedAbove(rows, cursor, id);
    }
  }

  lemma OwnIdentifier(rows: map<int, Widget>, id: int)
    requires Keyed(rows) && id in rows
    ensures rows[id].id == id
  {
  }

  class WidgetTable {
    var rows: map<int, Widget>
    var index: seq<ListCursor>

    ghost predicate Valid()
      reads this
    {
      Keyed(rows) && IndexAgrees(rows, index)
    }

    /** What one statement sees. */
    ghost function Snapshot(): (s: set<Widget>)
      requires Valid()
      reads this
      ensures UniqueIds(s)
    {
      RowSetUnique(rows);
      RowSet(rows)
    }

    constructor ()
      ensures Valid() && rows == map[]
    {
      rows, index := map[], [];
    }

    /** Finds where the keys below the cursor start, by bisection. */
    method Seek(cursor: ListCursor) returns (pos: nat)
      requires Valid()
      ensures StartsAt(index, Some(cursor), pos)
    {
      var low, high := 0, |index|;
      while low < high
        invariant 0 <= low <= high <= |index|
        invariant forall i :: 0 <= i < low ==> !Below(index[i], cursor)
        invariant forall i :: high <= i < |index| ==> Below(index[i], cursor)
      {
        var mid := (low + high) / 2;
        if Below(index[mid], cursor) {
          high := mid;
        } else {
          low := mid + 1;
        }
      }
      pos := low;
    }

    /** ListWidgets without a cursor, ListWidgetsAfter with one. */
    method List(cursor: Option<ListCursor>, limit: nat) returns (items: seq<Widget>)
      requires Valid()
      ensures items == Select(Snapshot(), cursor, limit)
      ensures |items| <= limit && forall w :: w in items ==> w.id in rows && rows[w.id] == w
      ensures forall i, j :: 0 <= i < j < |items| ==>
                items[j].createdAt < items[i].createdAt
                || (items[j].createdAt == items[i].createdAt && items[j].id < items[i].id)
      ensures cursor.Some? ==>
                forall w :: w in items ==>
                  w.createdAt < cursor.value.createdAt || (w.createdAt == cursor.value.createdAt && w.id < cursor.value.id)
      ensures forall id :: id in rows && rows[id] !in items ==>
                || (cursor.Some?
                    && (cursor.value.createdAt < rows[id].createdAt
                        || (cursor.value.createdAt == rows[id].createdAt && cursor.value.id <= id)))
                || (|items| == limit && forall w :: w in items ==>
                      rows[id].createdAt < w.createdAt || (rows[id].createdAt == w.createdAt && id < w.id))
    {
      var pos := 0;
      if cursor.Some? {
        pos := Seek(cursor.value);
      }
      items := [];
      var next := pos;
      while next < |index| && |items| < limit
        invariant pos <= next <= |index| && |items| == next - pos <= limit
        invariant forall i :: 0 <= i < |items| ==> index[pos + i].id in rows && items[i] == rows[index[pos + i].id]
      {
        assert index[next] in index;
        items := items + [rows[index[next].id]];
        next := next + 1;
      }
      ScanSelects(rows, index, cursor, pos, limit, items);
      SelectedRows(rows, cursor, limit, items);
    }

    /** INSERT with an identifier from the identity sequence. The primary key and
        the CHECKs refuse a row; otherwise both times are the statement's. */
    method Insert(id: int, name: string, now: Timestamp) returns (created: Option<Widget>)
      requires Valid()
      requires 1 <= id <= MAX_INT64
      modifies this
      ensures Valid()
      ensures created == if id in old(rows) || !Names.SatisfiesChecks(name) then None
                         else Some(Widget(id, name, now, now))
      ensures rows == if created.Some? then old(rows)[id := created.value] else old(rows)
    {
      if id in rows || !Names.SatisfiesChecks(name) {
        return None;
      }
      var row := Widget(id, name, now, now);
      var pos := Seek(Key(row));
      InsertAgrees(rows, index, row, pos);
      rows := rows[id := row];
      index := InsertKey(index, pos, Key(row));
      created := Some(row);
    }

    /** DELETE by identifier; the number of rows it removed. */
    method Delete(id: int) returns (deleted: nat)
      requires Valid()
      modifies this
      ensures Valid()
      ensures rows == old(rows) - {id}
      ensures deleted == if id in old(rows) then 1 else 0
    {
      if id !in rows {
        return 0;
      }
      var key := Key(rows[id]);
      var pos := Seek(key);
      DeleteAgrees(rows, index, id, pos);
      rows := rows - {id};
      index := RemoveAt(index, pos - 1);
      deleted := 1;
    }

    /** An UPDATE of the name. The trigger assigns updated_at; created_at stays,
        and with it the row's place in the index. */
    method Rename(id: int, name: string, now: Timestamp) returns (updated: nat)
      requires Valid()
      modifies this`rows
      ensures Valid()
      ensures updated == if id in old(rows) && Names.SatisfiesChecks(name) then 1 else 0
      ensures rows == if updated == 1 then old(rows)[id := old(rows)[id].(name := name, updatedAt := now)] else old(rows)
    {
      if id !in rows || !Names.SatisfiesChecks(name) {
        return 0;
      }
      rows := rows[id := rows[id].(name := name, updatedAt := now)];
      updated := 1;
    }
  }

  function InsertKey(index: seq<ListCursor>, pos: nat, key: ListCursor): seq<ListCursor>
    requires pos <= |index|
  {
    index[..pos] + [key] + index[pos..]
  }

  lemma InsertDescending(index: seq<ListCursor>, pos: nat, key: ListCursor)
    requires DescendingKeys(index) && pos <= |index|
    requires forall i :: 0 <= i < pos ==> Below(key, index[i])
    requires forall i :: pos <= i < |index| ==> Below(index[i], key)
    ensures DescendingKeys(InsertKey(index, pos, key))
    ensures forall k :: k in InsertKey(index, pos, key) <==> k in index || k == key
  {
    var result := InsertKey(index, pos, key);
    assert forall i :: 0 <= i < pos ==> result[i] == index[i];
    assert forall i :: pos < i < |result| ==> result[i] == index[i - 1];
    assert index == index[..pos] + index[pos..];
    forall i, j | 0 <= i < j < |result|
      ensures Below(result[j], result[i])
    {
    }
  }

  lemma InsertAgrees(rows: map<int, Widget>, index: seq<ListCursor>, row: Widget, pos: nat)
    requires Keyed(rows) && IndexAgrees(rows, index) && row.id !in rows && 1 <= row.id <= MAX_INT64
    requires pos <= |index|
    requires forall i :: 0 <= i < pos ==> !Below(index[i], Key(row))
    requires forall i :: pos <= i < |index| ==> Below(index[i], Key(row))
    ensures Keyed(rows[row.id := row])
    ensures IndexAgrees(rows[row.id := row], InsertKey(index, pos, Key(row)))
  {
    forall i | 0 <= i < pos
      ensures Below(Key(row), index[i])
    {
      assert index[i] in index;
    }
    InsertDescending(index, pos, Key(row));
  }

  function RemoveAt(index: seq<ListCursor>, at: nat): seq<ListCursor>
    requires at < |index|
  {
    index[..at] + index[at + 1..]
  }

  lemma RemoveDescending(index: seq<ListCursor>, at: nat)
    requires DescendingKeys(index) && at < |index|
    ensures DescendingKeys(RemoveAt(index, at))
    ensures forall k :: k in RemoveAt(index, at) <==> k in index && k != index[at]
  {
    var result := RemoveAt(index, at);
    assert forall i :: 0 <= i < |result| ==> result[i] == index[if i < at then i else i + 1];
    forall k
      ensures k in result <==> k in index && k != index[at]
    {
      if k in result {
        var i :| 0 <= i < |result| && result[i] == k;
        if i < at {
          assert Below(index[at], index[i]);
        } else {
          assert Below(index[i + 1], index[at]);
        }
      }
      if k in index && k != index[at] {
        var i :| 0 <= i < |index| && index[i] == k;
        assert result[if i < at then i else i - 1] == k;
      }
    }
  }

  /** Where the keys below a row's own key start, that key is right before. */
  lemma OwnKeyBefore(rows: map<int, Widget>, index: seq<ListCursor>, id: int, pos: nat)
    requires IndexAgrees(rows, index) && id in rows && pos <= |index|
    requires forall i :: 0 <= i < pos ==> !Below(index[i], Key(rows[id]))
    requires forall i :: pos <= i < |index| ==> Below(index[i], Key(rows[id]))
    ensures pos > 0 && index[pos - 1] == Key(rows[id])
  {
    var key := Key(rows[id]);
    var at :| 0 <= at < |index| && index[at] == key;
    assert at < pos;
    assert !Below(index[pos - 1], key);
    assert at == pos - 1;
  }

  lemma DeleteAgrees(rows: map<int, Widget>, index: seq<ListCursor>, id: int, pos: nat)
    requires Keyed(rows) && IndexAgrees(rows, index) && id in rows && pos <= |index|
    requires forall i :: 0 <= i < pos ==> !Below(index[i], Key(rows[id]))
    requires forall i :: pos <= i < |index| ==> Below(index[i], Key(rows[id]))
    ensures pos > 0 && IndexAgrees(rows - {id}, RemoveAt(index, pos - 1))
  {
    OwnKeyBefore(rows, index, id, pos);
    RemoveDescending(index, pos - 1);
    hide Below, RemoveAt, DescendingKeys;
  }
}
