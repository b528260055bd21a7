/** Widgets, the order in which they are listed, and what the two list queries
    select: filter by row comparison, order descending, cut at the limit. */
module Listing {
  import opened Wrappers
  import opened Calendar
  import opened Cursor

  /** What a timestamptz column holds: whole microseconds. */
  type Timestamp = i: Instant | i % NANOS_PER_MICROSECOND == 0

  const NANOS_PER_MICROSECOND := 1000

  datatype Widget = Widget(id: int, name: string, createdAt: Timestamp, updatedAt: Timestamp)

  function Key(w: Widget): ListCursor { ListCursor(w.createdAt, w.id) }

  /** The row comparison (a.created_at, a.id) < (b.created_at, b.id). */
  predicate Below(a: ListCursor, b: ListCursor) {
    a.createdAt < b.createdAt || (a.createdAt == b.createdAt && a.id < b.id)
  }

  predicate Descending(s: seq<Widget>) {
    forall i, j :: 0 <= i < j < |s| ==> Below(Key(s[j]), Key(s[i]))
  }

  /** The primary key: two rows never share an identifier. */
  predicate UniqueIds(rows: set<Widget>) {
    forall a, b :: a in rows && b in rows && a.id == b.id ==> a == b
  }

  ghost function Elements(s: seq<Widget>): set<Widget> { set w | w in s }

  /** The rows a cursor leaves to be listed; without a cursor, all of them. */
  function After(rows: set<Widget>, cursor: Option<ListCursor>): set<Widget> {
    set w | w in rows && (cursor.Some? ==> Below(Key(w), cursor.value))
  }

  /** A cursor as a query argument: the driver drops what is finer than a microsecond. */
  function Truncated(cursor: Option<ListCursor>): (t: Option<ListCursor>)
    ensures t.Some? <==> cursor.Some?
    ensures t.Some? ==>
              && t.value.id == cursor.value.id && t.value.createdAt % 1000 == 0
              && t.value.createdAt <= cursor.value.createdAt < t.value.createdAt + 1000
  {
    match cursor
    case None => None
    case Some(c) => Some(c.(createdAt := c.createdAt - c.createdAt % NANOS_PER_MICROSECOND))
  }

  /** A row's own key is a query argument that nothing is dropped from. */
  lemma TruncatedKey(w: Widget)
    ensures Truncated(Some(Key(w))) == Some(Key(w))
  {
  }

  /** What lies below a truncated cursor lies below the cursor. */
  lemma TruncatedBelow(w: Widget, c: ListCursor)
    requires Below(Key(w), Truncated(Some(c)).value)
    ensures Below(Key(w), c)
  {
  }

  function Take<T>(s: seq<T>, n: nat): seq<T> { if |s| <= n then s else s[..n] }

  ghost predicate IsTop(rows: set<Widget>, top: Widget) {
    top in rows && forall w :: w in rows && w != top ==> Below(Key(w), Key(top))
  }

  /** ORDER BY created_at DESC, id DESC. */
  ghost function Sorted(rows: set<Widget>): (s: seq<Widget>)
    requires UniqueIds(rows)
    ensures Descending(s) && Elements(s) == rows && |s| == |rows|
    decreases |rows|
  {
    if rows == {} then []
    else
      TopExists(rows);
      var top :| IsTop(rows, top);
      var rest := Sorted(rows - {top});
      PrependTop(rows, top, rest);
      [top] + rest
  }

  /** One run of a list query over a snapshot of the table. */
  ghost function Select(rows: set<Widget>, cursor: Option<ListCursor>, limit: nat): seq<Widget>
    requires UniqueIds(rows)
  {
    Take(Sorted(After(rows, cursor)), limit)
  }

  // ---- Laws ----

  lemma {:induction false} TopExists(rows: set<Widget>)
    requires rows != {} && UniqueIds(rows)
    ensures exists top :: IsTop(rows, top)
    decreases |rows|
  {
    var w :| w in rows;
    if rows == {w} {
      assert IsTop(rows, w);
    } else {
      assert rows - {w} != {};
      TopExists(rows - {w});
      var top :| IsTop(rows - {w}, top);
      assert w.id != top.id;
      assert IsTop(rows, if Below(Key(w), Key(top)) then top else w);
    }
  }

  lemma PrependTop(rows: set<Widget>, top: Widget, rest: seq<Widget>)
    requires IsTop(rows, top) && Descending(rest) && Elements(rest) == rows - {top}
    ensures Descending([top] + rest) && Elements([top] + rest) == rows
  {
    var s := [top] + rest;
    forall i, j | 0 <= i < j < |s|
      ensures Below(Key(s[j]), Key(s[i]))
    {
      assert s[j] == rest[j - 1] && rest[j - 1] in Elements(rest);
    }
    forall w
      ensures w in s <==> w in rows
    {
      assert w in s <==> w == top || w in Elements(rest);
    }
  }

  lemma EmptyElements(s: seq<Widget>)
    ensures Elements(s) == {} <==> s == []
  {
    if s != [] {
      assert s[0] in Elements(s);
    }
  }

  /** Descending is newest first, and of one time the highest identifier first. */
  lemma DescendingExactly(s: seq<Widget>)
    ensures Descending(s) <==>
            forall i, j :: 0 <= i < j < |s| ==>
              s[j].createdAt < s[i].createdAt || (s[j].createdAt == s[i].createdAt && s[j].id < s[i].id)
  {
  }

  /** A set of rows has only one descending listing. */
  lemma {:induction false} DescendingUnique(s: seq<Widget>, t: seq<Widget>)
    requires Descending(s) && Descending(t) && Elements(s) == Elements(t)
    ensures s == t
  {
    EmptyElements(s);
    EmptyElements(t);
    if s != [] {
      assert s[0] in Elements(t) && t[0] in Elements(s);
      assert s[0] == t[0];
      DescendingTail(s);
      DescendingTail(t);
      DescendingUnique(s[1..], t[1..]);
      assert s == [s[0]] + s[1..] && t == [t[0]] + t[1..];
    }
  }

  lemma DescendingTail(s: seq<Widget>)
    requires Descending(s) && s != []
    ensures Descending(s[1..]) && Elements(s[1..]) == Elements(s) - {s[0]}
  {
    forall w
      ensures w in s[1..] <==> w in s && w != s[0]
    {
      if w in s && w != s[0] {
        var i :| 0 <= i < |s| && s[i] == w;
        assert s[1..][i - 1] == w;
      }
      if w in s[1..] {
        var i :| 0 <= i < |s[1..]| && s[1..][i] == w;
        assert s[i + 1] == w && Below(Key(s[i + 1]), Key(s[0]));
      }
    }
  }

  lemma SortedIs(rows: set<Widget>, s: seq<Widget>)
    requires UniqueIds(rows) && Descending(s) && Elements(s) == rows
    ensures Sorted(rows) == s
  {
    DescendingUnique(Sorted(rows), s);
  }

  lemma AfterUnique(rows: set<Widget>, cursor: Option<ListCursor>)
    requires UniqueIds(rows)
    ensures UniqueIds(After(rows, cursor))
  {
  }

  /** Dropping the first k of a descending listing leaves the rows below the k-th. */
  lemma DescendingDrop(s: seq<Widget>, k: nat)
    requires Descending(s) && 0 < k <= |s|
    ensures Descending(s[k..])
    ensures Elements(s[k..]) == After(Elements(s), Some(Key(s[k - 1])))
  {
    forall w
      ensures w in s[k..] <==> w in s && Below(Key(w), Key(s[k - 1]))
    {
      if w in s[k..] {
        var i :| 0 <= i < |s[k..]| && s[k..][i] == w;
        assert s[k + i] == w;
      }
      if w in s && Below(Key(w), Key(s[k - 1])) {
        var i :| 0 <= i < |s| && s[i] == w;
        assert i >= k;
        assert s[k..][i - k] == w;
      }
    }
  }

  /** The rows below the last listed row are exactly the rest of the listing. */
  lemma RestOfListing(rows: set<Widget>, cursor: Option<ListCursor>, k: nat)
    requires UniqueIds(rows)
    requires 0 < k <= |Sorted(After(rows, cursor))|
    ensures var all := Sorted(After(rows, cursor));
            Sorted(After(rows, Some(Key(all[k - 1])))) == all[k..]
  {
    AfterUnique(rows, cursor);
    hide Sorted, UniqueIds, Descending;
    var all := Sorted(After(rows, cursor));
    var last := all[k - 1];
    DescendingDrop(all, k);
    assert last in Elements(all);
    AfterAfter(rows, cursor, last);
    AfterUnique(rows, Some(Key(last)));
    SortedIs(After(rows, Some(Key(last))), all[k..]);
  }

  lemma AfterAfter(rows: set<Widget>, cursor: Option<ListCursor>, w: Widget)
    requires w in After(rows, cursor)
    ensures After(After(rows, cursor), Some(Key(w))) == After(rows, Some(Key(w)))
  {
  }
}
