/** A walk as its client sees it: requests with a limit text and the cursor text
    of the page before, while others write to the table. */
module TextWalk {
  import opened Wrappers
  import opened Cursor
  import opened Listing
  import opened Table
  import opened Service
  import opened ListEndpoint
  import Failures
  import Walk

  /** A writer's step, or a request; failure is what the database returned to it
      instead of rows. */
  datatype Event = Write(event: Walk.Event) | Request(limit: string, failure: Option<Failures.Error>)

  /** The table, the creation time of every identifier handed out, the text that
      the client will send next, whether it has reached the end, the responses it
      has got, and the keys of the rows that each listed page was read from. */
  datatype State = State(
    rows: map<int, Widget>,
    born: map<int, Timestamp>,
    text: string,
    done: bool,
    responses: seq<Response>,
    snapshots: seq<set<ListCursor>>)

  /** What a writer sees of the state. */
  function Writers(s: State): Walk.State { Walk.State(s.rows, s.born, None, false, [], []) }

  function Items(s: State): seq<Widget> { AllItems(s.responses) }

  ghost predicate Initial(s: State) {
    Walk.Initial(Writers(s)) && s.text == "" && !s.done && s.responses == [] && s.snapshots == []
  }

  predicate Enabled(s: State, e: Event) {
    match e
    case Write(event) => !event.Read? && Walk.Enabled(Writers(s), event)
    case Request(_, _) => !s.done
  }

  /** The client follows each cursor it is handed; after any other response, be it
      refused or failed, it may send the same cursor again. */
  ghost function Step(s: State, e: Event, general: GeneralParser): State
    requires Keyed(s.rows)
  {
    match e
    case Write(event) =>
      var t := Walk.Step(Writers(s), event);
      s.(rows := t.rows, born := t.born)
    case Request(limit, failure) =>
      RowSetUnique(s.rows);
      var response := Respond(RowSet(s.rows), limit, s.text, general, failure);
      var t := s.(responses := s.responses + [response]);
      if !response.Listed? then t
      else
        t.(text := if response.nextCursor.Some? then response.nextCursor.value else "",
           done := response.nextCursor.None?,
           snapshots := s.snapshots + [Walk.Keys(RowSet(s.rows))])
  }

  ghost predicate IsRun(states: seq<State>, events: seq<Event>, general: GeneralParser) {
    && |states| == |events| + 1
    && Initial(states[0])
    && forall i :: 0 <= i < |events| ==>
         && Keyed(states[i].rows) && Enabled(states[i], events[i])
         && states[i + 1] == Step(states[i], events[i], general)
  }

  /** A request that is answered with a page. */
  ghost predicate Shows(s: State, e: Event, general: GeneralParser) {
    e.Request? && Keyed(s.rows)
    && (RowSetUnique(s.rows); Respond(RowSet(s.rows), e.limit, s.text, general, e.failure).Listed?)
  }

  /** The walk that the client makes: it stands at the last item it was shown. */
  function AsWalk(s: State): Walk.State {
    var items := Items(s);
    Walk.State(s.rows, s.born, if s.text == "" || items == [] then None else Some(Key(items[|items| - 1])),
               s.done, items, s.snapshots)
  }

  /** The walk's step that an event is: a page shown is the next read, and any
      other request a read that is refused and changes nothing. */
  ghost function WalkEvent(s: State, e: Event, general: GeneralParser): Walk.Event {
    match e
    case Write(event) => event
    case Request(limit, _) =>
      Walk.Read(if Shows(s, e, general) && ListLimit(limit).Some? then ListLimit(limit).value else MAXIMUM_LIST_LIMIT + 1)
  }

  /** The text the client holds stands for the walk's position. */
  ghost predicate Inv(s: State) { Walk.Inv(AsWalk(s)) && TextOf(s.text, AsWalk(s).cursor) }

  // ---- Every run of requests is a walk ----

  lemma {:induction false} AllItemsAppend(responses: seq<Response>, last: Response)
    ensures AllItems(responses + [last]) == AllItems(responses) + if last.Listed? then last.items else []
  {
    if responses == [] {
      assert [last][1..] == [] && responses + [last] == [last];
    } else {
      AllItemsAppend(responses[1..], last);
      assert (responses + [last])[1..] == responses[1..] + [last];
    }
  }

  lemma WalkKeyed(w: Walk.State)
    requires Walk.Inv(w)
    ensures Keyed(w.rows) && Walk.Positioned(w)
  {
  }

  lemma RefusedChangesNothing(w: Walk.State)
    requires Keyed(w.rows)
    ensures Walk.Step(w, Walk.Read(MAXIMUM_LIST_LIMIT + 1)) == w
  {
    hide PageOf, Keyed;
  }

  lemma ShownSimulates(s: State, e: Event, general: GeneralParser)
    requires Inv(s) && Enabled(s, e) && Shows(s, e, general)
    ensures AsWalk(Step(s, e, general)) == Walk.Step(AsWalk(s), WalkEvent(s, e, general))
    ensures Inv(Step(s, e, general))
  {
    hide Walk.Inv, Walk.Step, TextOf, Respond, AllItems, UniqueIds, RowSet, Keyed, ListLimit, PageResponse, DecodeListCursor;
    var w, rows := AsWalk(s), RowSet(s.rows);
    RowSetUnique(s.rows);
    var size, position := ListedPage(rows, e.limit, s.text, general, e.failure);
    RequestIsRead(w, e.limit, s.text, general);
    var response := Respond(rows, e.limit, s.text, general, None);
    AllItemsAppend(s.responses, response);
    Walk.ReadKeepsInv(w, size);
    var v := Walk.Step(w, Walk.Read(size));
    WalkKeyed(v);
    if v.cursor.Some? {
      assert response.nextCursor.value != "" by { TextNonempty(response.nextCursor.value, v.cursor.value); }
    } else {
      assert TextOf("", None) by { NoText(); }
    }
  }

  lemma NoText()
    ensures TextOf("", None)
  {
  }

  lemma TextNonempty(text: string, c: ListCursor)
    requires TextOf(text, Some(c))
    ensures text != ""
  {
    hide EncodeListCursor;
    EncodedForm(c);
  }

  lemma StepSimulates(s: State, e: Event, general: GeneralParser)
    requires Inv(s) && Keyed(s.rows) && Enabled(s, e)
    ensures Walk.Enabled(AsWalk(s), WalkEvent(s, e, general))
    ensures AsWalk(Step(s, e, general)) == Walk.Step(AsWalk(s), WalkEvent(s, e, general))
    ensures Inv(Step(s, e, general))
  {
    hide Walk.Inv, TextOf, Respond, AllItems, UniqueIds, RowSet, Keyed, ListLimit, PageOf;
    if Shows(s, e, general) {
      ShownSimulates(s, e, general);
    } else if e.Request? {
      RowSetUnique(s.rows);
      RefusedChangesNothing(AsWalk(s));
      AllItemsAppend(s.responses, Respond(RowSet(s.rows), e.limit, s.text, general, e.failure));
    } else {
      Walk.WriteKeepsInv(AsWalk(s), e.event);
    }
  }

  lemma StartSimulates(s: State)
    requires Initial(s)
    ensures Walk.Initial(AsWalk(s)) && Inv(s)
  {
    assert Walk.Complete(AsWalk(s));
  }

  lemma {:induction false} RunKeepsInv(states: seq<State>, events: seq<Event>, n: nat, general: GeneralParser)
    requires IsRun(states, events, general) && n <= |events|
    ensures Inv(states[n])
  {
    hide Step, Initial, Enabled, Inv;
    if n == 0 {
      StartSimulates(states[0]);
    } else {
      RunKeepsInv(states, events, n - 1, general);
      StepSimulates(states[n - 1], events[n - 1], general);
    }
  }

  /** However requests and writes interleave, the client makes a walk, event by
      event. */
  lemma RunSimulates(states: seq<State>, events: seq<Event>, general: GeneralParser)
    requires IsRun(states, events, general)
    ensures Walk.IsRun(seq(|states|, i requires 0 <= i < |states| => AsWalk(states[i])),
                       seq(|events|, i requires 0 <= i < |events| && i < |states| => WalkEvent(states[i], events[i], general)))
  {
    hide Step, Initial, Enabled, Inv, AsWalk, WalkEvent, Walk.Step, Walk.Initial, Walk.Enabled, Keyed;
    StartSimulates(states[0]);
    forall i | 0 <= i < |events|
      ensures Keyed(AsWalk(states[i]).rows) && Walk.Enabled(AsWalk(states[i]), WalkEvent(states[i], events[i], general))
      ensures AsWalk(states[i + 1]) == Walk.Step(AsWalk(states[i]), WalkEvent(states[i], events[i], general))
    {
      RunKeepsInv(states, events, i, general);
      SameRows(states[i]);
      StepSimulates(states[i], events[i], general);
    }
  }

  lemma SameRows(s: State)
    ensures AsWalk(s).rows == s.rows && AsWalk(s).born == s.born
  {
  }

  // ---- What the client gets ----

  /** The client has gone past a key: it is done, or the cursor text it holds is
      decoded to a position that the key does not lie below. */
  ghost predicate Passed(s: State, k: ListCursor, general: GeneralParser) {
    || s.done
    || exists c :: DecodeListCursor(s.text, general) == Ok(Some(c)) && !Below(k, c)
  }

  /** A row's key was in every snapshot that the client was shown a page of. */
  ghost predicate Stable(s: State, k: ListCursor) {
    s.snapshots != [] && forall i :: 0 <= i < |s.snapshots| ==> k in s.snapshots[i]
  }

  ghost predicate ShownOnlyAt(items: seq<Widget>, k: ListCursor, i: int) {
    && 0 <= i < |items| && Key(items[i]) == k
    && forall j :: 0 <= j < |items| && j != i ==> Key(items[j]) != k
  }

  /** The promise of the endpoint. Requests with any limit texts, refused, failing
      or not, interleave with any writes: the items of the listed responses, one
      after another, are strictly descending, repeat no identifier, and contain
      exactly once each row that was in every snapshot shown and that the client
      has gone past. */
  lemma ClientSeesStableRowsOnce(states: seq<State>, events: seq<Event>, general: GeneralParser)
    requires IsRun(states, events, general)
    ensures var s := states[|events|];
            && Descending(Items(s))
            && (forall i, j :: 0 <= i < j < |Items(s)| ==>
                  var a, b := Items(s)[i], Items(s)[j];
                  a.id != b.id && (b.createdAt < a.createdAt || (b.createdAt == a.createdAt && b.id < a.id)))
            && (forall w :: w in Items(s) ==> exists i :: 0 <= i < |s.snapshots| && Key(w) in s.snapshots[i])
            && (forall k :: Stable(s, k) && Passed(s, k, general) ==> exists i :: ShownOnlyAt(Items(s), k, i))
  {
    hide Walk.IsRun, Step, Walk.Step, AllItems, DecodeListCursor, Descending, WalkEvent, Keyed, Walk.Inv;
    var s := states[|events|];
    var w := AsWalk(s);
    RunSimulates(states, events, general);
    RunKeepsInv(states, events, |events|, general);
    Walk.WalkShowsStableRowsOnce(seq(|states|, i requires 0 <= i < |states| => AsWalk(states[i])),
                                 seq(|events|, i requires 0 <= i < |events| && i < |states| => WalkEvent(states[i], events[i], general)));
    forall k | Stable(s, k) && Passed(s, k, general)
      ensures exists i :: ShownOnlyAt(Items(s), k, i)
    {
      PassedInWalk(s, k, general);
      assert Walk.Stable(w, k);
      var i :| Walk.ShownOnlyAt(w, k, i);
      assert ShownOnlyAt(Items(s), k, i);
    }
  }

  lemma PassedInWalk(s: State, k: ListCursor, general: GeneralParser)
    requires Inv(s) && Passed(s, k, general)
    ensures Walk.Passed(AsWalk(s), k)
  {
    hide AllItems, EncodeListCursor, DecodeListCursor;
    WalkKeyed(AsWalk(s));
    if !s.done && AsWalk(s).cursor.Some? {
      DecodeEncode(AsWalk(s).cursor.value, general);
    }
  }

  predicate Answerable(e: Event) { e.Request? && AcceptableLimit(e.limit) && e.failure.None? }

  /** How a client's request with an acceptable limit is answered that the database
      answers, whatever others wrote meanwhile: it is refused exactly if the client
      stands at an item of Go's zero time; otherwise it is answered 500 if the page
      has a row that cannot be written, and with the page if not. */
  lemma AnsweredExactly(states: seq<State>, events: seq<Event>, i: nat, general: GeneralParser)
    requires IsRun(states, events, general) && i < |events| && Answerable(events[i])
    ensures var s, t := states[i], states[i + 1];
            && |t.responses| == |s.responses| + 1
            && ListLimit(events[i].limit).Some?
            && var r := t.responses[|s.responses|];
               var read := Walk.Step(AsWalk(s), Walk.Read(ListLimit(events[i].limit).value));
               && (r == Failed(Failures.INVALID_PAGINATION) <==> RefusedPosition(AsWalk(s).cursor))
               && (!RefusedPosition(AsWalk(s).cursor) ==>
                     |Items(s)| <= |read.items|
                     && if AllWritable(read.items[|Items(s)|..]) then r.Listed? else r == Failed(Failures.INTERNAL_ERROR))
  {
    hide Walk.Inv, TextOf, Respond, AllItems, UniqueIds, RowSet, Keyed, ListLimit, Walk.Step, Walk.Enabled, Initial;
    RunKeepsInv(states, events, i, general);
    RequestIsRead(AsWalk(states[i]), events[i].limit, states[i].text, general);
  }

  /** And how one is answered for which the database fails, at any depth of wrapping:
      refused at the zero time all the same, otherwise 504 for a deadline, nothing
      for a cancellation and 500 for anything else. The client keeps its place. */
  lemma FailureAnsweredExactly(states: seq<State>, events: seq<Event>, i: nat, prefixes: seq<string>, root: Failures.Error,
                               general: GeneralParser)
    requires IsRun(states, events, general) && i < |events| && events[i].Request? && AcceptableLimit(events[i].limit)
    requires events[i].failure == Some(Failures.WrapAll(prefixes, root)) && !root.Wrapped? && root != Failures.InvalidPagination
    ensures var s, t := states[i], states[i + 1];
            && |t.responses| == |s.responses| + 1 && t.(responses := s.responses) == s
            && var r := t.responses[|s.responses|];
               if RefusedPosition(AsWalk(s).cursor) then r == Failed(Failures.INVALID_PAGINATION)
               else
                 && (root == Failures.DeadlineExceeded ==> r.Failed? && r.reply.status == 504)
                 && (root == Failures.Canceled ==> r == Unanswered)
                 && (root != Failures.DeadlineExceeded && root != Failures.Canceled ==> r.Failed? && r.reply.status == 500)
  {
    hide Walk.Inv, Respond, AllItems, UniqueIds, RowSet, ListLimit, Walk.Step, Walk.Enabled, Initial, EncodeListCursor,
         DecodeListCursor, Failures.WrapAll, Failures.Is;
    var s, e := states[i], events[i];
    RunKeepsInv(states, events, i, general);
    RowSetUnique(s.rows);
    if AsWalk(s).cursor.Some? {
      DecodeEncode(AsWalk(s).cursor.value, general);
    } else {
      NoTextDecoded(general);
    }
    Failures.IsThroughWrapping(prefixes, root, Failures.InvalidPagination);
    assert !Failures.Is(root, Failures.InvalidPagination) by { Unwrapped(root); }
    RefusedExactly(RowSet(s.rows), e.limit, s.text, general, e.failure);
    if !RefusedPosition(AsWalk(s).cursor) {
      FailureAnswered(RowSet(s.rows), e.limit, s.text, general, prefixes, root);
    }
  }

  lemma NoTextDecoded(general: GeneralParser)
    ensures DecodeListCursor("", general) == Ok(None)
  {
  }

  lemma Unwrapped(root: Failures.Error)
    requires !root.Wrapped? && root != Failures.InvalidPagination
    ensures !Failures.Is(root, Failures.InvalidPagination)
  {
  }

  lemma ReadWritable(w: Walk.State, limit: int)
    requires Walk.Inv(w) && !w.done && ValidPagination(ListOptions(limit, w.cursor))
    requires forall id :: id in w.rows ==> Writable(w.rows[id])
    ensures var t := Walk.Step(w, Walk.Read(limit));
            |w.items| <= |t.items| && AllWritable(t.items[|w.items|..])
  {
    hide PageOf, Writable, Descending, Walk.Complete, Walk.Genuine;
    var page := Walk.ReadPage(w, limit);
    assert (w.items + page.items)[|w.items|..] == page.items;
  }

  lemma NoRefusedPosition(w: Walk.State)
    requires Walk.Inv(w) && forall id :: id in w.born ==> !IsZero(w.born[id])
    ensures !RefusedPosition(w.cursor) && (w.cursor.Some? ==> w.cursor.value.id >= 1)
  {
    if w.cursor.Some? {
      assert w.items[|w.items| - 1] in w.items;
    }
  }

  /** So no cursor that was handed out is refused and no request fails, while no
      row was ever created at the zero time and all rows present can be written. */
  lemma NoCursorRefused(states: seq<State>, events: seq<Event>, i: nat, general: GeneralParser)
    requires IsRun(states, events, general) && i < |events| && Answerable(events[i])
    requires forall id :: id in states[i].born ==> !IsZero(states[i].born[id])
    requires forall id :: id in states[i].rows ==> Writable(states[i].rows[id])
    ensures var s, t := states[i], states[i + 1];
            |t.responses| == |s.responses| + 1 && t.responses[|s.responses|].Listed?
  {
    AnsweredExactly(states, events, i, general);
    hide Walk.Inv, TextOf, AllItems, Writable, IsZero, Step, Walk.Step, RefusedPosition, Initial, Walk.Enabled;
    RunKeepsInv(states, events, i, general);
    var w := AsWalk(states[i]);
    NoRefusedPosition(w);
    ListLimitBounds(events[i].limit);
    hide ListLimit;
    assert ValidPagination(ListOptions(ListLimit(events[i].limit).value, w.cursor)) by { ValidRead(events[i].limit, w.cursor); }
    ReadWritable(w, ListLimit(events[i].limit).value);
  }

  lemma ValidRead(limit: string, cursor: Option<ListCursor>)
    requires AcceptableLimit(limit) && !RefusedPosition(cursor) && (cursor.Some? ==> cursor.value.id >= 1)
    ensures ValidPagination(ListOptions(ListLimit(limit).value, cursor))
  {
    hide ListLimit;
    ListLimitBounds(limit);
  }

  // ---- Termination ----

  ghost predicate EndlessRun(states: nat -> State, events: nat -> Event, general: GeneralParser) {
    && Initial(states(0))
    && forall i: nat ::
         Keyed(states(i).rows) && Enabled(states(i), events(i)) && states(i + 1) == Step(states(i), events(i), general)
  }

  lemma {:induction false} EndlessInv(states: nat -> State, events: nat -> Event, n: nat, general: GeneralParser)
    requires EndlessRun(states, events, general)
    ensures Inv(states(n))
  {
    hide Step, Initial, Enabled, Inv;
    if n == 0 {
      StartSimulates(states(0));
    } else {
      EndlessInv(states, events, n - 1, general);
      assert states(n - 1 + 1) == Step(states(n - 1), events(n - 1), general);
      StepSimulates(states(n - 1), events(n - 1), general);
    }
  }

  /** A page shown is a read that the walk's service answered. */
  lemma ShownIsAnswered(s: State, e: Event, general: GeneralParser)
    requires Inv(s) && Enabled(s, e) && Shows(s, e, general)
    ensures Walk.Answered(AsWalk(s), WalkEvent(s, e, general))
  {
    hide Walk.Inv, Respond, AllItems, UniqueIds, RowSet, Keyed, ListLimit, PageResponse, DecodeListCursor, EncodeListCursor;
    RowSetUnique(s.rows);
    var size, position := ListedPage(RowSet(s.rows), e.limit, s.text, general, e.failure);
    RequestIsRead(AsWalk(s), e.limit, s.text, general);
    ListLimitBounds(e.limit);
    if AsWalk(s).cursor.Some? {
      PositiveIdentifier(AsWalk(s).cursor.value);
    }
  }

  ghost predicate NothingShownFrom(states: nat -> State, events: nat -> Event, n: nat, general: GeneralParser) {
    forall j: nat :: n <= j ==> !Shows(states(j), events(j), general)
  }

  /** Every client comes to an end: even if rows are inserted forever, and however
      often it is refused, it is shown only finitely many pages. */
  lemma ClientTerminates(states: nat -> State, events: nat -> Event, earliest: Timestamp, general: GeneralParser)
    requires EndlessRun(states, events, general)
    requires forall i: nat, id :: id in states(i).born ==> earliest <= states(i).born[id]
    ensures exists n: nat :: NothingShownFrom(states, events, n, general)
  {
    hide Step, Initial, Enabled, Inv, Walk.Step, Walk.Initial, Walk.Enabled, Walk.Answered, Shows, WalkEvent, Keyed, AsWalk;
    var walk: nat -> Walk.State := (i: nat) => AsWalk(states(i));
    var steps: nat -> Walk.Event := (i: nat) => WalkEvent(states(i), events(i), general);
    StartSimulates(states(0));
    forall i: nat
      ensures Keyed(walk(i).rows) && Walk.Enabled(walk(i), steps(i)) && walk(i + 1) == Walk.Step(walk(i), steps(i))
      ensures walk(i).born == states(i).born
      ensures Shows(states(i), events(i), general) ==> Walk.Answered(walk(i), steps(i))
    {
      EndlessInv(states, events, i, general);
      SameRows(states(i));
      StepSimulates(states(i), events(i), general);
      if Shows(states(i), events(i), general) {
        ShownIsAnswered(states(i), events(i), general);
      }
    }
    Walk.WalkTerminates(walk, steps, earliest);
    var n: nat :| !Walk.AnsweredFrom(walk, steps, n);
    assert NothingShownFrom(states, events, n, general);
  }
}
