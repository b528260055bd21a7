/** The list endpoint at the level of its texts: query parameters in, items and
    an opaque cursor out, and a client that follows the cursors it is given. */
module ListEndpoint {
  import opened Wrappers
  import opened Calendar
  import opened Cursor
  import opened Listing
  import opened Table
  import opened Service
  import opened Failures
  import Walk
  import Decimal

  const MINIMUM_LIST_LIMIT := 1

  datatype Response =
    | Listed(items: seq<Widget>, limit: int, nextCursor: Option<string>)
    | Failed(reply: Reply)
    | Unanswered

  /** The page size of the query, or None when the parameter is not acceptable. */
  function ListLimit(value: string): Option<int> {
    if value == "" then Some(DEFAULT_LIST_LIMIT)
    else
      match Decimal.ParseInt(value, 32)
      case None => None
      case Some(parsed) => if parsed < MINIMUM_LIST_LIMIT then None else Some(parsed)
  }

  /** A row whose times JSON can hold: time.Time refuses to be marshalled in a year
      outside 0 to 9999. */
  predicate Writable(w: Widget) { FourDigitYear(w.createdAt) && FourDigitYear(w.updatedAt) }

  predicate AllWritable(items: seq<Widget>) { forall w :: w in items ==> Writable(w) }

  /** The page as JSON, or the internal error when it cannot be encoded. */
  function PageResponse(page: Page): Response {
    if AllWritable(page.items)
    then Listed(page.items, page.limit, if page.nextCursor.None? then None else Some(EncodeListCursor(page.nextCursor.value)))
    else Failed(INTERNAL_ERROR)
  }

  function FailedWith(err: Error): Response {
    match OperationReply(ListWidgets, err)
    case None => Unanswered
    case Some(reply) => Failed(reply)
  }

  ghost function Respond(rows: set<Widget>, limit: string, cursor: string, general: GeneralParser, failure: Option<Error>): Response
    requires UniqueIds(rows)
  {
    match (ListLimit(limit), DecodeListCursor(cursor, general))
    case (Some(size), Ok(position)) => (
      match ListOutcome(rows, ListOptions(size, position), failure)
      case Err(err) => FailedWith(err)
      case Ok(page) => PageResponse(page)
    )
    case _ => Failed(INVALID_PAGINATION)
  }

  class Handler {
    const service: WidgetService

    constructor (service: WidgetService)
      ensures this.service == service
    {
      this.service := service;
    }

    method List(limit: string, cursor: string, general: GeneralParser, failure: Option<Error>) returns (response: Response)
      requires service.repository.table.Valid()
      ensures response == Respond(service.repository.table.Snapshot(), limit, cursor, general, failure)
    {
      hide Sorted, UniqueIds, DecodeListCursor, EncodeListCursor, ListOutcome, OperationReply, Decimal.ParseInt, Writable;
      var size := ListLimit(limit);
      if size.None? {
        return Failed(INVALID_PAGINATION);
      }
      var position := DecodeListCursor(cursor, general);
      if position.Err? {
        return Failed(INVALID_PAGINATION);
      }
      var listed := service.List(ListOptions(size.value, position.value), failure);
      match listed {
        case Err(err) => response := FailedWith(err);
        case Ok(page) =>
          var items := [];
          for i := 0 to |page.items|
            invariant items == page.items[..i]
          {
            items := items + [page.items[i]];
          }
          assert page.items[..|page.items|] == page.items;
          var nextCursor := None;
          if page.nextCursor.Some? {
            nextCursor := Some(EncodeListCursor(page.nextCursor.value));
          }
          response := if AllWritable(items) then Listed(items, page.limit, nextCursor) else Failed(INTERNAL_ERROR);
      }
    }
  }

  /** A client that asks for the first page and then for each page whose cursor
      it was handed, with one limit text per request, until there is no cursor
      or it has no more requests to make. */
  ghost function Follow(rows: set<Widget>, cursor: string, limits: seq<string>, general: GeneralParser): seq<Response>
    requires UniqueIds(rows)
    decreases |limits|
  {
    hide Respond;
    if limits == [] then []
    else
      var response := Respond(rows, limits[0], cursor, general, None);
      [response] +
      if response.Listed? && response.nextCursor.Some?
      then Follow(rows, response.nextCursor.value, limits[1..], general)
      else []
  }

  function AllItems(responses: seq<Response>): seq<Widget> {
    if responses == [] then []
    else (if responses[0].Listed? then responses[0].items else []) + AllItems(responses[1..])
  }

  /** The client reached the page without a cursor, and nothing failed on the way. */
  predicate Finished(responses: seq<Response>) {
    && responses != []
    && (forall i :: 0 <= i < |responses| ==> responses[i].Listed?)
    && responses[|responses| - 1].nextCursor.None?
  }

  ghost predicate StoredIds(rows: set<Widget>) { forall w :: w in rows ==> 1 <= w.id <= MAX_INT64 }

  ghost predicate RowBelow(rows: set<Widget>, w: Widget) { exists v :: v in rows && Below(Key(v), Key(w)) }

  /** Every row can be written, and none of Go's zero time has a row below it. */
  ghost predicate Listable(rows: set<Widget>) {
    && (forall w :: w in rows ==> Writable(w))
    && (forall w :: w in rows && IsZero(w.createdAt) ==> !RowBelow(rows, w))
  }

  predicate AcceptableLimit(value: string) {
    ListLimit(value).Some? && ListLimit(value).value <= MAXIMUM_LIST_LIMIT
  }

  /** A position, and the text that stands for it. */
  predicate TextOf(text: string, position: Option<ListCursor>) {
    match position
    case None => text == ""
    case Some(c) => Representable(c) && text == EncodeListCursor(c)
  }

  /** The service refuses a position at Go's zero time. */
  predicate RefusedPosition(position: Option<ListCursor>) { position.Some? && IsZero(position.value.createdAt) }

  // ---- Laws ----

  lemma ListLimitBounds(value: string)
    ensures ListLimit(value).Some? ==> ListLimit(value).value >= 1
  {
  }

  /** The decimal text of a limit is acceptable exactly from 1 to 100; zero,
      negative and oversized limits are not, and no text means the default. */
  lemma AcceptableLimitTexts(k: int)
    ensures AcceptableLimit(Decimal.FormatInt(k)) <==> 1 <= k <= MAXIMUM_LIST_LIMIT
    ensures AcceptableLimit(Decimal.FormatInt(k)) ==> ListLimit(Decimal.FormatInt(k)) == Some(k)
    ensures AcceptableLimit("") && ListLimit("") == Some(20)
  {
    hide Decimal.ParseInt, Decimal.FormatInt;
    Decimal.ParseFormatInt(k, 32);
    Int32Width(k);
    FormatIntNonempty(k);
  }

  /** A number behind an optional plus sign and leading zeros. */
  function LimitText(plus: bool, zeros: nat, n: nat): string {
    (if plus then "+" else "") + Decimal.Zeros(zeros) + Decimal.FormatInt(n)
  }

  lemma LimitTextRead(plus: bool, zeros: nat, n: nat)
    requires 1 <= n <= MAXIMUM_LIST_LIMIT
    ensures ListLimit(LimitText(plus, zeros, n)) == Some(n) && AcceptableLimit(LimitText(plus, zeros, n))
  {
    hide Decimal.FormatInt, Decimal.DigitsValue, Decimal.InSigned;
    Int32Width(n);
    assert Decimal.FormatInt(n) == Decimal.FormatUint(n) by { FormatIntOfNat(n); }
    Decimal.FormatUintValue(n);
    Decimal.LeadingZeros(zeros, Decimal.FormatUint(n));
    var digits, text := Decimal.Zeros(zeros) + Decimal.FormatInt(n), LimitText(plus, zeros, n);
    var sign := if plus then "+" else "";
    assert text == sign + digits;
    assert text[|sign|..] == digits;
    assert Decimal.IsDigit(digits[0]);
  }

  lemma FormatIntOfNat(n: nat)
    ensures Decimal.FormatInt(n) == Decimal.FormatUint(n)
  {
  }

  lemma AcceptableLimitDigits(value: string) returns (plus: bool, digits: string)
    requires value != "" && AcceptableLimit(value)
    ensures value == (if plus then "+" else "") + digits
    ensures digits != "" && Decimal.AllDigits(digits) && 1 <= Decimal.DigitsValue(digits) <= MAXIMUM_LIST_LIMIT
  {
    hide Decimal.DigitsValue, Decimal.InSigned;
    plus := value[0] == '+';
    digits := if plus then value[1..] else value;
  }

  lemma AcceptableLimitForm(value: string) returns (plus: bool, zeros: nat, n: nat)
    requires value != "" && AcceptableLimit(value)
    ensures 1 <= n <= MAXIMUM_LIST_LIMIT && value == LimitText(plus, zeros, n)
  {
    hide Decimal.FormatUint, Decimal.FormatInt, Decimal.DigitsValue, Decimal.AllDigits, Decimal.Zeros, AcceptableLimit;
    var digits;
    plus, digits := AcceptableLimitDigits(value);
    n := Decimal.DigitsValue(digits);
    Decimal.FormatDigits(digits);
    FormatIntOfNat(n);
    zeros := |digits| - |Decimal.FormatUint(n)|;
    SignedDigits(plus, Decimal.Zeros(zeros), Decimal.FormatInt(n));
  }

  lemma SignedDigits(plus: bool, zeros: string, number: string)
    ensures (if plus then "+" else "") + (zeros + number) == (if plus then "+" else "") + zeros + number
  {
  }

  /** Which limit texts are acceptable, of all texts: none at all, or a number
      from 1 to 100 behind an optional plus sign and any number of zeros. */
  lemma AcceptableLimitExactly(value: string)
    ensures AcceptableLimit(value) <==>
            value == "" || exists plus, zeros, n :: 1 <= n <= MAXIMUM_LIST_LIMIT && value == LimitText(plus, zeros, n)
  {
    AcceptableLimitTexts(1);
    hide AcceptableLimit, LimitText, ListLimit;
    if value != "" && AcceptableLimit(value) {
      var plus, zeros, n := AcceptableLimitForm(value);
    }
    forall plus, zeros, n: nat | 1 <= n <= MAXIMUM_LIST_LIMIT
      ensures AcceptableLimit(LimitText(plus, zeros, n))
    {
      LimitTextRead(plus, zeros, n);
    }
  }

  lemma FormatIntNonempty(k: int)
    ensures Decimal.FormatInt(k) != ""
  {
    Decimal.FormatUintValue(if k < 0 then -k else k);
  }

  lemma Int32Width(n: int)
    ensures 1 <= n <= MAXIMUM_LIST_LIMIT ==> Decimal.InSigned(n, 32)
  {
    assert Decimal.Pow2(7) == 0x80;
    PowGrows(7, 31);
  }

  lemma {:induction false} PowGrows(j: nat, k: nat)
    requires j <= k
    ensures Decimal.Pow2(j) <= Decimal.Pow2(k)
    decreases k
  {
    if j < k {
      PowGrows(j, k - 1);
    }
  }

  /** How a request at a position is answered, however fine the position: it is
      refused exactly at the zero time, and otherwise gets the page below what the
      driver leaves of the position, or 500 exactly if that page holds a row that
      cannot be written. */
  lemma RespondAt(rows: set<Widget>, limit: string, text: string, position: Option<ListCursor>, general: GeneralParser)
    requires UniqueIds(rows) && AcceptableLimit(limit) && TextOf(text, position)
    ensures ListLimit(limit).value >= 1
    ensures var page, r := PageOf(rows, ListLimit(limit).value, Truncated(position)), Respond(rows, limit, text, general, None);
            && (r == Failed(INVALID_PAGINATION) <==> RefusedPosition(position))
            && (r == Failed(INTERNAL_ERROR) <==> !RefusedPosition(position) && exists w :: w in page.items && !Writable(w))
            && (r.Listed? <==> !RefusedPosition(position) && AllWritable(page.items))
            && (r.Listed? ==> r == PageResponse(page))
  {
    hide Sorted, UniqueIds, PageOf, EncodeListCursor, Decimal.ParseInt, Representable, Truncated, Writable;
    ListLimitBounds(limit);
    if position.Some? {
      DecodeEncode(position.value, general);
      assert position.value.id >= 1 by { PositiveIdentifier(position.value); }
    }
    hide DecodeListCursor;
  }

  lemma PositiveIdentifier(c: ListCursor)
    requires Representable(c)
    ensures c.id >= 1
  {
  }

  /** A listed response is a page of its snapshot, all of it writable. */
  lemma ListedPage(rows: set<Widget>, limit: string, text: string, general: GeneralParser, failure: Option<Error>)
      returns (size: nat, position: Option<ListCursor>)
    requires UniqueIds(rows) && Respond(rows, limit, text, general, failure).Listed?
    ensures size > 0 && ListLimit(limit) == Some(size) && size <= MAXIMUM_LIST_LIMIT && failure.None?
    ensures DecodeListCursor(text, general) == Ok(position) && !RefusedPosition(position)
    ensures var page := PageOf(rows, size, Truncated(position));
            AllWritable(page.items) && Respond(rows, limit, text, general, failure) == PageResponse(page)
  {
    hide Sorted, UniqueIds, PageOf, EncodeListCursor, DecodeListCursor, Truncated, Writable, OperationReply;
    ListLimitBounds(limit);
    hide ListLimit;
    size, position := ListLimit(limit).value, DecodeListCursor(text, general).value;
  }

  /** A listed response in the words of the contract: it reports the limit that was
      asked for, 20 without a limit text, and holds no more items; these come newest
      first, of one time the highest identifier first, and below the cursor. */
  lemma ListedInOrder(rows: set<Widget>, limit: string, text: string, general: GeneralParser, failure: Option<Error>)
    requires UniqueIds(rows) && Respond(rows, limit, text, general, failure).Listed?
    ensures var r := Respond(rows, limit, text, general, failure);
            && 1 <= r.limit <= 100 && |r.items| <= r.limit
            && (limit == "" ==> r.limit == 20)
            && (forall plus, zeros, n :: 1 <= n <= 100 && limit == LimitText(plus, zeros, n) ==> r.limit == n)
            && (forall i, j :: 0 <= i < j < |r.items| ==>
                  var a, b := r.items[i], r.items[j];
                  b.createdAt < a.createdAt || (b.createdAt == a.createdAt && b.id < a.id))
            && DecodeListCursor(text, general).Ok?
            && (DecodeListCursor(text, general).value.Some? ==>
                  var c := DecodeListCursor(text, general).value.value;
                  forall w :: w in r.items ==> w.createdAt < c.createdAt || (w.createdAt == c.createdAt && w.id < c.id))
  {
    var size, position := ListedPage(rows, limit, text, general, failure);
    hide UniqueIds, PageOf, EncodeListCursor, DecodeListCursor, Truncated, Writable, Respond, LimitText, ListLimit;
    PageOrder(rows, size, position);
    AcceptableLimitTexts(size);
    forall plus, zeros, n | 1 <= n <= 100 && limit == LimitText(plus, zeros, n)
      ensures size == n
    {
      LimitTextRead(plus, zeros, n);
    }
  }

  // ---- Requests that fail ----

  /** A request whose limit or cursor is unacceptable is refused, and so is one at
      the zero time, whatever the database would have returned. */
  lemma RefusedExactly(rows: set<Widget>, limit: string, text: string, general: GeneralParser, failure: Option<Error>)
    requires UniqueIds(rows) && (failure.Some? ==> !Is(failure.value, InvalidPagination))
    ensures var decoded := DecodeListCursor(text, general);
            Respond(rows, limit, text, general, failure) == Failed(INVALID_PAGINATION)
            <==> !AcceptableLimit(limit) || decoded.Err? || RefusedPosition(decoded.value)
    ensures INVALID_PAGINATION.status == 400
  {
    ListLimitBounds(limit);
    if DecodeListCursor(text, general).Ok? && DecodeListCursor(text, general).value.Some? {
      DecodedIdentifier(text, general);
    }
    if failure.Some? {
      DomainErrorReply(ListWidgets, [], InvalidPagination);
      IsThroughWrapping(["list widgets", "select widgets"], failure.value, InvalidPagination);
    }
    hide Sorted, UniqueIds, PageOf, EncodeListCursor, DecodeListCursor, ListLimit, Truncated, Writable, WrapAll, Is;
  }

  /** How a failure of the database is answered, at any depth of wrapping: a
      deadline with 504, a cancellation with nothing, anything else with 500. */
  lemma FailureAnswered(rows: set<Widget>, limit: string, text: string, general: GeneralParser,
                        prefixes: seq<string>, root: Error)
    requires UniqueIds(rows) && AcceptableLimit(limit) && !root.Wrapped? && root != InvalidPagination
    requires DecodeListCursor(text, general).Ok? && !RefusedPosition(DecodeListCursor(text, general).value)
    ensures var r := Respond(rows, limit, text, general, Some(WrapAll(prefixes, root)));
            && (root == DeadlineExceeded ==> r.Failed? && r.reply.status == 504 && r.reply.code == "request_timeout")
            && (root == Canceled ==> r == Unanswered)
            && (root != DeadlineExceeded && root != Canceled ==>
                  r.Failed? && r.reply.status == 500 && r.reply.code == "internal_error")
  {
    ListLimitBounds(limit);
    if DecodeListCursor(text, general).value.Some? {
      DecodedIdentifier(text, general);
    }
    WrapJoin(["list widgets", "select widgets"], prefixes, root);
    if root == DeadlineExceeded || root == Canceled {
      ContextErrorReply(ListWidgets, ["list widgets", "select widgets"] + prefixes, root);
    } else {
      DomainErrorReply(ListWidgets, ["list widgets", "select widgets"] + prefixes, root);
    }
    hide Sorted, UniqueIds, PageOf, EncodeListCursor, DecodeListCursor, ListLimit, Truncated, Writable, WrapAll, OperationReply, Is;
  }

  /** What one request does to a walk over an unchanging table: it hands out the
      next rows, and its cursor text stands for the rows that are left. */
  lemma RequestAdvances(rows: set<Widget>, limit: string, text: string, position: Option<ListCursor>, general: GeneralParser)
      returns (next: Option<ListCursor>)
    requires UniqueIds(rows) && StoredIds(rows) && Listable(rows) && AcceptableLimit(limit)
    requires TextOf(text, position) && !RefusedPosition(position) && Truncated(position) == position
    ensures var all, k, r := Sorted(After(rows, position)), ListLimit(limit).value, Respond(rows, limit, text, general, None);
            && k >= 1 && r.Listed? && r.items == Take(all, k) && (r.nextCursor.Some? <==> |all| > k)
            && (|all| > k ==> r.nextCursor.Some? && TextOf(r.nextCursor.value, next) && Sorted(After(rows, next)) == all[k..])
    ensures !RefusedPosition(next) && Truncated(next) == next
  {
    hide Sorted, UniqueIds, Respond, EncodeListCursor, FourDigitYear, ListLimit, Truncated;
    AfterUnique(rows, position);
    ListLimitBounds(limit);
    RespondAt(rows, limit, text, position, general);
    var all, k := Sorted(After(rows, position)), ListLimit(limit).value;
    forall w | w in Take(all, k)
      ensures Writable(w)
    {
      assert w in Elements(all) && w in rows;
    }
    next := None;
    assert Truncated(None) == None by { TruncatedNone(); }
    if |all| > k {
      RestOfListing(rows, position, k);
      var last := all[k - 1];
      next := Some(Key(last));
      assert last in Elements(all) && last in rows;
      assert all[k] in Elements(all) && Below(Key(all[k]), Key(last)) && RowBelow(rows, last);
      TruncatedKey(last);
    }
  }

  lemma TruncatedNone()
    ensures Truncated(None) == None
  {
  }

  lemma {:induction false} FollowFrom(rows: set<Widget>, text: string, position: Option<ListCursor>, limits: seq<string>, general: GeneralParser)
    requires UniqueIds(rows) && StoredIds(rows) && Listable(rows)
    requires TextOf(text, position) && !RefusedPosition(position) && Truncated(position) == position
    requires forall i :: 0 <= i < |limits| ==> AcceptableLimit(limits[i])
    requires limits != [] && |limits| >= |Sorted(After(rows, position))|
    ensures var responses := Follow(rows, text, limits, general);
            Finished(responses) && AllItems(responses) == Sorted(After(rows, position))
    decreases |limits|
  {
    hide Sorted, UniqueIds, Respond, StoredIds, Listable, TextOf, RefusedPosition, Truncated, ListLimit;
    AfterUnique(rows, position);
    var next := RequestAdvances(rows, limits[0], text, position, general);
    hide AllItems, Finished;
    var all, k := Sorted(After(rows, position)), ListLimit(limits[0]).value;
    var response := Respond(rows, limits[0], text, general, None);
    if |all| > k {
      FollowFrom(rows, response.nextCursor.value, next, limits[1..], general);
      FinishedPrepend(response, Follow(rows, response.nextCursor.value, limits[1..], general));
      assert all == all[..k] + all[k..];
    } else {
      FinishedOnce(response);
    }
  }

  lemma FinishedPrepend(response: Response, rest: seq<Response>)
    requires response.Listed? && Finished(rest)
    ensures Finished([response] + rest) && AllItems([response] + rest) == response.items + AllItems(rest)
  {
    assert ([response] + rest)[1..] == rest;
  }

  lemma FinishedOnce(response: Response)
    requires response.Listed? && response.nextCursor.None?
    ensures Finished([response] + []) && AllItems([response] + []) == response.items
  {
    assert [response] + [] == [response];
    assert [response][1..] == [];
  }

  /** Limit texts for at least one request, and one for each row. */
  predicate Schedule(limits: seq<string>, rows: nat) {
    limits != [] && |limits| >= rows && forall i :: 0 <= i < |limits| ==> AcceptableLimit(limits[i])
  }

  /** The client gets the whole listing, every row once and in order. */
  ghost predicate ListsEverything(rows: set<Widget>, limits: seq<string>, general: GeneralParser)
    requires UniqueIds(rows)
  {
    var responses := Follow(rows, "", limits, general);
    Finished(responses) && AllItems(responses) == Sorted(rows)
  }

  /** End to end on an unchanging table: whatever limit each request asks for,
      following the cursor texts from the first page on yields the whole listing,
      within as many requests as there are rows. */
  lemma FollowListsEverything(rows: set<Widget>, limits: seq<string>, general: GeneralParser)
    requires UniqueIds(rows) && StoredIds(rows) && Listable(rows) && Schedule(limits, |rows|)
    ensures ListsEverything(rows, limits, general)
  {
    assert After(rows, None) == rows;
    FollowFrom(rows, "", None, limits, general);
  }

  // ---- Exactly which tables can be listed by following cursors ----

  lemma {:induction false} FollowedWritable(rows: set<Widget>, text: string, limits: seq<string>, general: GeneralParser)
    requires UniqueIds(rows)
    ensures AllWritable(AllItems(Follow(rows, text, limits, general)))
    decreases |limits|
  {
    hide Respond, UniqueIds, Writable;
    if limits != [] {
      var response := Respond(rows, limits[0], text, general, None);
      var rest := Follow(rows, text, limits, general)[1..];
      assert AllWritable(AllItems(rest)) by {
        if response.Listed? && response.nextCursor.Some? {
          FollowedWritable(rows, response.nextCursor.value, limits[1..], general);
        }
      }
      if response.Listed? {
        var size, position := ListedPage(rows, limits[0], text, general, None);
      }
    }
  }

  /** A response that shows a row of the zero time above another, one row to the
      page, hands out a cursor that the next request is refused for. */
  lemma ZeroTimeEndsWalk(rows: set<Widget>, z: Widget, text: string, general: GeneralParser)
    requires UniqueIds(rows) && StoredIds(rows) && z in rows && IsZero(z.createdAt) && RowBelow(rows, z)
    requires var r := Respond(rows, "1", text, general, None); r.Listed? && z in r.items
    ensures var r := Respond(rows, "1", text, general, None);
            r.nextCursor.Some? && Respond(rows, "1", r.nextCursor.value, general, None) == Failed(INVALID_PAGINATION)
  {
    hide Respond, UniqueIds, PageOf, Writable, EncodeListCursor;
    LimitOne();
    var size, position := ListedPage(rows, "1", text, general, None);
    var page := PageOf(rows, size, Truncated(position));
    NextCursorExactly(rows, size, Truncated(position));
    assert page.items[0] == z;
    assert TextOf(EncodeListCursor(Key(z)), Some(Key(z))) by { ZeroTimeRepresentable(z); }
    RespondAt(rows, "1", EncodeListCursor(Key(z)), Some(Key(z)), general);
  }

  lemma LimitOne()
    ensures AcceptableLimit("1") && ListLimit("1") == Some(1)
  {
    AcceptableLimitTexts(1);
    assert Decimal.FormatInt(1) == "1";
  }

  lemma ZeroTimeRepresentable(z: Widget)
    requires IsZero(z.createdAt) && 1 <= z.id <= MAX_INT64
    ensures Representable(Key(z))
  {
  }

  lemma {:induction false} NoWalkPastZeroTime(rows: set<Widget>, z: Widget, text: string, limits: seq<string>, general: GeneralParser)
    requires UniqueIds(rows) && StoredIds(rows) && z in rows && IsZero(z.createdAt) && RowBelow(rows, z)
    requires forall i :: 0 <= i < |limits| ==> limits[i] == "1"
    ensures var responses := Follow(rows, text, limits, general);
            !(Finished(responses) && z in AllItems(responses))
    decreases |limits|
  {
    hide Respond, UniqueIds, StoredIds, RowBelow, IsZero, EncodeListCursor, Follow, AllItems, Finished;
    if limits == [] {
      NothingFollowed(rows, text, general);
    } else if Finished(Follow(rows, text, limits, general)) {
      var response := Respond(rows, limits[0], text, general, None);
      FinishedTail(rows, text, limits, general);
      if response.nextCursor.Some? {
        NoWalkPastZeroTime(rows, z, response.nextCursor.value, limits[1..], general);
      }
      assert AllItems([]) == [] by { NoItems(); }
      if z in response.items {
        ZeroTimeEndsWalk(rows, z, text, general);
      }
    }
  }

  lemma NoItems()
    ensures AllItems([]) == []
  {
  }

  lemma NothingFollowed(rows: set<Widget>, text: string, general: GeneralParser)
    requires UniqueIds(rows)
    ensures !Finished(Follow(rows, text, [], general))
  {
  }

  /** What comes after the first response of a walk that reaches its end. */
  lemma FinishedTail(rows: set<Widget>, text: string, limits: seq<string>, general: GeneralParser)
    requires UniqueIds(rows) && limits != [] && Finished(Follow(rows, text, limits, general))
    ensures var r := Respond(rows, limits[0], text, general, None);
            && r.Listed?
            && (r.nextCursor.None? ==> AllItems(Follow(rows, text, limits, general)) == r.items + AllItems([]))
            && (r.nextCursor.Some? ==>
                  var rest := Follow(rows, r.nextCursor.value, limits[1..], general);
                  && AllItems(Follow(rows, text, limits, general)) == r.items + AllItems(rest)
                  && Finished(rest)
                  && |limits| > 1 && Respond(rows, limits[1], r.nextCursor.value, general, None).Listed?)
  {
    hide Respond, UniqueIds, AllItems, Finished;
    var r := Respond(rows, limits[0], text, general, None);
    var rest := if r.Listed? && r.nextCursor.Some? then Follow(rows, r.nextCursor.value, limits[1..], general) else [];
    TailOf(r, rest);
  }

  lemma TailOf(response: Response, rest: seq<Response>)
    requires Finished([response] + rest)
    ensures response.Listed? && AllItems([response] + rest) == response.items + AllItems(rest)
    ensures rest == [] ==> response.nextCursor.None?
    ensures rest != [] ==> Finished(rest) && rest[0].Listed?
  {
    var responses := [response] + rest;
    assert responses[0] == response && responses[1..] == rest;
    assert forall i :: 0 <= i < |rest| ==> rest[i] == responses[i + 1];
  }

  /** A table that is not listable has a schedule of limits that fails on it. */
  lemma UnlistableFails(rows: set<Widget>, general: GeneralParser) returns (limits: seq<string>)
    requires UniqueIds(rows) && StoredIds(rows) && !Listable(rows)
    ensures Schedule(limits, |rows|) && !ListsEverything(rows, limits, general)
  {
    hide UniqueIds, StoredIds, Sorted, Writable, IsZero, RowBelow, Follow, AllItems, Finished, AcceptableLimit, ListLimit;
    limits := seq(|rows| + 1, _ => "1");
    LimitOne();
    var items := AllItems(Follow(rows, "", limits, general));
    FollowedWritable(rows, "", limits, general);
    if items == Sorted(rows) {
      assert forall w :: w in rows ==> w in Elements(items);
      var z :| z in rows && IsZero(z.createdAt) && RowBelow(rows, z);
      NoWalkPastZeroTime(rows, z, "", limits, general);
      assert z in Elements(items);
    }
  }

  /** Following the cursors lists everything, whatever limits are asked for, if and
      only if every row can be written and no row of the zero time has one below. */
  lemma FollowListsEverythingExactly(rows: set<Widget>, general: GeneralParser)
    requires UniqueIds(rows) && StoredIds(rows)
    ensures (forall limits :: Schedule(limits, |rows|) ==> ListsEverything(rows, limits, general)) <==> Listable(rows)
  {
    hide UniqueIds, StoredIds, Listable, ListsEverything, Schedule;
    if Listable(rows) {
      forall limits | Schedule(limits, |rows|)
        ensures ListsEverything(rows, limits, general)
      {
        FollowListsEverything(rows, limits, general);
      }
    } else {
      var limits := UnlistableFails(rows, general);
    }
  }

  /** c is n / k rounded up, but never less than one. */
  predicate PagesFor(n: nat, k: nat, c: nat) {
    if n == 0 then c == 1 else (c - 1) * k < n <= c * k
  }

  lemma OneMorePage(n: nat, k: nat, c: nat)
    requires 0 < k < n && PagesFor(n - k, k, c)
    ensures PagesFor(n, k, c + 1)
  {
    assert (c + 1) * k == c * k + k && (c - 1) * k == c * k - k;
  }

  lemma {:induction false} FollowCountFrom(rows: set<Widget>, text: string, position: Option<ListCursor>,
                                           limits: seq<string>, k: nat, general: GeneralParser)
    requires UniqueIds(rows) && StoredIds(rows) && Listable(rows) && k > 0
    requires TextOf(text, position) && !RefusedPosition(position) && Truncated(position) == position
    requires forall i :: 0 <= i < |limits| ==> AcceptableLimit(limits[i]) && ListLimit(limits[i]).value == k
    requires limits != [] && |limits| >= |Sorted(After(rows, position))|
    ensures PagesFor(|Sorted(After(rows, position))|, k, |Follow(rows, text, limits, general)|)
    decreases |limits|
  {
    hide Sorted, UniqueIds, Respond, StoredIds, Listable, TextOf, RefusedPosition, Truncated, ListLimit;
    AfterUnique(rows, position);
    var next := RequestAdvances(rows, limits[0], text, position, general);
    var n := |Sorted(After(rows, position))|;
    var response := Respond(rows, limits[0], text, general, None);
    if n > k {
      hide PagesFor;
      FollowCountFrom(rows, response.nextCursor.value, next, limits[1..], k, general);
      OneMorePage(n, k, |Follow(rows, response.nextCursor.value, limits[1..], general)|);
    }
  }

  /** With one fixed limit the client makes exactly max(1, ceil(n / k)) requests:
      a full last page is recognised as the last, and no empty page follows. */
  lemma FollowCountsRequests(rows: set<Widget>, limits: seq<string>, k: nat, general: GeneralParser)
    requires UniqueIds(rows) && StoredIds(rows) && Listable(rows) && k > 0
    requires forall i :: 0 <= i < |limits| ==> AcceptableLimit(limits[i]) && ListLimit(limits[i]).value == k
    requires limits != [] && |limits| >= |rows|
    ensures PagesFor(|rows|, k, |Follow(rows, "", limits, general)|)
  {
    assert After(rows, None) == rows;
    FollowCountFrom(rows, "", None, limits, k, general);
  }

  // ---- Which cursors are taken back ----

  /** The text of a row's key, whoever made it, is refused exactly if the row's
      creation time has no four-digit year or is Go's zero time. */
  lemma NextCursorAccepted(rows: set<Widget>, last: Widget, limit: string, general: GeneralParser)
    requires UniqueIds(rows) && AcceptableLimit(limit) && 1 <= last.id <= MAX_INT64
    requires RefusesLongYears(general)
    ensures Respond(rows, limit, EncodeListCursor(Key(last)), general, None) == Failed(INVALID_PAGINATION)
            <==> !FourDigitYear(last.createdAt) || IsZero(last.createdAt)
  {
    hide Sorted, UniqueIds, PageOf, EncodeListCursor, DecodeListCursor, RefusesLongYears, ListLimit, Respond, FourDigitYear;
    if FourDigitYear(last.createdAt) {
      RespondAt(rows, limit, EncodeListCursor(Key(last)), Some(Key(last)), general);
    } else {
      DecodeEncodeOutcome(Key(last), general);
      UndecodedRefused(rows, limit, EncodeListCursor(Key(last)), general);
    }
  }

  lemma UndecodedRefused(rows: set<Widget>, limit: string, text: string, general: GeneralParser)
    requires UniqueIds(rows) && DecodeListCursor(text, general).Err?
    ensures Respond(rows, limit, text, general, None) == Failed(INVALID_PAGINATION)
  {
  }

  /** Of the cursors that this server hands out it refuses exactly those at Go's
      zero time, whatever the table holds by then: a page with a time that no
      cursor could carry is not encoded in the first place. */
  lemma HandedOutRefusedExactly(rows: set<Widget>, limit: string, text: string, general: GeneralParser,
                                failure: Option<Error>, later: set<Widget>, nextLimit: string)
    requires UniqueIds(rows) && StoredIds(rows) && UniqueIds(later) && AcceptableLimit(nextLimit)
    requires var r := Respond(rows, limit, text, general, failure); r.Listed? && r.nextCursor.Some?
    ensures var r := Respond(rows, limit, text, general, failure);
            && r.items != []
            && (Respond(later, nextLimit, r.nextCursor.value, general, None) == Failed(INVALID_PAGINATION)
                <==> IsZero(r.items[|r.items| - 1].createdAt))
  {
    hide Sorted, UniqueIds, PageOf, EncodeListCursor, DecodeListCursor, ListLimit, Respond, FourDigitYear, After;
    var size, position := ListedPage(rows, limit, text, general, failure);
    var page := PageOf(rows, size, Truncated(position));
    NextCursorExactly(rows, size, Truncated(position));
    var last := page.items[|page.items| - 1];
    assert last in Elements(page.items) && last in rows by { AfterWithin(rows, Truncated(position)); }
    RespondAt(later, nextLimit, EncodeListCursor(Key(last)), Some(Key(last)), general);
  }

  lemma AfterWithin(rows: set<Widget>, cursor: Option<ListCursor>)
    ensures After(rows, cursor) <= rows
  {
  }

  /** The first instant of year 10000. */
  const YEAR_10000: Timestamp := 3_652_059 * SECONDS_PER_DAY * NANOS_PER_SECOND

  /** Two rows of one creation time. */
  function TwinA(createdAt: Timestamp): Widget { Widget(1, "a", createdAt, createdAt) }

  function TwinB(createdAt: Timestamp): Widget { Widget(2, "b", createdAt, createdAt) }

  /** Two walks that are cut short, one row to the page. Over rows created at Go's
      zero time, the first page hands out a cursor that the second request is
      refused for; over rows created in year 10000, the first page already cannot
      be encoded. */
  lemma WalksCutShort(createdAt: Timestamp, general: GeneralParser)
    requires createdAt == YEAR_10000 || createdAt == 0
    ensures var a, b := TwinA(createdAt), TwinB(createdAt);
            && UniqueIds({a, b})
            && Follow({a, b}, "", ["1", "1"], general)
               == if createdAt == 0 then [Listed([b], 1, Some(EncodeListCursor(Key(b)))), Failed(INVALID_PAGINATION)]
                  else [Failed(INTERNAL_ERROR)]
  {
    hide Sorted, EncodeListCursor, DecodeListCursor, FourDigitYear, ListLimit, Respond, Truncated, PageOf;
    var a, b := TwinA(createdAt), TwinB(createdAt);
    var rows := {a, b};
    LimitOne();
    FirstTwin(createdAt);
    TruncatedNone();
    YearBounds();
    RespondAt(rows, "1", "", None, general);
    assert b in PageOf(rows, 1, None).items;
    if createdAt == 0 {
      assert forall w :: w in PageOf(rows, 1, None).items ==> Writable(w);
      RespondAt(rows, "1", EncodeListCursor(Key(b)), Some(Key(b)), general);
      assert ["1", "1"][1..] == ["1"];
      assert Follow(rows, EncodeListCursor(Key(b)), ["1"], general) == [Failed(INVALID_PAGINATION)];
    }
  }

  /** A row renamed in year 10000 cannot be listed either, whenever it was created. */
  lemma RenamedTooLate(createdAt: Timestamp, general: GeneralParser)
    ensures var w := Widget(1, "a", createdAt, YEAR_10000);
            UniqueIds({w}) && Respond({w}, "1", "", general, None) == Failed(INTERNAL_ERROR)
  {
    hide Sorted, ListLimit, Respond, Truncated, FourDigitYear;
    var w := Widget(1, "a", createdAt, YEAR_10000);
    LimitOne();
    TruncatedNone();
    YearBounds();
    RespondAt({w}, "1", "", None, general);
    assert After({w}, None) == {w} && Elements([w]) == {w};
    SortedIs({w}, [w]);
    assert w in PageOf({w}, 1, None).items;
  }

  lemma YearBounds()
    ensures !FourDigitYear(YEAR_10000) && FourDigitYear(0)
  {
  }

  lemma FirstTwin(createdAt: Timestamp)
    ensures UniqueIds({TwinA(createdAt), TwinB(createdAt)})
    ensures PageOf({TwinA(createdAt), TwinB(createdAt)}, 1, None)
            == Page([TwinB(createdAt)], 1, Some(Key(TwinB(createdAt))))
  {
    hide Sorted;
    var a, b := TwinA(createdAt), TwinB(createdAt);
    assert After({a, b}, None) == {a, b};
    assert Elements([b, a]) == {a, b};
    SortedIs({a, b}, [b, a]);
  }

  // ---- One request in a walk while others write ----

  /** A request with the text of the walk's cursor is refused exactly if that
      cursor is at the zero time, is answered 500 exactly if the next read would
      show a row that cannot be written, and otherwise is the walk's next read. */
  lemma RequestIsRead(s: Walk.State, limit: string, text: string, general: GeneralParser)
    requires Walk.Inv(s) && !s.done && AcceptableLimit(limit) && TextOf(text, s.cursor)
    ensures UniqueIds(RowSet(s.rows))
    ensures var t, r := Walk.Step(s, Walk.Read(ListLimit(limit).value)), Respond(RowSet(s.rows), limit, text, general, None);
            && (r == Failed(INVALID_PAGINATION) <==> RefusedPosition(s.cursor))
            && (!RefusedPosition(s.cursor) ==>
                  |s.items| <= |t.items|
                  && if AllWritable(t.items[|s.items|..]) then r.Listed? else r == Failed(INTERNAL_ERROR))
            && (r.Listed? ==>
                  && t == s.(items := s.items + r.items, snapshots := s.snapshots + [Walk.Keys(RowSet(s.rows))],
                             cursor := t.cursor, done := t.done)
                  && (t.done <==> r.nextCursor.None?)
                  && (t.done ==> t.cursor.None?)
                  && (!t.done ==> r.nextCursor.Some? && TextOf(r.nextCursor.value, t.cursor)))
  {
    hide Sorted, UniqueIds, PageOf, EncodeListCursor, ListLimit, Descending, Respond, Walk.Complete, Walk.Genuine, FourDigitYear;
    RowSetUnique(s.rows);
    ListLimitBounds(limit);
    RespondAt(RowSet(s.rows), limit, text, s.cursor, general);
    if !RefusedPosition(s.cursor) {
      var page := Walk.ReadPage(s, ListLimit(limit).value);
      var t := Walk.Step(s, Walk.Read(ListLimit(limit).value));
      assert t.items[|s.items|..] == page.items;
      if page.nextCursor.Some? {
        assert page.items[|page.items| - 1] in page.items;
      }
    }
  }
}
