# Verified model of the widget service

This project models the parts of the service whose correctness is not visible
from any one function, and proves what they promise together:

- **Cursor pagination over a changing table.** The table with its ordered index
  (`Table.dfy`), what the two list queries select (`Listing.dfy`), the service's
  one-row lookahead (`Service.dfy`), a client's walk while others insert, delete
  and rename (`Walk.dfy`), the texts of the HTTP endpoint (`ListEndpoint.dfy`), and
  the walk over those texts that a client really makes (`TextWalk.dfy`).
- **The opaque cursor.** RFC 3339 timestamps with trimmed nanoseconds
  (`Rfc3339.dfy`, on the Gregorian calendar of `Calendar.dfy`), decimal int64
  (`Decimal.dfy`), unpadded base64url (`Base64Url.dfy`), and the codec made of
  them (`Cursor.dfy`).
- **The request lifecycle.** Logging, panic recovery and the request deadline
  around a handler, interleaved with disconnects (`Lifecycle.dfy`), and the public
  replies to wrapped errors (`Failures.dfy`).
- **Shutdown.** The serve goroutine, its one-slot channel, the two selects and the
  clock (`Shutdown.dfy`), readiness while draining (`Readiness.dfy`), and the two
  together (`Draining.dfy`).
- **Supporting rules.** Configuration (`Config.dfy`), names across three layers
  (`Names.dfy`), request IDs (`RequestId.dfy`), environment lists (`EnvList.dfy`)
  and splitting at separators (`Strings.dfy`).

A Go string is a sequence of bytes, one `char` per byte; names and environment
values are sequences of Unicode code points. An instant is a number of nanoseconds
since 0001-01-01T00:00:00Z. The database, the clock, the network and random bytes
are parameters: what the driver returned instead of rows, which bytes the
transport accepted, when the client left.

Where the source updates state step by step the model does too: `WidgetTable`,
`Exchange`, `App` and `Process` are classes whose methods are proved against
functions of the old state, and the properties are proved of those functions.

Five things the model says about the code that its own comments do not:

- The cursor round trip holds exactly for creation times with a UTC year of 0 to
  9999 (`Cursor.DecodeEncodeExactly`).
- A list response is encoded exactly if both times of every row on the page have
  such a year, and is a 500 otherwise (`ListEndpoint.RespondAt`). So of the cursors
  that are handed out exactly those at Go's zero time are refused, with 400
  (`ListEndpoint.HandedOutRefusedExactly`), and a table can be listed by following
  its cursors exactly if all its times can be written and no row of the zero time
  has one below it (`ListEndpoint.FollowListsEverythingExactly`; two tables that
  cannot in `ListEndpoint.WalksCutShort`).
- The reverse round trip fails for many accepted texts; it holds exactly for the
  canonical ones (`Cursor.EncodeDecodeExactly`).
- The completion record is wrong exactly if nothing was sent to the client and yet
  it names a status other than 499, for instance one committed after the client
  had left, one still buffered when the handler aborted, or 200 for an abort
  before anything was written (`Lifecycle.RecordTruthfulExactly`; such requests in
  `Lifecycle.WrongRecords`).
- A serve failure is returned by `Run` if it is reported before the drain delay
  after the signal has passed, or without a signal; one reported later is dropped
  and `Run` returns what `Shutdown` did; at the exact moment either may happen
  (`Shutdown.FailureReportedExactly`, `Shutdown.TieIsFree`).

## Model

| member | source | states |
|---|---|---|
| Walk.WalkShowsStableRowsOnce | internal/widget/service.go:78-102 | For every run of inserts, deletes, renames and page reads with any limits: items come newest first and of one time highest id first, no id repeats, every item was in a snapshot read, and at every moment each row that was in all snapshots so far and that the walk has gone past (when done, every row) was shown exactly once, even if a cursor's row was deleted. |
| Walk.WalkTerminates | internal/widget/service.go:95-99 | In every endless run, even with rows inserted forever, only finitely many page requests are answered before the null cursor. |
| Walk.ReadDescends | internal/widget/widgetpostgres/dbgen/widgets.sql.go:94-100 | Each answered page either ends the walk or moves the cursor to an earlier time, or to a lower id of the same time. |
| Walk.Perform | db/migrations/00002_update_widget_timestamps.sql:3-17 | Performing an event on the table and the service is a step of the walk: the page the service returns is what the step appends and follows, an error leaves the walk where it is, and no write changes a row's created_at. |
| Service.NextCursorExactly | internal/widget/service.go:87-99 | A next cursor exists exactly when some row of the snapshot lies below the page's last item, and is that item's key; a page without one holds all rows left. |
| Service.PageSplits | internal/widget/service.go:94-99 | Every row below the old cursor is in the page or below the new cursor, never both. |
| Service.WidgetService.List | internal/widget/service.go:78-102 | Refused exactly for a limit outside 0 to 100, an id below 1 or the zero time; failures wrapped; otherwise the page defined without lookahead from the sorted listing, of the limit asked for (20 for 0), newest first, highest id first within one time, and below the cursor in that order. |
| Service.WidgetService.Create | internal/widget/service.go:49-61 | Stores and returns the trimmed stretch of the submitted name, exactly if it has 1 to 120 code points; no CHECK can refuse it; a failure is wrapped twice. |
| Service.WidgetService.Delete | internal/widget/service.go:105-114 | Removes exactly the row named; the error is not-found for an impossible id, the twice wrapped driver error, or the wrapped not-found when there was no such row. |
| Service.PostgresRepository.List | internal/widget/widgetpostgres/repository.go:53-77 | Chooses the query by the cursor and copies its rows in order, or wraps the driver's error. |
| Listing.DescendingExactly | internal/widget/widgetpostgres/dbgen/widgets.sql.go:62-67 | The listing order is created_at descending and, within one time, id descending. |
| Listing.DescendingUnique | internal/widget/widgetpostgres/dbgen/widgets.sql.go:62-67 | A set of rows has one listing in descending (created_at, id) order. |
| Listing.RestOfListing | internal/widget/widgetpostgres/dbgen/widgets.sql.go:94-100 | The row comparison with the k-th listed row selects exactly the listing after it. |
| Table.ScanAgrees | db/migrations/00001_create_widgets.sql:11 | A suffix of the ordered index, started where the cursor is found, equals filtering by the row comparison and sorting. |
| Table.WidgetTable.List | internal/widget/widgetpostgres/dbgen/widgets.sql.go:62-135 | Bisection and scan return rows of the table below the cursor in (created_at, id), newest first and highest id first within one time, at most the limit, and leave out only rows that come after a full page. |
| Table.WidgetTable.Seek | internal/widget/widgetpostgres/dbgen/widgets.sql.go:108-111 | Bisection finds the first index entry below the cursor. |
| Table.WidgetTable.Insert | db/migrations/00001_create_widgets.sql:2-9 | Primary key and CHECKs decide; rows and index stay in agreement. |
| Table.WidgetTable.Delete | internal/widget/widgetpostgres/dbgen/widgets.sql.go:31-42 | Removes one row and its index entry; returns the number removed. |
| Table.WidgetTable.Rename | db/migrations/00002_update_widget_timestamps.sql:3-17 | The trigger touches updated_at only, so the index is unchanged and still agrees. |
| ListEndpoint.FollowListsEverythingExactly | internal/widget/widgethttp/handler.go:125-163 | On an unchanging table, following the cursor texts yields the whole listing for every schedule of acceptable limits if and only if all times have a year 0 to 9999 and no row of the zero time has a row below it. |
| ListEndpoint.FollowListsEverything | internal/widget/widgethttp/handler.go:125-163 | On such a table each schedule yields it, in at most one request per row. |
| ListEndpoint.FollowCountsRequests | internal/widget/service.go:87-99 | On such a table the client makes exactly max(1, ceil(n/k)) requests with a fixed limit k. |
| ListEndpoint.HandedOutRefusedExactly | internal/widget/service.go:82-85 | A cursor this server handed out is refused with 400 exactly if it is at Go's zero time, whatever the table holds by then. |
| ListEndpoint.NextCursorAccepted | internal/widget/widgethttp/handler.go:250-259 | The cursor text of any row, whoever made it, is refused with 400 exactly if the row's creation time has no year 0 to 9999 or is the zero time. |
| ListEndpoint.WalksCutShort | internal/platform/httpkit/json.go:129-133 | Two rows read one per page: at the zero time the first cursor is refused with 400, in year 10000 the first request is a 500. |
| ListEndpoint.RenamedTooLate | internal/platform/httpkit/json.go:129-133 | A row renamed in year 10000 makes its page a 500 whenever it was created. |
| ListEndpoint.RequestIsRead | internal/widget/widgethttp/handler.go:132-162 | While others write, a request with the text of the walk's cursor is refused exactly at the zero time, is a 500 exactly if the page has a row that cannot be written, and otherwise is the walk's next read. |
| ListEndpoint.AcceptableLimitExactly | internal/widget/widgethttp/handler.go:213-228 | Of all limit texts, those that lead to a page are the absent one and the numbers 1 to 100 behind an optional plus sign and any zeros. |
| ListEndpoint.AcceptableLimitTexts | internal/widget/widgethttp/handler.go:213-228 | A formatted limit is read as its number and leads to a page exactly for 1 to 100; no text means 20. |
| ListEndpoint.RespondAt | internal/platform/httpkit/json.go:129-136 | A request with an acceptable limit and a cursor text, however fine its time, is refused exactly at the zero time, is a 500 exactly if its page has a time outside the years 0 to 9999, and otherwise gets the page below the position cut to microseconds. |
| ListEndpoint.ListedInOrder | internal/widget/widgethttp/handler.go:151-162 | A listed response reports the limit asked for, 20 without one, holds no more items, newest first and highest id first within one time, all below the position its cursor text decodes to. |
| ListEndpoint.RefusedExactly | internal/widget/widgethttp/handler.go:125-144 | Whatever the database would return, the reply is 400 exactly for an unacceptable limit, an undecodable cursor or a position at the zero time. |
| ListEndpoint.FailureAnswered | internal/widget/widgethttp/handler.go:145-149 | Otherwise a failure, wrapped at any depth, is answered 504 for a deadline, not at all for a cancellation, and 500 for anything else. |
| ListEndpoint.Handler.List | internal/widget/widgethttp/handler.go:125-163 | The endpoint's code gives the response whose laws are proved apart, error replies and a page that cannot be encoded included. |
| TextWalk.ClientSeesStableRowsOnce | internal/widget/widgethttp/handler.go:125-163 | Requests with any limit texts, refused, failing or not, interleaved with any writes: the items of the listed pages are strictly descending, repeat no id, and contain exactly once each row of all snapshots that the held cursor text has gone past. |
| TextWalk.RunSimulates | internal/widget/widgethttp/handler.go:132-162 | Every such run is, event by event, a walk: a page shown is the next read, any other request changes nothing. |
| TextWalk.AnsweredExactly | internal/widget/widgethttp/handler.go:125-163 | Each request of such a run with an acceptable limit that the database answers: 400 exactly if the client stands at the zero time, else 500 if the page has a row that cannot be written, else the page. |
| TextWalk.FailureAnsweredExactly | internal/widget/widgethttp/handler.go:189-198 | And when the database fails: 400 still at the zero time, otherwise 504, nothing or 500 by the failure's root, and the client keeps its place. |
| TextWalk.NoCursorRefused | internal/widget/widgethttp/handler.go:236-260 | So it gets the page whenever no row was created at the zero time and all rows present can be written. |
| TextWalk.ClientTerminates | internal/widget/service.go:95-99 | In every endless run of writes and requests only finitely many pages are shown. |
| Cursor.DecodeEncode | internal/widget/widgethttp/handler.go:230-260 | decode(encode(c)) = c for every UTC year 0 to 9999, any nanosecond and id 1 to 2^63-1. |
| Cursor.DecodeEncodeExactly | internal/widget/widgethttp/handler.go:230-260 | For ids of rows the round trip holds if and only if the UTC year is 0 to 9999. |
| Cursor.EncodeDecodeExactly | internal/widget/widgethttp/handler.go:236-260 | A text that decodes to a cursor is that cursor's encoding if and only if its base64 is canonical, its timestamp ends in Z behind at most nine fraction digits without a trailing zero, and its id has no sign or leading zero. |
| Cursor.DecodeNotInjective | internal/widget/widgethttp/handler.go:241-244 | The failing side, at every cursor: its encoding with a line break appended decodes to it and is no encoding. |
| Cursor.EncodedForm | api/openapi.yaml:248-251 | Every cursor is non-empty and uses only the published alphabet. |
| Cursor.EncodedPayload | internal/widget/widgethttp/handler.go:230-234 | A cursor is the base64url of its UTC timestamp, a bar and its decimal id. |
| Cursor.DecodedIdentifier | internal/widget/widgethttp/handler.go:254-257 | A decoded cursor has an id of 1 to 2^63-1. |
| Cursor.CutAtFirst | internal/widget/widgethttp/handler.go:246-249 | The first separator splits the payload when the part before it has none. |
| Rfc3339.ParseFormat | internal/widget/widgethttp/handler.go:231-253 | A UTC timestamp of year 0 to 9999, fraction trimmed, is read back to the nanosecond. |
| Rfc3339.ParseFormatWide | internal/widget/widgethttp/handler.go:250-253 | An instant of any other year is written so that no RFC 3339 timestamp results. |
| Rfc3339.FormatLayout | internal/widget/widgethttp/handler.go:231 | Which characters of a written timestamp denote which calendar field, where the separators stand, and that the fraction denotes the nanoseconds with no trailing zero. |
| Rfc3339.ParseFormatAt | internal/widget/widgethttp/handler.go:250-259 | An instant written at any numeric offset is read as that instant, whatever its UTC year. |
| Rfc3339.FormatParseExactly | internal/widget/widgethttp/handler.go:250-253 | A timestamp that is read is written back as the same text exactly when it is in UTC, marked Z, its fraction at most nine digits without a trailing zero. |
| Calendar.FromToInstant | internal/widget/widgethttp/handler.go:231 | Calendar fields are recovered from the instant they denote. |
| Calendar.ToFromInstant | internal/widget/widgethttp/handler.go:259 | Every instant has valid calendar fields and is recovered from them. |
| Calendar.FourDigitYearExactly | internal/widget/widgethttp/handler.go:231 | The instants that RFC 3339 can write in UTC are those from 0000-01-01 until 10000-01-01. |
| Calendar.NextDayNumber | internal/widget/widgethttp/handler.go:231 | Consecutive dates, month ends and leap days included, have consecutive day numbers. |
| Calendar.DayNumberClosedForm | internal/widget/widgethttp/handler.go:231 | The day number of every date by the closed form for years that begin in March, which names no month length. |
| Calendar.ValidCivilExactly | internal/widget/widgethttp/handler.go:231 | Which dates are valid, month by month and with the leap rule. |
| Calendar.ToInstantClosedForm | internal/widget/widgethttp/handler.go:231 | The instant of a date and time of day, unit by unit. |
| Base64Url.DecodeEncode | internal/widget/widgethttp/handler.go:233-241 | Decoding inverts encoding in all three length residues. |
| Base64Url.EncodedCharacter | internal/widget/widgethttp/handler.go:233 | Each character of an encoding is the letter of the URL alphabet for its own six bits of the input, zero bits added at the end; no padding. |
| Base64Url.EncodeDecodeExactly | internal/widget/widgethttp/handler.go:241-244 | An accepted text is the encoding of what it decodes to exactly when it has no line break and zero trailing bits. |
| Decimal.ParseFormatInt | internal/widget/widgethttp/handler.go:231-257 | Decimal formatting is inverted by parsing exactly on the integers that fit the width. |
| Decimal.FormatParseIntExactly | internal/widget/widgethttp/handler.go:254-257 | The text of a positive number is what formatting writes exactly without sign and leading zeros. |
| Lifecycle.StatusAccounting | internal/httpapi/middleware.go:22-110 | Over every interleaving and exit: at most one status is committed, recovery adds its 500 envelope exactly after a panic with nothing committed and changes no byte before, one completion record is logged, and its status is the committed one, else 499 exactly on a disconnect, else 200. |
| Lifecycle.RecordTruthfulExactly | internal/httpapi/middleware.go:46-67 | Over every interleaving and exit: nothing is sent exactly if no flush came in time and the handler aborted or the client left; the record is wrong exactly if then a status other than 499 was committed, or none was and the client was still there when it was logged. |
| Lifecycle.WrongRecords | internal/httpapi/middleware.go:46-67 | Four requests with a wrong record: an abort unwritten, an answer and a panic after the client left, an abort after an unflushed status. |
| Lifecycle.ContextFailureComposes | internal/platform/httpkit/json.go:158-169 | For every operation and wrapping depth, with any events between the failing call, the status, the envelope and the record: a deadline first gives one 504 handed to the transport and logged, a disconnect first gives no bytes logged as 499. |
| Lifecycle.InnerIsFirstCause | internal/httpapi/middleware.go:72-81 | The handler's context ends with the first cause, whatever comes later. |
| Lifecycle.FailOperation | internal/widget/widgethttp/handler.go:189-198 | The failing handler's writes, as steps on the recorder with events between them. |
| Lifecycle.Exchange.LogRequest | internal/httpapi/middleware.go:22-44 | The deferred record as a step on the exchange, on every exit; an abort, and nothing else, still unwinds. |
| Lifecycle.Exchange.Serve | internal/httpapi/middleware.go:22-110 | The whole chain, until the server finishes the request: an abort leaves it exactly if the handler aborted, a panic never does, and the client is sent nothing exactly if no flush came in time and an abort left the chain or the client had gone. |
| Lifecycle.Exchange.RecoverPanic | internal/httpapi/middleware.go:83-110 | Recovery as steps on the exchange; exactly an abort is raised again, a panic never. |
| Lifecycle.Exchange.RequestTimeout | internal/httpapi/middleware.go:72-81 | The child context's deadline and deferred cancel as steps on the exchange; afterwards the child has ended. |
| Lifecycle.Exchange.WriteBody | internal/httpapi/middleware.go:26-41 | A write commits 200 if nothing is committed yet, and adds of its data as many bytes as the transport accepts, to what the record counts. |
| Failures.ContextErrorReply | internal/platform/httpkit/json.go:158-169 | Every operation answers a deadline with 504 and a cancellation with nothing, through any wrapping. |
| Failures.DomainErrorReply | internal/widget/widgethttp/handler.go:171-198 | Domain errors get their own reply from the operations that can meet them; every other error the one 500. |
| Failures.IsThroughWrapping | internal/widget/service.go:89-92 | Wrapping neither hides nor adds an error's identity. |
| Failures.EnvelopeFields | internal/platform/httpkit/json.go:176-184 | Split at its quotes, the envelope names error, code and message, each value behind its name. |
| Shutdown.ShutdownIsOrdered | internal/platform/httpserver/server.go:50-69 | Shutdown is called at most once; on the signal's path the whole delay after the signal, with or without BeginDrain, and after BeginDrain if there is one, unless serving ended; in a context with its full timeout that is not cancelled although the parent is, and so live exactly if the timeout is positive. |
| Shutdown.DrainPrecedesShutdown | internal/platform/httpserver/server.go:55-67 | In every run a BeginDrain step comes after the signal and before the Shutdown step. |
| Shutdown.ReportsAreReturned | internal/platform/httpserver/server.go:44-62 | One send at most, never blocked; a received failure is what Run returns, without Shutdown, and otherwise Run called Shutdown once; nil only if Shutdown returned nil. Which sent failures are received is the next row. |
| Shutdown.FailureReportedExactly | internal/platform/httpserver/server.go:50-97 | In runs that react at once: a failure sent before signal plus delay, or without a signal, is what Run returned; one sent after it stays in the channel and Run returned what Shutdown did. |
| Shutdown.StopTimeBounded | internal/platform/httpserver/server.go:29-40 | If Run reacts at once and Shutdown honours its deadline, Run returns within max(0, DrainDelay) + Timeout of the signal. |
| Shutdown.RunNeverStuck | internal/platform/httpserver/server.go:43-74 | From the signal on, Run always has a step to take or time to wait for. |
| Shutdown.TieIsFree | internal/platform/httpserver/server.go:88-94 | For any options there are runs with a failure sent exactly at signal plus delay in which Run returns it, and in which Run returns nil with the failure left in the channel. |
| Shutdown.Process.Run | internal/platform/httpserver/server.go:43-74 | Run as code over the protocol's steps, taking either case of a ready select: the history it adds is a run extending the one before in which no scheduled signal, end of serving or passage of time is missed, its result is what the protocol finished with, and without one it waits with no case ready. |
| Shutdown.Process.Drain | internal/platform/httpserver/server.go:78-97 | Waits for the report or the timer and takes either when both are ready; only a report other than the closed server ends Run. |
| Readiness.LateProbesFail | internal/app/app.go:94-104 | Once BeginDrain ran, acceptance never returns, and each probe whose first check executes later answers 503 there, running no other check. |
| Draining.RoutersSeeTheDrain | internal/platform/httpserver/server.go:29-36 | In every run of the protocol and the probes together, a Shutdown call on the signal's path with serving not ended comes at least the drain delay after a BeginDrain step, and every probe whose first check runs after that step is answered 503 by it alone. |
| Readiness.ProbesAnswerTruthfully | internal/httpapi/router.go:141-156 | A probe answers 200 exactly when all checks ran and passed, and otherwise stops at the first failure. |
| Readiness.App.Probe | internal/httpapi/router.go:141-156 | One probe with a drain beginning between any of its checks; its steps are a run of the machine of many probes, with the same answer and results. |
| Config.Validate | internal/platform/config/config.go:117-211 | One complaint per broken condition and none exactly for acceptable configurations; the request timeout is compared only with limits valid on their own, the connection counts in any case. |
| Config.AcceptableExactly | internal/platform/config/config.go:117-211 | No complaint applies exactly when the stated bounds and their nesting hold. |
| Config.AcceptedIsSafe | internal/platform/config/config.go:138-202 | An accepted configuration nests its limits, gives PostgreSQL a limit of at least 1 ms and at most the request's, and lets building panic exactly when a dependency is missing. |
| Config.StatementLimitExactly | internal/platform/database/postgres.go:39 | The limit is passed in whole milliseconds, cut toward zero, and is one at all exactly from 1 ms on. |
| Config.StopBudget | internal/platform/config/config.go:203-208 | With an accepted configuration the two shutdown settings bound the time to stop. |
| Config.ShutdownSettings | internal/platform/config/config.go:203-208 | In every run Shutdown has the shutdown timeout before it, and on the signal's path comes no earlier than the drain delay after the signal and after BeginDrain, unless serving ended. |
| Names.ServiceNameSatisfiesChecks | db/migrations/00001_create_widgets.sql:7-8 | Every name the service passes on satisfies both CHECKs. |
| Names.ChecksExactly | db/migrations/00001_create_widgets.sql:7-8 | The CHECKs hold exactly for names of at most 120 code points with one that is no blank. |
| Names.ServiceNameExactly | internal/widget/service.go:50-53 | The name passed on is the trimmed stretch of the submitted one, and there is one exactly if that has 1 to 120 code points. |
| Names.ServiceRefusesBlank | internal/widget/service.go:49-53 | Of the names the transport rule accepts, the service refuses exactly the all-whitespace ones. |
| Names.ServiceNameStable | internal/widget/service.go:50-53 | A stored name submitted again is stored unchanged. |
| Names.TrimSpaceIsTrimmed | internal/widget/service.go:50 | Trimming returns the longest stretch that starts and ends with no space. |
| RequestId.ForwardFixedPoint | internal/httpapi/requestid.go:33-48 | Past the first of any chain of servers an ID never changes. |
| RequestId.ResolveAcceptable | internal/httpapi/requestid.go:54-71 | The chosen ID is always acceptable, and is the inbound value exactly when that has 1 to 64 permitted bytes. |
| RequestId.ResolveGenerated | internal/httpapi/requestid.go:33-48 | In place of an unacceptable value comes the draw in 32 hexadecimal characters; different draws give different IDs. |
| RequestId.ResolveRequestID | internal/httpapi/requestid.go:33-48 | The middleware keeps an acceptable value and otherwise uses the draw in hexadecimal. |
| RequestId.AcceptableRequestID | internal/httpapi/requestid.go:54-71 | Returns the value or the empty string by the byte rule. |
| RequestId.UnhexHex | internal/httpapi/requestid.go:76-83 | The generated ID is the draw in hexadecimal, high digit first. |
| RequestId.HexInjective | internal/httpapi/requestid.go:76-83 | Different draws of 16 bytes give different IDs. |
| EnvList.List | internal/platform/config/config.go:261-276 | The parsed list: trimmed, non-empty entries in source order. |
| EnvList.ParseNormal | internal/platform/config/config.go:261-276 | Only non-empty, trimmed, comma-free items. |
| EnvList.ParseParts | internal/platform/config/config.go:261-276 | The items are, in order, the trimmed texts of exactly the comma parts that are not all space. |
| EnvList.ParseJoin | internal/platform/config/config.go:261-276 | Joining such items with commas and parsing gives the same list. |
| EnvList.ParseStable | internal/platform/config/config.go:261-276 | Writing a parsed list back and parsing it again changes nothing. |

## Left out

- PostgreSQL beyond one snapshot per statement, unique identifiers that are never handed out twice, and the queries' order. In particular no relation between `created_at` and `updated_at` is claimed.
- PostgreSQL's range of times: a cursor's time is cut to microseconds, as the driver does, and then compared without bounds.
- Time zones of stored values: two times are the same when they are the same instant.
- Cursor.DecodeEncode: Go's general layout parser, the fallback of `time.Parse` for texts that are not RFC 3339, is an arbitrary function here; the law holds whatever it accepts.
- Cursor.DecodeEncodeExactly, Cursor.EncodeDecodeExactly and ListEndpoint.NextCursorAccepted: assume of that parser only that it refuses what formatting writes for a year outside 0 to 9999. The laws of handed-out cursors and of walks do not need this.
- Walk.WalkTerminates and TextWalk.ClientTerminates: assume that creation times have an earliest value, as a database clock gives.
- Name texts that are not valid UTF-8, and NUL characters, which PostgreSQL refuses in text.
- JSON decoding failures, and encoding failures of the create and get replies (those of a list page are modelled), the validator, MIME parsing, chi's routing, CORS, client-IP extraction: libraries that the code calls. The envelope's text is modelled.
- The get handler and `Service.Get`: plain lookups; their replies to errors are in `Failures.dfy`.
- Lifecycle.RecordTruthfulExactly: what net/http sends is its documented behaviour, stated here: it may flush a committed response at any time, flushes when the request is finished, with 200 if nothing was committed, and drops what it holds on an abort or when the client has left.
- Informational 1xx responses, hijacking, and a handler that flushes before it has written anything.
- Readiness.App.Probe: the one-second limit of a probe appears only as a check that fails.
- Shutdown.StopTimeBounded, and which failures are reported: scheduling delays of the Go runtime are not bounded, so both are stated for runs in which Run reacts at once; the ordering results need no such assumption.
- Config.AcceptedIsSafe: the client-IP library is a parameter, assumed to panic only on an empty header, a prefix that cannot be parsed or a count below 1.
- Shutdown.Process.Run: goroutines are steps of a schedule; memory shared with in-flight handlers is not modelled.
- The example cursor in `api/openapi.yaml`: one literal, which the codec's laws cover.
- Duplicate complaints of `validate` and their message texts.
- Goose, pgx pools, `Open`, `Migrate`, logging handlers, security headers, liveness, generated types, scripts: plumbing or single assignments.
