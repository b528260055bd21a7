/** Errors as chains of `%w` wrappings, and the public reply each one gets. */
module Failures {
  import opened Wrappers
  import opened Strings

  datatype Error =
    | DeadlineExceeded
    | Canceled
    | NotFound
    | InvalidName
    | InvalidPagination
    | NoRows
    | Other(text: string)
    | Wrapped(text: string, inner: Error)

  /** errors.Is, for a target that is itself no wrapping. */
  predicate Is(err: Error, target: Error) {
    err == target || (err.Wrapped? && Is(err.inner, target))
  }

  /** fmt.Errorf("...: %w", ...) applied once per prefix, the last one innermost. */
  function WrapAll(prefixes: seq<string>, err: Error): Error {
    if prefixes == [] then err else Wrapped(prefixes[0], WrapAll(prefixes[1..], err))
  }

  /** An answer in the public error envelope. */
  datatype Reply = Reply(status: int, code: string, message: string)

  const INTERNAL_ERROR := Reply(500, "internal_error", "An internal error occurred.")
  const REQUEST_TIMEOUT := Reply(504, "request_timeout", "The request took too long to complete.")
  const INVALID_PAGINATION := Reply(400, "invalid_pagination", "Pagination parameters are invalid.")
  const INVALID_NAME := Reply(422, "invalid_widget_name", "Name must contain 1 to 120 characters.")
  const NOT_FOUND := Reply(404, "widget_not_found", "Widget was not found.")

  /** The envelope's JSON text, with the line end that closes every body. */
  function Envelope(reply: Reply): string {
    "{\"error\":{\"code\":\"" + reply.code + "\",\"message\":\"" + reply.message + "\"}}\n"
  }

  datatype Operation = CreateWidget | GetWidget | ListWidgets | DeleteWidget

  /** What WriteContextError makes of an error: whether it describes a failed
      request context, and the reply, if any, that is written for it. */
  function ContextReply(err: Error): (bool, Option<Reply>) {
    if Is(err, DeadlineExceeded) then (true, Some(REQUEST_TIMEOUT))
    else if Is(err, Canceled) then (true, None)
    else (false, None)
  }

  function FailRequest(err: Error): Option<Reply> {
    var (handled, reply) := ContextReply(err);
    if handled then reply else Some(INTERNAL_ERROR)
  }

  /** The handler's reply to an error of the service: its own domain error first. */
  function OperationReply(operation: Operation, err: Error): (reply: Option<Reply>)
    ensures reply.Some? ==> 200 <= reply.value.status <= 999
  {
    match operation
    case CreateWidget =>
      if Is(err, InvalidName) then Some(INVALID_NAME) else FailRequest(err)
    case ListWidgets =>
      if Is(err, InvalidPagination) then Some(INVALID_PAGINATION) else FailRequest(err)
    case _ =>
      if Is(err, NotFound) then Some(NOT_FOUND) else FailRequest(err)
  }

  // ---- Laws ----

  lemma {:induction false} WrapJoin(outer: seq<string>, inner: seq<string>, err: Error)
    ensures WrapAll(outer, WrapAll(inner, err)) == WrapAll(outer + inner, err)
  {
    if outer == [] {
      assert outer + inner == inner;
    } else {
      WrapJoin(outer[1..], inner, err);
      assert (outer + inner)[1..] == outer[1..] + inner;
    }
  }

  /** Wrapping, however deep, neither hides nor adds an identity. */
  lemma {:induction false} IsThroughWrapping(prefixes: seq<string>, err: Error, target: Error)
    requires !target.Wrapped?
    ensures Is(WrapAll(prefixes, err), target) <==> Is(err, target)
  {
    if prefixes != [] {
      IsThroughWrapping(prefixes[1..], err, target);
    }
  }

  /** Every operation answers a wrapped deadline with 504 and a wrapped
      cancellation with nothing at all. */
  lemma {:induction false} ContextErrorReply(operation: Operation, prefixes: seq<string>, err: Error)
    requires err == DeadlineExceeded || err == Canceled
    ensures OperationReply(operation, WrapAll(prefixes, err))
            == if err == DeadlineExceeded then Some(REQUEST_TIMEOUT) else None
    ensures REQUEST_TIMEOUT.status == 504
  {
    IsThroughWrapping(prefixes, err, DeadlineExceeded);
    IsThroughWrapping(prefixes, err, Canceled);
    IsThroughWrapping(prefixes, err, InvalidName);
    IsThroughWrapping(prefixes, err, InvalidPagination);
    IsThroughWrapping(prefixes, err, NotFound);
  }

  /** So are the domain errors, each to the operations that can meet it; any
      other error becomes the 500 that says nothing about its cause. */
  lemma {:induction false} DomainErrorReply(operation: Operation, prefixes: seq<string>, err: Error)
    requires !err.Wrapped? && err != DeadlineExceeded && err != Canceled
    ensures OperationReply(operation, WrapAll(prefixes, err)) ==
            Some(if err == NotFound && (operation.GetWidget? || operation.DeleteWidget?) then NOT_FOUND
                 else if err == InvalidName && operation.CreateWidget? then INVALID_NAME
                 else if err == InvalidPagination && operation.ListWidgets? then INVALID_PAGINATION
                 else INTERNAL_ERROR)
    ensures OperationReply(operation, WrapAll(prefixes, err)).value.status ==
            if err == NotFound && (operation.GetWidget? || operation.DeleteWidget?) then 404
            else if err == InvalidName && operation.CreateWidget? then 422
            else if err == InvalidPagination && operation.ListWidgets? then 400
            else 500
  {
    IsThroughWrapping(prefixes, err, DeadlineExceeded);
    IsThroughWrapping(prefixes, err, Canceled);
    IsThroughWrapping(prefixes, err, InvalidName);
    IsThroughWrapping(prefixes, err, InvalidPagination);
    IsThroughWrapping(prefixes, err, NotFound);
  }

  // ---- The envelope, read back ----

  /** A text that JSON writes between quotes as it is. */
  predicate Plain(s: string) { '\"' !in s }

  /** A part in front, and the quote behind it. */
  function Quoted(part: string, rest: string): string { part + ['\"'] + rest }

  lemma EnvelopeText(reply: Reply)
    ensures var inner := Quoted("message", Quoted(":", Quoted(reply.message, "}}\n")));
            Envelope(reply) ==
            Quoted("{", Quoted("error", Quoted(":{", Quoted("code", Quoted(":", Quoted(reply.code, Quoted(",", inner)))))))
  {
    var last := reply.message + "\"}}\n";
    assert Quoted(reply.message, "}}\n") == last;
    FrontText(reply.code + ("\",\"message\":\"" + last));
    MiddleText(reply.code, last);
  }

  lemma MiddleText(code: string, last: string)
    ensures Quoted(code, Quoted(",", Quoted("message", Quoted(":", last)))) == code + ("\",\"message\":\"" + last)
  {
  }

  lemma FrontText(rest: string)
    ensures Quoted("{", Quoted("error", Quoted(":{", Quoted("code", Quoted(":", rest))))) == "{\"error\":{\"code\":\"" + rest
  {
  }

  /** What is between the quotes of an envelope: the names of its three fields, each
      value behind its own name. */
  lemma EnvelopeFields(reply: Reply)
    requires Plain(reply.code) && Plain(reply.message)
    ensures Split(Envelope(reply), '\"') ==
            ["{", "error", ":{", "code", ":", reply.code, ",", "message", ":", reply.message, "}}\n"]
  {
    hide Split;
    EnvelopeText(reply);
    var q := '\"';
    var m0 := Quoted(reply.message, "}}\n");
    var m1 := Quoted(":", m0);
    var m2 := Quoted("message", m1);
    var m3 := Quoted(",", m2);
    var c0 := Quoted(reply.code, m3);
    var c1 := Quoted(":", c0);
    var c2 := Quoted("code", c1);
    var c3 := Quoted(":{", c2);
    var c4 := Quoted("error", c3);
    SplitItem("}}\n", "", q);
    SplitItem(reply.message, "}}\n", q);
    SplitItem(":", m0, q);
    SplitItem("message", m1, q);
    SplitItem(",", m2, q);
    SplitItem(reply.code, m3, q);
    SplitItem(":", c0, q);
    SplitItem("code", c1, q);
    SplitItem(":{", c2, q);
    SplitItem("error", c3, q);
    SplitItem("{", c4, q);
  }
}
