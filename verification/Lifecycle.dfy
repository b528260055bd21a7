/** One request through the middleware: logRequest around recoverPanic around
    requestTimeout around a handler, over one response recorder and a context
    with one child. The client may disconnect and the deadline may fire between
    any two steps. */
module Lifecycle {
  import opened Wrappers
  import opened Failures

  const CLIENT_CLOSED_REQUEST := 499
  const STATUS_OK := 200

  /** A final response status. */
  type Status = s: int | 200 <= s <= 999 witness 200

  /** Context.Err(): nil, context.Canceled or context.DeadlineExceeded. */
  datatype Cause = Alive | ByCancel | ByDeadline

  /** The client leaves; the deadline fires; or the transport empties its buffer,
      as it may at any time once a status is committed. */
  datatype Event = Disconnect | DeadlineFires | Flush

  /** What a handler does, interleaved with what happens to its request. Of the
      data of a write the transport accepts at most a number of bytes. */
  datatype Action =
    | Env(event: Event)
    | WriteHeader(status: Status)
    | Write(data: string, accepted: nat)

  datatype Exit = Returned | Panicked | Aborted

  /** The completion record of a request. */
  datatype Record = Record(status: int, bytes: nat)

  /** The request context and its child, the recorder's status (0 while nothing
      is committed), the bytes the transport accepted, every status passed to it,
      whether it has begun to send the response to a client still there, the
      completion records and the number of panics logged. */
  datatype State = State(
    outer: Cause,
    inner: Cause,
    status: int,
    body: string,
    commits: seq<Status>,
    delivered: bool,
    records: seq<Record>,
    panics: nat)

  /** What happens to the request while the deferred functions run and until the
      server finishes it, and how much of the recovery's envelope is accepted. */
  datatype Interference = Interference(
    beforeCancel: seq<Event>, beforeRecover: seq<Event>, betweenWrites: seq<Event>, beforeLog: seq<Event>,
    beforeFinish: seq<Event>, accepted: nat)

  function Start(outer: Cause): State { State(outer, outer, 0, "", [], false, [], 0) }

  /** What the transport takes of data when it accepts so many bytes. */
  function Prefix(data: string, accepted: nat): string { if accepted < |data| then data[..accepted] else data }

  // ---- What single steps do ----

  /** Only a first cause counts; the child takes its parent's, or the deadline's
      when it has one. Without the timeout middleware the two are one context. */
  function Happen(s: State, timed: bool, e: Event): State {
    match e
    case Disconnect =>
      s.(outer := if s.outer.Alive? then ByCancel else s.outer, inner := if s.inner.Alive? then ByCancel else s.inner)
    case DeadlineFires => if timed && s.inner.Alive? then s.(inner := ByDeadline) else s
    case Flush => if s.status != 0 && s.outer.Alive? then s.(delivered := true) else s
  }

  function HappenAll(s: State, timed: bool, events: seq<Event>): State {
    if events == [] then s else Happen(HappenAll(s, timed, events[..|events| - 1]), timed, events[|events| - 1])
  }

  function Commit(s: State, status: Status): State {
    if s.status != 0 then s else s.(status := status, commits := s.commits + [status])
  }

  function Send(s: State, data: string, accepted: nat): State {
    var t := Commit(s, STATUS_OK);
    t.(body := t.body + Prefix(data, accepted))
  }

  function Act(s: State, timed: bool, action: Action): State {
    match action
    case Env(e) => Happen(s, timed, e)
    case WriteHeader(status) => Commit(s, status)
    case Write(data, accepted) => Send(s, data, accepted)
  }

  function ActAll(s: State, timed: bool, script: seq<Action>): State {
    if script == [] then s else Act(ActAll(s, timed, script[..|script| - 1]), timed, script[|script| - 1])
  }

  function CancelChild(s: State, timed: bool): State { if timed && s.inner.Alive? then s.(inner := ByCancel) else s }

  function RecordedStatus(outer: Cause, status: int): int {
    if status != 0 then status else if outer == ByCancel then CLIENT_CLOSED_REQUEST else STATUS_OK
  }

  // ---- The middleware, from the inside out ----

  function AfterTimeout(s: State, timed: bool, script: seq<Action>, i: Interference): State {
    CancelChild(HappenAll(ActAll(s, timed, script), timed, i.beforeCancel), timed)
  }

  function AfterRecover(s: State, timed: bool, script: seq<Action>, exit: Exit, i: Interference): State {
    var t := HappenAll(AfterTimeout(s, timed, script, i), timed, i.beforeRecover);
    if !exit.Panicked? then t
    else
      var logged := t.(panics := t.panics + 1);
      if logged.status != 0 then logged
      else Send(HappenAll(Commit(logged, 500), timed, i.betweenWrites), Envelope(INTERNAL_ERROR), i.accepted)
  }

  function AfterLog(s: State, timed: bool, script: seq<Action>, exit: Exit, i: Interference): State {
    var t := HappenAll(AfterRecover(s, timed, script, exit, i), timed, i.beforeLog);
    t.(records := t.records + [Record(RecordedStatus(t.outer, t.status), |t.body|)])
  }

  /** The request when net/http finishes it. */
  function AfterFinish(s: State, timed: bool, script: seq<Action>, exit: Exit, i: Interference): State {
    HappenAll(AfterLog(s, timed, script, exit, i), timed, i.beforeFinish)
  }

  /** How the request leaves the middleware: only an abort still unwinds. */
  function ExitThrough(exit: Exit): Exit { if exit.Aborted? then Aborted else Returned }

  class Exchange {
    var outer: Cause
    var inner: Cause
    var status: int
    var body: string
    var commits: seq<Status>
    var delivered: bool
    var records: seq<Record>
    var panics: nat
    const timed: bool

    function Value(): State
      reads this
    {
      State(outer, inner, status, body, commits, delivered, records, panics)
    }

    constructor (outer: Cause, timed: bool)
      ensures Value() == Start(outer) && this.timed == timed
    {
      this.outer, this.inner, this.timed := outer, outer, timed;
      status, body, commits, delivered, records, panics := 0, "", [], false, [], 0;
    }

    method Observe(e: Event)
      modifies this
      ensures Value() == Happen(old(Value()), timed, e)
    {
      match e {
        case Disconnect =>
          if outer.Alive? {
            outer := ByCancel;
          }
          if inner.Alive? {
            inner := ByCancel;
          }
        case DeadlineFires =>
          if timed && inner.Alive? {
            inner := ByDeadline;
          }
        case Flush =>
          if status != 0 && outer.Alive? {
            delivered := true;
          }
      }
    }

    method ObserveAll(events: seq<Event>)
      modifies this
      ensures Value() == HappenAll(old(Value()), timed, events)
    {
      for k := 0 to |events|
        invariant Value() == HappenAll(old(Value()), timed, events[..k])
      {
        Observe(events[k]);
        assert events[..k + 1][..k] == events[..k];
      }
      assert events[..|events|] == events;
    }

    /** The recorder passes on the first final status and ignores later ones. */
    method WriteStatus(code: Status)
      modifies this
      ensures Value() == Commit(old(Value()), code)
    {
      if status == 0 {
        status := code;
        commits := commits + [code];
      }
    }

    method WriteBody(data: string, accepted: nat)
      modifies this
      ensures Value() == Send(old(Value()), data, accepted)
      ensures old(body) <= body && body[|old(body)|..] <= data
      ensures |body| - |old(body)| == if accepted < |data| then accepted else |data|
    {
      WriteStatus(STATUS_OK);
      body := body + Prefix(data, accepted);
    }

    method RunHandler(script: seq<Action>)
      modifies this
      ensures Value() == ActAll(old(Value()), timed, script)
    {
      for k := 0 to |script|
        invariant Value() == ActAll(old(Value()), timed, script[..k])
      {
        match script[k] {
          case Env(e) => Observe(e);
          case WriteHeader(code) => WriteStatus(code);
          case Write(data, accepted) => WriteBody(data, accepted);
        }
        assert script[..k + 1][..k] == script[..k];
      }
      assert script[..|script|] == script;
    }

    /** The handler's deadline; its deferred cancel runs on every exit. */
    method RequestTimeout(script: seq<Action>, exit: Exit, i: Interference) returns (out: Exit)
      modifies this
      ensures Value() == AfterTimeout(old(Value()), timed, script, i) && out == exit
      ensures timed ==> !inner.Alive?
    {
      RunHandler(script);
      ObserveAll(i.beforeCancel);
      if timed && inner.Alive? {
        inner := ByCancel;
      }
      out := exit;
    }

    method RecoverPanic(script: seq<Action>, exit: Exit, i: Interference) returns (out: Exit)
      modifies this
      ensures Value() == AfterRecover(old(Value()), timed, script, exit, i)
      ensures out == ExitThrough(exit) && (out.Aborted? <==> exit.Aborted?) && !out.Panicked?
    {
      hide AfterTimeout, HappenAll, Prefix, Envelope;
      out := RequestTimeout(script, exit, i);
      ObserveAll(i.beforeRecover);
      if out.Panicked? {
        panics := panics + 1;
        if status == 0 {
          WriteStatus(500);
          ObserveAll(i.betweenWrites);
          WriteBody(Envelope(INTERNAL_ERROR), i.accepted);
        }
        out := Returned;
      }
    }

    method LogRequest(script: seq<Action>, exit: Exit, i: Interference) returns (out: Exit)
      modifies this
      ensures Value() == AfterLog(old(Value()), timed, script, exit, i)
      ensures out == ExitThrough(exit) && (out.Aborted? <==> exit.Aborted?) && !out.Panicked?
    {
      out := RecoverPanic(script, exit, i);
      ObserveAll(i.beforeLog);
      var recorded := STATUS_OK;
      if status != 0 {
        recorded := status;
      } else if outer == ByCancel {
        recorded := CLIENT_CLOSED_REQUEST;
      }
      records := records + [Record(recorded, |body|)];
    }

    /** One request: the middleware, and what happens until it is finished. */
    method Serve(script: seq<Action>, exit: Exit, i: Interference) returns (out: Exit)
      modifies this
      ensures Value() == AfterFinish(old(Value()), timed, script, exit, i)
      ensures old(Value()) == Start(Alive) ==> (SentStatus(Value(), out).None? <==> NothingSent(script, exit, i))
      ensures out == ExitThrough(exit) && (out.Aborted? <==> exit.Aborted?) && !out.Panicked?
    {
      hide AfterLog, SentStatus, NothingSent;
      out := LogRequest(script, exit, i);
      ObserveAll(i.beforeFinish);
      RecordTruthfulExactly(timed, script, exit, i);
    }
  }

  // ---- A request described from the outside ----

  /** The status a handler commits: that of its first write of any kind. */
  function FirstCommit(script: seq<Action>): Option<Status> {
    if script == [] then None
    else
      match script[0]
      case Env(_) => FirstCommit(script[1..])
      case WriteHeader(status) => Some(status)
      case Write(_, _) => Some(STATUS_OK)
  }

  /** The bytes of a handler's writes that the transport accepted. */
  function Written(script: seq<Action>): string {
    if script == [] then ""
    else (if script[0].Write? then Prefix(script[0].data, script[0].accepted) else "") + Written(script[1..])
  }

  function EnvAll(events: seq<Event>): seq<Action> { seq(|events|, k requires 0 <= k < |events| => Env(events[k])) }

  function RecoveryActions(script: seq<Action>, exit: Exit, i: Interference): seq<Action> {
    if exit.Panicked? && FirstCommit(script).None?
    then [WriteHeader(500)] + EnvAll(i.betweenWrites) + [Write(Envelope(INTERNAL_ERROR), i.accepted)]
    else []
  }

  /** Everything up to the completion record, as one list of actions. */
  function UntilLog(script: seq<Action>, exit: Exit, i: Interference): seq<Action> {
    script + EnvAll(i.beforeCancel) + EnvAll(i.beforeRecover) + RecoveryActions(script, exit, i) + EnvAll(i.beforeLog)
  }

  /** Everything until the request is finished. */
  function Timeline(script: seq<Action>, exit: Exit, i: Interference): seq<Action> {
    UntilLog(script, exit, i) + EnvAll(i.beforeFinish)
  }

  predicate Disconnected(actions: seq<Action>) { Env(Disconnect) in actions }

  /** Some flush came after a commit and before the client left. */
  function FlushedInTime(actions: seq<Action>, committed: bool): bool {
    if actions == [] then false
    else
      match actions[0]
      case Env(Disconnect) => false
      case Env(Flush) => committed || FlushedInTime(actions[1..], committed)
      case Env(DeadlineFires) => FlushedInTime(actions[1..], committed)
      case _ => FlushedInTime(actions[1..], true)
  }

  /** The status a request commits: its handler's, or 500 after a panic without one. */
  function FinalCommit(script: seq<Action>, exit: Exit): Option<Status> {
    if FirstCommit(script).None? && exit.Panicked? then Some(500) else FirstCommit(script)
  }

  // ---- Laws ----

  lemma {:induction false} HappenAllKeeps(s: State, timed: bool, events: seq<Event>)
    ensures var t := HappenAll(s, timed, events);
            t == s.(outer := t.outer, inner := t.inner, delivered := t.delivered)
  {
    if events != [] {
      HappenAllKeeps(s, timed, events[..|events| - 1]);
    }
  }

  lemma {:induction false} Concat(a: seq<Action>, b: seq<Action>)
    ensures FirstCommit(a + b) == if FirstCommit(a).Some? then FirstCommit(a) else FirstCommit(b)
    ensures Written(a + b) == Written(a) + Written(b)
  {
    if a == [] {
      assert a + b == b;
    } else {
      Concat(a[1..], b);
      assert (a + b)[0] == a[0] && (a + b)[1..] == a[1..] + b;
      assert Written(a + b) == (if a[0].Write? then Prefix(a[0].data, a[0].accepted) else "") + (Written(a[1..]) + Written(b));
    }
  }

  lemma One(action: Action)
    ensures FirstCommit([action]) ==
            if action.Env? then None else if action.WriteHeader? then Some(action.status) else Some(STATUS_OK)
    ensures Written([action]) == if action.Write? then Prefix(action.data, action.accepted) else ""
  {
    assert [action][1..] == [];
  }

  lemma {:induction false} FlushedAppend(actions: seq<Action>, last: Action, committed: bool)
    ensures FlushedInTime(actions + [last], committed) ==
            (FlushedInTime(actions, committed)
             || (last == Env(Flush) && !Disconnected(actions) && (committed || FirstCommit(actions).Some?)))
  {
    if actions == [] {
      assert actions + [last] == [last] && [last][1..] == [];
    } else {
      var head, tail := actions[0], actions[1..];
      assert actions == [head] + tail && (actions + [last])[1..] == tail + [last];
      FlushedAppend(tail, last, committed || !head.Env?);
      FlushedAppend(tail, last, committed);
    }
  }

  /** A list of actions commits its first status and no other, writes what it
      writes, ends the request's context exactly with a disconnect, and delivers
      a response exactly with a flush in time. */
  lemma {:induction false} ActAllFields(timed: bool, actions: seq<Action>)
    ensures var t := ActAll(Start(Alive), timed, actions);
            && t == State(OuterIf(Disconnected(actions)), t.inner, StatusOf(FirstCommit(actions)), Written(actions),
                          CommitsOf(FirstCommit(actions)), FlushedInTime(actions, false), [], 0)
    ensures FlushedInTime(actions, false) ==> FirstCommit(actions).Some?
  {
    if actions != [] {
      var front, last := actions[..|actions| - 1], actions[|actions| - 1];
      assert actions == front + [last];
      ActAllFields(timed, front);
      Concat(front, [last]);
      One(last);
      FlushedAppend(front, last, false);
      hide FirstCommit, Written, FlushedInTime, Prefix;
    }
  }

  function OuterIf(gone: bool): Cause { if gone then ByCancel else Alive }

  function StatusOf(first: Option<Status>): int { if first.Some? then first.value else 0 }

  function CommitsOf(first: Option<Status>): seq<Status> { if first.Some? then [first.value] else [] }

  /** Equal but for what only the middleware itself touches. */
  predicate SameRequest(s: State, t: State) { s.(inner := t.inner, records := t.records, panics := t.panics) == t }

  lemma {:induction false} ActAllSame(s: State, t: State, timed: bool, actions: seq<Action>)
    requires SameRequest(s, t)
    ensures SameRequest(ActAll(s, timed, actions), ActAll(t, timed, actions))
  {
    if actions != [] {
      ActAllSame(s, t, timed, actions[..|actions| - 1]);
    }
  }

  lemma {:induction false} ActAllConcat(s: State, timed: bool, a: seq<Action>, b: seq<Action>)
    ensures ActAll(s, timed, a + b) == ActAll(ActAll(s, timed, a), timed, b)
  {
    hide Act;
    if b == [] {
      assert a + b == a;
    } else {
      var front := b[..|b| - 1];
      ActAllConcat(s, timed, a, front);
      assert (a + b)[..|a + b| - 1] == a + front;
    }
  }

  lemma {:induction false} ActEnvAll(s: State, timed: bool, events: seq<Event>)
    ensures ActAll(s, timed, EnvAll(events)) == HappenAll(s, timed, events)
  {
    hide Happen;
    if events != [] {
      var front := events[..|events| - 1];
      ActEnvAll(s, timed, front);
      assert EnvAll(events)[..|events| - 1] == EnvAll(front);
    }
  }

  /** Events after a list of actions, on a request that is the same as the list's. */
  lemma HappenAfter(s: State, timed: bool, actions: seq<Action>, events: seq<Event>)
    requires SameRequest(ActAll(Start(Alive), timed, actions), s)
    ensures SameRequest(ActAll(Start(Alive), timed, actions + EnvAll(events)), HappenAll(s, timed, events))
  {
    hide ActAll, HappenAll;
    ActAllConcat(Start(Alive), timed, actions, EnvAll(events));
    ActAllSame(ActAll(Start(Alive), timed, actions), s, timed, EnvAll(events));
    ActEnvAll(s, timed, events);
  }

  lemma {:induction false} EnvAllWritesNothing(events: seq<Event>)
    ensures FirstCommit(EnvAll(events)) == None && Written(EnvAll(events)) == ""
  {
    if events != [] {
      EnvAllWritesNothing(events[1..]);
      assert EnvAll(events)[1..] == EnvAll(events[1..]);
    }
  }

  lemma EnvAppended(actions: seq<Action>, events: seq<Event>)
    ensures FirstCommit(actions + EnvAll(events)) == FirstCommit(actions)
    ensures Written(actions + EnvAll(events)) == Written(actions)
  {
    Concat(actions, EnvAll(events));
    EnvAllWritesNothing(events);
  }

  lemma ReplyWrites(status: Status, between: seq<Event>, data: string, accepted: nat)
    ensures var actions := [WriteHeader(status)] + EnvAll(between) + [Write(data, accepted)];
            FirstCommit(actions) == Some(status) && Written(actions) == Prefix(data, accepted)
  {
    hide Prefix;
    var first, last := [WriteHeader(status)], [Write(data, accepted)];
    EnvAppended(first, between);
    Concat(first + EnvAll(between), last);
    One(WriteHeader(status));
    One(Write(data, accepted));
  }

  /** The middleware is its timeline: what recovery does depends on what the
      script committed, and nothing else on where in the code it happened. */
  lemma RecoverTimeline(timed: bool, script: seq<Action>, exit: Exit, i: Interference)
    ensures SameRequest(ActAll(Start(Alive), timed,
                               script + EnvAll(i.beforeCancel) + EnvAll(i.beforeRecover) + RecoveryActions(script, exit, i)),
                        AfterRecover(Start(Alive), timed, script, exit, i))
  {
    hide ActAll, HappenAll, FirstCommit, Written, Envelope;
    var start := Start(Alive);
    HappenAfter(ActAll(start, timed, script), timed, script, i.beforeCancel);
    var ended := script + EnvAll(i.beforeCancel);
    HappenAfter(AfterTimeout(start, timed, script, i), timed, ended, i.beforeRecover);
    var unwound := ended + EnvAll(i.beforeRecover);
    var t := HappenAll(AfterTimeout(start, timed, script, i), timed, i.beforeRecover);
    ActAllFields(timed, unwound);
    EnvAppended(script, i.beforeCancel);
    EnvAppended(ended, i.beforeRecover);
    var recovery := RecoveryActions(script, exit, i);
    assert unwound + [] == unwound;
    if exit.Panicked? && FirstCommit(script).None? {
      var logged := t.(panics := t.panics + 1);
      ActAllConcat(start, timed, unwound, recovery);
      ActAllSame(ActAll(start, timed, unwound), logged, timed, recovery);
      ActReply(logged, timed, 500, i.betweenWrites, Envelope(INTERNAL_ERROR), i.accepted);
    }
  }

  lemma ActReply(s: State, timed: bool, status: Status, between: seq<Event>, data: string, accepted: nat)
    ensures ActAll(s, timed, [WriteHeader(status)] + EnvAll(between) + [Write(data, accepted)])
            == Send(HappenAll(Commit(s, status), timed, between), data, accepted)
  {
    var first, last := [WriteHeader(status)], [Write(data, accepted)];
    ActAllConcat(s, timed, first + EnvAll(between), last);
    ActAllConcat(s, timed, first, EnvAll(between));
    ActOne(s, timed, WriteHeader(status));
    ActEnvAll(Commit(s, status), timed, between);
    ActOne(HappenAll(Commit(s, status), timed, between), timed, Write(data, accepted));
  }

  lemma ActOne(s: State, timed: bool, action: Action)
    ensures ActAll(s, timed, [action]) == Act(s, timed, action)
  {
    assert [action][..0] == [];
  }

  lemma TimelineCommits(script: seq<Action>, exit: Exit, i: Interference)
    ensures FirstCommit(UntilLog(script, exit, i)) == FinalCommit(script, exit)
    ensures FirstCommit(Timeline(script, exit, i)) == FinalCommit(script, exit)
    ensures Written(UntilLog(script, exit, i)) == Written(script) + Written(RecoveryActions(script, exit, i))
    ensures Written(RecoveryActions(script, exit, i)) ==
            if exit.Panicked? && FirstCommit(script).None? then Prefix(Envelope(INTERNAL_ERROR), i.accepted) else ""
  {
    hide Envelope, Prefix;
    var ended := script + EnvAll(i.beforeCancel);
    var unwound := ended + EnvAll(i.beforeRecover);
    var recovery := RecoveryActions(script, exit, i);
    EnvAppended(script, i.beforeCancel);
    EnvAppended(ended, i.beforeRecover);
    Concat(unwound, recovery);
    ReplyWrites(500, i.betweenWrites, Envelope(INTERNAL_ERROR), i.accepted);
    EnvAppended(unwound + recovery, i.beforeLog);
    EnvAppended(UntilLog(script, exit, i), i.beforeFinish);
  }

  lemma LoggedAndPanicked(timed: bool, script: seq<Action>, exit: Exit, i: Interference)
    ensures var t := AfterRecover(Start(Alive), timed, script, exit, i);
            t.records == [] && t.panics == if exit.Panicked? then 1 else 0
  {
    hide FirstCommit, Written, FlushedInTime, Envelope, Prefix, HappenAll, ActAll;
    ActAllFields(timed, script);
    HappenAllKeeps(ActAll(Start(Alive), timed, script), timed, i.beforeCancel);
    var ended := AfterTimeout(Start(Alive), timed, script, i);
    HappenAllKeeps(ended, timed, i.beforeRecover);
    var unwound := HappenAll(ended, timed, i.beforeRecover);
    HappenAllKeeps(Commit(unwound.(panics := unwound.panics + 1), 500), timed, i.betweenWrites);
  }

  lemma AfterLogFields(timed: bool, script: seq<Action>, exit: Exit, i: Interference)
    ensures var t := AfterLog(Start(Alive), timed, script, exit, i);
            && SameRequest(ActAll(Start(Alive), timed, UntilLog(script, exit, i)), t)
            && t.panics == (if exit.Panicked? then 1 else 0)
            && t.records == [Record(RecordedStatus(t.outer, t.status), |t.body|)]
  {
    hide ActAll, HappenAll, AfterRecover, RecoveryActions, RecordedStatus;
    RecoverTimeline(timed, script, exit, i);
    LoggedAndPanicked(timed, script, exit, i);
    var recovered := AfterRecover(Start(Alive), timed, script, exit, i);
    HappenAfter(recovered, timed,
                script + EnvAll(i.beforeCancel) + EnvAll(i.beforeRecover) + RecoveryActions(script, exit, i), i.beforeLog);
    HappenAllKeeps(recovered, timed, i.beforeLog);
  }

  /** Status accounting and write-once, over every interleaving and every exit.
      The first status committed is the handler's first write, or the recovery's
      500 after a panic that struck an unwritten response; nothing is committed
      twice, and recovery neither changes nor extends what was already written.
      Exactly one completion record is logged. It has the committed status if
      there is one, otherwise 499 exactly if the client disconnected before it,
      otherwise 200: the deadline and the deferred cancel never cause a 499. */
  lemma StatusAccounting(timed: bool, script: seq<Action>, exit: Exit, i: Interference)
    ensures var t := AfterLog(Start(Alive), timed, script, exit, i);
            && t.commits == CommitsOf(FinalCommit(script, exit))
            && t.body == Written(script) + (if exit.Panicked? && FirstCommit(script).None?
                                            then Prefix(Envelope(INTERNAL_ERROR), i.accepted) else "")
            && t.panics == (if exit.Panicked? then 1 else 0)
            && |t.records| == 1 && t.records[0].bytes == |t.body|
            && t.records[0].status ==
               (if FinalCommit(script, exit).Some? then FinalCommit(script, exit).value
                else if Disconnected(UntilLog(script, exit, i)) then 499 else 200)
  {
    hide AfterLog, ActAll, FirstCommit, Written, Envelope, Prefix, UntilLog, FlushedInTime, FinalCommit;
    AfterLogFields(timed, script, exit, i);
    ActAllFields(timed, UntilLog(script, exit, i));
    TimelineCommits(script, exit, i);
  }

  /** The status the client is sent. A response that was flushed in time has its
      committed one. Otherwise net/http flushes when it finishes the request,
      with an implicit 200 if none was committed, unless an abort leaves the chain
      of handlers or the client is gone: then nothing is sent. */
  function SentStatus(t: State, out: Exit): Option<int> {
    if t.delivered then Some(t.status)
    else if out.Aborted? || t.outer == ByCancel then None
    else Some(if t.status != 0 then t.status else STATUS_OK)
  }

  /** The record tells the truth: the status sent, or 499 when none was. */
  predicate Truthful(t: State, out: Exit) {
    |t.records| == 1 &&
    t.records[0].status == match SentStatus(t, out) case Some(status) => status case None => 499
  }

  /** Nothing reaches the client: no flush was in time, and at the end the
      handler had aborted or the client was gone. */
  predicate NothingSent(script: seq<Action>, exit: Exit, i: Interference) {
    && !FlushedInTime(Timeline(script, exit, i), false)
    && (exit.Aborted? || Disconnected(Timeline(script, exit, i)))
  }

  /** Exactly when the record is wrong: nothing was sent, and yet a status other
      than 499 had been committed, or none had and the client was still there
      when the record was made. Then the record claims a response that no client
      got; in every other case it is true. */
  lemma RecordTruthfulExactly(timed: bool, script: seq<Action>, exit: Exit, i: Interference)
    ensures var t := AfterFinish(Start(Alive), timed, script, exit, i);
            var wrong := NothingSent(script, exit, i)
                         && (if FinalCommit(script, exit).Some? then FinalCommit(script, exit).value != 499
                             else !Disconnected(UntilLog(script, exit, i)));
            && (Truthful(t, ExitThrough(exit)) <==> !wrong)
            && (SentStatus(t, ExitThrough(exit)).None? <==> NothingSent(script, exit, i))
  {
    hide AfterLog, HappenAll, ActAll, FirstCommit, Written, Envelope, Prefix, UntilLog, FlushedInTime, FinalCommit;
    StatusAccounting(timed, script, exit, i);
    AfterLogFields(timed, script, exit, i);
    var logged := AfterLog(Start(Alive), timed, script, exit, i);
    HappenAfter(logged, timed, UntilLog(script, exit, i), i.beforeFinish);
    HappenAllKeeps(logged, timed, i.beforeFinish);
    ActAllFields(timed, Timeline(script, exit, i));
    TimelineCommits(script, exit, i);
    var t := AfterFinish(Start(Alive), timed, script, exit, i);
    assert t.delivered == FlushedInTime(Timeline(script, exit, i), false);
    assert t.status == StatusOf(FinalCommit(script, exit));
    assert (t.outer == ByCancel) == Disconnected(Timeline(script, exit, i));
    assert Disconnected(UntilLog(script, exit, i)) ==> Disconnected(Timeline(script, exit, i));
  }

  const QUIET := Interference([], [], [], [], [], 0)

  /** Four requests whose record is wrong: an abort before anything is written,
      logged as 200; a handler that answers 400 after the client has left; a
      panic after the client has left, logged as 500; and an abort after a status
      that the transport still held in its buffer. */
  lemma WrongRecords(timed: bool)
    ensures !Truthful(AfterFinish(Start(Alive), timed, [], Aborted, QUIET), ExitThrough(Aborted))
    ensures !Truthful(AfterFinish(Start(Alive), timed, [Env(Disconnect), WriteHeader(400)], Returned, QUIET), ExitThrough(Returned))
    ensures !Truthful(AfterFinish(Start(Alive), timed, [Env(Disconnect)], Panicked, QUIET), ExitThrough(Panicked))
    ensures !Truthful(AfterFinish(Start(Alive), timed, [WriteHeader(200)], Aborted, QUIET), ExitThrough(Aborted))
  {
    hide AfterFinish, Truthful;
    WrongRecord(timed, [], Aborted);
    assert [Env(Disconnect), WriteHeader(400)][1..] == [WriteHeader(400)];
    WrongRecord(timed, [Env(Disconnect), WriteHeader(400)], Returned);
    One(Env(Disconnect));
    WrongRecord(timed, [Env(Disconnect)], Panicked);
    One(WriteHeader(200));
    WrongRecord(timed, [WriteHeader(200)], Aborted);
  }

  lemma WrongRecord(timed: bool, script: seq<Action>, exit: Exit)
    requires exit.Aborted? || (script != [] && script[0] == Env(Disconnect))
    requires FinalCommit(script, exit) != Some(499)
    requires FinalCommit(script, exit).None? ==> !Disconnected(script)
    requires !FlushedInTime(script, false)
    ensures !Truthful(AfterFinish(Start(Alive), timed, script, exit, QUIET), ExitThrough(exit))
  {
    RecordTruthfulExactly(timed, script, exit, QUIET);
    hide AfterFinish, Truthful;
    var recovery := RecoveryActions(script, exit, QUIET);
    assert UntilLog(script, exit, QUIET) == script + recovery;
    assert Timeline(script, exit, QUIET) == script + recovery;
    if recovery == [] {
      assert script + recovery == script;
    } else {
      assert (script + recovery)[0] == script[0];
    }
  }

  // ---- A repository call that fails with the request context's own error ----

  /** The first event that ends the handler's context. */
  function FirstCause(timed: bool, events: seq<Event>): Option<Event> {
    if events == [] then None
    else if events[0].Disconnect? || (timed && events[0].DeadlineFires?) then Some(events[0])
    else FirstCause(timed, events[1..])
  }

  function CauseError(e: Event): Error { if e.Disconnect? then Canceled else DeadlineExceeded }

  /** WriteError: a status, then the envelope, with whatever happens between. */
  function ReplyActions(reply: Option<Reply>, between: seq<Event>, accepted: nat): seq<Action>
    requires reply.Some? ==> 200 <= reply.value.status <= 999
  {
    if reply.None? then []
    else [WriteHeader(reply.value.status)] + EnvAll(between) + [Write(Envelope(reply.value), accepted)]
  }

  /** A failing call: what happens during it, until its reply is begun, and
      between the reply's status and envelope. */
  datatype Failing = Failing(during: seq<Event>, returning: seq<Event>, between: seq<Event>, accepted: nat)

  /** A handler whose repository call returns, wrapped on the way up, the error
      of the context it ran under. */
  function FailureScript(timed: bool, f: Failing, operation: Operation, prefixes: seq<string>): seq<Action>
    requires FirstCause(timed, f.during).Some?
  {
    var err := WrapAll(prefixes, CauseError(FirstCause(timed, f.during).value));
    EnvAll(f.during) + EnvAll(f.returning) + ReplyActions(OperationReply(operation, err), f.between, f.accepted)
  }

  lemma {:induction false} FirstCauseAppend(timed: bool, events: seq<Event>, e: Event)
    ensures FirstCause(timed, events + [e]) ==
            if FirstCause(timed, events).Some? then FirstCause(timed, events)
            else if e.Disconnect? || (timed && e.DeadlineFires?) then Some(e) else None
  {
    if events == [] {
      assert events + [e] == [e] && [e][1..] == [];
    } else {
      FirstCauseAppend(timed, events[1..], e);
      assert (events + [e])[1..] == events[1..] + [e];
    }
  }

  /** The handler's context ends with the first cause, whatever comes later. */
  lemma {:induction false} InnerIsFirstCause(timed: bool, events: seq<Event>)
    ensures var t := HappenAll(Start(Alive), timed, events);
            t.inner == match FirstCause(timed, events)
                       case None => Alive
                       case Some(e) => if e.Disconnect? then ByCancel else ByDeadline
  {
    if events != [] {
      var front, last := events[..|events| - 1], events[|events| - 1];
      InnerIsFirstCause(timed, front);
      FirstCauseAppend(timed, front, last);
      assert events == front + [last];
    }
  }

  lemma {:induction false} FirstDisconnect(timed: bool, events: seq<Event>)
    requires FirstCause(timed, events) == Some(Disconnect)
    ensures Disconnect in events
  {
    if !events[0].Disconnect? {
      FirstDisconnect(timed, events[1..]);
    }
  }

  /** Context failures compose across the layers: for every operation and any
      depth of wrapping, a deadline that fired first ends in one 504 response
      handed to the transport and logged as 504, and a disconnect that came first
      ends in no written byte, logged as 499; nothing that happens after the
      cause, between any of the steps, changes either. */
  lemma ContextFailureComposes(timed: bool, f: Failing, operation: Operation, prefixes: seq<string>, i: Interference)
    requires FirstCause(timed, f.during).Some?
    ensures var t := AfterFinish(Start(Alive), timed, FailureScript(timed, f, operation, prefixes), Returned, i);
            && |t.records| == 1
            && (FirstCause(timed, f.during).value.DeadlineFires? ==>
                  t.commits == [504] && t.body == Prefix(Envelope(REQUEST_TIMEOUT), f.accepted) && t.records[0].status == 504)
            && (FirstCause(timed, f.during).value.Disconnect? ==>
                  t.commits == [] && t.body == "" && t.records[0].status == 499)
  {
    hide AfterLog, HappenAll, FirstCommit, Written, Envelope, Prefix, OperationReply, Is, WrapAll, FirstCause;
    var cause := FirstCause(timed, f.during).value;
    FirstCauseKind(timed, f.during);
    var script := FailureScript(timed, f, operation, prefixes);
    ContextErrorReply(operation, prefixes, CauseError(cause));
    StatusAccounting(timed, script, Returned, i);
    HappenAllKeeps(AfterLog(Start(Alive), timed, script, Returned, i), timed, i.beforeFinish);
    var quiet := EnvAll(f.during) + EnvAll(f.returning);
    EnvAllWritesNothing(f.during);
    EnvAppended(EnvAll(f.during), f.returning);
    if cause.DeadlineFires? {
      Concat(quiet, ReplyActions(Some(REQUEST_TIMEOUT), f.between, f.accepted));
      ReplyWrites(504, f.between, Envelope(REQUEST_TIMEOUT), f.accepted);
    } else {
      assert script == quiet;
      FirstDisconnect(timed, f.during);
      var k :| 0 <= k < |f.during| && f.during[k] == Disconnect;
      assert EnvAll(f.during)[k] == Env(Disconnect);
      assert Env(Disconnect) in UntilLog(script, Returned, i);
    }
  }

  lemma {:induction false} FirstCauseKind(timed: bool, events: seq<Event>)
    ensures FirstCause(timed, events).Some? ==> !FirstCause(timed, events).value.Flush?
  {
    if events != [] {
      FirstCauseKind(timed, events[1..]);
    }
  }

  /** The failing handler itself: it waits for its context to end, is handed the
      context's error, and answers it as failRequest does. */
  method FailOperation(x: Exchange, f: Failing, operation: Operation, prefixes: seq<string>)
    requires x.Value() == Start(Alive) && FirstCause(x.timed, f.during).Some?
    modifies x
    ensures x.Value() == ActAll(Start(Alive), x.timed, FailureScript(x.timed, f, operation, prefixes))
  {
    hide ActAll, HappenAll, OperationReply, WrapAll, Is, Envelope, FirstCause;
    FirstCauseKind(x.timed, f.during);
    x.ObserveAll(f.during);
    InnerIsFirstCause(x.timed, f.during);
    var err := WrapAll(prefixes, if x.inner == ByDeadline then DeadlineExceeded else Canceled);
    x.ObserveAll(f.returning);
    var reply := OperationReply(operation, err);
    ghost var quiet := EnvAll(f.during) + EnvAll(f.returning);
    ActEnvAll(Start(Alive), x.timed, f.during);
    ActAllConcat(Start(Alive), x.timed, EnvAll(f.during), EnvAll(f.returning));
    ActEnvAll(ActAll(Start(Alive), x.timed, EnvAll(f.during)), x.timed, f.returning);
    if reply.Some? {
      ghost var before := x.Value();
      x.WriteStatus(reply.value.status);
      x.ObserveAll(f.between);
      x.WriteBody(Envelope(reply.value), f.accepted);
      ActAllConcat(Start(Alive), x.timed, quiet, ReplyActions(reply, f.between, f.accepted));
      ActReply(before, x.timed, reply.value.status, f.between, Envelope(reply.value), f.accepted);
    } else {
      assert quiet + [] == quiet;
    }
  }
}
