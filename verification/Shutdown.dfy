/** The shutdown protocol: a goroutine that serves and reports over a one-slot
    channel, and Run, which selects between that report and the termination
    signal, drains, and shuts the server down. Steps interleave freely and a
    clock runs between them; a select with two ready cases takes either. */
module Shutdown {
  import opened Wrappers

  /** What ListenAndServe returned: http.ErrServerClosed or any other error. */
  datatype ServeError = Closed | Failure(text: string)

  datatype Goroutine = Serving | Served(err: ServeError) | Reported(err: ServeError)

  datatype Result = Stopped | ServeFailed(err: ServeError) | ShutdownFailed

  datatype Phase =
    | Selecting
    | BeginningDrain
    | EnteringDrain
    | Draining(until: int)
    | CallingShutdown
    | ShuttingDown
    | Finished(result: Result)

  /** A context: cancelled or not, with an optional deadline. */
  datatype Context = Context(cancelled: bool, deadline: Option<int>)

  /** A context that work can still be done in. */
  predicate Live(c: Context, now: int) { !c.cancelled && (c.deadline.Some? ==> now < c.deadline.value) }

  function WithoutCancel(parent: Context): Context { Context(false, None) }

  function WithTimeout(parent: Context, now: int, timeout: int): Context {
    Context(parent.cancelled,
            if parent.deadline.Some? && parent.deadline.value < now + timeout then parent.deadline else Some(now + timeout))
  }

  datatype Options = Options(hasBeginDrain: bool, drainDelay: int, timeout: int)

  datatype State = State(
    now: int,
    signalledAt: Option<int>,        // when the parent context was cancelled
    goroutine: Goroutine,
    sentAt: Option<int>,             // when the goroutine sent its report
    channel: Option<ServeError>,     // its single slot
    sends: nat,
    received: Option<ServeError>,    // what Run took from the channel
    phase: Phase,
    viaSignal: bool,                 // Run took the signal's case of the select
    drainedAt: Option<int>,          // when BeginDrain was called
    shutdownAt: Option<int>,
    shutdownCalls: nat,
    shutdownContext: Context,
    shutdownOk: Option<bool>,        // what Shutdown returned
    finishedAt: Option<int>)

  datatype Action =
    | Tick(elapsed: nat)
    | Signal
    | ServeReturns(err: ServeError)
    | Send
    | ReceiveReport
    | ObserveSignal
    | BeginDrain
    | EnterDrain
    | ReceiveWhileDraining
    | TimerFires
    | CallShutdown
    | ShutdownReturns(ok: bool)

  function Start(now: int): State {
    State(now, None, Serving, None, None, 0, None, Selecting, false, None, None, 0, Context(false, None), None, None)
  }

  function ParentContext(s: State): Context { Context(s.signalledAt.Some?, None) }

  function Delay(o: Options): int { if o.drainDelay <= 0 then 0 else o.drainDelay }

  predicate Enabled(s: State, a: Action) {
    match a
    case Tick(_) => true
    case Signal => s.signalledAt.None?
    case ServeReturns(_) => s.goroutine.Serving?
    case Send => s.goroutine.Served? && s.channel.None?
    case ReceiveReport => s.phase.Selecting? && s.channel.Some?
    case ObserveSignal => s.phase.Selecting? && s.signalledAt.Some?
    case BeginDrain => s.phase.BeginningDrain?
    case EnterDrain => s.phase.EnteringDrain?
    case ReceiveWhileDraining => s.phase.Draining? && s.channel.Some?
    case TimerFires => s.phase.Draining? && s.phase.until <= s.now
    case CallShutdown => s.phase.CallingShutdown?
    case ShutdownReturns(_) => s.phase.ShuttingDown?
  }

  function Finish(s: State, result: Result): State { s.(phase := Finished(result), finishedAt := Some(s.now)) }

  /** A report ends Run with its error, unless the server was closed on purpose. */
  function Receive(s: State): State
    requires s.channel.Some?
  {
    var t := s.(channel := None, received := s.channel);
    if s.channel.value.Closed? then t.(phase := CallingShutdown) else Finish(t, ServeFailed(s.channel.value))
  }

  function Apply(o: Options, s: State, a: Action): State
    requires Enabled(s, a)
  {
    match a
    case Tick(elapsed) => s.(now := s.now + elapsed)
    case Signal => s.(signalledAt := Some(s.now))
    case ServeReturns(err) => s.(goroutine := Served(err))
    case Send =>
      s.(goroutine := Reported(s.goroutine.err), sentAt := Some(s.now), channel := Some(s.goroutine.err),
         sends := s.sends + 1)
    case ReceiveReport => Receive(s)
    case ObserveSignal => s.(phase := BeginningDrain, viaSignal := true)
    case BeginDrain => s.(phase := EnteringDrain, drainedAt := if o.hasBeginDrain then Some(s.now) else s.drainedAt)
    case EnterDrain => s.(phase := if o.drainDelay <= 0 then CallingShutdown else Draining(s.now + o.drainDelay))
    case ReceiveWhileDraining => Receive(s)
    case TimerFires => s.(phase := CallingShutdown)
    case CallShutdown =>
      s.(phase := ShuttingDown, shutdownAt := Some(s.now), shutdownCalls := s.shutdownCalls + 1,
         shutdownContext := WithTimeout(WithoutCancel(ParentContext(s)), s.now, o.timeout))
    case ShutdownReturns(ok) => Finish(s.(shutdownOk := Some(ok)), if ok then Stopped else ShutdownFailed)
  }

  /** A run: every action enabled when it happens. */
  ghost predicate IsRun(o: Options, states: seq<State>, actions: seq<Action>) {
    && |states| == |actions| + 1
    && states[0] == Start(states[0].now)
    && forall i :: 0 <= i < |actions| ==> Enabled(states[i], actions[i]) && states[i + 1] == Apply(o, states[i], actions[i])
  }

  // ---- Safety, however long any step takes ----

  /** At most one message is ever sent, and its slot is free until then. */
  predicate ChannelInv(s: State) {
    && s.sends == (if s.goroutine.Reported? then 1 else 0)
    && (s.goroutine.Reported? <==> s.sentAt.Some?)
    && (s.sentAt.Some? ==> s.sentAt.value <= s.now)
    && (if s.goroutine.Reported? then
          (s.channel == Some(s.goroutine.err) && s.received.None?)
          || (s.channel.None? && s.received == Some(s.goroutine.err))
        else s.channel.None? && s.received.None?)
  }

  predicate ResultInv(s: State) {
    && (s.phase.Finished? && s.phase.result.ServeFailed? <==> s.received.Some? && s.received.value.Failure?)
    && (s.phase.Finished? && s.phase.result.ServeFailed? ==> s.received == Some(s.phase.result.err))
    && (s.received == Some(Closed) ==>
          s.phase.CallingShutdown? || s.phase.ShuttingDown? || (s.phase.Finished? && !s.phase.result.ServeFailed?))
    && s.shutdownCalls == (if s.phase.ShuttingDown? || (s.phase.Finished? && !s.phase.result.ServeFailed?) then 1 else 0)
    && (s.shutdownCalls == 1 <==> s.shutdownAt.Some?)
    && (s.phase.Finished? && s.phase.result.Stopped? ==> s.shutdownOk == Some(true))
    && (s.phase.Finished? && s.phase.result.ShutdownFailed? ==> s.shutdownOk == Some(false))
    && (s.phase.Finished? <==> s.finishedAt.Some?)
  }

  predicate SignalInv(o: Options, s: State) {
    && (s.viaSignal ==> s.signalledAt.Some?)
    && (s.signalledAt.Some? ==> s.signalledAt.value <= s.now)
    && (s.phase.Selecting? ==> !s.viaSignal && s.received.None?)
    && (s.phase.BeginningDrain? || s.phase.EnteringDrain? || s.phase.Draining? ==> s.viaSignal && s.received.None?)
    && (!s.viaSignal ==> s.drainedAt.None?)
    && (s.drainedAt.Some? ==> s.signalledAt.Some? && s.signalledAt.value <= s.drainedAt.value <= s.now)
    && (s.viaSignal && o.hasBeginDrain && !s.phase.BeginningDrain? ==> s.drainedAt.Some?)
    && (s.phase.Draining? ==>
          && (s.signalledAt.Some? ==> s.signalledAt.value + Delay(o) <= s.phase.until)
          && (s.drainedAt.Some? ==> s.drainedAt.value + Delay(o) <= s.phase.until))
  }

  predicate CallInv(o: Options, s: State) {
    && (s.phase.CallingShutdown? ==> Separated(o, s, s.now))
    && (s.shutdownAt.Some? ==>
          && s.shutdownAt.value <= s.now && Separated(o, s, s.shutdownAt.value)
          && s.shutdownContext == Context(false, Some(s.shutdownAt.value + o.timeout)))
  }

  predicate OrderInv(o: Options, s: State) { SignalInv(o, s) && CallInv(o, s) }

  /** What may precede a call of Shutdown at some time: on the signal's path the
      whole drain delay since the signal, and since BeginDrain if there is one,
      unless serving had already ended. */
  predicate Separated(o: Options, s: State, at: int) {
    if s.viaSignal then
      s.received == Some(Closed)
      || (&& s.received.None?
          && (s.signalledAt.Some? ==> s.signalledAt.value + Delay(o) <= at)
          && (s.drainedAt.Some? ==> s.drainedAt.value + Delay(o) <= at))
    else s.received == Some(Closed)
  }

  lemma StepKeepsResult(o: Options, s: State, a: Action)
    requires ChannelInv(s) && ResultInv(s) && OrderInv(o, s) && Enabled(s, a)
    ensures ChannelInv(Apply(o, s, a)) && ResultInv(Apply(o, s, a))
  {
  }

  lemma StepKeepsOrder(o: Options, s: State, a: Action)
    requires ChannelInv(s) && ResultInv(s) && OrderInv(o, s) && Enabled(s, a)
    ensures OrderInv(o, Apply(o, s, a))
  {
    hide SignalInv, CallInv, ChannelInv, ResultInv, Enabled, Apply;
    StepKeepsSignal(o, s, a);
    StepKeepsCall(o, s, a);
  }

  lemma StepKeepsSignal(o: Options, s: State, a: Action)
    requires ChannelInv(s) && SignalInv(o, s) && Enabled(s, a)
    ensures SignalInv(o, Apply(o, s, a))
  {
    hide WithTimeout, WithoutCancel;
  }

  lemma StepKeepsCall(o: Options, s: State, a: Action)
    requires ChannelInv(s) && ResultInv(s) && OrderInv(o, s) && Enabled(s, a)
    ensures CallInv(o, Apply(o, s, a))
  {
  }

  lemma {:induction false} RunKeepsInv(o: Options, states: seq<State>, actions: seq<Action>, n: nat)
    requires IsRun(o, states, actions) && n <= |actions|
    ensures ChannelInv(states[n]) && ResultInv(states[n]) && OrderInv(o, states[n])
  {
    if n > 0 {
      hide ChannelInv, ResultInv, OrderInv, Enabled, Apply;
      RunKeepsInv(o, states, actions, n - 1);
      StepKeepsResult(o, states[n - 1], actions[n - 1]);
      StepKeepsOrder(o, states[n - 1], actions[n - 1]);
    } else {
      assert states[0] == Start(states[0].now);
    }
  }

  /** The serve goroutine: in every run, before and after Run has returned, it
      sends at most once and finds the slot free when it does. A failure that Run
      received is what Run returns, without calling Shutdown, and it returns a
      serve failure only then; and it returns nil only if Shutdown did. */
  lemma ReportsAreReturned(o: Options, states: seq<State>, actions: seq<Action>)
    requires IsRun(o, states, actions)
    ensures var s := states[|actions|];
            && s.sends <= 1
            && (s.goroutine.Served? ==> Enabled(s, Send))
            && (s.phase.Finished? && s.phase.result.ServeFailed? <==> s.received.Some? && s.received.value.Failure?)
            && (s.phase.Finished? && s.phase.result.ServeFailed? ==>
                  && s.received == Some(s.phase.result.err) && s.goroutine == Reported(s.phase.result.err)
                  && s.shutdownCalls == 0)
            && (s.phase.Finished? && !s.phase.result.ServeFailed? ==> s.shutdownCalls == 1)
            && (s.phase == Finished(Stopped) ==> s.shutdownOk == Some(true))
  {
    RunKeepsInv(o, states, actions, |actions|);
  }

  /** Shutdown is called at most once. On the signal's path the whole delay
      separates it from the signal, and from BeginDrain where there is one, which
      comes between the two, unless serving ended on its own. Its context has the
      full timeout and is not cancelled, although the parent context is by then:
      it is live exactly if the timeout is positive. */
  lemma ShutdownIsOrdered(o: Options, states: seq<State>, actions: seq<Action>)
    requires IsRun(o, states, actions)
    ensures var s := states[|actions|];
            && s.shutdownCalls <= 1
            && (s.shutdownCalls == 1 ==>
                  && s.shutdownAt.Some?
                  && s.shutdownContext == Context(false, Some(s.shutdownAt.value + o.timeout))
                  && (Live(s.shutdownContext, s.shutdownAt.value) <==> o.timeout > 0)
                  && (s.viaSignal ==>
                        && s.signalledAt.Some? && ParentContext(s).cancelled
                        && (s.received == Some(Closed) || s.signalledAt.value + Delay(o) <= s.shutdownAt.value))
                  && (s.viaSignal && o.hasBeginDrain ==>
                        && s.drainedAt.Some? && s.signalledAt.value <= s.drainedAt.value
                        && (s.received == Some(Closed) || s.drainedAt.value + Delay(o) <= s.shutdownAt.value))
                  && (!s.viaSignal ==> s.received == Some(Closed) && s.drainedAt.None?))
  {
    RunKeepsInv(o, states, actions, |actions|);
  }

  /** Once BeginDrain was called it was called no later than Shutdown, and never
      before the signal. */
  lemma DrainPrecedesShutdown(o: Options, states: seq<State>, actions: seq<Action>, i: nat, j: nat)
    requires IsRun(o, states, actions) && i < |actions| && j < |actions|
    requires actions[i] == BeginDrain && actions[j] == CallShutdown
    ensures i < j
    ensures states[i].signalledAt.Some? && states[i].signalledAt.value <= states[i].now
  {
    PhaseAfter(o, states, actions, j);
    RunKeepsInv(o, states, actions, i);
    if j < i {
      CalledStays(o, states, actions, j + 1, i);
    }
  }

  lemma PhaseAfter(o: Options, states: seq<State>, actions: seq<Action>, j: nat)
    requires IsRun(o, states, actions) && j < |actions| && actions[j] == CallShutdown
    ensures states[j + 1].shutdownCalls > 0
  {
  }

  lemma {:induction false} CalledStays(o: Options, states: seq<State>, actions: seq<Action>, i: nat, j: nat)
    requires IsRun(o, states, actions) && i <= j <= |actions| && states[i].shutdownCalls > 0
    ensures states[j].shutdownCalls > 0
    decreases j
  {
    if i < j {
      CalledStays(o, states, actions, i, j - 1);
    }
  }

  // ---- Time: Run reacts at once, and Shutdown honours its deadline ----

  /** Time passes only while Run has nothing to do: it waits in a select none of
      whose cases is ready, or for a Shutdown that has not met its deadline. */
  predicate Prompt(o: Options, s: State, a: Action) {
    a.Tick? ==>
      match s.phase
      case Selecting => s.channel.None? && s.signalledAt.None?
      case Draining(until) => s.channel.None? && s.now + a.elapsed <= until
      case ShuttingDown => s.shutdownAt.Some? && s.now + a.elapsed <= s.shutdownAt.value + Timeout(o)
      case Finished(_) => true
      case _ => a.elapsed == 0
  }

  ghost predicate IsPromptRun(o: Options, states: seq<State>, actions: seq<Action>) {
    IsRun(o, states, actions) && forall i :: 0 <= i < |actions| ==> Prompt(o, states[i], actions[i])
  }

  function Timeout(o: Options): int { if o.timeout <= 0 then 0 else o.timeout }

  predicate TimeInv(o: Options, s: State) {
    s.signalledAt.Some? ==>
      var at := s.signalledAt.value;
      match s.phase
      case Selecting => s.now <= at
      case BeginningDrain => s.now <= at
      case EnteringDrain => s.now <= at
      case Draining(until) => until <= at + Delay(o) && s.now <= until
      case CallingShutdown => s.now <= at + Delay(o)
      case ShuttingDown => s.shutdownAt.Some? && s.shutdownAt.value <= at + Delay(o) && s.now <= s.shutdownAt.value + Timeout(o)
      case Finished(_) => s.finishedAt.Some? && s.finishedAt.value <= at + Delay(o) + Timeout(o)
  }

  lemma StepKeepsTime(o: Options, s: State, a: Action)
    requires ChannelInv(s) && ResultInv(s) && OrderInv(o, s) && Enabled(s, a)
    requires TimeInv(o, s) && Prompt(o, s, a)
    requires s.finishedAt.Some? ==> s.finishedAt.value <= s.now
    requires s.phase.ShuttingDown? && s.shutdownAt.Some? ==> s.now <= s.shutdownAt.value + Timeout(o)
    ensures var t := Apply(o, s, a);
            && TimeInv(o, t)
            && (t.finishedAt.Some? ==> t.finishedAt.value <= t.now)
            && (t.phase.ShuttingDown? && t.shutdownAt.Some? ==> t.now <= t.shutdownAt.value + Timeout(o))
  {
  }

  lemma {:induction false} PromptRunKeepsTime(o: Options, states: seq<State>, actions: seq<Action>, n: nat)
    requires IsPromptRun(o, states, actions) && n <= |actions|
    ensures var s := states[n];
            && TimeInv(o, s)
            && (s.finishedAt.Some? ==> s.finishedAt.value <= s.now)
            && (s.phase.ShuttingDown? && s.shutdownAt.Some? ==> s.now <= s.shutdownAt.value + Timeout(o))
  {
    if n > 0 {
      PromptRunKeepsTime(o, states, actions, n - 1);
      RunKeepsInv(o, states, actions, n - 1);
      StepKeepsTime(o, states[n - 1], actions[n - 1]);
    } else {
      assert states[0] == Start(states[0].now);
    }
  }

  /** The stop time is bounded: within the drain delay and the timeout after the
      signal, Run has returned, and while it has not, the clock is within them. */
  lemma StopTimeBounded(o: Options, states: seq<State>, actions: seq<Action>)
    requires IsPromptRun(o, states, actions)
    requires states[|actions|].signalledAt.Some?
    ensures var s := states[|actions|];
            var limit := s.signalledAt.value + Delay(o) + Timeout(o);
            if s.phase.Finished? then s.finishedAt.Some? && s.finishedAt.value <= limit else s.now <= limit
  {
    PromptRunKeepsTime(o, states, actions, |actions|);
  }

  /** Nor does Run get stuck: from the signal until it has returned there is
      always a step of its own to take, or time to wait for one. */
  lemma RunNeverStuck(o: Options, states: seq<State>, actions: seq<Action>)
    requires IsPromptRun(o, states, actions)
    requires states[|actions|].signalledAt.Some? && !states[|actions|].phase.Finished?
    ensures var s := states[|actions|];
            exists a :: Enabled(s, a) && Prompt(o, s, a) && !a.Signal? && !a.ServeReturns? && !a.Send? && a != Tick(0)
  {
    PromptRunKeepsTime(o, states, actions, |actions|);
    var s := states[|actions|];
    var a :=
      match s.phase
      case Selecting => ObserveSignal
      case BeginningDrain => BeginDrain
      case EnteringDrain => EnterDrain
      case Draining(until) =>
        if s.channel.Some? then ReceiveWhileDraining else if until <= s.now then TimerFires else Tick(until - s.now)
      case CallingShutdown => CallShutdown
      case _ => ShutdownReturns(true);
    assert Enabled(s, a) && Prompt(o, s, a);
  }

  // ---- Which failures are reported ----

  /** A failure that Run has not received is fresh while Run still waits for one,
      and came after the whole delay otherwise; one that it received came no
      later than the delay after the signal. */
  predicate FailureInv(o: Options, s: State) {
    s.goroutine.Reported? && s.goroutine.err.Failure? && s.sentAt.Some? ==>
      && (s.received.None? && (s.phase.Selecting? || s.phase.BeginningDrain? || s.phase.EnteringDrain? || s.phase.Draining?) ==>
            s.sentAt.value == s.now)
      && (s.received.None? && (s.phase.CallingShutdown? || s.phase.ShuttingDown? || s.phase.Finished?) ==>
            s.signalledAt.Some? && s.signalledAt.value + Delay(o) <= s.sentAt.value)
      && (s.received.Some? && s.signalledAt.Some? ==> s.sentAt.value <= s.signalledAt.value + Delay(o))
  }

  lemma StepKeepsFailure(o: Options, s: State, a: Action)
    requires ChannelInv(s) && ResultInv(s) && OrderInv(o, s) && TimeInv(o, s) && Enabled(s, a)
    requires FailureInv(o, s) && Prompt(o, s, a)
    ensures FailureInv(o, Apply(o, s, a))
  {
  }

  lemma {:induction false} PromptRunKeepsFailure(o: Options, states: seq<State>, actions: seq<Action>, n: nat)
    requires IsPromptRun(o, states, actions) && n <= |actions|
    ensures FailureInv(o, states[n])
  {
    if n > 0 {
      hide ChannelInv, ResultInv, OrderInv, TimeInv, FailureInv, Enabled, Apply, Prompt;
      PromptRunKeepsFailure(o, states, actions, n - 1);
      RunKeepsInv(o, states, actions, n - 1);
      PromptRunKeepsTime(o, states, actions, n - 1);
      StepKeepsFailure(o, states[n - 1], actions[n - 1]);
    } else {
      assert states[0] == Start(states[0].now);
    }
  }

  /** Which failures are reported. If Run reacts at once, a failure sent before
      the signal, without one, or before the drain delay after it has passed, is
      what Run has returned once it is finished. One sent later is left behind in
      the channel, and Run returns what Shutdown did. */
  lemma FailureReportedExactly(o: Options, states: seq<State>, actions: seq<Action>)
    requires IsPromptRun(o, states, actions)
    ensures var s := states[|actions|];
            s.phase.Finished? && s.goroutine.Reported? && s.goroutine.err.Failure? ==>
              && s.sentAt.Some?
              && (s.signalledAt.None? || s.sentAt.value < s.signalledAt.value + Delay(o) ==>
                    s.phase.result == ServeFailed(s.goroutine.err))
              && (s.signalledAt.Some? && s.signalledAt.value + Delay(o) < s.sentAt.value ==>
                    && s.channel == Some(s.goroutine.err) && s.shutdownOk.Some?
                    && s.phase.result == if s.shutdownOk.value then Stopped else ShutdownFailed)
  {
    RunKeepsInv(o, states, actions, |actions|);
    PromptRunKeepsFailure(o, states, actions, |actions|);
  }

  /** A failure sent exactly when the delay has passed may go either way, whatever
      the options: both cases of a select are ready then. */
  lemma TieIsFree(o: Options, text: string, reported: bool) returns (states: seq<State>, actions: seq<Action>)
    ensures IsPromptRun(o, states, actions)
    ensures var s := states[|actions|];
            && s.signalledAt.Some? && s.sentAt == Some(s.signalledAt.value + Delay(o))
            && s.goroutine == Reported(Failure(text))
            && (if reported then s.phase == Finished(ServeFailed(Failure(text)))
                else s.phase == Finished(Stopped) && s.channel == Some(Failure(text)))
  {
    hide IsPromptRun;
    if o.drainDelay > 0 {
      states, actions := TieWhileDraining(o, text);
      states, actions := ExtendPromptly(o, states, actions, if reported then ReceiveWhileDraining else TimerFires);
    } else {
      states, actions := TieWhileSelecting(o, text);
      states, actions := ExtendPromptly(o, states, actions, if reported then ReceiveReport else ObserveSignal);
      if !reported {
        states, actions := ExtendPromptly(o, states, actions, BeginDrain);
        states, actions := ExtendPromptly(o, states, actions, EnterDrain);
      }
    }
    if !reported {
      states, actions := ExtendPromptly(o, states, actions, CallShutdown);
      states, actions := ExtendPromptly(o, states, actions, ShutdownReturns(true));
    }
  }

  lemma TieWhileSelecting(o: Options, text: string) returns (states: seq<State>, actions: seq<Action>)
    ensures IsPromptRun(o, states, actions) && |states| == |actions| + 1
    ensures states[|actions|] == Start(0).(signalledAt := Some(0), goroutine := Reported(Failure(text)), sentAt := Some(0),
                                           channel := Some(Failure(text)), sends := 1)
  {
    hide IsPromptRun;
    states, actions := [Start(0)], [];
    assert IsPromptRun(o, states, actions) by { StartIsRun(o); }
    states, actions := ExtendPromptly(o, states, actions, ServeReturns(Failure(text)));
    states, actions := ExtendPromptly(o, states, actions, Send);
    states, actions := ExtendPromptly(o, states, actions, Signal);
  }

  lemma TieWhileDraining(o: Options, text: string) returns (states: seq<State>, actions: seq<Action>)
    requires o.drainDelay > 0
    ensures IsPromptRun(o, states, actions) && |states| == |actions| + 1
    ensures states[|actions|] == Start(0).(now := o.drainDelay, signalledAt := Some(0), viaSignal := true,
                                           drainedAt := if o.hasBeginDrain then Some(0) else None,
                                           phase := Draining(o.drainDelay), goroutine := Reported(Failure(text)),
                                           sentAt := Some(o.drainDelay), channel := Some(Failure(text)), sends := 1)
  {
    hide IsPromptRun;
    states, actions := [Start(0)], [];
    assert IsPromptRun(o, states, actions) by { StartIsRun(o); }
    states, actions := ExtendPromptly(o, states, actions, Signal);
    states, actions := ExtendPromptly(o, states, actions, ObserveSignal);
    states, actions := ExtendPromptly(o, states, actions, BeginDrain);
    states, actions := ExtendPromptly(o, states, actions, EnterDrain);
    states, actions := ExtendPromptly(o, states, actions, Tick(o.drainDelay));
    states, actions := ExtendPromptly(o, states, actions, ServeReturns(Failure(text)));
    states, actions := ExtendPromptly(o, states, actions, Send);
  }

  lemma Extend(o: Options, states: seq<State>, actions: seq<Action>, a: Action)
      returns (longer: seq<State>, done: seq<Action>)
    requires IsRun(o, states, actions) && Enabled(states[|actions|], a)
    ensures IsRun(o, longer, done) && longer[|done|] == Apply(o, states[|actions|], a)
    ensures longer == states + [Apply(o, states[|actions|], a)] && done == actions + [a]
  {
    hide Enabled, Apply;
    longer, done := states + [Apply(o, states[|actions|], a)], actions + [a];
  }

  lemma ExtendPromptly(o: Options, states: seq<State>, actions: seq<Action>, a: Action)
      returns (longer: seq<State>, done: seq<Action>)
    requires IsPromptRun(o, states, actions)
    requires |states| == |actions| + 1 && Enabled(states[|actions|], a) && Prompt(o, states[|actions|], a)
    ensures IsPromptRun(o, longer, done) && |longer| == |done| + 1
    ensures longer[|done|] == Apply(o, states[|actions|], a)
  {
    hide Enabled, Apply, Prompt;
    longer, done := Extend(o, states, actions, a);
  }

  lemma StartIsRun(o: Options)
    ensures IsPromptRun(o, [Start(0)], [])
  {
  }

  // ---- Run itself ----

  /** What the rest of the process may do at any time. */
  predicate Outside(a: Action) { a.Tick? || a.Signal? || a.ServeReturns? || a.Send? }

  /** The time that passes in a schedule. */
  function Elapsed(schedule: seq<Action>): int {
    if schedule == [] then 0
    else
      var last := schedule[|schedule| - 1];
      Elapsed(schedule[..|schedule| - 1]) + (if last.Tick? then last.elapsed else 0)
  }

  lemma OwnStep(o: Options, s: State, a: Action)
    requires Enabled(s, a) && !Outside(a)
    ensures var t := Apply(o, s, a); t.now == s.now && t.signalledAt == s.signalledAt && t.goroutine == s.goroutine
  {
  }

  /** The process running Run, with the steps it has taken. The outside's steps
      come from a schedule; how many of them happen while Run is about to take a
      step depends on the phase it is in. */
  class Process {
    const options: Options
    const schedule: seq<Action>
    const pause: Phase -> nat
    const start: int
    var state: State
    var next: nat
    ghost var states: seq<State>
    ghost var actions: seq<Action>

    ghost predicate History()
      reads this
    {
      IsRun(options, states, actions) && states[|actions|] == state
    }

    /** Nothing that the schedule brought up was missed: the signal has been given,
        serving has ended, and the time that was to pass has passed. */
    predicate Attended()
      reads this
    {
      && next <= |schedule|
      && (forall k :: 0 <= k < next && schedule[k].Signal? ==> state.signalledAt.Some?)
      && (forall k :: 0 <= k < next && schedule[k].ServeReturns? ==> !state.goroutine.Serving?)
      && state.now == start + Elapsed(schedule[..next])
    }

    ghost predicate Valid()
      reads this
    {
      History() && Attended()
    }

    constructor (options: Options, schedule: seq<Action>, pause: Phase -> nat, now: int)
      ensures Valid() && state == Start(now)
      ensures this.options == options
    {
      this.options, this.schedule, this.pause, this.start := options, schedule, pause, now;
      state, next := Start(now), 0;
      states, actions := [Start(now)], [];
    }

    /** Run waits in a select with no case ready, and nothing more is scheduled. */
    predicate Idle()
      reads this
    {
      && next >= |schedule| && state.channel.None?
      && ((state.phase.Selecting? && state.signalledAt.None?)
          || (state.phase.Draining? && state.now < state.phase.until))
    }

    method Do(a: Action)
      requires History() && Enabled(state, a)
      modifies this`state, this`states, this`actions
      ensures History() && state == Apply(options, old(state), a)
      ensures !Outside(a) && old(Attended()) ==> Attended()
      ensures states == old(states) + [state] && actions == old(actions) + [a]
    {
      if !Outside(a) {
        OwnStep(options, state, a);
      }
      hide Enabled, Apply;
      ghost var longer, done := Extend(options, states, actions, a);
      state := Apply(options, state, a);
      states, actions := longer, done;
    }

    /** The outside takes its next scheduled step, if that is possible now. */
    method Wait()
      requires Valid() && next < |schedule|
      modifies this
      ensures Valid() && next == old(next) + 1 && state.phase == old(state.phase)
      ensures var a := schedule[old(next)];
              if Outside(a) && Enabled(old(state), a)
              then state == Apply(options, old(state), a) && actions == old(actions) + [a]
              else state == old(state) && actions == old(actions)
      ensures old(states) <= states && old(actions) <= actions
      ensures next >= old(next) && state.now >= old(state.now)
      ensures old(state.channel).Some? ==> state.channel.Some?
      ensures old(state.signalledAt).Some? ==> state.signalledAt.Some?
    {
      var a := schedule[next];
      assert schedule[..next + 1][..next] == schedule[..next];
      next := next + 1;
      if Outside(a) && Enabled(state, a) {
        Do(a);
      }
    }

    method Pause()
      requires Valid()
      modifies this
      ensures Valid() && state.phase == old(state.phase)
      ensures old(states) <= states && old(actions) <= actions
      ensures next >= old(next) && state.now >= old(state.now)
      ensures old(state.channel).Some? ==> state.channel.Some?
      ensures old(state.signalledAt).Some? ==> state.signalledAt.Some?
    {
      var until := next + pause(state.phase);
      while next < until && next < |schedule|
        invariant Valid() && state.phase == old(state.phase)
        invariant old(states) <= states && old(actions) <= actions
        invariant next >= old(next) && state.now >= old(state.now)
        invariant old(state.channel).Some? ==> state.channel.Some?
        invariant old(state.signalledAt).Some? ==> state.signalledAt.Some?
      {
        Wait();
      }
    }

    /** drain: returns the failure Run must return, if there is one, or that it
        is still waiting. When the report is there and the timer has fired too,
        either may be taken. */
    method Drain(preferTimer: bool) returns (waiting: bool, failure: Option<ServeError>)
      requires Valid() && state.phase.EnteringDrain?
      modifies this
      ensures Valid()
      ensures old(states) <= states && old(actions) <= actions
      ensures waiting ==> state.phase.Draining? && Idle()
      ensures !waiting && failure.None? ==> state.phase.CallingShutdown?
      ensures !waiting && failure.Some? ==> state.phase == Finished(ServeFailed(failure.value))
    {
      Do(EnterDrain);
      if options.drainDelay <= 0 {
        return false, None;
      }
      while state.channel.None? && state.now < state.phase.until && next < |schedule|
        invariant Valid() && state.phase.Draining?
        invariant old(states) <= states && old(actions) <= actions
        decreases |schedule| - next
      {
        Wait();
      }
      Pause();
      if state.channel.Some? && !(state.phase.until <= state.now && preferTimer) {
        var err := state.channel.value;
        Do(ReceiveWhileDraining);
        return false, if err.Closed? then None else Some(err);
      } else if state.phase.until <= state.now {
        Do(TimerFires);
        return false, None;
      }
      waiting, failure := true, None;
    }

    /** The signal's case of Run's select. */
    method OnSignal(preferTimer: bool) returns (waiting: bool, failure: Option<ServeError>)
      requires Valid() && state.phase.Selecting? && state.signalledAt.Some?
      modifies this
      ensures Valid()
      ensures old(states) <= states && old(actions) <= actions
      ensures waiting ==> state.phase.Draining? && Idle()
      ensures !waiting && failure.None? ==> state.phase.CallingShutdown?
      ensures !waiting && failure.Some? ==> state.phase == Finished(ServeFailed(failure.value))
    {
      hide IsRun;
      Do(ObserveSignal);
      Pause();
      Do(BeginDrain);
      Pause();
      waiting, failure := Drain(preferTimer);
    }

    /** Run: what it returns, or None while it still waits when the schedule ends.
        When both cases of a select are ready, either may be taken. The history of
        the steps executed is a run of the protocol that extends the one before,
        so all that holds of runs holds of every execution. */
    method Run(preferSignal: bool, preferTimer: bool, shutdownOk: bool) returns (result: Option<Result>)
      requires Valid() && state.phase.Selecting?
      modifies this
      ensures Valid()
      ensures old(states) <= states && old(actions) <= actions
      ensures if result.Some? then state.phase.Finished? else Idle()
      ensures result.Some? ==> state.phase == Finished(result.value)
      ensures result == Some(Stopped) ==> state.shutdownCalls == 1 && shutdownOk
      ensures state.received.Some? && state.received.value.Failure? <==> result.Some? && result.value.ServeFailed?
    {
      hide IsRun, OrderInv, ChannelInv, ResultInv;
      while state.channel.None? && state.signalledAt.None? && next < |schedule|
        invariant Valid() && state.phase.Selecting?
        invariant old(states) <= states && old(actions) <= actions
        decreases |schedule| - next
      {
        Wait();
      }
      Pause();
      if state.channel.Some? && !(state.signalledAt.Some? && preferSignal) {
        var err := state.channel.value;
        Do(ReceiveReport);
        if !err.Closed? {
          result := Some(ServeFailed(err));
          ReportsAreReturned(options, states, actions);
          return;
        }
      } else if state.signalledAt.Some? {
        var waiting, failure := OnSignal(preferTimer);
        ReportsAreReturned(options, states, actions);
        if waiting {
          return None;
        }
        if failure.Some? {
          return Some(ServeFailed(failure.value));
        }
      } else {
        ReportsAreReturned(options, states, actions);
        return None;
      }
      result := ShutDown(shutdownOk);
    }

    /** The end of Run, once nothing more is to be waited for. */
    method ShutDown(shutdownOk: bool) returns (result: Option<Result>)
      requires Valid() && state.phase.CallingShutdown?
      modifies this
      ensures Valid() && result == Some(if shutdownOk then Stopped else ShutdownFailed)
      ensures old(states) <= states && old(actions) <= actions
      ensures state.phase == Finished(result.value) && state.shutdownCalls == 1
      ensures !(state.received.Some? && state.received.value.Failure?)
    {
      Pause();
      Do(CallShutdown);
      Pause();
      Do(ShutdownReturns(shutdownOk));
      result := Some(if shutdownOk then Stopped else ShutdownFailed);
      ReportsAreReturned(options, states, actions);
    }
  }
}
