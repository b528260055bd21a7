/** The two sides of draining together: Run's BeginDrain step is what clears the
    application's acceptance flag, while probes run at any time. */
module Draining {
  import opened Wrappers
  import Shutdown
  import Readiness

  datatype State = State(server: Shutdown.State, app: Readiness.State)

  /** A step of the shutdown protocol, or of a readiness probe. */
  datatype Action = Server(step: Shutdown.Action) | Probe(check: Readiness.Action)

  function Start(now: int): State { State(Shutdown.Start(now), Readiness.State(true, false, map[])) }

  predicate Enabled(s: State, a: Action) {
    match a
    case Server(step) => Shutdown.Enabled(s.server, step)
    case Probe(check) => !check.BeginDrain? && Readiness.Enabled(s.app, check)
  }

  /** The application is drained by Run alone, if Run was given its BeginDrain. */
  function Apply(o: Shutdown.Options, total: nat, s: State, a: Action): State
    requires Enabled(s, a)
  {
    match a
    case Server(step) =>
      State(Shutdown.Apply(o, s.server, step),
            if step.BeginDrain? && o.hasBeginDrain then Readiness.Apply(s.app, Readiness.BeginDrain, total) else s.app)
    case Probe(check) => s.(app := Readiness.Apply(s.app, check, total))
  }

  ghost predicate IsRun(o: Shutdown.Options, total: nat, states: seq<State>, actions: seq<Action>) {
    && |states| == |actions| + 1
    && states[0] == Start(states[0].server.now)
    && forall i :: 0 <= i < |actions| ==> Enabled(states[i], actions[i]) && states[i + 1] == Apply(o, total, states[i], actions[i])
  }

  ghost predicate Inv(o: Shutdown.Options, total: nat, s: State) {
    && Shutdown.ChannelInv(s.server) && Shutdown.ResultInv(s.server) && Shutdown.OrderInv(o, s.server)
    && Readiness.Inv(s.app, total)
    && (s.app.drained <==> s.server.drainedAt.Some?)
  }

  lemma StepKeepsInv(o: Shutdown.Options, total: nat, s: State, a: Action)
    requires total > 0 && Inv(o, total, s) && Enabled(s, a)
    ensures Inv(o, total, Apply(o, total, s, a))
  {
    hide Shutdown.ChannelInv, Shutdown.ResultInv, Shutdown.OrderInv, Shutdown.Enabled;
    if a.Server? {
      Shutdown.StepKeepsResult(o, s.server, a.step);
      Shutdown.StepKeepsOrder(o, s.server, a.step);
      DrainedBefore(o, s.server, a.step);
      hide Shutdown.Apply;
    } else {
      hide Shutdown.Apply;
      if a.check.RunCheck? {
        Readiness.CheckKeepsProbe(s.app, s.app.probes[a.check.probe], a.check.passes, total);
      }
      hide Readiness.Check;
    }
  }

  /** Only BeginDrain sets the time of the drain, and nothing clears it. */
  lemma DrainedBefore(o: Shutdown.Options, s: Shutdown.State, a: Shutdown.Action)
    requires Shutdown.OrderInv(o, s) && Shutdown.Enabled(s, a)
    ensures var t := Shutdown.Apply(o, s, a);
            t.drainedAt == if a.BeginDrain? && o.hasBeginDrain then Some(s.now) else s.drainedAt
  {
  }

  lemma {:induction false} RunKeepsInv(o: Shutdown.Options, total: nat, states: seq<State>, actions: seq<Action>, n: nat)
    requires IsRun(o, total, states, actions) && total > 0 && n <= |actions|
    ensures Inv(o, total, states[n])
  {
    if n > 0 {
      hide Inv, Enabled, Apply;
      RunKeepsInv(o, total, states, actions, n - 1);
      StepKeepsInv(o, total, states[n - 1], actions[n - 1]);
    }
  }

  /** A drained server was drained by a BeginDrain step, at the time it keeps. */
  lemma {:induction false} DrainStep(o: Shutdown.Options, total: nat, states: seq<State>, actions: seq<Action>, n: nat)
      returns (d: nat)
    requires IsRun(o, total, states, actions) && total > 0 && n <= |actions| && states[n].server.drainedAt.Some?
    ensures d < n && actions[d] == Server(Shutdown.BeginDrain) && states[d].server.now == states[n].server.drainedAt.value
    ensures forall k :: d < k <= n ==> states[k].server.drainedAt == states[n].server.drainedAt
  {
    RunKeepsInv(o, total, states, actions, n - 1);
    var s, a := states[n - 1], actions[n - 1];
    hide Shutdown.ChannelInv, Shutdown.ResultInv, Shutdown.OrderInv, Shutdown.Enabled, Readiness.Inv;
    if a.Server? {
      DrainedBefore(o, s.server, a.step);
    }
    hide Shutdown.Apply;
    if a == Server(Shutdown.BeginDrain) && o.hasBeginDrain {
      d := n - 1;
    } else {
      d := DrainStep(o, total, states, actions, n - 1);
    }
  }

  lemma {:induction false} DrainedStays(o: Shutdown.Options, total: nat, states: seq<State>, actions: seq<Action>, i: nat, j: nat)
    requires IsRun(o, total, states, actions) && i <= j <= |actions| && states[i].app.drained
    ensures states[j].app.drained
    decreases j
  {
    if i < j {
      hide Shutdown.Apply, Shutdown.Enabled;
      DrainedStays(o, total, states, actions, i, j - 1);
    }
  }

  /** A probe's first check, which is the traffic check. */
  predicate FirstCheck(s: State, a: Action) {
    a.Probe? && a.check.RunCheck? && a.check.probe in s.app.probes && s.app.probes[a.check.probe].results == []
  }

  /** The probe that a step is of is answered 503, its first check alone having run. */
  predicate AnsweredUnready(s: State, a: Action) {
    && a.Probe? && a.check.RunCheck? && a.check.probe in s.app.probes
    && s.app.probes[a.check.probe].answer == Some(503)
    && s.app.probes[a.check.probe].results == [false]
  }

  /** What the drain delay is for. On the signal's path, when Shutdown is called
      and serving had not ended by itself, BeginDrain was executed at least the
      whole delay earlier, and from that step on, during the delay and ever after,
      every probe that starts its checks is answered 503 by the first of them. */
  lemma RoutersSeeTheDrain(o: Shutdown.Options, total: nat, states: seq<State>, actions: seq<Action>, i: nat) returns (d: nat)
    requires IsRun(o, total, states, actions) && total > 0 && o.hasBeginDrain
    requires i < |actions| && actions[i] == Server(Shutdown.CallShutdown)
    requires states[i].server.viaSignal && states[i].server.received.None?
    ensures d < i && actions[d] == Server(Shutdown.BeginDrain)
    ensures states[d].server.now + Shutdown.Delay(o) <= states[i].server.now
    ensures forall k :: d < k < |actions| && FirstCheck(states[k], actions[k]) ==> AnsweredUnready(states[k + 1], actions[k])
  {
    RunKeepsInv(o, total, states, actions, i);
    d := DrainStep(o, total, states, actions, i);
    hide Shutdown.Apply, Shutdown.ChannelInv, Shutdown.ResultInv;
    forall k | d < k < |actions| && FirstCheck(states[k], actions[k])
      ensures AnsweredUnready(states[k + 1], actions[k])
    {
      RunKeepsInv(o, total, states, actions, d + 1);
      DrainedStays(o, total, states, actions, d + 1, k);
      RunKeepsInv(o, total, states, actions, k);
    }
  }
}
