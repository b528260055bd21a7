/** Readiness and draining: the application's acceptance flag is the first of
    the readiness checks, and BeginDrain clears it while probes are running. */
module Readiness {
  import opened Wrappers

  const OK := 200
  const SERVICE_UNAVAILABLE := 503

  /** How many of the checks a probe runs: up to and including the first that fails. */
  function ChecksRun(results: seq<bool>): nat {
    if results == [] then 0 else if !results[0] then 1 else 1 + ChecksRun(results[1..])
  }

  predicate AllPass(results: seq<bool>) { forall i :: 0 <= i < |results| ==> results[i] }

  lemma {:induction false} ChecksRunIs(results: seq<bool>, n: nat)
    requires n < |results| && AllPass(results[..n])
    ensures !results[n] ==> ChecksRun(results) == n + 1
    ensures AllPass(results) ==> ChecksRun(results) == |results|
    decreases n, |results|
  {
    if n > 0 {
      assert results[0] == results[..n][0];
      assert results[1..][..n - 1] == results[..n][1..];
      ChecksRunIs(results[1..], n - 1);
    } else if AllPass(results) && |results| > 1 {
      ChecksRunIs(results[1..], 0);
    }
  }

  lemma AllPassAppend(front: seq<bool>, last: bool)
    ensures AllPass(front + [last]) <==> AllPass(front) && last
  {
    var all := front + [last];
    assert all[|front|] == last;
    assert forall i :: 0 <= i < |front| ==> all[i] == front[i];
  }

  class App {
    var acceptingTraffic: bool

    /** Build stores true before anything is served. */
    constructor ()
      ensures acceptingTraffic
    {
      acceptingTraffic := true;
    }

    method BeginDrain()
      modifies this
      ensures !acceptingTraffic
    {
      acceptingTraffic := false;
    }

    /** One probe, as steps of the machine below. drains[k] tells whether BeginDrain runs just before check k;
        results are those of the checks behind the traffic check. */
    method Probe(results: seq<bool>, drains: seq<bool>)
        returns (status: int, ran: nat, ghost states: seq<State>, ghost actions: seq<Action>)
      requires |drains| == 1 + |results|
      modifies this
      ensures ran <= |drains|
      ensures IsRunFrom(Probing(old(acceptingTraffic)), states, actions, |drains|)
      ensures Reached(states[|actions|], acceptingTraffic, Some(status), ([old(acceptingTraffic) && !drains[0]] + results)[..ran])
      ensures acceptingTraffic == (old(acceptingTraffic) && forall k :: 0 <= k < ran ==> !drains[k])
      ensures var first := old(acceptingTraffic) && !drains[0];
              && ran == ChecksRun([first] + results)
              && (status == 200 <==> first && AllPass(results)) && (status != 200 ==> status == 503)
    {
      hide IsRunFrom, Reached;
      ghost var first := old(acceptingTraffic) && !drains[0];
      ghost var checks := [first] + results;
      states, actions := ProbeStarts(acceptingTraffic, |drains|);
      for k := 0 to |drains|
        invariant IsRunFrom(Probing(old(acceptingTraffic)), states, actions, |drains|)
        invariant |states| == |actions| + 1
        invariant Reached(states[|actions|], acceptingTraffic, if k < |drains| then None else Some(OK), checks[..k])
        invariant acceptingTraffic == (old(acceptingTraffic) && forall j :: 0 <= j < k ==> !drains[j])
        invariant AllPass(checks[..k])
      {
        ghost var before := acceptingTraffic;
        if drains[k] {
          acceptingTraffic := false;
        }
        var pass := if k == 0 then acceptingTraffic else results[k - 1];
        assert pass == checks[k];
        states, actions := CheckStep(old(acceptingTraffic), states, actions, |drains|, before, drains[k], pass, checks[..k]);
        assert checks[..k + 1] == checks[..k] + [checks[k]];
        if !pass {
          ChecksRunIs(checks, k);
          assert k > 0 ==> !results[k - 1];
          return SERVICE_UNAVAILABLE, k + 1, states, actions;
        }
      }
      assert checks[..|checks|] == checks;
      ChecksRunIs(checks, 0);
      assert forall i :: 0 <= i < |results| ==> results[i] == checks[i + 1];
      return OK, |drains|, states, actions;
    }
  }

  // ---- Many probes and a drain, interleaved ----

  /** A probe with the results its checks have given so far; late marks one whose
      first check executed after BeginDrain had run. */
  datatype Probe = Probe(results: seq<bool>, late: bool, answer: Option<int>)

  datatype Action = BeginDrain | StartProbe(probe: int) | RunCheck(probe: int, passes: bool)

  datatype State = State(accepting: bool, drained: bool, probes: map<int, Probe>)

  predicate Enabled(s: State, a: Action) {
    match a
    case BeginDrain => true
    case StartProbe(p) => p !in s.probes
    case RunCheck(p, _) => p in s.probes && s.probes[p].answer.None?
  }

  /** A check runs; the first is the traffic check, whose result is the flag. */
  function Check(s: State, probe: Probe, passes: bool, total: nat): Probe {
    var first := probe.results == [];
    var result := if first then s.accepting else passes;
    var results := probe.results + [result];
    Probe(results, if first then s.drained else probe.late,
          if !result then Some(SERVICE_UNAVAILABLE) else if |results| >= total then Some(OK) else None)
  }

  function Apply(s: State, a: Action, total: nat): State
    requires Enabled(s, a)
  {
    match a
    case BeginDrain => s.(accepting := false, drained := true)
    case StartProbe(p) => s.(probes := s.probes[p := Probe([], false, None)])
    case RunCheck(p, passes) => s.(probes := s.probes[p := Check(s, s.probes[p], passes, total)])
  }

  ghost predicate IsRun(states: seq<State>, actions: seq<Action>, total: nat) {
    IsRunFrom(State(true, false, map[]), states, actions, total)
  }

  ghost predicate IsRunFrom(start: State, states: seq<State>, actions: seq<Action>, total: nat) {
    && |states| == |actions| + 1
    && states[0] == start
    && forall i :: 0 <= i < |actions| ==> Enabled(states[i], actions[i]) && states[i + 1] == Apply(states[i], actions[i], total)
  }

  /** One probe that has been started, numbered 0. */
  function Probing(accepting: bool): State { State(accepting, !accepting, map[0 := Probe([], false, None)]) }

  predicate Reached(s: State, accepting: bool, answer: Option<int>, results: seq<bool>) {
    && s.accepting == accepting && s.drained == !accepting
    && s.probes.Keys == {0} && s.probes[0].answer == answer && s.probes[0].results == results
  }

  lemma ProbeStarts(accepting: bool, total: nat) returns (states: seq<State>, actions: seq<Action>)
    ensures IsRunFrom(Probing(accepting), states, actions, total) && |states| == |actions| + 1
    ensures Reached(states[|actions|], accepting, None, [])
  {
    states, actions := [Probing(accepting)], [];
  }

  /** A drain beginning, if it does, and then a check. */
  lemma CheckStep(was: bool, states: seq<State>, actions: seq<Action>, total: nat, before: bool, drain: bool,
                  pass: bool, front: seq<bool>)
      returns (longer: seq<State>, done: seq<Action>)
    requires IsRunFrom(Probing(was), states, actions, total) && |states| == |actions| + 1
    requires Reached(states[|actions|], before, None, front)
    requires front == [] ==> pass == (before && !drain)
    ensures IsRunFrom(Probing(was), longer, done, total) && |longer| == |done| + 1
    ensures Reached(longer[|done|], before && !drain,
                    if !pass then Some(SERVICE_UNAVAILABLE) else if |front| + 1 >= total then Some(OK) else None, front + [pass])
  {
    longer, done := states, actions;
    if drain {
      longer, done := Extend(Probing(was), longer, done, total, BeginDrain);
    }
    longer, done := Extend(Probing(was), longer, done, total, RunCheck(0, pass));
  }

  lemma Extend(start: State, states: seq<State>, actions: seq<Action>, total: nat, a: Action)
      returns (longer: seq<State>, done: seq<Action>)
    requires IsRunFrom(start, states, actions, total) && Enabled(states[|actions|], a)
    ensures IsRunFrom(start, longer, done, total) && longer[|done|] == Apply(states[|actions|], a, total)
  {
    hide Enabled, Apply;
    longer, done := states + [Apply(states[|actions|], a, total)], actions + [a];
  }

  /** Everything a probe's answer says, and when it may be given. */
  predicate ProbeInv(probe: Probe, total: nat) {
    match probe.answer
    case None => AllPass(probe.results) && |probe.results| < total && !(probe.late && probe.results != [])
    case Some(status) =>
      && probe.results != [] && AllPass(probe.results[..|probe.results| - 1])
      && (status == OK || status == SERVICE_UNAVAILABLE)
      && (status == OK <==> AllPass(probe.results)) && (status == OK ==> |probe.results| == total)
      && (probe.late ==> status == SERVICE_UNAVAILABLE && |probe.results| == 1)
  }

  ghost predicate Inv(s: State, total: nat) {
    s.accepting == !s.drained && forall p :: p in s.probes ==> ProbeInv(s.probes[p], total)
  }

  lemma CheckKeepsProbe(s: State, probe: Probe, passes: bool, total: nat)
    requires s.accepting == !s.drained && ProbeInv(probe, total) && probe.answer.None?
    ensures ProbeInv(Check(s, probe, passes, total), total)
  {
    var next := Check(s, probe, passes, total);
    var result := if probe.results == [] then s.accepting else passes;
    assert next.results[..|next.results| - 1] == probe.results;
    AllPassAppend(probe.results, result);
  }

  lemma {:induction false} RunKeepsInv(states: seq<State>, actions: seq<Action>, total: nat, n: nat)
    requires IsRun(states, actions, total) && n <= |actions| && total > 0
    ensures Inv(states[n], total)
  {
    if n > 0 {
      RunKeepsInv(states, actions, total, n - 1);
      var s, a := states[n - 1], actions[n - 1];
      if a.RunCheck? {
        CheckKeepsProbe(s, s.probes[a.probe], a.passes, total);
      }
    }
  }

  lemma {:induction false} DrainStays(states: seq<State>, actions: seq<Action>, total: nat, i: nat, j: nat)
    requires IsRun(states, actions, total) && i <= j <= |actions| && states[i].drained
    ensures states[j].drained
    decreases j
  {
    if i < j {
      DrainStays(states, actions, total, i, j - 1);
    }
  }

  /** Draining is monotone and visible, in every run: once BeginDrain has run,
      acceptance never comes back, and a probe whose first check executes after
      it is answered 503 at that check, running no other. */
  lemma LateProbesFail(states: seq<State>, actions: seq<Action>, total: nat, d: nat, k: nat)
    requires IsRun(states, actions, total) && total > 0 && d < k < |actions|
    requires actions[d] == BeginDrain
    requires actions[k].RunCheck? && states[k].probes[actions[k].probe].results == []
    ensures forall j :: d < j <= |actions| ==> !states[j].accepting
    ensures var probe := states[k + 1].probes[actions[k].probe];
            probe.answer == Some(503) && probe.results == [false]
  {
    forall j | d < j <= |actions|
      ensures !states[j].accepting
    {
      DrainStays(states, actions, total, d + 1, j);
      RunKeepsInv(states, actions, total, j);
    }
    RunKeepsInv(states, actions, total, k);
    assert states[k + 1] == Apply(states[k], actions[k], total);
  }

  /** Any other probe is answered 200 exactly when all checks ran and passed. */
  lemma ProbesAnswerTruthfully(states: seq<State>, actions: seq<Action>, total: nat, p: int)
    requires IsRun(states, actions, total) && total > 0 && p in states[|actions|].probes
    requires states[|actions|].probes[p].answer.Some?
    ensures var probe := states[|actions|].probes[p];
            && (probe.answer == Some(200) <==> |probe.results| == total && forall k :: 0 <= k < total ==> probe.results[k])
            && (probe.answer != Some(200) ==>
                  probe.answer == Some(503) && ChecksRun(probe.results) == |probe.results|)
  {
    RunKeepsInv(states, actions, total, |actions|);
    var probe := states[|actions|].probes[p];
    if probe.answer != Some(OK) {
      var last := |probe.results| - 1;
      assert probe.results == probe.results[..last] + [probe.results[last]];
      AllPassAppend(probe.results[..last], probe.results[last]);
      ChecksRunIs(probe.results, last);
    }
  }
}
