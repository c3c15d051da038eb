/**
 The circuit breaker around the primary rate-limit backend, and its runs with
 any number of concurrent callers.

 Times are nanoseconds since the zero time, so 0 is Go's zero `time.Time`.
 */
module Breaker {
  import opened Wrappers

  datatype Circuit = Circuit(unavailableTo: nat, probing: bool)

  /** beginPrimaryAttempt with a primary configured */
  function Begin(c: Circuit, now: nat): (Circuit, bool) {
    if c.unavailableTo == 0 then (c, true)
    else if now < c.unavailableTo || c.probing then (c, false)
    else (c.(probing := true), true)
  }

  /** finishPrimaryAttempt */
  function Finish(c: Circuit, success: bool, now: nat, retryInterval: nat): Circuit {
    Circuit(if success then 0 else now + retryInterval, false)
  }

  /** cancelPrimaryAttempt */
  function Cancel(c: Circuit): Circuit {
    c.(probing := false)
  }

  // ------------------------------------------------------- concurrent callers

  datatype Action =
    | Start(id: nat, now: nat)
    | Done(id: nat, success: bool, now: nat)
    | Canceled(id: nat)

  /**
   `inFlight` maps each running attempt to whether it began as a probe. The
   rest is history: the probe that set the flag last, the stamp of the latest
   recorded failure unless a success was recorded since, and how many attempts
   ended while another attempt's probe flag was up, since probes last ran out.
   */
  datatype State = State(circuit: Circuit, inFlight: map<nat, bool>, prober: nat, failedAt: Option<nat>, strays: nat)

  const Initial := State(Circuit(0, false), map[], 0, None, 0)

  function StartStep(s: State, id: nat, now: nat): State {
    var (circuit, started) := Begin(s.circuit, now);
    if id in s.inFlight || !started then s
    else
      var probe := s.circuit.unavailableTo != 0;
      s.(circuit := circuit, inFlight := s.inFlight[id := probe], prober := if probe then id else s.prober)
  }

  function EndStep(s: State, id: nat, circuit: Circuit, failedAt: Option<nat>): State {
    var s' := s.(circuit := circuit, inFlight := s.inFlight - {id}, failedAt := failedAt);
    s'.(strays := if Probes(s') == {} then 0 else s.strays + if s.circuit.probing && s.prober != id then 1 else 0)
  }

  /** One step; a step that is not possible leaves the state alone. */
  function Step(s: State, a: Action, retryInterval: nat): State {
    match a
    case Start(id, now) => StartStep(s, id, now)
    case Done(id, success, now) =>
      if id !in s.inFlight then s
      else EndStep(s, id, Finish(s.circuit, success, now, retryInterval), if success then None else Some(now))
    case Canceled(id) => if id !in s.inFlight then s else EndStep(s, id, Cancel(s.circuit), s.failedAt)
  }

  function Run(actions: seq<Action>, retryInterval: nat): State {
    if actions == [] then Initial
    else Step(Run(actions[..|actions| - 1], retryInterval), actions[|actions| - 1], retryInterval)
  }

  function Probes(s: State): set<nat> {
    set id | id in s.inFlight && s.inFlight[id]
  }

  ghost predicate Inv(s: State, retryInterval: nat) {
    && (s.circuit.probing ==> s.prober in Probes(s) && s.circuit.unavailableTo != 0)
    && s.circuit.unavailableTo == (match s.failedAt case None => 0 case Some(t) => t + retryInterval)
    && |Probes(s)| <= s.strays + if s.circuit.probing then 1 else 0
  }

  lemma StartKeepsInv(s: State, id: nat, now: nat, retryInterval: nat)
    requires Inv(s, retryInterval)
    ensures Inv(StartStep(s, id, now), retryInterval)
  {
    var s' := StartStep(s, id, now);
    if s' != s {
      assert Probes(s') == if s.circuit.unavailableTo != 0 then Probes(s) + {id} else Probes(s);
    }
  }

  lemma EndedProbes(s: State, id: nat)
    ensures forall s': State :: s'.inFlight == s.inFlight - {id} ==>
      |Probes(s')| == |Probes(s)| - if id in Probes(s) then 1 else 0
  {
    forall s': State | s'.inFlight == s.inFlight - {id}
      ensures |Probes(s')| == |Probes(s)| - if id in Probes(s) then 1 else 0
    {
      assert Probes(s') == Probes(s) - {id};
    }
  }

  lemma StepKeepsInv(s: State, a: Action, retryInterval: nat)
    requires Inv(s, retryInterval)
    ensures Inv(Step(s, a, retryInterval), retryInterval)
  {
    match a
    case Start(id, now) => StartKeepsInv(s, id, now, retryInterval);
    case Done(id, _, _) => EndedProbes(s, id);
    case Canceled(id) => EndedProbes(s, id);
  }

  lemma {:induction false} RunKeepsInv(actions: seq<Action>, retryInterval: nat)
    ensures Inv(Run(actions, retryInterval), retryInterval)
  {
    if actions == [] {
      assert Probes(Initial) == {};
    } else {
      RunKeepsInv(actions[..|actions| - 1], retryInterval);
      StepKeepsInv(Run(actions[..|actions| - 1], retryInterval), actions[|actions| - 1], retryInterval);
    }
  }

  /** The breaker never sticks: its flag is up only while its probe runs; idle and past the deadline it lets one in. */
  lemma NeverSticks(actions: seq<Action>, retryInterval: nat, id: nat, now: nat)
    ensures var s := Run(actions, retryInterval);
      && (s.circuit.probing ==> s.prober in s.inFlight && s.inFlight[s.prober] && s.circuit.unavailableTo != 0)
      && (s.inFlight == map[] && now >= s.circuit.unavailableTo ==> id in StartStep(s, id, now).inFlight)
  {
    RunKeepsInv(actions, retryInterval);
  }

  /**
   After a recorded failure stamped t, and with no success recorded since, an
   attempt begins only at t + retryInterval or later, and only one at a time
   unless an earlier attempt ends in between.
   */
  lemma NoAttemptBeforeRetry(actions: seq<Action>, retryInterval: nat, id: nat, now: nat)
    requires retryInterval > 0
    ensures var s := Run(actions, retryInterval);
      id !in s.inFlight ==>
        (id in StartStep(s, id, now).inFlight <==>
         (s.failedAt.Some? ==> now >= s.failedAt.value + retryInterval && !s.circuit.probing))
  {
    RunKeepsInv(actions, retryInterval);
  }

  /** Each further concurrent probe needs an attempt that ended under another one's flag since probes last ran out. */
  lemma ProbesBounded(actions: seq<Action>, retryInterval: nat)
    ensures |Probes(Run(actions, retryInterval))| <= 1 + Run(actions, retryInterval).strays
  {
    RunKeepsInv(actions, retryInterval);
  }

  /** The step begins an attempt while an outage is recorded. */
  predicate BeginsProbe(s: State, a: Action) {
    a.Start? && a.id !in s.inFlight && Begin(s.circuit, a.now).1 && s.circuit.unavailableTo != 0
  }

  /** Whenever a probe begins, no attempt begun while healthy is still running. */
  ghost predicate NoStragglers(actions: seq<Action>, retryInterval: nat) {
    forall n :: 0 <= n < |actions| && BeginsProbe(Run(actions[..n], retryInterval), actions[n]) ==>
      Healthy(Run(actions[..n], retryInterval)) == {}
  }

  function Healthy(s: State): set<nat> {
    set id | id in s.inFlight && !s.inFlight[id]
  }

  /** A running probe is the only running attempt. */
  ghost predicate Alone(s: State) {
    Probes(s) != {} ==> |s.inFlight| == 1
  }

  ghost predicate AloneThroughout(actions: seq<Action>, retryInterval: nat) {
    forall n :: 0 <= n <= |actions| ==> Alone(Run(actions[..n], retryInterval))
  }

  /** A probe that runs alone has its flag up, and nothing ends under it. */
  ghost predicate Flagged(s: State) {
    Probes(s) != {} ==> s.circuit.probing && s.inFlight.Keys == {s.prober}
  }

  lemma FlaggedIsAlone(s: State)
    requires Flagged(s)
    ensures Alone(s)
  {
    assert Probes(s) != {} ==> |s.inFlight.Keys| == 1;
  }

  lemma StepKeepsFlagged(s: State, a: Action, retryInterval: nat)
    requires Inv(s, retryInterval) && Flagged(s)
    requires BeginsProbe(s, a) ==> Healthy(s) == {}
    ensures Flagged(Step(s, a, retryInterval))
  {
    var s' := Step(s, a, retryInterval);
    if s' != s {
      if a.Start? {
        if s.circuit.unavailableTo != 0 {
          assert forall id :: id in s.inFlight ==> id in Probes(s) || id in Healthy(s);
          assert s.inFlight.Keys == {};
          assert s'.inFlight.Keys == {a.id};
        } else {
          assert Probes(s') == Probes(s);
        }
      } else {
        assert s'.inFlight.Keys == s.inFlight.Keys - {a.id};
        assert Probes(s') <= Probes(s);
        assert s.circuit.probing ==> s.inFlight.Keys == {s.prober};
      }
    }
  }

  lemma {:induction false} NoStragglersFlagged(actions: seq<Action>, retryInterval: nat)
    requires NoStragglers(actions, retryInterval)
    ensures Flagged(Run(actions, retryInterval))
  {
    if actions == [] {
      assert Probes(Initial) == {};
    } else {
      var n := |actions| - 1;
      assert forall m :: 0 <= m <= n ==> actions[..n][..m] == actions[..m];
      NoStragglersFlagged(actions[..n], retryInterval);
      RunKeepsInv(actions[..n], retryInterval);
      StepKeepsFlagged(Run(actions[..n], retryInterval), actions[n], retryInterval);
    }
  }

  /** A probe that begins beside a straggler is not alone. */
  lemma ProbeBesideStraggler(s: State, a: Action, retryInterval: nat, h: nat)
    requires BeginsProbe(s, a) && h in Healthy(s)
    ensures !Alone(Step(s, a, retryInterval))
  {
    var s' := Step(s, a, retryInterval);
    assert a.id in Probes(s') && h in s'.inFlight;
    assert s'.inFlight.Keys == s.inFlight.Keys + {a.id};
    assert |s'.inFlight.Keys| == |s.inFlight.Keys| + 1;
  }

  /** Throughout a run a probe is the only attempt in flight, exactly when none begins beside a straggler. */
  lemma OneProbeIffNoStragglers(actions: seq<Action>, retryInterval: nat)
    ensures AloneThroughout(actions, retryInterval) <==> NoStragglers(actions, retryInterval)
  {
    if NoStragglers(actions, retryInterval) {
      forall n | 0 <= n <= |actions| ensures Alone(Run(actions[..n], retryInterval)) {
        assert forall m :: 0 <= m <= n ==> actions[..n][..m] == actions[..m];
        NoStragglersFlagged(actions[..n], retryInterval);
        FlaggedIsAlone(Run(actions[..n], retryInterval));
      }
    }
    if AloneThroughout(actions, retryInterval) {
      forall n | 0 <= n < |actions| && BeginsProbe(Run(actions[..n], retryInterval), actions[n])
        ensures Healthy(Run(actions[..n], retryInterval)) == {}
      {
        var s := Run(actions[..n], retryInterval);
        assert actions[..n + 1][..n] == actions[..n];
        assert Run(actions[..n + 1], retryInterval) == Step(s, actions[n], retryInterval);
        forall h | h in Healthy(s) ensures false {
          ProbeBesideStraggler(s, actions[n], retryInterval, h);
        }
      }
    }
  }

  /** With a straggler, two probes can run at once. */
  lemma StragglerLetsTwoProbesRun()
    ensures var actions := [Start(1, 0), Start(2, 0), Done(1, false, 0), Start(3, 5), Canceled(2), Start(4, 5)];
      Probes(Run(actions, 5)) == {3, 4}
  {
    var a := [Start(1, 0), Start(2, 0), Done(1, false, 0), Start(3, 5), Canceled(2), Start(4, 5)];
    assert a[..5][..4] == a[..4] && a[..4][..3] == a[..3] && a[..3][..2] == a[..2];
    assert a[..2][..1] == a[..1] && a[..1][..0] == [];
    assert Run(a[..1], 5) == State(Circuit(0, false), map[1 := false], 0, None, 0);
    assert Run(a[..2], 5) == State(Circuit(0, false), map[1 := false, 2 := false], 0, None, 0);
    assert Run(a[..3], 5) == State(Circuit(5, false), map[2 := false], 0, Some(0), 0);
    assert Run(a[..4], 5) == State(Circuit(5, true), map[2 := false, 3 := true], 3, Some(0), 0);
    assert Run(a[..5], 5) == State(Circuit(5, false), map[3 := true], 3, Some(0), 1);
  }
}
