/**
 The plain concurrency limiter: one weighted semaphore and a usage counter that
 is updated outside of it, under every interleaving of acquire and release.
 */
module ConcurrencyLimiter {
  import opened Totals

  /** Past the semaphore, counted, and released but still counted. */
  datatype Phase = Acquired | Holding | Freed

  datatype Holder = Holder(weight: int, phase: Phase)

  datatype State = State(capacity: int, held: int, inUse: int, holders: map<nat, Holder>)

  /** `Acquire` stands for a successful Acquire or TryAcquire; one that does not fit changes nothing. */
  datatype Action = Acquire(id: nat, weight: int) | Count(id: nat) | Release(id: nat) | Uncount(id: nat)

  predicate At(s: State, id: nat, phase: Phase) {
    id in s.holders && s.holders[id].phase == phase
  }

  function Step(s: State, a: Action): State {
    match a
    case Acquire(id, weight) =>
      if id in s.holders || !(0 < weight <= s.capacity) || s.held + weight > s.capacity then s
      else s.(held := s.held + weight, holders := s.holders[id := Holder(weight, Acquired)])
    case Count(id) =>
      if !At(s, id, Acquired) then s
      else s.(inUse := s.inUse + s.holders[id].weight, holders := s.holders[id := s.holders[id].(phase := Holding)])
    case Release(id) =>
      if !At(s, id, Holding) then s
      else s.(held := s.held - s.holders[id].weight, holders := s.holders[id := s.holders[id].(phase := Freed)])
    case Uncount(id) =>
      if !At(s, id, Freed) then s
      else s.(inUse := s.inUse - s.holders[id].weight, holders := s.holders - {id})
  }

  function Run(capacity: int, actions: seq<Action>): State {
    if actions == [] then State(capacity, 0, 0, map[])
    else Step(Run(capacity, actions[..|actions| - 1]), actions[|actions| - 1])
  }

  /** The weight of the holders that are in a given phase. */
  function InPhase(holders: map<nat, Holder>, phase: Phase): map<nat, int> {
    map h | h in holders :: if holders[h].phase == phase then holders[h].weight else 0
  }

  ghost predicate Inv(s: State) {
    && (forall h :: h in s.holders ==> 0 < s.holders[h].weight <= s.capacity)
    && s.held == Total(InPhase(s.holders, Acquired)) + Total(InPhase(s.holders, Holding))
    && s.inUse == Total(InPhase(s.holders, Holding)) + Total(InPhase(s.holders, Freed))
    && s.held <= s.capacity
  }

  lemma HolderSet(holders: map<nat, Holder>, id: nat, h: Holder, phase: Phase)
    ensures Total(InPhase(holders[id := h], phase)) == Total(InPhase(holders, phase))
      + (if h.phase == phase then h.weight else 0)
      - (if id in holders && holders[id].phase == phase then holders[id].weight else 0)
  {
    var w := if h.phase == phase then h.weight else 0;
    assert InPhase(holders[id := h], phase) == InPhase(holders, phase)[id := w];
    TotalUpdate(InPhase(holders, phase), id, w);
  }

  lemma HolderGone(holders: map<nat, Holder>, id: nat, phase: Phase)
    requires id in holders
    ensures Total(InPhase(holders - {id}, phase)) == Total(InPhase(holders, phase))
      - (if holders[id].phase == phase then holders[id].weight else 0)
  {
    assert InPhase(holders - {id}, phase) == InPhase(holders, phase) - {id};
    TotalWithout(InPhase(holders, phase), id);
  }

  lemma StepKeepsInv(s: State, a: Action)
    requires Inv(s)
    ensures Inv(Step(s, a))
  {
    hide Total, InPhase;
    var s' := Step(s, a);
    if s' != s {
      forall phase: Phase
        ensures Total(InPhase(s'.holders, phase)) == Total(InPhase(s.holders, phase))
          + (if a.id in s'.holders && s'.holders[a.id].phase == phase then s'.holders[a.id].weight else 0)
          - (if a.id in s.holders && s.holders[a.id].phase == phase then s.holders[a.id].weight else 0)
      {
        if a.Uncount? {
          HolderGone(s.holders, a.id, phase);
        } else {
          HolderSet(s.holders, a.id, s'.holders[a.id], phase);
        }
      }
    }
  }

  lemma {:induction false} RunKeepsInv(capacity: int, actions: seq<Action>)
    requires capacity > 0
    ensures Inv(Run(capacity, actions)) && Run(capacity, actions).capacity == capacity
  {
    hide Total;
    if actions == [] {
      forall phase: Phase ensures Total(InPhase(map[], phase)) == 0 { TotalZero(InPhase(map[], phase)); }
    } else {
      RunKeepsInv(capacity, actions[..|actions| - 1]);
      StepKeepsInv(Run(capacity, actions[..|actions| - 1]), actions[|actions| - 1]);
    }
  }

  /**
   In every interleaving the semaphore never exceeds its capacity; the usage
   counter is never negative, differs from the held weight by what is mid-step,
   and stays within the capacity whenever no release is mid-step.
   */
  lemma UsageAccounting(capacity: int, actions: seq<Action>)
    requires capacity > 0
    ensures var s := Run(capacity, actions);
      && 0 <= s.held <= capacity && 0 <= s.inUse
      && s.inUse - s.held == Total(InPhase(s.holders, Freed)) - Total(InPhase(s.holders, Acquired))
      && (s.inUse <= capacity <==>
            s.held + Total(InPhase(s.holders, Freed)) - Total(InPhase(s.holders, Acquired)) <= capacity)
      && ((forall h :: h in s.holders ==> s.holders[h].phase == Holding) ==> s.inUse == s.held)
      && ((forall h :: h in s.holders ==> s.holders[h].phase != Freed) ==> s.inUse <= capacity)
  {
    hide Total;
    RunKeepsInv(capacity, actions);
    var s := Run(capacity, actions);
    forall phase: Phase
      ensures Total(InPhase(s.holders, phase)) >= 0
      ensures (forall h :: h in s.holders ==> s.holders[h].phase != phase) ==> Total(InPhase(s.holders, phase)) == 0
    {
      TotalNonNegative(InPhase(s.holders, phase));
      if forall h :: h in s.holders ==> s.holders[h].phase != phase {
        TotalZero(InPhase(s.holders, phase));
      }
    }
  }

  /** Mid-release the counter can exceed the capacity: the next holder counts itself before the last one uncounts. */
  lemma UsageCanExceedCapacity()
    ensures Run(1, [Acquire(1, 1), Count(1), Release(1), Acquire(2, 1), Count(2)]).inUse == 2
  {
    var a := [Acquire(1, 1), Count(1), Release(1), Acquire(2, 1), Count(2)];
    assert a[..4][..3] == a[..3] && a[..3][..2] == a[..2] && a[..2][..1] == a[..1] && a[..1][..0] == [];
    assert Run(1, a[..1]) == State(1, 1, 0, map[1 := Holder(1, Acquired)]);
    assert Run(1, a[..2]) == State(1, 1, 1, map[1 := Holder(1, Holding)]);
    assert Run(1, a[..3]) == State(1, 0, 1, map[1 := Holder(1, Freed)]);
    assert Run(1, a[..4]) == State(1, 1, 1, map[1 := Holder(1, Freed), 2 := Holder(1, Acquired)]);
  }

  /** A new caller is let in exactly when its weight is valid and fits beside what is held; else nothing happens. */
  lemma AcquireExact(capacity: int, actions: seq<Action>, id: nat, weight: int)
    requires capacity > 0 && id !in Run(capacity, actions).holders
    ensures var s := Run(capacity, actions);
      var s' := Step(s, Acquire(id, weight));
      && (At(s', id, Acquired) <==>
            && 0 < weight <= capacity
            && Total(InPhase(s.holders, Acquired)) + Total(InPhase(s.holders, Holding)) + weight <= capacity)
      && (At(s', id, Acquired) ==> s'.holders[id].weight == weight)
      && (!At(s', id, Acquired) ==> s' == s)
  {
    RunKeepsInv(capacity, actions);
    hide Run, Total, InPhase;
  }

  /** No holder ever gets stuck: in every state its next step takes effect. */
  lemma NobodyStuck(s: State, id: nat)
    requires id in s.holders
    ensures match s.holders[id].phase
            case Acquired => At(Step(s, Count(id)), id, Holding)
            case Holding => At(Step(s, Release(id)), id, Freed)
            case Freed => id !in Step(s, Uncount(id)).holders
  {
  }

  // ---------------------------------------------------- release functions

  /** Holders with their release functions: `fired` is the once flag of every function handed out. */
  datatype Guarded = Guarded(state: State, fired: map<nat, bool>)

  datatype Event = Internal(action: Action) | CallRelease(id: nat)

  /** The first statement of the guarded body. It does not look at where the holder is. */
  function ReleaseBody(s: State, id: nat): State {
    if id !in s.holders then s
    else s.(held := s.held - s.holders[id].weight, holders := s.holders[id := s.holders[id].(phase := Freed)])
  }

  /**
   A successful call hands out a release function once it is counted; only a
   release function releases, and only while its flag is down. Ids name calls,
   so none is used twice.
   */
  function Happen(g: Guarded, e: Event): Guarded {
    match e
    case Internal(a) =>
      if a.Release? || (a.Acquire? && a.id in g.fired) then g
      else
        var handsOut := a.Count? && At(g.state, a.id, Acquired);
        Guarded(Step(g.state, a), if handsOut then g.fired[a.id := false] else g.fired)
    case CallRelease(id) =>
      if id !in g.fired || g.fired[id] then g else Guarded(ReleaseBody(g.state, id), g.fired[id := true])
  }

  function History(capacity: int, events: seq<Event>): Guarded {
    if events == [] then Guarded(State(capacity, 0, 0, map[]), map[])
    else Happen(History(capacity, events[..|events| - 1]), events[|events| - 1])
  }

  /** The flag is down exactly while the weight is held, and up only after it was given back. */
  ghost predicate OnceExact(g: Guarded) {
    && (forall id :: At(g.state, id, Holding) <==> id in g.fired && !g.fired[id])
    && (forall id :: id in g.fired && g.fired[id] && id in g.state.holders ==> g.state.holders[id].phase == Freed)
  }

  lemma HappenKeepsOnce(g: Guarded, e: Event)
    requires OnceExact(g)
    ensures OnceExact(Happen(g, e))
    ensures e.CallRelease? && Happen(g, e) != g ==> Happen(g, e).state == Step(g.state, Release(e.id))
  {
    assert e.CallRelease? && Happen(g, e) != g ==> At(g.state, e.id, Holding);
  }

  lemma {:induction false} HistoryKeepsOnce(capacity: int, events: seq<Event>)
    ensures OnceExact(History(capacity, events))
  {
    if events != [] {
      HistoryKeepsOnce(capacity, events[..|events| - 1]);
      HappenKeepsOnce(History(capacity, events[..|events| - 1]), events[|events| - 1]);
    }
  }

  /**
   With the once flag alone guarding it, a release function takes effect only
   while its weight is held: every history is a run of the limiter.
   */
  lemma {:induction false} HistoryIsRun(capacity: int, events: seq<Event>) returns (actions: seq<Action>)
    ensures History(capacity, events).state == Run(capacity, actions)
    decreases |events|
  {
    actions := [];
    if events != [] {
      var g, e := History(capacity, events[..|events| - 1]), events[|events| - 1];
      actions := HistoryIsRun(capacity, events[..|events| - 1]);
      HistoryKeepsOnce(capacity, events[..|events| - 1]);
      HappenKeepsOnce(g, e);
      hide OnceExact, Step, ReleaseBody;
      if Happen(g, e) != g {
        var a := if e.Internal? then e.action else Release(e.id);
        assert (actions + [a])[..|actions|] == actions;
        actions := actions + [a];
      }
    }
  }

  /** After its first call a release function does nothing, whatever has happened in between. */
  lemma {:induction false} ReleaseOnce(capacity: int, before: seq<Event>, id: nat, between: seq<Event>)
    requires id in History(capacity, before).fired
    ensures var g := History(capacity, before + [CallRelease(id)] + between);
      id in g.fired && g.fired[id] && Happen(g, CallRelease(id)) == g
    decreases |between|
  {
    hide Step, ReleaseBody;
    var events := before + [CallRelease(id)] + between;
    if between == [] {
      assert events[..|events| - 1] == before;
    } else {
      var front := between[..|between| - 1];
      ReleaseOnce(capacity, before, id, front);
      assert events[..|events| - 1] == before + [CallRelease(id)] + front;
      HistoryKeepsOnce(capacity, events[..|events| - 1]);
    }
  }

  // -------------------------------------------------------------- between calls

  /** The limiter object as callers see it while no other call is in progress. */
  class Limiter {
    const capacity: int
    var held: int
    var inUse: int
    // Every release function handed out, and the weights of those not called yet.
    ghost var handed: set<Release>
    ghost var open: map<Release, int>

    ghost predicate Counted()
      reads this`held, this`inUse, this`open
    {
      held == Total(open) && inUse == Total(open) && held <= capacity
    }

    ghost predicate Valid()
      reads this, handed
    {
      && Counted() && open.Keys <= handed
      && (forall r :: r in handed ==> r.limiter == this && (r in open <==> !r.done))
      && (forall r :: r in open ==> open[r] == r.weight > 0)
    }

    constructor (capacity: int)
      requires capacity > 0
      ensures Valid() && handed == {} && this.capacity == capacity
    {
      this.capacity := capacity;
      held, inUse, handed, open := 0, 0, {}, map[];
      new;
      TotalZero(open);
    }

    /** `queued` says whether callers of Acquire are waiting; the semaphore lets nobody past them. */
    method TryAcquire(weight: int, queued: bool) returns (release: Release?)
      requires Valid()
      modifies this
      ensures Valid()
      ensures release != null <==> 0 < weight <= capacity && !queued && Total(old(open)) + weight <= capacity
      ensures release == null ==> unchanged(this)
      ensures release != null ==>
        && fresh(release) && release.weight == weight
        && handed == old(handed) + {release} && open == old(open)[release := weight]
    {
      hide Total;
      if weight <= 0 || weight > capacity || queued || held + weight > capacity {
        return null;
      }
      var made := new Release(this, weight);
      assert made !in handed && made !in open;
      TotalUpdate(open, made, weight);
      held := held + weight;
      AddUsage(weight);
      handed, open := handed + {made}, open[made := weight];
      return made;
    }

    method AddUsage(weight: int)
      modifies this`inUse
      ensures inUse == old(inUse) + weight
    {
      inUse := inUse + weight;
    }

    /** Between calls the usage is exactly the weight of the release functions not called yet. */
    method InUse() returns (weight: int)
      requires Valid()
      ensures weight == Total(open) <= capacity
    {
      weight := inUse;
    }
  }

  method NewLimiter(name: string, capacity: int) returns (limiter: Limiter?)
    ensures limiter != null <==> name != "" && capacity > 0
    ensures limiter != null ==> limiter.Valid() && limiter.handed == {} && limiter.capacity == capacity
  {
    if name == "" || capacity <= 0 {
      return null;
    }
    limiter := new Limiter(capacity);
  }

  /** A release function with its once flag. */
  class Release {
    const limiter: Limiter
    const weight: int
    var done: bool

    constructor (limiter: Limiter, weight: int)
      ensures this.limiter == limiter && this.weight == weight && !done
    {
      this.limiter, this.weight, done := limiter, weight, false;
    }

    /** Gives the weight back on the first call; every further call changes nothing. */
    method Call()
      requires limiter.Valid() && this in limiter.handed
      modifies this, limiter
      ensures limiter.Valid() && limiter.handed == old(limiter.handed)
      ensures done && limiter.open == old(limiter.open) - {this}
      ensures limiter.inUse == old(limiter.inUse) - if old(done) then 0 else weight
      ensures old(done) ==> unchanged(this) && unchanged(limiter)
    {
      hide Total;
      if done {
        assert limiter.open - {this} == limiter.open;
        return;
      }
      TotalWithout(limiter.open, this);
      done := true;
      limiter.held := limiter.held - weight;
      limiter.inUse := limiter.inUse - weight;
      limiter.open := limiter.open - {this};
    }
  }
}
