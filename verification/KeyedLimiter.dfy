/**
 The keyed concurrency limiter: reference-counted semaphores that come and go
 with their callers, under every interleaving of Acquire, cancellation and
 release.

 Entries live in `heap` under handles, so two entries for the same key at
 different times are different entries. `semaphore.Weighted` is taken by its
 contract: an acquire succeeds only while the held weight fits the size.
 */
module KeyedLimiter {
  import opened Sets
  import opened Totals

  /** A semaphore's held weight and its reference count. `key` is history: the key it was made for. */
  datatype Entry = Entry(key: string, held: int, refs: int)

  datatype Limiter = Limiter(capacity: int, entries: map<string, nat>, heap: map<nat, Entry>, next: nat, inUse: int)

  // ------------------------------------------------------ the atomic sections

  /** reference: the key's entry, made if missing, with one more reference. */
  function Reference(l: Limiter, key: string): (Limiter, nat)
    requires key in l.entries ==> l.entries[key] in l.heap
  {
    if key in l.entries then
      var e := l.entries[key];
      (l.(heap := l.heap[e := l.heap[e].(refs := l.heap[e].refs + 1)]), e)
    else
      (l.(entries := l.entries[key := l.next], heap := l.heap[l.next := Entry(key, 0, 1)], next := l.next + 1), l.next)
  }

  /** unreference: one reference less, and the last one takes the entry out of the map. */
  function Unreference(l: Limiter, key: string, e: nat): Limiter
    requires e in l.heap
  {
    var refs := l.heap[e].refs - 1;
    var heap := l.heap[e := l.heap[e].(refs := refs)];
    if refs == 0 && key in l.entries && l.entries[key] == e then l.(entries := l.entries - {key}, heap := heap)
    else l.(heap := heap)
  }

  function Hold(l: Limiter, e: nat, weight: int): Limiter
    requires e in l.heap
  {
    l.(heap := l.heap[e := l.heap[e].(held := l.heap[e].held + weight)])
  }

  // ----------------------------------------------------------------- callers

  /**
   Where a caller is: waiting for the semaphore, past it but not yet counted,
   holding, released but still counted, and about to drop its reference.
   */
  datatype Phase = Waiting | Acquired | Holding | Freed | Leaving

  datatype Caller = Caller(key: string, weight: int, entry: nat, phase: Phase)

  type Callers = map<nat, Caller>

  datatype System = System(limiter: Limiter, callers: Callers)

  datatype Action =
    | Call(id: nat, key: string, weight: int)
    | Grant(id: nat)
    | GiveUp(id: nat)
    | Count(id: nat)
    | Release(id: nat)
    | Uncount(id: nat)
    | Leave(id: nat)

  predicate At(s: System, id: nat, phase: Phase) {
    id in s.callers && s.callers[id].phase == phase && s.callers[id].entry in s.limiter.heap
  }

  function Move(s: System, id: nat, limiter: Limiter, phase: Phase): System
    requires id in s.callers
  {
    System(limiter, s.callers[id := s.callers[id].(phase := phase)])
  }

  function Enter(s: System, id: nat, key: string, weight: int): System
    requires key in s.limiter.entries ==> s.limiter.entries[key] in s.limiter.heap
  {
    var (limiter, e) := Reference(s.limiter, key);
    System(limiter, s.callers[id := Caller(key, weight, e, Waiting)])
  }

  function Exit(s: System, id: nat): System
    requires At(s, id, Leaving)
  {
    System(Unreference(s.limiter, s.callers[id].key, s.callers[id].entry), s.callers - {id})
  }

  /**
   One atomic step of some caller; a step that is not possible leaves the state
   alone. In particular a second call of a release function does nothing.
   */
  function Step(s: System, a: Action): System {
    match a
    case Call(id, key, weight) =>
      if id in s.callers || key == "" || !(0 < weight <= s.limiter.capacity)
         || (key in s.limiter.entries && s.limiter.entries[key] !in s.limiter.heap) then s
      else Enter(s, id, key, weight)
    case Grant(id) =>
      if !At(s, id, Waiting)
         || s.limiter.heap[s.callers[id].entry].held + s.callers[id].weight > s.limiter.capacity then s
      else Move(s, id, Hold(s.limiter, s.callers[id].entry, s.callers[id].weight), Acquired)
    case GiveUp(id) => if !At(s, id, Waiting) then s else Move(s, id, s.limiter, Leaving)
    case Count(id) =>
      if !At(s, id, Acquired) then s
      else Move(s, id, s.limiter.(inUse := s.limiter.inUse + s.callers[id].weight), Holding)
    case Release(id) =>
      if !At(s, id, Holding) then s else Move(s, id, Hold(s.limiter, s.callers[id].entry, -s.callers[id].weight), Freed)
    case Uncount(id) =>
      if !At(s, id, Freed) then s
      else Move(s, id, s.limiter.(inUse := s.limiter.inUse - s.callers[id].weight), Leaving)
    case Leave(id) => if !At(s, id, Leaving) then s else Exit(s, id)
  }

  function Initial(capacity: int): System {
    System(Limiter(capacity, map[], map[], 0, 0), map[])
  }

  function Run(capacity: int, actions: seq<Action>): System {
    if actions == [] then Initial(capacity)
    else Step(Run(capacity, actions[..|actions| - 1]), actions[|actions| - 1])
  }

  // ------------------------------------------------------------ what they hold

  function References(callers: Callers, e: nat): map<nat, int> {
    map c | c in callers :: if callers[c].entry == e then 1 else 0
  }

  predicate HasSemaphore(c: Caller) {
    c.phase == Acquired || c.phase == Holding
  }

  predicate IsCounted(c: Caller) {
    c.phase == Holding || c.phase == Freed
  }

  function Has(c: Caller): int {
    if HasSemaphore(c) then c.weight else 0
  }

  function Uses(c: Caller): int {
    if IsCounted(c) then c.weight else 0
  }

  /** The weight each caller holds of one entry's semaphore. */
  function HeldOf(callers: Callers, e: nat): map<nat, int> {
    map c | c in callers :: if callers[c].entry == e then Has(callers[c]) else 0
  }

  function Held(callers: Callers): map<nat, int> {
    map c | c in callers :: Has(callers[c])
  }

  function Counted(callers: Callers): map<nat, int> {
    map c | c in callers :: Uses(callers[c])
  }

  function HeldByKey(l: Limiter): map<string, int>
    requires forall k :: k in l.entries ==> l.entries[k] in l.heap
  {
    map k | k in l.entries :: l.heap[l.entries[k]].held
  }

  // ---------------------------------------------------------------- invariant

  predicate InMap(l: Limiter, e: nat)
    requires e in l.heap
  {
    l.heap[e].key in l.entries && l.entries[l.heap[e].key] == e
  }

  /** The map and the heap: one live entry per key, and entries off the map are unreferenced and idle. */
  ghost predicate WellFormed(l: Limiter) {
    && (forall k :: k in l.entries ==>
          l.entries[k] in l.heap && l.heap[l.entries[k]].key == k && l.heap[l.entries[k]].refs > 0)
    && (forall e :: e in l.heap ==>
          e < l.next && (InMap(l, e) || (l.heap[e].held == 0 && l.heap[e].refs == 0)))
  }

  /** Every caller of a key, waiting or holding, refers to the one entry in the map. */
  ghost predicate Shared(s: System) {
    forall c :: c in s.callers ==>
      var caller := s.callers[c];
      && caller.key in s.limiter.entries && s.limiter.entries[caller.key] == caller.entry
      && 0 < caller.weight <= s.limiter.capacity
  }

  /** An entry's counters are exact, and its held weight fits the capacity. */
  ghost predicate Exact(s: System, e: nat) {
    && e in s.limiter.heap
    && s.limiter.heap[e].refs == Total(References(s.callers, e))
    && s.limiter.heap[e].held == Total(HeldOf(s.callers, e))
    && s.limiter.heap[e].held <= s.limiter.capacity
  }

  ghost predicate AllExact(s: System) {
    forall e :: e in s.limiter.heap ==> Exact(s, e)
  }

  /** The usage counter is the weight of the counted callers; the semaphores together hold what callers hold. */
  ghost predicate UsageExact(s: System) {
    && (forall k :: k in s.limiter.entries ==> s.limiter.entries[k] in s.limiter.heap)
    && s.limiter.inUse == Total(Counted(s.callers))
    && Total(HeldByKey(s.limiter)) == Total(Held(s.callers))
  }

  ghost predicate Inv(s: System) {
    WellFormed(s.limiter) && Shared(s) && AllExact(s) && UsageExact(s)
  }

  // --------------------------------------------------------------- its proof

  /** How the sums move when one caller is added or changed. */
  lemma CallerSet(callers: Callers, id: nat, c: Caller, e: nat)
    ensures var callers' := callers[id := c];
      && Total(References(callers', e)) == Total(References(callers, e)) + (if c.entry == e then 1 else 0)
         - (if id in callers && callers[id].entry == e then 1 else 0)
      && Total(HeldOf(callers', e)) == Total(HeldOf(callers, e))
         + (if c.entry == e then Has(c) else 0)
         - (if id in callers && callers[id].entry == e then Has(callers[id]) else 0)
  {
    var callers' := callers[id := c];
    assert References(callers', e) == References(callers, e)[id := if c.entry == e then 1 else 0];
    TotalUpdate(References(callers, e), id, if c.entry == e then 1 else 0);
    var w := if c.entry == e then Has(c) else 0;
    assert HeldOf(callers', e) == HeldOf(callers, e)[id := w];
    TotalUpdate(HeldOf(callers, e), id, w);
  }

  lemma CallerSetAll(callers: Callers, id: nat, c: Caller)
    ensures var callers' := callers[id := c];
      && Total(Held(callers')) == Total(Held(callers)) + Has(c) - (if id in callers then Has(callers[id]) else 0)
      && Total(Counted(callers')) == Total(Counted(callers)) + Uses(c)
         - (if id in callers then Uses(callers[id]) else 0)
  {
    var callers' := callers[id := c];
    assert Held(callers') == Held(callers)[id := Has(c)];
    TotalUpdate(Held(callers), id, Has(c));
    assert Counted(callers') == Counted(callers)[id := Uses(c)];
    TotalUpdate(Counted(callers), id, Uses(c));
  }

  /** An idle caller leaves: only the reference count of its entry moves. */
  lemma CallerGone(callers: Callers, id: nat, e: nat)
    requires id in callers && callers[id].phase == Leaving
    ensures Total(References(callers - {id}, e)) ==
            Total(References(callers, e)) - (if callers[id].entry == e then 1 else 0)
    ensures Total(HeldOf(callers - {id}, e)) == Total(HeldOf(callers, e))
    ensures Total(Held(callers - {id})) == Total(Held(callers))
    ensures Total(Counted(callers - {id})) == Total(Counted(callers))
  {
    assert References(callers - {id}, e) == References(callers, e) - {id};
    assert HeldOf(callers - {id}, e) == HeldOf(callers, e) - {id};
    assert Held(callers - {id}) == Held(callers) - {id};
    assert Counted(callers - {id}) == Counted(callers) - {id};
    TotalWithout(References(callers, e), id);
    TotalWithout(HeldOf(callers, e), id);
    TotalWithout(Held(callers), id);
    TotalWithout(Counted(callers), id);
  }

  /** Every step between entering and leaving moves one caller and adjusts the two sums to match. */
  function Adjusted(l: Limiter, e: nat, held: int, used: int): Limiter
    requires e in l.heap
  {
    Hold(l, e, held).(inUse := l.inUse + used)
  }

  lemma AdjustedWellFormed(l: Limiter, key: string, e: nat, held: int, used: int)
    requires WellFormed(l) && key in l.entries && l.entries[key] == e
    ensures WellFormed(Adjusted(l, e, held, used))
  {
  }

  lemma AdjustedHeld(l: Limiter, key: string, e: nat, held: int, used: int)
    requires WellFormed(l) && key in l.entries && l.entries[key] == e
    ensures var l' := Adjusted(l, e, held, used);
      && (forall k :: k in l'.entries ==> l'.entries[k] in l'.heap)
      && Total(HeldByKey(l')) == Total(HeldByKey(l)) + held
  {
    var l' := Adjusted(l, e, held, used);
    assert HeldByKey(l') == HeldByKey(l)[key := l.heap[e].held + held];
    TotalUpdate(HeldByKey(l), key, l.heap[e].held + held);
  }

  /** The caller goes to a new phase, and its entry and the usage counter take the difference. */
  function Moved(s: System, id: nat, phase: Phase): System
    requires id in s.callers && s.callers[id].entry in s.limiter.heap
  {
    var c := s.callers[id];
    var c' := c.(phase := phase);
    Move(s, id, Adjusted(s.limiter, c.entry, Has(c') - Has(c), Uses(c') - Uses(c)), phase)
  }

  predicate Fits(s: System, id: nat, phase: Phase)
    requires id in s.callers && s.callers[id].entry in s.limiter.heap
  {
    var c := s.callers[id];
    s.limiter.heap[c.entry].held + Has(c.(phase := phase)) - Has(c) <= s.limiter.capacity
  }

  lemma MoveExact(s: System, id: nat, phase: Phase, e: nat)
    requires Exact(s, e) && id in s.callers && s.callers[id].entry in s.limiter.heap && Fits(s, id, phase)
    ensures Exact(Moved(s, id, phase), e)
  {
    CallerSet(s.callers, id, s.callers[id].(phase := phase), e);
  }

  lemma MoveAllExact(s: System, id: nat, phase: Phase)
    requires AllExact(s) && id in s.callers && s.callers[id].entry in s.limiter.heap && Fits(s, id, phase)
    ensures AllExact(Moved(s, id, phase))
  {
    forall e | e in s.limiter.heap ensures Exact(Moved(s, id, phase), e) {
      MoveExact(s, id, phase, e);
    }
  }

  lemma MoveShared(s: System, id: nat, phase: Phase)
    requires Shared(s) && id in s.callers && s.callers[id].entry in s.limiter.heap
    ensures Shared(Moved(s, id, phase))
  {
  }

  lemma MoveUsage(s: System, id: nat, phase: Phase)
    requires WellFormed(s.limiter) && UsageExact(s)
    requires id in s.callers && s.callers[id].key in s.limiter.entries
    requires s.limiter.entries[s.callers[id].key] == s.callers[id].entry
    ensures UsageExact(Moved(s, id, phase))
  {
    hide Total, Held, Counted, HeldByKey, WellFormed, Has, Uses;
    var c := s.callers[id];
    var c' := c.(phase := phase);
    var held, used := Has(c') - Has(c), Uses(c') - Uses(c);
    AdjustedHeld(s.limiter, c.key, c.entry, held, used);
    CallerSetAll(s.callers, id, c');
    UsageFrom(s, System(Adjusted(s.limiter, c.entry, held, used), s.callers[id := c']), held, used);
  }

  lemma UsageFrom(s: System, s': System, held: int, used: int)
    requires UsageExact(s) && forall k :: k in s'.limiter.entries ==> s'.limiter.entries[k] in s'.limiter.heap
    requires s'.limiter.inUse == s.limiter.inUse + used
    requires Total(Counted(s'.callers)) == Total(Counted(s.callers)) + used
    requires Total(HeldByKey(s'.limiter)) == Total(HeldByKey(s.limiter)) + held
    requires Total(Held(s'.callers)) == Total(Held(s.callers)) + held
    ensures UsageExact(s')
  {
    hide Total;
  }

  lemma MoveKeeps(s: System, id: nat, phase: Phase)
    requires Inv(s) && id in s.callers && s.callers[id].entry in s.limiter.heap && Fits(s, id, phase)
    ensures Inv(Moved(s, id, phase))
  {
    hide AllExact, UsageExact, Has, Uses;
    var c := s.callers[id];
    var c' := c.(phase := phase);
    AdjustedWellFormed(s.limiter, c.key, c.entry, Has(c') - Has(c), Uses(c') - Uses(c));
    MoveUsage(s, id, phase);
    MoveShared(s, id, phase);
    MoveAllExact(s, id, phase);
  }

  lemma ReferenceWellFormed(l: Limiter, key: string)
    requires WellFormed(l)
    ensures WellFormed(Reference(l, key).0)
  {
  }

  lemma ReferenceHeld(l: Limiter, key: string)
    requires forall k :: k in l.entries ==> l.entries[k] in l.heap
    requires l.next !in l.heap
    ensures var l' := Reference(l, key).0;
      && (forall k :: k in l'.entries ==> l'.entries[k] in l'.heap)
      && Total(HeldByKey(l')) == Total(HeldByKey(l))
  {
    var l' := Reference(l, key).0;
    if key in l.entries {
      assert HeldByKey(l') == HeldByKey(l);
    } else {
      assert HeldByKey(l') == HeldByKey(l)[key := 0];
      TotalUpdate(HeldByKey(l), key, 0);
    }
  }

  /** No caller refers to an entry that does not exist. */
  lemma FreshEntry(s: System, e: nat)
    requires Shared(s) && WellFormed(s.limiter) && e !in s.limiter.heap
    ensures Total(References(s.callers, e)) == 0 && Total(HeldOf(s.callers, e)) == 0
  {
    TotalZero(References(s.callers, e));
    TotalZero(HeldOf(s.callers, e));
  }

  lemma EnterExact(s: System, id: nat, key: string, weight: int, e: nat)
    requires id !in s.callers && 0 < weight <= s.limiter.capacity
    requires key in s.limiter.entries ==> s.limiter.entries[key] in s.limiter.heap
    requires e in s.limiter.heap ==> Exact(s, e)
    requires e !in s.limiter.heap ==> Total(References(s.callers, e)) == 0 && Total(HeldOf(s.callers, e)) == 0
    requires s.limiter.next !in s.limiter.heap && e in Enter(s, id, key, weight).limiter.heap
    ensures Exact(Enter(s, id, key, weight), e)
  {
    CallerSet(s.callers, id, Enter(s, id, key, weight).callers[id], e);
  }

  lemma EnterAllExact(s: System, id: nat, key: string, weight: int)
    requires WellFormed(s.limiter) && Shared(s) && AllExact(s) && id !in s.callers && 0 < weight <= s.limiter.capacity
    ensures AllExact(Enter(s, id, key, weight))
  {
    forall e | e in Enter(s, id, key, weight).limiter.heap ensures Exact(Enter(s, id, key, weight), e) {
      if e !in s.limiter.heap { FreshEntry(s, e); }
      EnterExact(s, id, key, weight, e);
    }
  }

  lemma EnterUsage(s: System, id: nat, key: string, weight: int)
    requires WellFormed(s.limiter) && UsageExact(s) && id !in s.callers
    ensures WellFormed(Enter(s, id, key, weight).limiter) && UsageExact(Enter(s, id, key, weight))
  {
    ReferenceWellFormed(s.limiter, key);
    ReferenceHeld(s.limiter, key);
    CallerSetAll(s.callers, id, Enter(s, id, key, weight).callers[id]);
  }

  lemma EnterShared(s: System, id: nat, key: string, weight: int)
    requires WellFormed(s.limiter) && Shared(s) && id !in s.callers && 0 < weight <= s.limiter.capacity
    ensures Shared(Enter(s, id, key, weight))
  {
  }

  lemma EnterKeeps(s: System, id: nat, key: string, weight: int)
    requires Inv(s) && id !in s.callers && 0 < weight <= s.limiter.capacity
    ensures Inv(Enter(s, id, key, weight))
  {
    EnterUsage(s, id, key, weight);
    EnterShared(s, id, key, weight);
    EnterAllExact(s, id, key, weight);
  }

  /** When the last reference goes, no other caller is left on the entry and it holds nothing. */
  lemma LastReference(s: System, id: nat, e: nat)
    requires At(s, id, Leaving) && s.callers[id].entry == e && Exact(s, e) && s.limiter.heap[e].refs == 1
    ensures s.limiter.heap[e].held == 0
    ensures forall c :: c in s.callers && c != id ==> s.callers[c].entry != e
  {
    var rest := s.callers - {id};
    CallerGone(s.callers, id, e);
    TotalNonNegative(References(rest, e));
    forall c | c in s.callers && c != id ensures s.callers[c].entry != e {
      assert References(rest, e)[c] <= 0;
    }
    TotalZero(HeldOf(s.callers, e));
  }

  lemma UnreferenceShape(l: Limiter, key: string, e: nat)
    requires WellFormed(l) && key in l.entries && l.entries[key] == e
    requires l.heap[e].refs == 1 ==> l.heap[e].held == 0
    ensures WellFormed(Unreference(l, key, e))
    ensures Total(HeldByKey(Unreference(l, key, e))) == Total(HeldByKey(l))
  {
    var l' := Unreference(l, key, e);
    if l.heap[e].refs == 1 {
      assert HeldByKey(l') == HeldByKey(l) - {key};
      TotalWithout(HeldByKey(l), key);
    } else {
      assert HeldByKey(l') == HeldByKey(l);
    }
  }

  lemma ExitExact(s: System, id: nat, e: nat)
    requires At(s, id, Leaving) && Exact(s, e)
    ensures Exact(Exit(s, id), e)
  {
    CallerGone(s.callers, id, e);
  }

  lemma ExitAllExact(s: System, id: nat)
    requires At(s, id, Leaving) && AllExact(s)
    ensures AllExact(Exit(s, id))
  {
    forall e | e in s.limiter.heap ensures Exact(Exit(s, id), e) {
      ExitExact(s, id, e);
    }
  }

  lemma ExitShared(s: System, id: nat)
    requires At(s, id, Leaving) && Shared(s)
    requires var e := s.callers[id].entry;
      s.limiter.heap[e].refs == 1 ==> forall c :: c in s.callers && c != id ==> s.callers[c].entry != e
    ensures Shared(Exit(s, id))
  {
  }

  lemma ExitUsage(s: System, id: nat)
    requires At(s, id, Leaving) && WellFormed(s.limiter) && UsageExact(s)
    requires s.callers[id].key in s.limiter.entries && s.limiter.entries[s.callers[id].key] == s.callers[id].entry
    requires s.limiter.heap[s.callers[id].entry].refs == 1 ==> s.limiter.heap[s.callers[id].entry].held == 0
    ensures WellFormed(Exit(s, id).limiter) && UsageExact(Exit(s, id))
  {
    UnreferenceShape(s.limiter, s.callers[id].key, s.callers[id].entry);
    CallerGone(s.callers, id, s.callers[id].entry);
  }

  lemma ExitKeeps(s: System, id: nat)
    requires Inv(s) && At(s, id, Leaving)
    ensures Inv(Exit(s, id))
  {
    var e := s.callers[id].entry;
    if s.limiter.heap[e].refs == 1 {
      LastReference(s, id, e);
    }
    ExitUsage(s, id);
    ExitShared(s, id);
    ExitAllExact(s, id);
  }

  /** Between entering and leaving every step is a move. */
  lemma StepMoves(s: System, a: Action)
    requires !a.Call? && !a.Leave? && Step(s, a) != s
    ensures a.id in s.callers && s.callers[a.id].entry in s.limiter.heap
    ensures exists phase ::
      && Step(s, a) == Moved(s, a.id, phase)
      && (Exact(s, s.callers[a.id].entry) && s.callers[a.id].weight > 0 ==> Fits(s, a.id, phase))
  {
    var phase := match a case Grant(_) => Acquired case Count(_) => Holding case Release(_) => Freed case _ => Leaving;
    assert Step(s, a).limiter.heap == Moved(s, a.id, phase).limiter.heap;
    assert Step(s, a) == Moved(s, a.id, phase);
  }

  lemma StepKeepsInv(s: System, a: Action)
    requires Inv(s)
    ensures Inv(Step(s, a))
  {
    if Step(s, a) != s {
      if a.Call? {
        EnterKeeps(s, a.id, a.key, a.weight);
      } else if a.Leave? {
        ExitKeeps(s, a.id);
      } else {
        StepMoves(s, a);
        var phase :| Step(s, a) == Moved(s, a.id, phase)
          && (Exact(s, s.callers[a.id].entry) && s.callers[a.id].weight > 0 ==> Fits(s, a.id, phase));
        assert Exact(s, s.callers[a.id].entry);
        MoveKeeps(s, a.id, phase);
      }
    }
  }

  lemma {:induction false} RunKeepsInv(capacity: int, actions: seq<Action>)
    requires capacity > 0
    ensures Inv(Run(capacity, actions))
  {
    if actions == [] {
      assert HeldByKey(Initial(capacity).limiter) == map[];
    } else {
      RunKeepsInv(capacity, actions[..|actions| - 1]);
      StepKeepsInv(Run(capacity, actions[..|actions| - 1]), actions[|actions| - 1]);
    }
  }

  // ------------------------------------------------------------- main results

  function Users(callers: Callers, e: nat): set<nat> {
    set c | c in callers && callers[c].entry == e
  }

  lemma {:induction false} ReferencesCount(callers: Callers, e: nat)
    ensures Total(References(callers, e)) == |Users(callers, e)|
    decreases |callers|
  {
    hide Total;
    if callers == map[] {
      TotalZero(References(callers, e));
      assert Users(callers, e) == {};
    } else {
      var c := Member(callers.Keys);
      var rest := callers - {c};
      ReferencesCount(rest, e);
      TotalWithout(References(callers, e), c);
      assert References(callers, e) - {c} == References(rest, e);
      assert Users(callers, e) == if callers[c].entry == e then Users(rest, e) + {c} else Users(rest, e);
    }
  }

  /**
   In every interleaving: all callers holding or waiting on a key share one
   entry; its reference count is their number; it is in the map exactly while
   that number is positive; it holds at most the capacity.
   */
  lemma EntriesExact(capacity: int, actions: seq<Action>, e: nat)
    requires capacity > 0 && e in Run(capacity, actions).limiter.heap
    ensures var s := Run(capacity, actions);
      && (forall c, d :: c in s.callers && d in s.callers && s.callers[c].key == s.callers[d].key ==>
            s.callers[c].entry == s.callers[d].entry)
      && s.limiter.heap[e].refs == |Users(s.callers, e)|
      && (InMap(s.limiter, e) <==> s.limiter.heap[e].refs > 0)
      && s.limiter.heap[e].held == Total(HeldOf(s.callers, e)) <= s.limiter.capacity
  {
    hide Total;
    RunKeepsInv(capacity, actions);
    var s := Run(capacity, actions);
    assert Exact(s, e);
    ReferencesCount(s.callers, e);
  }

  /** Whenever the last reference goes, the entry under the key is this one: the identity check never fails. */
  lemma GuardAlwaysHolds(capacity: int, actions: seq<Action>, id: nat)
    requires capacity > 0 && At(Run(capacity, actions), id, Leaving)
    ensures var s := Run(capacity, actions);
      var c := s.callers[id];
      && c.key in s.limiter.entries && s.limiter.entries[c.key] == c.entry
      && (s.limiter.heap[c.entry].refs == 1 <==> c.key !in Exit(s, id).limiter.entries)
  {
    RunKeepsInv(capacity, actions);
  }

  lemma {:induction false} CapacityKept(capacity: int, actions: seq<Action>)
    ensures Run(capacity, actions).limiter.capacity == capacity
  {
    if actions != [] {
      CapacityKept(capacity, actions[..|actions| - 1]);
    }
  }

  /** A call waits for its key exactly when the key is named and the weight could ever fit; else nothing happens. */
  lemma CallEnters(capacity: int, actions: seq<Action>, id: nat, key: string, weight: int)
    requires capacity > 0 && id !in Run(capacity, actions).callers
    ensures var s := Run(capacity, actions);
      var s' := Step(s, Call(id, key, weight));
      && (At(s', id, Waiting) <==> key != "" && 0 < weight <= capacity)
      && (At(s', id, Waiting) ==> s'.callers[id].key == key && s'.callers[id].weight == weight)
      && (!At(s', id, Waiting) ==> s' == s)
  {
    RunKeepsInv(capacity, actions);
    CapacityKept(capacity, actions);
    hide Run, Shared, AllExact, UsageExact;
  }

  /** A waiting caller can be let in exactly when its weight fits beside what the other callers of the key hold. */
  lemma GrantExact(capacity: int, actions: seq<Action>, id: nat)
    requires capacity > 0 && At(Run(capacity, actions), id, Waiting)
    ensures var s := Run(capacity, actions);
      var c := s.callers[id];
      At(Step(s, Grant(id)), id, Acquired) <==> Total(HeldOf(s.callers, c.entry)) + c.weight <= capacity
  {
    RunKeepsInv(capacity, actions);
    CapacityKept(capacity, actions);
    hide Run, Total, HeldOf, WellFormed, Shared, UsageExact;
    assert Exact(Run(capacity, actions), Run(capacity, actions).callers[id].entry);
  }

  /** The caller's next step takes effect. */
  predicate Proceeds(s: System, id: nat)
    requires id in s.callers
  {
    match s.callers[id].phase
    case Waiting => At(Step(s, GiveUp(id)), id, Leaving)
    case Acquired => At(Step(s, Count(id)), id, Holding)
    case Holding => At(Step(s, Release(id)), id, Freed)
    case Freed => At(Step(s, Uncount(id)), id, Leaving)
    case Leaving => id !in Step(s, Leave(id)).callers
  }

  lemma EntryProceeds(s: System, id: nat)
    requires id in s.callers && s.callers[id].entry in s.limiter.heap
    ensures Proceeds(s, id)
  {
  }

  /** No caller ever gets stuck: in every reachable state it can give up waiting, and past waiting it can go on. */
  lemma NobodyStuck(capacity: int, actions: seq<Action>, id: nat)
    requires capacity > 0 && id in Run(capacity, actions).callers
    ensures Proceeds(Run(capacity, actions), id)
  {
    hide Run, AllExact, UsageExact, Proceeds;
    RunKeepsInv(capacity, actions);
    EntryProceeds(Run(capacity, actions), id);
  }

  /** Nobody is refused for nothing: with no other holder on the key the semaphore lets a waiting caller in. */
  lemma FreeKeyGrants(capacity: int, actions: seq<Action>, id: nat)
    requires capacity > 0 && At(Run(capacity, actions), id, Waiting)
    requires var s := Run(capacity, actions);
      forall c :: c in s.callers && s.callers[c].key == s.callers[id].key ==> !HasSemaphore(s.callers[c])
    ensures At(Step(Run(capacity, actions), Grant(id)), id, Acquired)
  {
    hide Total, Step, Has;
    RunKeepsInv(capacity, actions);
    FreeEntryGrants(Run(capacity, actions), id);
  }

  lemma FreeEntryGrants(s: System, id: nat)
    requires WellFormed(s.limiter) && Shared(s) && At(s, id, Waiting) && Exact(s, s.callers[id].entry)
    requires forall c :: c in s.callers && s.callers[c].key == s.callers[id].key ==> !HasSemaphore(s.callers[c])
    ensures At(Step(s, Grant(id)), id, Acquired)
  {
    hide Total;
    IdleEntry(s, s.callers[id].key);
  }

  lemma IdleEntry(s: System, key: string)
    requires WellFormed(s.limiter) && Shared(s) && key in s.limiter.entries
    requires forall c :: c in s.callers && s.callers[c].key == key ==> !HasSemaphore(s.callers[c])
    ensures Total(HeldOf(s.callers, s.limiter.entries[key])) == 0
  {
    hide Total;
    var e := s.limiter.entries[key];
    forall c | c in s.callers ensures HeldOf(s.callers, e)[c] == 0 {
      assert s.callers[c].entry == e ==> s.limiter.heap[e].key == s.callers[c].key;
    }
    TotalZero(HeldOf(s.callers, e));
  }

  /** No caller is between its two updates. */
  ghost predicate Settled(s: System) {
    forall c :: c in s.callers ==> s.callers[c].phase != Acquired && s.callers[c].phase != Freed
  }

  /**
   The usage counter is the weight of the callers between their two updates,
   never negative, and equals what the semaphores hold whenever no caller is
   mid-step. Nothing is left behind when the last caller is gone.
   */
  lemma UsageAccounting(capacity: int, actions: seq<Action>)
    requires capacity > 0
    ensures var s := Run(capacity, actions);
      && s.limiter.inUse == Total(Counted(s.callers)) && s.limiter.inUse >= 0
      && (forall k :: k in s.limiter.entries ==> s.limiter.entries[k] in s.limiter.heap)
      && (Settled(s) ==> s.limiter.inUse == Total(HeldByKey(s.limiter)))
      && (s.callers == map[] ==> s.limiter.entries == map[] && s.limiter.inUse == 0)
  {
    RunKeepsInv(capacity, actions);
    var s := Run(capacity, actions);
    hide Total;
    NeverNegative(s);
    SettledUsage(s);
    NothingLeft(s);
  }

  lemma NeverNegative(s: System)
    requires Shared(s)
    ensures Total(Counted(s.callers)) >= 0
  {
    TotalNonNegative(Counted(s.callers));
  }

  lemma SettledUsage(s: System)
    ensures Settled(s) ==> Counted(s.callers) == Held(s.callers)
  {
  }

  lemma NothingLeft(s: System)
    requires WellFormed(s.limiter) && AllExact(s) && s.limiter.inUse == Total(Counted(s.callers))
    ensures s.callers == map[] ==> s.limiter.entries == map[] && s.limiter.inUse == 0
  {
    hide Total;
    if s.callers == map[] {
      TotalZero(Counted(s.callers));
      if s.limiter.entries != map[] {
        var k := Member(s.limiter.entries.Keys);
        assert Exact(s, s.limiter.entries[k]);
        TotalZero(References(s.callers, s.limiter.entries[k]));
      }
    }
  }

  // ---------------------------------------------------- release functions

  /** Callers with their release functions: `fired` is the once flag of every function handed out. */
  datatype Guarded = Guarded(system: System, fired: map<nat, bool>)

  datatype Event = Internal(action: Action) | CallRelease(id: nat)

  /** The first statement of the guarded body. It does not look at where the caller is. */
  function ReleaseBody(s: System, id: nat): System {
    if id !in s.callers || s.callers[id].entry !in s.limiter.heap then s
    else Move(s, id, Hold(s.limiter, s.callers[id].entry, -s.callers[id].weight), Freed)
  }

  /**
   Acquire hands out a release function once it has counted its caller; only a
   release function releases, and only while its flag is down. Call ids name
   calls, so none is used twice.
   */
  function Happen(g: Guarded, e: Event): Guarded {
    match e
    case Internal(a) =>
      if a.Release? || (a.Call? && a.id in g.fired) then g
      else
        var handsOut := a.Count? && At(g.system, a.id, Acquired);
        Guarded(Step(g.system, a), if handsOut then g.fired[a.id := false] else g.fired)
    case CallRelease(id) =>
      if id !in g.fired || g.fired[id] then g else Guarded(ReleaseBody(g.system, id), g.fired[id := true])
  }

  function History(capacity: int, events: seq<Event>): Guarded {
    if events == [] then Guarded(Initial(capacity), map[])
    else Happen(History(capacity, events[..|events| - 1]), events[|events| - 1])
  }

  predicate HoldsNow(s: System, id: nat) {
    id in s.callers && s.callers[id].phase == Holding
  }

  /** The flag is down exactly while the caller holds, and up only after it has let go. */
  ghost predicate OnceExact(g: Guarded) {
    && (forall id :: id in g.system.callers ==> g.system.callers[id].entry in g.system.limiter.heap)
    && (forall id :: HoldsNow(g.system, id) <==> id in g.fired && !g.fired[id])
    && (forall id :: id in g.fired && g.fired[id] && id in g.system.callers ==>
          g.system.callers[id].phase == Freed || g.system.callers[id].phase == Leaving)
  }

  lemma HeapGrows(s: System, a: Action)
    ensures s.limiter.heap.Keys <= Step(s, a).limiter.heap.Keys
    ensures forall c :: c in s.callers && c != a.id ==> c in Step(s, a).callers && Step(s, a).callers[c] == s.callers[c]
    ensures forall c :: c !in s.callers && c != a.id ==> c !in Step(s, a).callers
  {
  }

  /** A step that is possible takes its caller from one phase to the next. */
  lemma OwnPhase(s: System, a: Action)
    ensures a.Count? && At(s, a.id, Acquired) ==> Step(s, a) != s
    ensures var s' := Step(s, a);
      s' == s || match a
                 case Call(id, _, _) => id !in s.callers && At(s', id, Waiting)
                 case Grant(id) => At(s, id, Waiting) && At(s', id, Acquired)
                 case GiveUp(id) => At(s, id, Waiting) && At(s', id, Leaving)
                 case Count(id) => At(s, id, Acquired) && At(s', id, Holding)
                 case Release(id) => At(s, id, Holding) && At(s', id, Freed)
                 case Uncount(id) => At(s, id, Freed) && At(s', id, Leaving)
                 case Leave(id) => At(s, id, Leaving) && id !in s'.callers
  {
    if a.Count? && At(s, a.id, Acquired) {
      assert Step(s, a).callers[a.id].phase == Holding;
    }
  }

  lemma InternalKeepsOnce(g: Guarded, a: Action)
    requires OnceExact(g) && !a.Release? && (a.Call? ==> a.id !in g.fired)
    ensures OnceExact(Happen(g, Internal(a)))
  {
    OwnPhase(g.system, a);
    HeapGrows(g.system, a);
    hide Step;
  }

  lemma ReleaseKeepsOnce(g: Guarded, id: nat)
    requires OnceExact(g) && id in g.fired && !g.fired[id]
    ensures OnceExact(Happen(g, CallRelease(id)))
    ensures ReleaseBody(g.system, id) == Step(g.system, Release(id))
  {
    assert HoldsNow(g.system, id);
  }

  lemma {:induction false} HistoryKeepsOnce(capacity: int, events: seq<Event>)
    ensures OnceExact(History(capacity, events))
  {
    if events != [] {
      var g, e := History(capacity, events[..|events| - 1]), events[|events| - 1];
      HistoryKeepsOnce(capacity, events[..|events| - 1]);
      hide OnceExact, Step, ReleaseBody;
      if Happen(g, e) != g {
        if e.Internal? {
          InternalKeepsOnce(g, e.action);
        } else {
          ReleaseKeepsOnce(g, e.id);
        }
      }
    }
  }

  /**
   With the once flag alone guarding it, a release function takes effect only
   while its caller holds: every history is a run of the limiter, so what holds
   of all runs holds here.
   */
  lemma {:induction false} HistoryIsRun(capacity: int, events: seq<Event>) returns (actions: seq<Action>)
    ensures History(capacity, events).system == Run(capacity, actions)
    decreases |events|
  {
    actions := [];
    if events != [] {
      var g, e := History(capacity, events[..|events| - 1]), events[|events| - 1];
      actions := HistoryIsRun(capacity, events[..|events| - 1]);
      HistoryKeepsOnce(capacity, events[..|events| - 1]);
      hide OnceExact, Step, ReleaseBody;
      if Happen(g, e) != g {
        var a := if e.Internal? then e.action else Release(e.id);
        if e.CallRelease? {
          ReleaseKeepsOnce(g, e.id);
        }
        assert (actions + [a])[..|actions|] == actions;
        actions := actions + [a];
      }
    }
  }

  /** After its first call a release function does nothing, whatever has happened in between. */
  lemma {:induction false} ReleaseOnce(capacity: int, before: seq<Event>, id: nat, between: seq<Event>)
    requires id in History(capacity, before).fired
    ensures var g := History(capacity, before + [CallRelease(id)] + between);
      id in g.fired && g.fired[id] && Happen(g, CallRelease(id)) == g
    decreases |between|
  {
    hide Step, ReleaseBody;
    var events := before + [CallRelease(id)] + between;
    if between == [] {
      assert events[..|events| - 1] == before;
    } else {
      var front := between[..|between| - 1];
      ReleaseOnce(capacity, before, id, front);
      assert events[..|events| - 1] == before + [CallRelease(id)] + front;
      HistoryKeepsOnce(capacity, events[..|events| - 1]);
    }
  }

  // ------------------------------------------------------------ the lock body

  /** The limiter object. Its methods are the two critical sections of the source. */
  class KeyedLimiterObject {
    const capacity: int
    var entries: map<string, nat>
    var heap: map<nat, Entry>
    var next: nat
    var inUse: int

    ghost function State(): Limiter
      reads this
    {
      Limiter(capacity, entries, heap, next, inUse)
    }

    constructor (capacity: int)
      ensures State() == Initial(capacity).limiter
    {
      this.capacity := capacity;
      entries, heap, next, inUse := map[], map[], 0, 0;
    }

    method ReferenceKey(key: string) returns (entry: nat)
      requires key in entries ==> entries[key] in heap
      modifies this
      ensures (State(), entry) == Reference(old(State()), key)
    {
      if key in entries {
        entry := entries[key];
      } else {
        entry := next;
        heap := heap[entry := Entry(key, 0, 0)];
        next := next + 1;
        entries := entries[key := entry];
        assert heap[entry := Entry(key, 0, 1)] == old(heap)[entry := Entry(key, 0, 1)];
      }
      heap := heap[entry := heap[entry].(refs := heap[entry].refs + 1)];
    }

    method UnreferenceKey(key: string, entry: nat)
      requires entry in heap
      modifies this
      ensures State() == Unreference(old(State()), key, entry)
    {
      heap := heap[entry := heap[entry].(refs := heap[entry].refs - 1)];
      if heap[entry].refs == 0 && key in entries && entries[key] == entry {
        entries := entries - {key};
      }
    }
  }
}
