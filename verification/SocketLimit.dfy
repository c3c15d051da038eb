/**
 Process-local socket capacity: three counters kept exact over the set of all
 leases ever handed out, however often and in whatever order their operations
 are called.
 */
module SocketLimit {

  /** The leases of one scope. */
  ghost function InScope(leases: set<Lease>, scope: string): set<Lease> {
    set l | l in leases && l.scope == scope
  }

  /** The per-scope counters count the given leases, and no scope without one has an entry. */
  ghost predicate ScopesExact(scopes: map<string, int>, leases: set<Lease>) {
    && (forall s :: s in scopes <==> InScope(leases, s) != {})
    && (forall s :: s in scopes ==> scopes[s] == |InScope(leases, s)|)
  }

  function Count(scopes: map<string, int>, scope: string): int {
    if scope in scopes then scopes[scope] else 0
  }

  function Incremented(scopes: map<string, int>, scope: string): map<string, int> {
    scopes[scope := Count(scopes, scope) + 1]
  }

  function Decremented(scopes: map<string, int>, scope: string): map<string, int>
    requires scope in scopes
  {
    if scopes[scope] == 1 then scopes - {scope} else scopes[scope := scopes[scope] - 1]
  }

  lemma ScopeCount(scopes: map<string, int>, leases: set<Lease>, scope: string)
    requires ScopesExact(scopes, leases)
    ensures Count(scopes, scope) == |InScope(leases, scope)|
  {
  }

  lemma ScopesAdd(scopes: map<string, int>, leases: set<Lease>, lease: Lease)
    requires ScopesExact(scopes, leases) && lease !in leases
    ensures ScopesExact(Incremented(scopes, lease.scope), leases + {lease})
    ensures |InScope(leases + {lease}, lease.scope)| == |InScope(leases, lease.scope)| + 1
  {
    assert InScope(leases + {lease}, lease.scope) == InScope(leases, lease.scope) + {lease};
    forall s | s != lease.scope ensures InScope(leases + {lease}, s) == InScope(leases, s) {
    }
  }

  lemma ScopesRemove(scopes: map<string, int>, leases: set<Lease>, lease: Lease)
    requires ScopesExact(scopes, leases) && lease in leases
    ensures lease.scope in scopes && ScopesExact(Decremented(scopes, lease.scope), leases - {lease})
  {
    assert lease in InScope(leases, lease.scope);
    assert InScope(leases - {lease}, lease.scope) == InScope(leases, lease.scope) - {lease};
    forall s | s != lease.scope ensures InScope(leases - {lease}, s) == InScope(leases, s) {
    }
    assert |InScope(leases - {lease}, lease.scope)| == scopes[lease.scope] - 1;
    if scopes[lease.scope] == 1 {
      assert InScope(leases - {lease}, lease.scope) == {};
    } else {
      assert InScope(leases - {lease}, lease.scope) != {};
    }
  }

  class Manager {
    var connections: int
    var pending: int
    var scopes: map<string, int>
    // Every lease handed out, those not released, and those still in their handshake.
    ghost var leases: set<Lease>
    ghost var open: set<Lease>
    ghost var waiting: set<Lease>

    ghost predicate OpenCounted()
      reads this`connections, this`open
    {
      connections == |open|
    }

    ghost predicate WaitingCounted()
      reads this`pending, this`scopes, this`waiting
    {
      pending == |waiting| && ScopesExact(scopes, waiting)
    }

    /** The counters count exactly the leases whose flags say so. */
    ghost predicate Valid()
      reads this, leases
    {
      && (forall l :: l in open ==> l in leases)
      && (forall l :: l in waiting ==> l in open)
      && (forall l :: l in leases ==>
            l.manager == this && (l in open <==> !l.released) && (l in waiting <==> l.pending))
      && OpenCounted() && WaitingCounted()
    }

    constructor ()
      ensures Valid() && leases == {}
    {
      connections, pending, scopes := 0, 0, map[];
      leases, open, waiting := {}, {}, {};
    }

    /** A lease is granted exactly when every count is below its limit, and then each is within it. */
    method Acquire(scope: string, maxConnections: int, maxPending: int, maxPendingForScope: int) returns (lease: Lease?)
      requires Valid()
      modifies this
      ensures Valid()
      ensures lease != null <==>
        && scope != "" && |old(open)| < maxConnections && |old(waiting)| < maxPending
        && |InScope(old(waiting), scope)| < maxPendingForScope
      ensures lease == null ==> unchanged(this)
      ensures lease != null ==>
        && fresh(lease) && lease.scope == scope
        && leases == old(leases) + {lease} && open == old(open) + {lease} && waiting == old(waiting) + {lease}
        && |open| <= maxConnections && |waiting| <= maxPending && |InScope(waiting, scope)| <= maxPendingForScope
    {
      hide ScopesExact, InScope;
      ScopeCount(scopes, waiting, scope);
      if scope == "" || maxConnections <= 0 || maxPending <= 0 || maxPendingForScope <= 0 {
        return null;
      }
      if connections >= maxConnections || pending >= maxPending || Count(scopes, scope) >= maxPendingForScope {
        return null;
      }
      lease := Reserve(scope);
    }

    /** Makes the lease that goes with one slot of each kind. */
    method Reserve(scope: string) returns (lease: Lease)
      requires Valid()
      modifies this
      ensures Valid() && fresh(lease) && lease.scope == scope
      ensures leases == old(leases) + {lease} && open == old(open) + {lease} && waiting == old(waiting) + {lease}
      ensures |open| == |old(open)| + 1 && |waiting| == |old(waiting)| + 1
      ensures |InScope(waiting, scope)| == |InScope(old(waiting), scope)| + 1
    {
      hide OpenCounted, WaitingCounted, ScopesExact, InScope;
      lease := new Lease(this, scope);
      assert lease !in leases;
      TakeSlots(lease);
      leases := leases + {lease};
    }

    /** One more connection, one more pending handshake, one more in the lease's scope. */
    method TakeSlots(lease: Lease)
      requires OpenCounted() && WaitingCounted() && lease !in open && lease !in waiting
      modifies this`connections, this`pending, this`scopes, this`open, this`waiting
      ensures OpenCounted() && WaitingCounted()
      ensures open == old(open) + {lease} && waiting == old(waiting) + {lease}
      ensures |open| == |old(open)| + 1 && |waiting| == |old(waiting)| + 1
      ensures |InScope(waiting, lease.scope)| == |InScope(old(waiting), lease.scope)| + 1
    {
      ScopesAdd(scopes, waiting, lease);
      connections := connections + 1;
      pending := pending + 1;
      scopes := Incremented(scopes, lease.scope);
      open, waiting := open + {lease}, waiting + {lease};
    }

    /** One connection less. */
    method DropConnection(ghost lease: Lease)
      requires OpenCounted() && lease in open
      modifies this`connections, this`open
      ensures OpenCounted() && open == old(open) - {lease}
    {
      connections := connections - 1;
      open := open - {lease};
    }

    method ReleasePending(scope: string)
      requires scope in scopes
      modifies this`pending, this`scopes
      ensures pending == old(pending) - 1 && scopes == Decremented(old(scopes), scope)
    {
      pending := pending - 1;
      scopes := scopes[scope := scopes[scope] - 1];
      if scopes[scope] == 0 {
        scopes := scopes - {scope};
      }
    }
  }

  class Lease {
    const manager: Manager
    const scope: string
    var pending: bool
    var released: bool

    constructor (manager: Manager, scope: string)
      ensures this.manager == manager && this.scope == scope && pending && !released
    {
      this.manager, this.scope := manager, scope;
      pending, released := true, false;
    }

    /** The lease leaves the pending counts. */
    method LeavePending()
      requires manager.WaitingCounted() && this in manager.waiting
      modifies this`pending, manager`pending, manager`scopes, manager`waiting
      ensures !pending && manager.WaitingCounted() && manager.waiting == old(manager.waiting) - {this}
    {
      ScopesRemove(manager.scopes, manager.waiting, this);
      pending := false;
      manager.ReleasePending(scope);
      manager.waiting := manager.waiting - {this};
    }

    /** Leaves the pending counts and keeps the connection; a repeated or late call changes nothing. */
    method MarkReady()
      requires manager.Valid() && this in manager.leases
      modifies this, manager
      ensures manager.Valid() && manager.leases == old(manager.leases) && manager.open == old(manager.open)
      ensures manager.waiting == old(manager.waiting) - {this}
      ensures !old(pending) ==> unchanged(this) && unchanged(manager)
    {
      hide ScopesExact, Manager.WaitingCounted, Manager.OpenCounted;
      if released || !pending {
        return;
      }
      LeavePending();
    }

    /** Frees the connection and any pending slot exactly once. */
    method Release()
      requires manager.Valid() && this in manager.leases
      modifies this, manager
      ensures manager.Valid() && manager.leases == old(manager.leases)
      ensures manager.open == old(manager.open) - {this} && manager.waiting == old(manager.waiting) - {this}
      ensures old(released) ==> unchanged(this) && unchanged(manager)
    {
      hide ScopesExact, Manager.WaitingCounted, Manager.OpenCounted;
      if released {
        return;
      }
      released := true;
      manager.DropConnection(this);
      if pending {
        LeavePending();
      }
    }
  }
}
