/**
 The in-process fixed-window limiter: a bounded map with lazy expiry and
 sweeping, proved against an unbounded map that is never swept.

 Times and durations are nanoseconds. Quota arithmetic is 64-bit.
 */
module LocalRateLimit {
  import opened Wrappers
  import opened Sets

  const SWEEP_INTERVAL := 1024
  const DEFAULT_MAX_KEYS := 10000
  const MILLISECOND := 1_000_000
  const MAX_INT64 := 0x7FFF_FFFF_FFFF_FFFF
  const TWO_64 := 0x1_0000_0000_0000_0000

  datatype Policy = Policy(limit: int, window: int)

  datatype Decision = Decision(allowed: bool, limit: int, remaining: int, retryAfter: int)

  datatype Bucket = Bucket(used: int, resetAt: int)

  datatype Error = Canceled

  type Buckets = map<string, Bucket>

  /** Two's complement wrap-around of int64 arithmetic. */
  function Wrap64(x: int): (r: int)
    ensures -MAX_INT64 - 1 <= r <= MAX_INT64
    ensures -MAX_INT64 - 1 <= x <= MAX_INT64 ==> r == x
  {
    (x + MAX_INT64 + 1) % TWO_64 - MAX_INT64 - 1
  }

  function Max(a: int, b: int): int {
    if a < b then b else a
  }

  predicate Live(b: Bucket, now: int) {
    now < b.resetAt
  }

  function LiveBuckets(buckets: Buckets, now: int): (r: Buckets)
    ensures r.Keys <= buckets.Keys
  {
    map k | k in buckets && Live(buckets[k], now) :: buckets[k]
  }

  /** What consuming `cost` from an open window answers. */
  function Consume(b: Bucket, now: int, policy: Policy, cost: int): (Bucket, Decision) {
    var used := Wrap64(b.used + cost);
    var allowed := used <= policy.limit;
    (b.(used := used),
     Decision(allowed, policy.limit, Max(Wrap64(policy.limit - used), 0),
              if allowed then 0 else Max(b.resetAt - now, MILLISECOND)))
  }

  /** The key's live window; else a new one, unless `maxKeys` keys have live windows already. */
  function WindowFor(maxKeys: nat, windows: Buckets, now: int, key: string, policy: Policy): Option<Bucket> {
    if key in windows && Live(windows[key], now) then Some(windows[key])
    else if |LiveBuckets(windows, now)| >= maxKeys then None
    else Some(Bucket(0, now + policy.window))
  }

  /** The specification: one window per key, never forgotten. */
  function SpecTake(maxKeys: nat, windows: Buckets, now: int, key: string, policy: Policy, cost: int)
    : (Buckets, Decision)
  {
    match WindowFor(maxKeys, windows, now, key, policy)
    case None => (windows, Decision(false, policy.limit, 0, policy.window))
    case Some(window) =>
      var (bucket, decision) := Consume(window, now, policy, cost);
      (windows[key := bucket], decision)
  }

  class LocalBackend {
    var buckets: Buckets
    const maxKeys: nat
    var requests: nat
    // The never-swept windows of the specification and the time of the last Take.
    ghost var windows: Buckets
    ghost var clock: int

    ghost predicate Valid()
      reads this
    {
      && maxKeys > 0 && |buckets| <= maxKeys
      && LiveBuckets(buckets, clock) == LiveBuckets(windows, clock)
    }

    constructor (maxKeys: int, ghost start: int)
      ensures Valid() && windows == map[] && clock == start
      ensures this.maxKeys == if maxKeys <= 0 then DEFAULT_MAX_KEYS else maxKeys
    {
      this.maxKeys := if maxKeys <= 0 then DEFAULT_MAX_KEYS else maxKeys;
      buckets, requests := map[], 0;
      windows, clock := map[], start;
    }

    method Sweep(now: int)
      modifies this`buckets
      ensures buckets == LiveBuckets(old(buckets), now)
    {
      var keys := buckets.Keys;
      while keys != {}
        invariant keys <= buckets.Keys <= old(buckets).Keys
        invariant forall k :: k in buckets ==> buckets[k] == old(buckets)[k]
        invariant forall k :: k in old(buckets) && (k in keys || Live(old(buckets)[k], now)) ==> k in buckets
        invariant forall k :: k in buckets && k !in keys ==> Live(buckets[k], now)
        decreases keys
      {
        var key :| key in keys;
        if !Live(buckets[key], now) {
          buckets := buckets - {key};
        }
        keys := keys - {key};
      }
    }

    /** The key's live window, or a new one, or nothing when `maxKeys` other keys have live windows. */
    method Fetch(now: int, key: string, policy: Policy) returns (bucket: Option<Bucket>)
      requires Valid() && clock == now
      modifies this`buckets
      ensures Valid() && (bucket.Some? ==> key in buckets || |buckets| < maxKeys)
      ensures bucket == WindowFor(maxKeys, windows, now, key, policy)
    {
      LiveMember(buckets, windows, key, now);
      var ok := key in buckets;
      if ok && !Live(buckets[key], now) {
        DropDead(buckets, key, now);
        buckets := buckets - {key};
        ok := false;
      }
      if !ok {
        if |buckets| >= maxKeys {
          SweepLive(now);
        }
        SweptLive(buckets, now);
        if |buckets| >= maxKeys {
          return None;
        }
        return Some(Bucket(0, now + policy.window));
      }
      return Some(buckets[key]);
    }

    /** With a clock that does not run backwards, every Take answers as the specification does. */
    method Take(canceled: bool, now: int, key: string, policy: Policy, cost: int) returns (r: Result<Decision, Error>)
      requires Valid() && now >= clock
      modifies this
      ensures Valid()
      ensures canceled ==> r == Failure(Canceled) && windows == old(windows) && clock == old(clock)
      ensures !canceled ==>
        && clock == now && r.Success?
        && (windows, r.value) == SpecTake(maxKeys, old(windows), now, key, policy, cost)
    {
      hide LiveBuckets, WindowFor, Wrap64;
      if canceled {
        return Failure(Canceled);
      }
      LiveLater(buckets, windows, clock, now);
      clock := now;
      requests := (requests + 1) % TWO_64;
      if requests % SWEEP_INTERVAL == 0 {
        SweepLive(now);
      }
      var fetched := Fetch(now, key, policy);
      if fetched.None? {
        return Success(Decision(false, policy.limit, 0, policy.window));
      }
      var bucket := fetched.value;
      bucket := bucket.(used := Wrap64(bucket.used + cost));
      LiveUpdate(buckets, windows, key, bucket, now);
      buckets := buckets[key := bucket];
      windows := windows[key := bucket];
      var remaining := Max(Wrap64(policy.limit - bucket.used), 0);
      var allowed := bucket.used <= policy.limit;
      r := Success(Decision(allowed, policy.limit, remaining,
                            if allowed then 0 else Max(bucket.resetAt - now, MILLISECOND)));
    }

    /** Sweeping at the current time loses no live window. */
    method SweepLive(now: int)
      requires Valid() && clock == now
      modifies this`buckets
      ensures Valid() && buckets == LiveBuckets(old(buckets), now)
    {
      SweptLive(buckets, now);
      Sweep(now);
    }
  }

  /** Sweeping keeps exactly the live windows and never adds one. */
  lemma SweptLive(buckets: Buckets, now: int)
    ensures LiveBuckets(LiveBuckets(buckets, now), now) == LiveBuckets(buckets, now)
    ensures |LiveBuckets(buckets, now)| <= |buckets|
    ensures (forall k :: k in buckets ==> Live(buckets[k], now)) ==> LiveBuckets(buckets, now) == buckets
  {
    SubsetSize(LiveBuckets(buckets, now).Keys, buckets.Keys);
  }

  lemma DropDead(buckets: Buckets, key: string, now: int)
    requires key in buckets && !Live(buckets[key], now)
    ensures LiveBuckets(buckets - {key}, now) == LiveBuckets(buckets, now)
    ensures |buckets - {key}| < |buckets|
  {
    assert (buckets - {key}).Keys == buckets.Keys - {key};
  }

  lemma LiveMember(a: Buckets, b: Buckets, key: string, now: int)
    requires LiveBuckets(a, now) == LiveBuckets(b, now)
    ensures (key in a && Live(a[key], now)) <==> (key in b && Live(b[key], now))
    ensures key in a && Live(a[key], now) ==> a[key] == b[key]
  {
    assert key in LiveBuckets(a, now) <==> key in LiveBuckets(b, now);
  }

  lemma LiveUpdate(a: Buckets, b: Buckets, key: string, bucket: Bucket, now: int)
    requires LiveBuckets(a, now) == LiveBuckets(b, now)
    ensures LiveBuckets(a[key := bucket], now) == LiveBuckets(b[key := bucket], now)
  {
    var a', b' := LiveBuckets(a[key := bucket], now), LiveBuckets(b[key := bucket], now);
    forall k ensures (k in a' <==> k in b') && (k in a' ==> a'[k] == b'[k]) {
      LiveMember(a, b, k, now);
    }
  }

  /** Maps that agree on live windows keep agreeing as time passes. */
  lemma LiveLater(a: Buckets, b: Buckets, t: int, now: int)
    requires LiveBuckets(a, t) == LiveBuckets(b, t) && t <= now
    ensures LiveBuckets(a, now) == LiveBuckets(b, now)
  {
    assert LiveBuckets(a, now) == LiveBuckets(LiveBuckets(a, t), now);
    assert LiveBuckets(b, now) == LiveBuckets(LiveBuckets(b, t), now);
  }

  // ------------------------------------------------------------ what Take answers

  /** The other keys that have a live window. */
  function OtherLive(windows: Buckets, key: string, now: int): set<string> {
    set k | k in windows && k != key && now < windows[k].resetAt
  }

  /**
   What a Take does, in columns: a live window is charged; without one, a new
   window of the policy's length opens, unless `maxKeys` other keys have live
   windows, and then the call is refused for one window and changes nothing.
   */
  lemma TakeExact(maxKeys: nat, windows: Buckets, now: int, key: string, policy: Policy, cost: int)
    ensures var (windows', d) := SpecTake(maxKeys, windows, now, key, policy, cost);
      var live := key in windows && now < windows[key].resetAt;
      if !live && |OtherLive(windows, key, now)| >= maxKeys then
        windows' == windows && d == Decision(false, policy.limit, 0, policy.window)
      else
        var used := Wrap64((if live then windows[key].used else 0) + cost);
        && windows' == windows[key := Bucket(used, if live then windows[key].resetAt else now + policy.window)]
        && (d.allowed <==> used <= policy.limit) && d.limit == policy.limit
  {
    hide Wrap64;
    if !(key in windows && now < windows[key].resetAt) {
      assert LiveBuckets(windows, now).Keys == OtherLive(windows, key, now);
      assert |LiveBuckets(windows, now)| == |LiveBuckets(windows, now).Keys|;
    }
  }

  /**
   `remaining` is what can still be taken: at the same time, a further cost
   that does not overflow the counter is allowed exactly up to it.
   */
  lemma RemainingExact(maxKeys: nat, windows: Buckets, now: int, key: string, policy: Policy, cost: int, more: int)
    requires WindowFor(maxKeys, windows, now, key, policy).Some? && 0 <= policy.limit <= MAX_INT64 && 0 < policy.window
    requires var w := WindowFor(maxKeys, windows, now, key, policy).value;
      0 <= w.used && 0 <= cost && 0 < more && w.used + cost + more <= MAX_INT64
    ensures var (windows', d) := SpecTake(maxKeys, windows, now, key, policy, cost);
      SpecTake(maxKeys, windows', now, key, policy, more).1.allowed <==> more <= d.remaining
  {
    var w := WindowFor(maxKeys, windows, now, key, policy).value;
    var (windows', d) := SpecTake(maxKeys, windows, now, key, policy, cost);
    assert windows'[key] == Bucket(w.used + cost, w.resetAt) && Live(windows'[key], now);
    hide LiveBuckets;
  }
}
