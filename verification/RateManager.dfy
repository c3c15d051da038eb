/** Named policies, bucket keys and the failover from the primary backend to the in-process one. */
module RateManager {
  import opened Wrappers
  import opened ByteStrings
  import opened LocalRateLimit
  import opened RateQuota
  import opened Text
  import Breaker

  // -------------------------------------------------------------- bucket keys

  predicate NameChar(c: char) {
    'a' <= c <= 'z' || '0' <= c <= '9' || c == '_'
  }

  /** ^[a-z][a-z0-9_]{0,63}$ */
  predicate ValidName(name: string) {
    1 <= |name| <= 64 && 'a' <= name[0] <= 'z' && forall i :: 0 <= i < |name| ==> NameChar(name[i])
  }

  /** The pattern read left to right: a letter, then at most 63 letters, digits or underscores. */
  lemma ValidNameExact(name: string)
    ensures ValidName(name) <==> exists first, rest :: name == [first] + rest && MatchesPattern(first, rest)
  {
    if name != [] {
      assert name == [name[0]] + name[1..];
    }
    forall first, rest | name == [first] + rest ensures first == name[0] && rest == name[1..] {
    }
    assert ValidName(name) <==> name != [] && MatchesPattern(name[0], name[1..]);
  }

  predicate MatchesPattern(first: char, rest: string) {
    'a' <= first <= 'z' && |rest| <= 63 && forall i :: 0 <= i < |rest| ==> NameChar(rest[i])
  }

  function HexDigit(x: int): (c: char)
    requires 0 <= x < 16
    ensures '0' <= c <= '9' || 'a' <= c <= 'f'
  {
    if x < 10 then '0' + x as char else 'a' + (x - 10) as char
  }

  /** fmt's %x of a byte slice */
  function Hex(bytes: Bytes): string {
    if bytes == [] then ""
    else [HexDigit(bytes[0] as int / 16), HexDigit(bytes[0] as int % 16)] + Hex(bytes[1..])
  }

  /** Two digits per byte, the high half first. */
  lemma {:induction false} HexAt(bytes: Bytes, i: nat)
    requires i < |bytes|
    ensures |Hex(bytes)| == 2 * |bytes|
    ensures Hex(bytes)[2 * i] == "0123456789abcdef"[bytes[i] as int / 16]
    ensures Hex(bytes)[2 * i + 1] == "0123456789abcdef"[bytes[i] as int % 16]
  {
    HexDigitIs(bytes[0] as int / 16);
    HexDigitIs(bytes[0] as int % 16);
    hide HexDigit;
    if |bytes| > 1 {
      HexAt(bytes[1..], if i > 0 then i - 1 else 0);
    }
  }

  lemma HexDigitIs(x: int)
    requires 0 <= x < 16
    ensures HexDigit(x) == "0123456789abcdef"[x]
  {
  }

  function BucketKey(prefix: string, policy: string, digest: Bytes): string {
    prefix + policy + ":{" + Hex(digest) + "}"
  }

  lemma {:induction false} HexInjective(a: Bytes, b: Bytes)
    requires Hex(a) == Hex(b)
    ensures a == b
  {
    if a == [] || b == [] {
      assert |Hex(a)| == 0 <==> a == [];
      assert |Hex(b)| == 0 <==> b == [];
    } else {
      assert Hex(a)[0] == Hex(b)[0] && Hex(a)[1] == Hex(b)[1];
      assert Hex(a)[2..] == Hex(a[1..]) && Hex(b)[2..] == Hex(b[1..]);
      HexInjective(a[1..], b[1..]);
      assert a == [a[0]] + a[1..] && b == [b[0]] + b[1..];
    }
  }

  /** Policy names hold no colon, so a bucket key determines the policy name and the digest. */
  lemma BucketKeyInjective(prefix: string, p: string, d: Bytes, q: string, e: Bytes)
    requires ValidName(p) && ValidName(q) && BucketKey(prefix, p, d) == BucketKey(prefix, q, e)
    ensures p == q && d == e
  {
    var a, b := "{" + Hex(d) + "}", "{" + Hex(e) + "}";
    assert BucketKey(prefix, p, d) == prefix + (p + [':'] + a);
    assert BucketKey(prefix, q, e) == prefix + (q + [':'] + b);
    assert BucketKey(prefix, p, d)[|prefix|..] == p + [':'] + a;
    assert BucketKey(prefix, q, e)[|prefix|..] == q + [':'] + b;
    CutUnique(p, a, q, b, ':');
    assert a[1..|a| - 1] == Hex(d) && b[1..|b| - 1] == Hex(e);
    HexInjective(d, e);
  }

  // ------------------------------------------------------------------ failover

  datatype TakeError = UnknownPolicy(name: string) | CostNotPositive | ContextEnded

  /** What the primary backend answers: a decision, the end of the caller's context, or another failure. */
  datatype PrimaryReply = Answered(decision: Decision) | ContextOver | Down

  datatype Reply = Reply(decision: Decision, fallback: bool)

  class Manager {
    const hasPrimary: bool
    const policies: map<string, Policy>
    const prefix: string
    const retryInterval: nat
    var unavailableTo: nat
    var probing: bool
    const fallback: LocalBackend

    ghost function State(): Breaker.Circuit
      reads this
    {
      Breaker.Circuit(unavailableTo, probing)
    }

    constructor (hasPrimary: bool, policies: map<string, Policy>, prefix: string, retryInterval: nat,
                 fallback: LocalBackend)
      ensures this.hasPrimary == hasPrimary && this.policies == policies && this.prefix == prefix
      ensures this.retryInterval == retryInterval && this.fallback == fallback
      ensures State() == Breaker.Initial.circuit
    {
      this.hasPrimary, this.policies, this.prefix := hasPrimary, policies, prefix;
      this.retryInterval, this.fallback := retryInterval, fallback;
      unavailableTo, probing := 0, false;
    }

    method BeginPrimaryAttempt(now: nat) returns (begun: bool)
      modifies this
      ensures hasPrimary ==> (State(), begun) == Breaker.Begin(old(State()), now)
      ensures !hasPrimary ==> State() == old(State()) && !begun
    {
      if !hasPrimary {
        return false;
      }
      if unavailableTo == 0 {
        return true;
      }
      if now < unavailableTo || probing {
        return false;
      }
      probing := true;
      return true;
    }

    method FinishPrimaryAttempt(success: bool, now: nat)
      modifies this
      ensures State() == Breaker.Finish(old(State()), success, now, retryInterval)
    {
      probing := false;
      if success {
        unavailableTo := 0;
        return;
      }
      unavailableTo := now + retryInterval;
    }

    method CancelPrimaryAttempt()
      modifies this
      ensures State() == Breaker.Cancel(old(State()))
    {
      probing := false;
    }

    ghost predicate Valid()
      reads this, fallback
    {
      && ValidPolicies(policies) && retryInterval > 0 && fallback.Valid()
    }

    /** The quota check falls to the in-process limiter; its own context check may end the call. */
    method TakeFallback(canceled: bool, now: int, key: string, policy: Policy, cost: int)
      returns (r: Result<Reply, TakeError>)
      requires fallback.Valid() && now >= fallback.clock
      modifies fallback
      ensures fallback.Valid()
      ensures canceled ==> r == Failure(ContextEnded) && fallback.windows == old(fallback.windows)
      ensures !canceled ==>
        var (windows, decision) := SpecTake(fallback.maxKeys, old(fallback.windows), now, key, policy, cost);
        r == Success(Reply(decision, true)) && fallback.windows == windows
    {
      var answer := fallback.Take(canceled, now, key, policy, cost);
      match answer
      case Failure(_) => r := Failure(ContextEnded);
      case Success(decision) => r := Success(Reply(decision, true));
    }

    /**
     One call, with the clock readings it makes: `begin` before the primary,
     `finish` after it, `local` in the fallback. Invalid and oversized requests
     touch neither the breaker nor a backend; the caller's own cancellation
     never trips the breaker and never falls back.
     */
    method Take(policyName: string, digest: Bytes, cost: int, reply: PrimaryReply, canceled: bool,
                begin: nat, finish: nat, local: int)
      returns (r: Result<Reply, TakeError>)
      requires Valid() && local >= fallback.clock
      modifies this, fallback
      ensures Valid()
      ensures policyName !in policies ==> r == Failure(UnknownPolicy(policyName))
      ensures policyName in policies && cost <= 0 ==> r == Failure(CostNotPositive)
      ensures policyName in policies && cost > policies[policyName].limit ==>
        var p := policies[policyName];
        r == Success(Reply(Decision(false, p.limit, 0, p.window), false))
      ensures !Charges(policyName, cost) ==> State() == old(State()) && fallback.windows == old(fallback.windows)
      ensures Charges(policyName, cost) ==>
        var p := policies[policyName];
        var (begun, primary) := if hasPrimary then Breaker.Begin(old(State()), begin) else (old(State()), false);
        var ended := if reply.Answered? then Breaker.Finish(begun, true, finish, retryInterval)
                     else if reply.ContextOver? then Breaker.Cancel(begun)
                     else Breaker.Finish(begun, false, finish, retryInterval);
        && State() == (if primary then ended else begun)
        && if primary && !reply.Down? then
             && fallback.windows == old(fallback.windows)
             && r == (if reply.Answered? then Success(Reply(reply.decision, false)) else Failure(ContextEnded))
           else if canceled then
             r == Failure(ContextEnded) && fallback.windows == old(fallback.windows)
           else
             var (windows, decision) := SpecTake(fallback.maxKeys, old(fallback.windows), local,
                                                 BucketKey(prefix, policyName, digest), p, cost);
             r == Success(Reply(decision, true)) && fallback.windows == windows
    {
      if policyName !in policies {
        return Failure(UnknownPolicy(policyName));
      }
      var policy := policies[policyName];
      if cost <= 0 {
        return Failure(CostNotPositive);
      }
      var bucketKey := BucketKey(prefix, policyName, digest);
      if cost > policy.limit {
        return Success(Reply(Decision(false, policy.limit, 0, policy.window), false));
      }
      var begun := BeginPrimaryAttempt(begin);
      if !begun {
        r := TakeFallback(canceled, local, bucketKey, policy, cost);
        return;
      }
      match reply
      case Answered(decision) =>
        FinishPrimaryAttempt(true, finish);
        return Success(Reply(decision, false));
      case ContextOver =>
        CancelPrimaryAttempt();
        return Failure(ContextEnded);
      case Down =>
        FinishPrimaryAttempt(false, finish);
        r := TakeFallback(canceled, local, bucketKey, policy, cost);
    }

    /** The request names a policy and its cost is within that policy's limit. */
    predicate Charges(policyName: string, cost: int) {
      policyName in policies && 0 < cost <= policies[policyName].limit
    }
  }

  const DEFAULT_KEY_PREFIX := "cordis:rate_limit:"
  const DEFAULT_RETRY_INTERVAL := 1_000_000_000

  /** Rejects an empty or invalid policy set, and fills in the defaults for unset options. */
  method NewManager(hasPrimary: bool, policies: map<string, Policy>, keyPrefix: string, fallbackMaxKeys: int,
                    retryInterval: int, ghost start: int)
    returns (m: Manager?)
    ensures m != null <==> policies != map[] && ValidPolicies(policies)
    ensures m != null ==>
      && m.Valid() && m.State() == Breaker.Initial.circuit && m.fallback.windows == map[]
      && m.policies == policies && m.hasPrimary == hasPrimary
      && m.prefix == (if keyPrefix == "" then DEFAULT_KEY_PREFIX else keyPrefix)
      && m.retryInterval == (if retryInterval <= 0 then DEFAULT_RETRY_INTERVAL else retryInterval)
      && m.fallback.maxKeys == (if fallbackMaxKeys <= 0 then DEFAULT_MAX_KEYS else fallbackMaxKeys)
  {
    if policies == map[] || !ValidPolicies(policies) {
      return null;
    }
    var fallback := new LocalBackend(fallbackMaxKeys, start);
    m := new Manager(hasPrimary, policies, if keyPrefix == "" then DEFAULT_KEY_PREFIX else keyPrefix,
                     if retryInterval <= 0 then DEFAULT_RETRY_INTERVAL else retryInterval, fallback);
  }

  /** The limit is an int64 to begin with. */
  predicate ValidPolicies(policies: map<string, Policy>) {
    forall name :: name in policies ==>
      ValidName(name) && 0 < policies[name].limit <= MAX_INT64 && 0 < policies[name].window
  }

  // ---------------------------------------------------- quota through the manager

  /** A request that reached the fallback. */
  datatype Request = Request(now: int, policy: string, digest: Bytes, cost: int)

  function CallOf(prefix: string, policies: map<string, Policy>, r: Request): Call
    requires r.policy in policies
  {
    Call(r.now, BucketKey(prefix, r.policy, r.digest), policies[r.policy], r.cost)
  }

  function CallsOf(prefix: string, policies: map<string, Policy>, requests: seq<Request>): (calls: seq<Call>)
    requires forall i :: 0 <= i < |requests| ==> requests[i].policy in policies
  {
    seq(|requests|, i requires 0 <= i < |requests| => CallOf(prefix, policies, requests[i]))
  }

  /**
   Requests the manager lets through charge every bucket key under one policy,
   within its limit: the hypothesis of the quota theorem, for each key.
   */
  lemma ManagerIsDisciplined(prefix: string, policies: map<string, Policy>, requests: seq<Request>, policy: string,
                             digest: Bytes)
    requires ValidPolicies(policies) && policy in policies
    requires forall i :: 0 <= i < |requests| ==>
      requests[i].policy in policies && 0 < requests[i].cost <= policies[requests[i].policy].limit
    requires forall i, j :: 0 <= i < j < |requests| ==> requests[i].now <= requests[j].now
    ensures Disciplined(CallsOf(prefix, policies, requests), BucketKey(prefix, policy, digest), policies[policy])
  {
    var calls, key := CallsOf(prefix, policies, requests), BucketKey(prefix, policy, digest);
    forall i | 0 <= i < |calls| && calls[i].key == key
      ensures calls[i].policy == policies[policy] && 0 < calls[i].cost <= policies[policy].limit
    {
      BucketKeyInjective(prefix, requests[i].policy, requests[i].digest, policy, digest);
    }
  }

  /**
   Over every run of requests, one client of one policy is admitted by the
   fallback at most twice the limit in any interval of the window's length, as
   long as its request rate cannot overflow the counter.
   */
  lemma FallbackQuota(maxKeys: nat, prefix: string, policies: map<string, Policy>, requests: seq<Request>,
                      policy: string, digest: Bytes, lo: int, hi: int)
    requires ValidPolicies(policies) && policy in policies
    requires forall i :: 0 <= i < |requests| ==>
      requests[i].policy in policies && 0 < requests[i].cost <= policies[requests[i].policy].limit
    requires forall i, j :: 0 <= i < j < |requests| ==> requests[i].now <= requests[j].now
    requires RateBounded(CallsOf(prefix, policies, requests), BucketKey(prefix, policy, digest), policies[policy])
    requires hi - lo <= policies[policy].window
    ensures InInterval(Grants(maxKeys, CallsOf(prefix, policies, requests), BucketKey(prefix, policy, digest),
                              policies[policy]), lo, hi) <= 2 * policies[policy].limit
  {
    var calls, key := CallsOf(prefix, policies, requests), BucketKey(prefix, policy, digest);
    ManagerIsDisciplined(prefix, policies, requests, policy, digest);
    RateBoundedNeverOverflows(maxKeys, calls, key, policies[policy]);
    AdmittedCostBounded(maxKeys, calls, key, policies[policy], lo, hi);
  }
}
