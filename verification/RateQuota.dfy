/** How much cost a fixed-window limiter admits, over every run of Takes. */
module RateQuota {
  import opened Wrappers
  import opened LocalRateLimit

  datatype Call = Call(now: int, key: string, policy: Policy, cost: int)

  /** Cost admitted for one key, with the start of the window it was charged to. */
  datatype Grant = Grant(time: int, start: int, cost: int)

  function Answer(maxKeys: nat, calls: seq<Call>): (Buckets, Decision)
    requires calls != []
    decreases |calls|, 0
  {
    var c := calls[|calls| - 1];
    SpecTake(maxKeys, Windows(maxKeys, calls[..|calls| - 1]), c.now, c.key, c.policy, c.cost)
  }

  /** The windows after a run of Takes from an empty limiter. */
  function Windows(maxKeys: nat, calls: seq<Call>): Buckets
    decreases |calls|, 1
  {
    if calls == [] then map[] else Answer(maxKeys, calls).0
  }

  function Start(windows: Buckets, key: string, policy: Policy): int
    requires key in windows
  {
    windows[key].resetAt - policy.window
  }

  function Grants(maxKeys: nat, calls: seq<Call>, key: string, policy: Policy): seq<Grant> {
    if calls == [] then []
    else
      var before, c := Grants(maxKeys, calls[..|calls| - 1], key, policy), calls[|calls| - 1];
      if c.key == key && Answer(maxKeys, calls).1.allowed && key in Windows(maxKeys, calls) then
        before + [Grant(c.now, Start(Windows(maxKeys, calls), key, policy), c.cost)]
      else before
  }

  /** The cost admitted in the window that started at `start`. */
  function InWindow(grants: seq<Grant>, start: int): int {
    if grants == [] then 0
    else
      var g := grants[|grants| - 1];
      InWindow(grants[..|grants| - 1], start) + if g.start == start then g.cost else 0
  }

  /** The cost admitted from `lo` to `hi`, both included. */
  function InInterval(grants: seq<Grant>, lo: int, hi: int): int {
    if grants == [] then 0
    else
      var g := grants[|grants| - 1];
      InInterval(grants[..|grants| - 1], lo, hi) + if lo <= g.time <= hi then g.cost else 0
  }

  /** What the manager guarantees about the calls for a key: one policy, costs within its limit. */
  ghost predicate Disciplined(calls: seq<Call>, key: string, policy: Policy) {
    && 0 < policy.limit <= MAX_INT64 && 0 < policy.window
    && (forall i, j :: 0 <= i < j < |calls| ==> calls[i].now <= calls[j].now)
    && (forall i :: 0 <= i < |calls| && calls[i].key == key ==>
          calls[i].policy == policy && 0 < calls[i].cost <= policy.limit)
  }

  /** No charge of the key's windows leaves the range of int64. */
  ghost predicate NoOverflow(maxKeys: nat, calls: seq<Call>, key: string) {
    calls == [] ||
    (var before, c := calls[..|calls| - 1], calls[|calls| - 1];
     && NoOverflow(maxKeys, before, key)
     && (c.key == key ==>
           match WindowFor(maxKeys, Windows(maxKeys, before), c.now, c.key, c.policy)
           case None => true
           case Some(w) => w.used + c.cost <= MAX_INT64))
  }

  /** Windows of one key do not overlap, and every grant falls inside its own. */
  ghost predicate Spaced(grants: seq<Grant>, window: int) {
    && (forall i :: 0 <= i < |grants| ==>
          grants[i].cost > 0 && grants[i].start <= grants[i].time < grants[i].start + window)
    && (forall i, j :: 0 <= i < j < |grants| ==>
          grants[i].start == grants[j].start || grants[i].start + window <= grants[j].start)
  }

  /** The latest window is the one in the table; it has admitted no more than it has charged. */
  ghost predicate Charged(windows: Buckets, grants: seq<Grant>, key: string, policy: Policy, now: int) {
    if key in windows then
      var start := Start(windows, key, policy);
      && windows[key].used >= 0 && InWindow(grants, start) <= windows[key].used && start <= now
      && (forall i :: 0 <= i < |grants| ==> grants[i].start == start || grants[i].start + policy.window <= start)
    else grants == []
  }

  lemma {:induction false} NewWindowEmpty(grants: seq<Grant>, start: int)
    requires forall i :: 0 <= i < |grants| ==> grants[i].start != start
    ensures InWindow(grants, start) == 0
  {
    if grants != [] { NewWindowEmpty(grants[..|grants| - 1], start); }
  }

  /** An interval that meets at most two windows admits no more than the two together. */
  lemma {:induction false} TwoWindowsCover(grants: seq<Grant>, lo: int, hi: int, a: int, b: int)
    requires forall i :: 0 <= i < |grants| ==> grants[i].cost > 0
    requires forall i :: 0 <= i < |grants| && lo <= grants[i].time <= hi ==>
      grants[i].start == a || grants[i].start == b
    ensures InInterval(grants, lo, hi) <= InWindow(grants, a) + InWindow(grants, b)
  {
    if grants != [] { TwoWindowsCover(grants[..|grants| - 1], lo, hi, a, b); }
  }

  ghost predicate WithinQuota(windows: Buckets, grants: seq<Grant>, key: string, policy: Policy, now: int) {
    && Spaced(grants, policy.window)
    && Charged(windows, grants, key, policy, now)
    && (forall start :: InWindow(grants, start) <= policy.limit)
  }

  ghost predicate Quota(maxKeys: nat, calls: seq<Call>, key: string, policy: Policy, now: int) {
    WithinQuota(Windows(maxKeys, calls), Grants(maxKeys, calls, key, policy), key, policy, now)
  }

  /** The key's window just before a Take is charged to it. */
  ghost predicate Opened(grants: seq<Grant>, b: Bucket, policy: Policy, now: int) {
    var start := b.resetAt - policy.window;
    && start <= now < b.resetAt && 0 <= b.used && InWindow(grants, start) <= b.used
    && (forall i :: 0 <= i < |grants| ==> grants[i].start == start || grants[i].start + policy.window <= start)
  }

  lemma WindowOpened(maxKeys: nat, windows: Buckets, grants: seq<Grant>, key: string, policy: Policy, before: int,
                     now: int)
    requires policy.window > 0 && before <= now && Charged(windows, grants, key, policy, before)
    requires WindowFor(maxKeys, windows, now, key, policy).Some?
    ensures Opened(grants, WindowFor(maxKeys, windows, now, key, policy).value, policy, now)
  {
    if !(key in windows && Live(windows[key], now)) {
      forall i | 0 <= i < |grants| ensures grants[i].start + policy.window <= now {
      }
      NewWindowEmpty(grants, now);
    }
  }

  lemma InWindowMore(grants: seq<Grant>, g: Grant, start: int)
    ensures InWindow(grants + [g], start) == InWindow(grants, start) + if g.start == start then g.cost else 0
  {
    assert (grants + [g])[..|grants|] == grants;
  }

  lemma GrantKeeps(grants: seq<Grant>, b: Bucket, c: Call)
    requires Opened(grants, b, c.policy, c.now) && 0 < c.cost && b.used + c.cost <= c.policy.limit
    requires forall start :: InWindow(grants, start) <= c.policy.limit
    ensures var start := b.resetAt - c.policy.window;
      var grants' := grants + [Grant(c.now, start, c.cost)];
      && InWindow(grants', start) <= b.used + c.cost
      && (forall s :: InWindow(grants', s) <= c.policy.limit)
  {
    var g := Grant(c.now, b.resetAt - c.policy.window, c.cost);
    forall s ensures InWindow(grants + [g], s) == InWindow(grants, s) + if s == g.start then c.cost else 0 {
      InWindowMore(grants, g, s);
    }
  }

  /** What a Take does to the key's window and grants when it is charged to window `w`, or to none. */
  ghost predicate Effect(windows: Buckets, grants: seq<Grant>, windows': Buckets, grants': seq<Grant>,
                         key: string, c: Call, w: Option<Bucket>)
  {
    match w
    case None =>
      grants' == grants && (key in windows' <==> key in windows) && (key in windows ==> windows'[key] == windows[key])
    case Some(b) =>
      && key in windows'
      && (0 <= b.used ==> windows'[key] == Bucket(b.used + c.cost, b.resetAt))
      && (0 <= b.used ==> grants' == if b.used + c.cost <= c.policy.limit
                                     then grants + [Grant(c.now, b.resetAt - c.policy.window, c.cost)] else grants)
  }

  /** The window a call is charged to, seen from one key. */
  function ChargedTo(maxKeys: nat, windows: Buckets, key: string, c: Call): Option<Bucket> {
    if c.key == key then WindowFor(maxKeys, windows, c.now, key, c.policy) else None
  }

  lemma LastTake(maxKeys: nat, calls: seq<Call>, key: string, policy: Policy)
    requires calls != [] && Disciplined(calls, key, policy) && NoOverflow(maxKeys, calls, key)
    ensures var front, c := calls[..|calls| - 1], calls[|calls| - 1];
      var windows := Windows(maxKeys, front);
      Effect(windows, Grants(maxKeys, front, key, policy), Windows(maxKeys, calls), Grants(maxKeys, calls, key, policy),
             key, c, ChargedTo(maxKeys, windows, key, c))
  {
  }

  lemma SpacedMore(grants: seq<Grant>, window: int, g: Grant)
    requires Spaced(grants, window) && g.cost > 0 && g.start <= g.time < g.start + window
    requires forall i :: 0 <= i < |grants| ==> grants[i].start == g.start || grants[i].start + window <= g.start
    ensures Spaced(grants + [g], window)
  {
  }

  lemma ChargedMore(windows: Buckets, grants: seq<Grant>, key: string, c: Call, b: Bucket)
    requires Opened(grants, b, c.policy, c.now) && 0 < c.cost
    requires key in windows && windows[key] == Bucket(b.used + c.cost, b.resetAt)
    ensures Charged(windows, grants + [Grant(c.now, b.resetAt - c.policy.window, c.cost)], key, c.policy, c.now)
  {
    var g := Grant(c.now, b.resetAt - c.policy.window, c.cost);
    InWindowMore(grants, g, g.start);
  }

  /** An admitted Take. */
  lemma AdmitKeeps(windows: Buckets, grants: seq<Grant>, key: string, c: Call, b: Bucket, grants': seq<Grant>)
    requires Spaced(grants, c.policy.window) && Opened(grants, b, c.policy, c.now) && 0 < c.cost
    requires forall start :: InWindow(grants, start) <= c.policy.limit
    requires key in windows && windows[key] == Bucket(b.used + c.cost, b.resetAt)
    requires b.used + c.cost <= c.policy.limit
    requires grants' == grants + [Grant(c.now, b.resetAt - c.policy.window, c.cost)]
    ensures WithinQuota(windows, grants', key, c.policy, c.now)
  {
    assert Spaced(grants', c.policy.window) by {
      SpacedMore(grants, c.policy.window, Grant(c.now, b.resetAt - c.policy.window, c.cost));
    }
    assert Charged(windows, grants', key, c.policy, c.now) by {
      ChargedMore(windows, grants, key, c, b);
    }
    GrantKeeps(grants, b, c);
  }

  /** A refused Take, which is charged all the same. */
  lemma RefuseKeeps(windows: Buckets, grants: seq<Grant>, key: string, c: Call, b: Bucket)
    requires Spaced(grants, c.policy.window) && Opened(grants, b, c.policy, c.now) && 0 < c.cost
    requires forall start :: InWindow(grants, start) <= c.policy.limit
    requires key in windows && windows[key] == Bucket(b.used + c.cost, b.resetAt)
    ensures WithinQuota(windows, grants, key, c.policy, c.now)
  {
  }

  lemma EffectKeeps(maxKeys: nat, windows: Buckets, grants: seq<Grant>, windows': Buckets, grants': seq<Grant>,
                    key: string, policy: Policy, c: Call, before: int)
    requires Effect(windows, grants, windows', grants', key, c, ChargedTo(maxKeys, windows, key, c))
    requires WithinQuota(windows, grants, key, policy, before) && before <= c.now
    requires policy.window > 0 && (c.key == key ==> c.policy == policy && 0 < c.cost)
    ensures WithinQuota(windows', grants', key, policy, c.now)
  {
    var w := ChargedTo(maxKeys, windows, key, c);
    if w.Some? {
      WindowOpened(maxKeys, windows, grants, key, policy, before, c.now);
      if w.value.used + c.cost <= policy.limit {
        AdmitKeeps(windows', grants, key, c, w.value, grants');
      } else {
        RefuseKeeps(windows', grants, key, c, w.value);
      }
    }
  }

  lemma {:induction false} QuotaHolds(maxKeys: nat, calls: seq<Call>, key: string, policy: Policy)
    requires Disciplined(calls, key, policy) && NoOverflow(maxKeys, calls, key)
    ensures calls == [] ==> Quota(maxKeys, calls, key, policy, 0)
    ensures calls != [] ==> Quota(maxKeys, calls, key, policy, calls[|calls| - 1].now)
    decreases |calls|
  {
    if calls != [] {
      var front := calls[..|calls| - 1];
      QuotaHolds(maxKeys, front, key, policy);
      var c := calls[|calls| - 1];
      LastTake(maxKeys, calls, key, policy);
      EffectKeeps(maxKeys, Windows(maxKeys, front), Grants(maxKeys, front, key, policy), Windows(maxKeys, calls),
                  Grants(maxKeys, calls, key, policy), key, policy, c,
                  if front == [] then c.now else front[|front| - 1].now);
    }
  }

  /**
   Over every run of Takes without overflow, a key is admitted at most `limit`
   in each window, and at most twice that in any time interval no longer than
   the window.
   */
  lemma AdmittedCostBounded(maxKeys: nat, calls: seq<Call>, key: string, policy: Policy, lo: int, hi: int)
    requires Disciplined(calls, key, policy) && NoOverflow(maxKeys, calls, key) && hi - lo <= policy.window
    ensures var grants := Grants(maxKeys, calls, key, policy);
      && (forall start :: InWindow(grants, start) <= policy.limit)
      && InInterval(grants, lo, hi) <= 2 * policy.limit
  {
    QuotaHolds(maxKeys, calls, key, policy);
    IntervalBound(Grants(maxKeys, calls, key, policy), policy, lo, hi);
  }

  lemma IntervalBound(grants: seq<Grant>, policy: Policy, lo: int, hi: int)
    requires Spaced(grants, policy.window) && 0 < policy.window && hi - lo <= policy.window
    requires forall start :: InWindow(grants, start) <= policy.limit
    ensures InInterval(grants, lo, hi) <= 2 * policy.limit
  {
    var a, b := FirstAndLastWindow(grants, policy.window, lo, hi);
    TwoWindowsCover(grants, lo, hi, a, b);
  }

  ghost predicate Within(grants: seq<Grant>, i: int, lo: int, hi: int) {
    0 <= i < |grants| && lo <= grants[i].time <= hi
  }

  /** All grants of a short interval belong to at most two windows. */
  lemma FirstAndLastWindow(grants: seq<Grant>, window: int, lo: int, hi: int) returns (a: int, b: int)
    requires Spaced(grants, window) && 0 < window && hi - lo <= window
    ensures forall i :: 0 <= i < |grants| && lo <= grants[i].time <= hi ==> grants[i].start == a || grants[i].start == b
  {
    a, b := 0, 0;
    if i :| Within(grants, i, lo, hi) {
      a := grants[i].start;
      b := a;
      if j :| Within(grants, j, lo, hi) && grants[j].start != a {
        b := grants[j].start;
        forall k | Within(grants, k, lo, hi) ensures grants[k].start == a || grants[k].start == b {
          NoThirdWindow(grants, window, lo, hi, i, j, k);
        }
      }
      assert forall k :: Within(grants, k, lo, hi) ==> grants[k].start == a || grants[k].start == b;
    }
    assert forall k :: 0 <= k < |grants| && lo <= grants[k].time <= hi ==> Within(grants, k, lo, hi);
  }

  lemma NoThirdWindow(grants: seq<Grant>, window: int, lo: int, hi: int, i: nat, j: nat, k: nat)
    requires Spaced(grants, window) && 0 < window && hi - lo <= window
    requires Within(grants, i, lo, hi) && Within(grants, j, lo, hi) && Within(grants, k, lo, hi)
    requires grants[i].start != grants[j].start
    ensures grants[k].start == grants[i].start || grants[k].start == grants[j].start
  {
  }

  // ------------------------------------------------------- when it can overflow

  /** How many calls there are for the key after time `t`. */
  function CallsAfter(calls: seq<Call>, key: string, t: int): nat {
    if calls == [] then 0
    else
      var c := calls[|calls| - 1];
      CallsAfter(calls[..|calls| - 1], key, t) + if c.key == key && c.now > t then 1 else 0
  }

  /** Within one window length, never more than (2^63 - 1) / limit calls for the key. */
  ghost predicate RateBounded(calls: seq<Call>, key: string, policy: Policy) {
    forall n :: 0 <= n < |calls| && calls[n].key == key ==>
      CallsAfter(calls[..n + 1], key, calls[n].now - policy.window) * policy.limit <= MAX_INT64
  }

  lemma {:induction false} MoreCallsEarlier(calls: seq<Call>, key: string, t: int, u: int)
    requires t <= u
    ensures CallsAfter(calls, key, u) <= CallsAfter(calls, key, t)
  {
    if calls != [] { MoreCallsEarlier(calls[..|calls| - 1], key, t, u); }
  }

  /** The charge of a window is at most `limit` per call since it opened. */
  ghost predicate ChargeBounded(windows: Buckets, calls: seq<Call>, key: string, policy: Policy) {
    key in windows ==>
      && calls != [] && Start(windows, key, policy) <= calls[|calls| - 1].now
      && 0 <= windows[key].used <= CallsAfter(calls, key, Start(windows, key, policy) - 1) * policy.limit
  }

  lemma RateBoundedFront(calls: seq<Call>, key: string, policy: Policy)
    requires calls != [] && RateBounded(calls, key, policy) && Disciplined(calls, key, policy)
    ensures RateBounded(calls[..|calls| - 1], key, policy) && Disciplined(calls[..|calls| - 1], key, policy)
  {
    var front := calls[..|calls| - 1];
    forall n | 0 <= n < |front| && front[n].key == key
      ensures CallsAfter(front[..n + 1], key, front[n].now - policy.window) * policy.limit <= MAX_INT64
    {
      assert front[..n + 1] == calls[..n + 1] && front[n] == calls[n];
    }
  }

  /** The last call for the key, on window `w`: the charge stays below one limit per recent call. */
  lemma LastCharge(calls: seq<Call>, key: string, policy: Policy, used: int, start: int)
    requires calls != [] && Disciplined(calls, key, policy) && RateBounded(calls, key, policy)
    requires calls[|calls| - 1].key == key
    requires var c := calls[|calls| - 1]; c.now - policy.window < start <= c.now
    requires 0 <= used <= CallsAfter(calls[..|calls| - 1], key, start - 1) * policy.limit
    ensures var c := calls[|calls| - 1];
      0 <= used + c.cost <= CallsAfter(calls, key, start - 1) * policy.limit && used + c.cost <= MAX_INT64
  {
    var n := |calls| - 1;
    var front, c := calls[..n], calls[n];
    var k := CallsAfter(front, key, start - 1);
    assert CallsAfter(calls, key, start - 1) == k + 1;
    assert (k + 1) * policy.limit == k * policy.limit + policy.limit;
    MoreCallsEarlier(calls, key, c.now - policy.window, start - 1);
    assert calls[..n + 1] == calls;
    var m := CallsAfter(calls, key, c.now - policy.window);
    assert m * policy.limit <= MAX_INT64;
    assert (k + 1) * policy.limit <= m * policy.limit by { MulMonotone(k + 1, m, policy.limit); }
  }

  lemma MulMonotone(a: nat, b: nat, c: nat)
    requires a <= b
    ensures a * c <= b * c
  {
    assert b * c == a * c + (b - a) * c;
  }

  /** The window of the last call leaves room for it. */
  lemma RoomForLast(maxKeys: nat, windows: Buckets, calls: seq<Call>, key: string, policy: Policy)
    requires calls != [] && Disciplined(calls, key, policy) && RateBounded(calls, key, policy)
    requires ChargeBounded(windows, calls[..|calls| - 1], key, policy)
    ensures var c := calls[|calls| - 1];
      var w := ChargedTo(maxKeys, windows, key, c);
      w.Some? ==>
        && 0 <= w.value.used && w.value.used + c.cost <= MAX_INT64
        && w.value.used + c.cost <= CallsAfter(calls, key, w.value.resetAt - policy.window - 1) * policy.limit
  {
    var c := calls[|calls| - 1];
    var w := ChargedTo(maxKeys, windows, key, c);
    if w.Some? {
      assert key in windows ==> calls[|calls| - 2].now <= c.now;
      LastCharge(calls, key, policy, w.value.used, w.value.resetAt - policy.window);
    }
  }

  /** A caller who keeps to the rate never overflows a window. */
  lemma {:induction false} RateBoundedNeverOverflows(maxKeys: nat, calls: seq<Call>, key: string, policy: Policy)
    requires Disciplined(calls, key, policy) && RateBounded(calls, key, policy)
    ensures NoOverflow(maxKeys, calls, key) && ChargeBounded(Windows(maxKeys, calls), calls, key, policy)
    decreases |calls|
  {
    if calls != [] {
      var front, c := calls[..|calls| - 1], calls[|calls| - 1];
      RateBoundedFront(calls, key, policy);
      RateBoundedNeverOverflows(maxKeys, front, key, policy);
      RoomForLast(maxKeys, Windows(maxKeys, front), calls, key, policy);
      assert NoOverflow(maxKeys, calls, key);
      LastTake(maxKeys, calls, key, policy);
      ChargeStays(maxKeys, Windows(maxKeys, front), Grants(maxKeys, front, key, policy), Windows(maxKeys, calls),
                  Grants(maxKeys, calls, key, policy), calls, key, policy);
    }
  }

  lemma ChargeStays(maxKeys: nat, windows: Buckets, grants: seq<Grant>, windows': Buckets, grants': seq<Grant>,
                    calls: seq<Call>, key: string, policy: Policy)
    requires calls != [] && Disciplined(calls, key, policy) && RateBounded(calls, key, policy)
    requires ChargeBounded(windows, calls[..|calls| - 1], key, policy)
    requires var c := calls[|calls| - 1];
      Effect(windows, grants, windows', grants', key, c, ChargedTo(maxKeys, windows, key, c))
    ensures ChargeBounded(windows', calls, key, policy)
  {
    var front, c := calls[..|calls| - 1], calls[|calls| - 1];
    RoomForLast(maxKeys, windows, calls, key, policy);
    if ChargedTo(maxKeys, windows, key, c).None? && key in windows {
      var start := Start(windows, key, policy);
      assert front[|front| - 1] == calls[|calls| - 2];
      MulMonotone(CallsAfter(front, key, start - 1), CallsAfter(calls, key, start - 1), policy.limit);
    }
  }

  /** The true total charged to the key's current window, rejected calls included. */
  function Charge(maxKeys: nat, calls: seq<Call>, key: string): int {
    if calls == [] then 0
    else
      var before, c := calls[..|calls| - 1], calls[|calls| - 1];
      var windows := Windows(maxKeys, before);
      if ChargedTo(maxKeys, windows, key, c).None? then Charge(maxKeys, before, key)
      else (if key in windows && Live(windows[key], c.now) then Charge(maxKeys, before, key) else 0) + c.cost
  }

  /** The last call is for the key and is charged to a window of it. */
  predicate IsCharged(maxKeys: nat, calls: seq<Call>, key: string) {
    && calls != []
    && ChargedTo(maxKeys, Windows(maxKeys, calls[..|calls| - 1]), key, calls[|calls| - 1]).Some?
  }

  /** The last call, if charged, is allowed exactly when the true total is within the limit. */
  predicate RightAnswer(maxKeys: nat, calls: seq<Call>, key: string) {
    IsCharged(maxKeys, calls, key) ==>
      (Answer(maxKeys, calls).1.allowed <==> Charge(maxKeys, calls, key) <= calls[|calls| - 1].policy.limit)
  }

  /** Without overflow the stored counter is the true total. */
  lemma {:induction false} UsedIsCharge(maxKeys: nat, calls: seq<Call>, key: string, policy: Policy)
    requires Disciplined(calls, key, policy) && NoOverflow(maxKeys, calls, key)
    ensures var windows := Windows(maxKeys, calls);
      key in windows ==> 0 <= windows[key].used == Charge(maxKeys, calls, key) <= MAX_INT64
    decreases |calls|
  {
    if calls != [] {
      UsedIsCharge(maxKeys, calls[..|calls| - 1], key, policy);
    }
  }

  /** The first charge that overflows is the first wrong answer. */
  lemma LastAnswerRight(maxKeys: nat, calls: seq<Call>, key: string, policy: Policy)
    requires calls != [] && Disciplined(calls, key, policy) && NoOverflow(maxKeys, calls[..|calls| - 1], key)
    ensures RightAnswer(maxKeys, calls, key) <==> NoOverflow(maxKeys, calls, key)
  {
    UsedIsCharge(maxKeys, calls[..|calls| - 1], key, policy);
  }

  /**
   Over every run, all answers for the key are those the true totals give if
   and only if no charge leaves the range of int64.
   */
  lemma {:induction false} AnswersRightIffNoOverflow(maxKeys: nat, calls: seq<Call>, key: string, policy: Policy)
    requires Disciplined(calls, key, policy)
    ensures (forall n :: 0 <= n <= |calls| ==> RightAnswer(maxKeys, calls[..n], key)) <==>
            NoOverflow(maxKeys, calls, key)
    decreases |calls|
  {
    hide Charge, Answer, Windows, ChargedTo;
    if calls != [] {
      var m := |calls| - 1;
      var front := calls[..m];
      assert forall n :: 0 <= n <= m ==> front[..n] == calls[..n];
      AnswersRightIffNoOverflow(maxKeys, front, key, policy);
      assert calls[..m + 1] == calls;
      if NoOverflow(maxKeys, front, key) {
        LastAnswerRight(maxKeys, calls, key, policy);
      }
    }
  }

  /** The first Take of a key opens its window. */
  lemma FirstTake(key: string, policy: Policy, cost: int)
    requires policy.window > 0 && 0 < cost <= policy.limit <= MAX_INT64
    ensures var calls := [Call(0, key, policy, cost)];
      && Windows(1, calls) == map[key := Bucket(cost, policy.window)]
      && Grants(1, calls, key, policy) == [Grant(0, 0, cost)]
  {
    var calls := [Call(0, key, policy, cost)];
    assert calls[..0] == [] && LiveBuckets(map[], 0) == map[];
    assert WindowFor(1, map[], 0, key, policy) == Some(Bucket(0, policy.window));
    assert Answer(1, calls).0 == map[key := Bucket(cost, policy.window)];
  }

  /** A second Take in the window whose total wraps around is admitted. */
  lemma WrappedTake(windows: Buckets, key: string, policy: Policy, cost: int)
    requires key in windows && windows[key] == Bucket(MAX_INT64, policy.window)
    requires policy.window > 0 && policy.limit > 0 && 0 < cost <= MAX_INT64
    ensures var (windows', d) := SpecTake(1, windows, 0, key, policy, cost);
      d.allowed && key in windows' && windows'[key].resetAt == policy.window
  {
  }

  /** With the largest limit, two calls within it overflow the window and both are admitted. */
  lemma OverflowAdmitsTooMuch(window: int)
    requires window > 0
    ensures var policy := Policy(MAX_INT64, window);
      var calls := [Call(0, "k", policy, MAX_INT64), Call(0, "k", policy, 1)];
      && Disciplined(calls, "k", policy) && !NoOverflow(1, calls, "k")
      && InWindow(Grants(1, calls, "k", policy), 0) > policy.limit
  {
    var policy := Policy(MAX_INT64, window);
    var first, second := Call(0, "k", policy, MAX_INT64), Call(0, "k", policy, 1);
    var calls := [first, second];
    assert calls[..1] == [first];
    FirstTake("k", policy, MAX_INT64);
    assert Windows(1, calls[..1]) == map["k" := Bucket(MAX_INT64, window)];
    hide LiveBuckets, Consume, SpecTake;
    WrappedTake(Windows(1, calls[..1]), "k", policy, 1);
    assert Grants(1, calls, "k", policy) == [Grant(0, 0, MAX_INT64)] + [Grant(0, 0, 1)];
    InWindowMore([Grant(0, 0, MAX_INT64)], Grant(0, 0, 1), 0);
    InWindowMore([], Grant(0, 0, MAX_INT64), 0);
    assert [] + [Grant(0, 0, MAX_INT64)] == [Grant(0, 0, MAX_INT64)];
  }

  /** A key rejected for being over its limit finds its window expired once RetryAfter has passed. */
  lemma RetryAfterSuffices(maxKeys: nat, windows: Buckets, now: int, key: string, policy: Policy, cost: int)
    requires WindowFor(maxKeys, windows, now, key, policy).Some?
    ensures var (windows', d) := SpecTake(maxKeys, windows, now, key, policy, cost);
      && key in windows'
      && (!d.allowed ==> d.retryAfter >= MILLISECOND && !Live(windows'[key], now + d.retryAfter))
      && (!d.allowed && d.retryAfter > MILLISECOND ==>
            forall t :: now <= t < now + d.retryAfter ==> Live(windows'[key], t))
  {
  }
}
