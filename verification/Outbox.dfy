/**
 The two outbox tables and the statements that `pkg/outbox` runs on them.

 A table is a map from its primary key to a row. Every statement is one atomic
 function from the old table to the new one. Failing statements return `Failure`.
 */
module Outbox {
  import opened Wrappers
  import opened ByteStrings
  import opened Sets

  /** The columns that no statement looks at or changes. */
  datatype Content = Content(eventId: int, deliveryIndex: int, topic: string, eventType: string,
                             key: Bytes, payload: Bytes, trace: Bytes)

  /** The part of a row that never changes: what a consumer of the topic receives. */
  datatype Event = Event(id: int, stream: string, sequence: int, content: Content)

  /** One outbox row. */
  datatype Record = Record(event: Event, shard: int, attempts: int, nextAttemptAt: int, createdAt: int)

  /** One row of the streams table. */
  datatype StreamRow = StreamRow(shard: int, last: int)

  datatype ReservedRange = ReservedRange(first: int, last: int, shard: int)

  datatype FailedUpdate = FailedUpdate(id: int, attempts: int, nextAttemptAt: int)

  type Streams = map<string, StreamRow>
  type Events = map<int, Record>

  datatype Error = CountNotPositive | NoRows | Duplicate | NegativeLimit

  // ---------------------------------------------------------------- writers

  /** INSERT ... ON CONFLICT (stream_key) DO NOTHING */
  function EnsureStream(streams: Streams, key: string, shard: int): (r: Streams)
    ensures r.Keys == streams.Keys + {key} && (forall k :: k in streams ==> r[k] == streams[k])
    ensures key !in streams ==> r[key] == StreamRow(shard, 0)
  {
    if key in streams then streams else streams[key := StreamRow(shard, 0)]
  }

  /** UPDATE ... SET last_sequence = last_sequence + count ... RETURNING */
  function ReserveSequences(streams: Streams, key: string, count: int): (r: Result<(Streams, ReservedRange), Error>)
    ensures r.Success? <==> count > 0 && key in streams
    ensures r.Success? ==>
      var range := r.value.1;
      && range.first == streams[key].last + 1 && range.last - range.first + 1 == count
      && range.shard == streams[key].shard
      && r.value.0 == streams[key := StreamRow(range.shard, range.last)]
  {
    if count <= 0 then Failure(CountNotPositive)
    else if key !in streams then Failure(NoRows)
    else
      var last := streams[key].last + count;
      Success((streams[key := StreamRow(streams[key].shard, last)],
               ReservedRange(last - count + 1, last, streams[key].shard)))
  }

  /** The primary key and UNIQUE (stream_key, stream_sequence) hold between a new row and the table. */
  predicate Fits(events: Events, r: Record) {
    r.event.id !in events &&
    forall id :: id in events ==> !SameSlot(events[id].event, r.event)
  }

  predicate SameSlot(a: Event, b: Event) {
    a.stream == b.stream && a.sequence == b.sequence
  }

  /** A multi-row INSERT: all rows or none. */
  function Inserted(events: Events, records: seq<Record>): (r: Result<Events, Error>)
    decreases |records|
  {
    if records == [] then Success(events)
    else if !Fits(events, records[0]) then Failure(Duplicate)
    else Inserted(events[records[0].event.id := records[0]], records[1..])
  }

  /** A successful INSERT adds exactly the given rows and keeps the unique constraints. */
  lemma {:induction false} InsertedExact(events: Events, records: seq<Record>)
    requires Inserted(events, records).Success? && UniqueSlots(events)
    ensures var after := Inserted(events, records).value;
      && after.Keys == events.Keys + (set i | 0 <= i < |records| :: records[i].event.id)
      && (forall id :: id in events ==> after[id] == events[id])
      && (forall i :: 0 <= i < |records| ==> after[records[i].event.id] == records[i])
      && UniqueSlots(after)
    decreases |records|
  {
    if records != [] {
      InsertedExact(events[records[0].event.id := records[0]], records[1..]);
      assert forall i :: 1 <= i < |records| ==> records[i] == records[1..][i - 1];
    }
  }

  /** UNIQUE (stream_key, stream_sequence) */
  ghost predicate UniqueSlots(events: Events) {
    forall a, b :: a in events && b in events && SameSlot(events[a].event, events[b].event) ==> a == b
  }

  // ----------------------------------------------------------------- relays

  /** DELETE ... WHERE outbox_id = ANY(ids) */
  function DeleteDelivered(events: Events, ids: seq<int>): (r: Events)
    ensures forall id :: id in r <==> id in events && id !in ids
    ensures forall id :: id in r ==> r[id] == events[id]
  {
    map id | id in events && id !in ids :: events[id]
  }

  /** Go's conversion int32(x). */
  function ToInt32(x: int): (r: int)
    ensures -0x8000_0000 <= r < 0x8000_0000 && (r - x) % 0x1_0000_0000 == 0
  {
    var low := x % 0x1_0000_0000;
    if low < 0x8000_0000 then low else low - 0x1_0000_0000
  }

  /** The last position of `id` in `ids`, if any. */
  function Position(ids: seq<int>, id: int): (r: Option<nat>)
    ensures r.Some? <==> id in ids
    ensures r.Some? ==> r.value < |ids| && ids[r.value] == id
  {
    if ids == [] then None
    else if ids[|ids| - 1] == id then Some(|ids| - 1)
    else Position(ids[..|ids| - 1], id)
  }

  /** UPDATE ... FROM unnest(ids, attempts, nextAttempts) */
  function UpdateJoined(events: Events, ids: seq<int>, attempts: seq<int>, nextAttempts: seq<int>): (r: Events)
    requires |ids| == |attempts| == |nextAttempts|
    ensures r.Keys == events.Keys
    ensures forall id :: id in events ==> r[id].event == events[id].event && r[id].shard == events[id].shard
  {
    map id | id in events ::
      match Position(ids, id)
      case None => events[id]
      case Some(i) => events[id].(attempts := attempts[i], nextAttemptAt := nextAttempts[i])
  }

  function UpdateIds(updates: seq<FailedUpdate>): seq<int> {
    seq(|updates|, i requires 0 <= i < |updates| => updates[i].id)
  }

  function UpdateAttempts(updates: seq<FailedUpdate>): seq<int> {
    seq(|updates|, i requires 0 <= i < |updates| => ToInt32(updates[i].attempts))
  }

  function UpdateTimes(updates: seq<FailedUpdate>): seq<int> {
    seq(|updates|, i requires 0 <= i < |updates| => updates[i].nextAttemptAt)
  }

  function Backoff(events: Events, updates: seq<FailedUpdate>): Events {
    UpdateJoined(events, UpdateIds(updates), UpdateAttempts(updates), UpdateTimes(updates))
  }

  /** The three parallel argument arrays, then the joined update. */
  method UpdateFailed(events: Events, updates: seq<FailedUpdate>) returns (r: Events)
    ensures r == Backoff(events, updates)
  {
    var ids, attempts, nextAttempts := [], [], [];
    for n := 0 to |updates|
      invariant ids == UpdateIds(updates[..n])
      invariant attempts == UpdateAttempts(updates[..n])
      invariant nextAttempts == UpdateTimes(updates[..n])
    {
      ids := ids + [updates[n].id];
      attempts := attempts + [ToInt32(updates[n].attempts)];
      nextAttempts := nextAttempts + [updates[n].nextAttemptAt];
    }
    assert updates[..|updates|] == updates;
    r := UpdateJoined(events, ids, attempts, nextAttempts);
  }

  /** What a batch of backoff updates means: each row its own update, and no other row changes. */
  ghost predicate BackedOff(before: Events, updates: seq<FailedUpdate>, after: Events) {
    && after.Keys == before.Keys
    && (forall id :: id in before && id !in UpdateIds(updates) ==> after[id] == before[id])
    && (forall i :: 0 <= i < |updates| && updates[i].id in before ==>
          after[updates[i].id] == before[updates[i].id].(attempts := ToInt32(updates[i].attempts),
                                                         nextAttemptAt := updates[i].nextAttemptAt))
  }

  ghost predicate DistinctIds(updates: seq<FailedUpdate>) {
    forall i, j :: 0 <= i < j < |updates| ==> updates[i].id != updates[j].id
  }

  /** For distinct ids the joined update gives every named row its own backoff state. */
  lemma BackoffExact(events: Events, updates: seq<FailedUpdate>)
    requires DistinctIds(updates)
    ensures BackedOff(events, updates, Backoff(events, updates))
  {
    var ids := UpdateIds(updates);
    forall i | 0 <= i < |updates| ensures Position(ids, updates[i].id) == Some(i) {
      assert ids[i] == updates[i].id;
    }
  }

  // ---------------------------------------------------------------- queries

  /** DISTINCT ON (stream_key) ... ORDER BY stream_key, stream_sequence over the rows of one shard. */
  predicate IsHead(events: Events, id: int) {
    id in events &&
    forall other :: other in events && events[other].shard == events[id].shard
                    && events[other].event.stream == events[id].event.stream ==>
      events[id].event.sequence <= events[other].event.sequence
  }

  function EligibleHeads(events: Events, shard: int, now: int): set<int> {
    set id | id in events && events[id].shard == shard && IsHead(events, id) && events[id].nextAttemptAt <= now
  }

  /** ORDER BY created_at, outbox_id */
  predicate Before(events: Events, a: int, b: int)
    requires a in events && b in events
  {
    events[a].createdAt < events[b].createdAt || (events[a].createdAt == events[b].createdAt && a < b)
  }

  lemma {:induction false} OldestExists(events: Events, ids: set<int>)
    requires ids <= events.Keys && |ids| > 0
    ensures exists m :: m in ids && forall x :: x in ids && x != m ==> Before(events, m, x)
  {
    var a := Member(ids);
    var rest := ids - {a};
    if rest == {} {
      assert forall x :: x in ids ==> x == a || x in rest;
    } else {
      OldestExists(events, rest);
      var m :| m in rest && forall x :: x in rest && x != m ==> Before(events, m, x);
      var o := if Before(events, a, m) then a else m;
      assert ids == rest + {a};
      assert forall x :: x in ids && x != o ==> Before(events, o, x);
    }
  }

  ghost function Oldest(events: Events, ids: set<int>): (m: int)
    requires ids <= events.Keys && |ids| > 0
    ensures m in ids && forall x :: x in ids && x != m ==> Before(events, m, x)
  {
    OldestExists(events, ids);
    var m :| m in ids && forall x :: x in ids && x != m ==> Before(events, m, x);
    m
  }

  /** The ids in order of age. */
  ghost function ByAge(events: Events, ids: set<int>): (s: seq<int>)
    requires ids <= events.Keys
    ensures |s| == |ids| && forall x :: x in s <==> x in ids
    decreases |ids|
  {
    if ids == {} then []
    else
      var m := Oldest(events, ids);
      [m] + ByAge(events, ids - {m})
  }

  ghost predicate SortedByAge(events: Events, s: seq<int>) {
    && (forall i :: 0 <= i < |s| ==> s[i] in events)
    && (forall i, j :: 0 <= i < j < |s| ==> Before(events, s[i], s[j]))
  }

  lemma {:induction false} ByAgeSorted(events: Events, ids: set<int>)
    requires ids <= events.Keys
    ensures SortedByAge(events, ByAge(events, ids))
    decreases |ids|
  {
    if ids != {} {
      var m := Oldest(events, ids);
      var tail := ByAge(events, ids - {m});
      ByAgeSorted(events, ids - {m});
      forall j | 0 <= j < |tail| ensures Before(events, m, tail[j]) {
        assert tail[j] in ids - {m};
      }
      assert ByAge(events, ids) == [m] + tail;
    }
  }

  /** The ids SelectHeads returns; a negative LIMIT is an error of the statement. */
  ghost function SelectHeads(events: Events, shard: int, now: int, limit: int): (r: Result<seq<int>, Error>)
  {
    var sorted := ByAge(events, EligibleHeads(events, shard, now));
    if limit < 0 then Failure(NegativeLimit)
    else if limit < |sorted| then Success(sorted[..limit])
    else Success(sorted)
  }

  /**
   The first `limit` eligible heads: sorted by age, only eligible heads, every
   eligible head left out is younger than all that are returned and there is
   no room for it.
   */
  ghost predicate FirstHeads(events: Events, shard: int, now: int, limit: nat, s: seq<int>) {
    var eligible := EligibleHeads(events, shard, now);
    && |s| == (if limit < |eligible| then limit else |eligible|)
    && (forall x :: x in s ==> x in eligible)
    && SortedByAge(events, s)
    && (forall x, y :: x in s && y in eligible && y !in s ==> Before(events, x, y))
  }

  /** SelectHeads returns exactly the first `limit` eligible heads ... */
  lemma SelectHeadsExact(events: Events, shard: int, now: int, limit: nat)
    ensures SelectHeads(events, shard, now, limit).Success?
    ensures FirstHeads(events, shard, now, limit, SelectHeads(events, shard, now, limit).value)
  {
    var sorted := ByAge(events, EligibleHeads(events, shard, now));
    ByAgeSorted(events, EligibleHeads(events, shard, now));
    var s := SelectHeads(events, shard, now, limit).value;
    forall x, y | x in s && y in EligibleHeads(events, shard, now) && y !in s
      ensures Before(events, x, y)
    {
      var i :| 0 <= i < |s| && s[i] == x;
      var j :| 0 <= j < |sorted| && sorted[j] == y;
      assert sorted[i] == x;
      assert s == sorted[..|s|];
    }
  }

  /** ... and no other sequence of ids is that. */
  lemma {:induction false} FirstHeadsUnique(events: Events, shard: int, now: int, limit: nat, s: seq<int>, t: seq<int>)
    requires FirstHeads(events, shard, now, limit, s) && FirstHeads(events, shard, now, limit, t)
    ensures s == t
  {
    var n := 0;
    while n < |s|
      invariant n <= |s| && s[..n] == t[..n]
    {
      if s[n] != t[n] {
        SmallerIsThere(events, shard, now, limit, s, t, n);
        SmallerIsThere(events, shard, now, limit, t, s, n);
        assert false;
      }
      n := n + 1;
    }
    assert s == s[..|s|] && t == t[..|t|];
  }

  lemma SmallerIsThere(events: Events, shard: int, now: int, limit: nat, s: seq<int>, t: seq<int>, n: nat)
    requires FirstHeads(events, shard, now, limit, s) && FirstHeads(events, shard, now, limit, t)
    requires n < |s| && s[..n] == t[..n] && s[n] != t[n]
    ensures s[n] in events && t[n] in events && Before(events, t[n], s[n])
  {
    assert s[n] in s && t[n] in t;
    forall i | 0 <= i < n ensures t[i] != s[n] {
      assert t[i] == t[..n][i] == s[i] && Before(events, s[i], s[n]);
    }
  }

  /** An eligible head, spelled out: in the shard, due, and no row of its stream there comes before it. */
  ghost predicate DueFirst(events: Events, shard: int, now: int, id: int) {
    && id in events && events[id].shard == shard && events[id].nextAttemptAt <= now
    && forall x :: x in events && events[x].shard == shard && events[x].event.stream == events[id].event.stream ==>
         events[x].event.sequence >= events[id].event.sequence
  }

  /**
   Spelled out in columns: the returned ids are due first rows in increasing
   (created_at, outbox_id), every due first row left out has a larger pair, and
   one is left out only if `limit` are returned.
   */
  lemma SelectsSmallestFirst(events: Events, shard: int, now: int, limit: nat)
    ensures var s := SelectHeads(events, shard, now, limit).value;
      && (forall i :: 0 <= i < |s| ==> DueFirst(events, shard, now, s[i]))
      && (forall i, j :: 0 <= i < j < |s| ==>
            || events[s[i]].createdAt < events[s[j]].createdAt
            || (events[s[i]].createdAt == events[s[j]].createdAt && s[i] < s[j]))
      && (forall i, y :: 0 <= i < |s| && DueFirst(events, shard, now, y) && y !in s ==>
            || events[s[i]].createdAt < events[y].createdAt
            || (events[s[i]].createdAt == events[y].createdAt && s[i] < y))
      && |s| <= limit && ((exists y :: DueFirst(events, shard, now, y) && y !in s) ==> |s| == limit)
  {
    SelectHeadsExact(events, shard, now, limit);
    var s := SelectHeads(events, shard, now, limit).value;
    hide SelectHeads;
    var eligible := EligibleHeads(events, shard, now);
    forall y ensures DueFirst(events, shard, now, y) <==> y in eligible {
    }
    forall i | 0 <= i < |s| ensures s[i] in eligible {
      assert s[i] in s;
    }
    forall i, y | 0 <= i < |s| && DueFirst(events, shard, now, y) && y !in s ensures Before(events, s[i], y) {
      assert s[i] in s;
    }
    if |s| < limit {
      AllTaken(events, s, eligible);
    }
  }

  lemma AllTaken(events: Events, s: seq<int>, ids: set<int>)
    requires SortedByAge(events, s) && |s| == |ids| && forall x :: x in s ==> x in ids
    ensures forall x :: x in ids ==> x in s
  {
    forall i, j | 0 <= i < j < |s| ensures s[i] != s[j] {
      assert Before(events, s[i], s[j]);
    }
    DistinctSize(s);
    SubsetSize((set x | x in s), ids);
  }

  /** Under the table's unique constraint a stream has at most one head in a shard. */
  lemma OneHeadPerStream(events: Events, shard: int, now: int, a: int, b: int)
    requires UniqueSlots(events)
    requires a in EligibleHeads(events, shard, now) && b in EligibleHeads(events, shard, now)
    requires events[a].event.stream == events[b].event.stream
    ensures a == b
  {
    assert SameSlot(events[a].event, events[b].event);
  }

  /** Backing off failed rows never changes which rows are heads, so a failed head keeps blocking its stream. */
  lemma BackoffKeepsHeads(events: Events, updates: seq<FailedUpdate>, shard: int, now: int)
    ensures forall id :: IsHead(events, id) <==> IsHead(Backoff(events, updates), id)
    ensures forall id :: id in EligibleHeads(Backoff(events, updates), shard, now) ==> IsHead(events, id)
  {
    forall id ensures IsHead(events, id) <==> IsHead(Backoff(events, updates), id) {
    }
  }

  /** SELECT DISTINCT relay_shard_id ... WHERE next_attempt_at <= now */
  function ListReadyShards(events: Events, now: int): (r: set<int>) {
    set id | id in events && events[id].nextAttemptAt <= now :: events[id].shard
  }

  /** An eligible row of the shard that some smaller, still backing-off row of its stream blocks. */
  ghost predicate HiddenBehindHead(events: Events, shard: int, now: int, id: int) {
    && id in events && events[id].shard == shard && events[id].nextAttemptAt <= now
    && exists head :: head in events && events[head].shard == shard
                      && events[head].event.stream == events[id].event.stream
                      && events[head].event.sequence < events[id].event.sequence
                      && IsHead(events, head) && events[head].nextAttemptAt > now
  }

  /** The rows that come before `id` in its stream. */
  function Earlier(events: Events, id: int): set<int>
    requires id in events
  {
    set x | x in events && events[x].shard == events[id].shard && events[x].event.stream == events[id].event.stream
            && events[x].event.sequence < events[id].event.sequence
  }

  /** Every row has a head at or before it. */
  lemma {:induction false} HeadBelow(events: Events, id: int) returns (head: int)
    requires id in events
    ensures IsHead(events, head) && events[head].shard == events[id].shard
    ensures events[head].event.stream == events[id].event.stream
    ensures events[head].event.sequence <= events[id].event.sequence
    decreases Earlier(events, id)
  {
    head := id;
    if !IsHead(events, id) {
      var x :| x in events && events[x].shard == events[id].shard && events[x].event.stream == events[id].event.stream
               && !(events[id].event.sequence <= events[x].event.sequence);
      assert x in Earlier(events, id) && x !in Earlier(events, x);
      head := HeadBelow(events, x);
    }
  }

  /**
   A listed shard is one for which SelectHeads would return something, or one
   whose only eligible rows are hidden behind backing-off heads. The comment on
   ListReadyShards promises the first half only.
   */
  lemma ReadyShardsExact(events: Events, shard: int, now: int)
    ensures shard in ListReadyShards(events, now) <==>
      EligibleHeads(events, shard, now) != {} || exists id :: HiddenBehindHead(events, shard, now, id)
  {
    if shard in ListReadyShards(events, now) && EligibleHeads(events, shard, now) == {} {
      var id :| id in events && events[id].nextAttemptAt <= now && events[id].shard == shard;
      var head := HeadBelow(events, id);
      assert head !in EligibleHeads(events, shard, now);
      assert events[head].event.sequence == events[id].event.sequence ==> id in EligibleHeads(events, shard, now);
      assert HiddenBehindHead(events, shard, now, id);
    }
    if h :| h in EligibleHeads(events, shard, now) {
      assert events[h].shard in ListReadyShards(events, now);
    }
  }

  /** A shard that is listed although SelectHeads returns nothing for it: its head backs off, the next row does not. */
  lemma ReadyShardWithoutHead(content: Content)
    ensures var events := map[10 := Record(Event(10, "s", 1, content), 0, 1, 100, 1),
                              11 := Record(Event(11, "s", 2, content), 0, 0, 0, 1)];
      0 in ListReadyShards(events, 50) && EligibleHeads(events, 0, 50) == {}
  {
    var events := map[10 := Record(Event(10, "s", 1, content), 0, 1, 100, 1),
                      11 := Record(Event(11, "s", 2, content), 0, 0, 0, 1)];
    assert events[11].shard in ListReadyShards(events, 50);
    assert events[11].event.sequence > events[10].event.sequence && events[10].shard == events[11].shard;
    assert !IsHead(events, 11);
  }
}
