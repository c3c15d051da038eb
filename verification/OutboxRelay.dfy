/** The body of the relay's batch loop: from selected heads to the acknowledging transaction. */
module OutboxRelay {
  import opened Wrappers
  import opened Outbox
  import opened OutboxProtocol
  import opened OutboxDrain
  import opened KafkaPublisher

  function Acks(results: seq<PublishResult>): seq<bool> {
    seq(|results|, i requires 0 <= i < |results| => results[i].err.None?)
  }

  /** Sorts the results into delivered ids and backoff updates. `delays` are the backoffs drawn for each row. */
  method SplitResults(heads: seq<Record>, results: seq<PublishResult>, now: int, delays: seq<int>)
    returns (delivered: seq<int>, failed: seq<FailedUpdate>)
    requires |heads| == |results| == |delays|
    ensures delivered == Delivered(heads, Acks(results))
    ensures failed == Failed(heads, Acks(results), now, delays)
  {
    delivered, failed := [], [];
    var acks := Acks(results);
    for n := 0 to |results|
      invariant delivered == Delivered(heads[..n], acks[..n])
      invariant failed == Failed(heads[..n], acks[..n], now, delays[..n])
    {
      assert heads[..n + 1][..n] == heads[..n] && acks[..n + 1][..n] == acks[..n];
      assert delays[..n + 1][..n] == delays[..n];
      if results[n].err.Some? {
        failed := failed + [FailedUpdate(heads[n].event.id, heads[n].attempts + 1, now + delays[n])];
      } else {
        delivered := delivered + [heads[n].event.id];
      }
    }
    assert heads[..|heads|] == heads && acks[..|acks|] == acks && delays[..|delays|] == delays;
  }

  /** The acknowledging transaction of one batch. */
  method SettleBatch(events: Events, heads: seq<Record>, results: seq<PublishResult>, now: int, delays: seq<int>)
    returns (r: Events)
    requires |heads| == |results| == |delays|
    ensures r == Settled(events, heads, Acks(results), now, delays)
  {
    var delivered, failed := SplitResults(heads, results, now, delays);
    r := UpdateFailed(DeleteDelivered(events, delivered), failed);
  }

  function ItemsOf(heads: seq<Record>): seq<Item> {
    seq(|heads|, i requires 0 <= i < |heads| =>
      Item(heads[i].event.id, heads[i].event.content.key, heads[i].event.content.payload))
  }

  /** No row is in the batch twice. */
  ghost predicate DistinctHeads(heads: seq<Record>) {
    forall i, j :: 0 <= i < j < |heads| ==> heads[i].event.id != heads[j].event.id
  }

  /**
   What settling a batch does to the table: delivered rows go, every failed row
   counts one more attempt and waits for its delay, every other row stays.
   */
  ghost predicate SettledTo(before: Events, heads: seq<Record>, acks: seq<bool>, now: int, delays: seq<int>,
                            after: Events)
    requires |heads| == |acks| == |delays|
  {
    && (forall id :: id in after ==> id in before)
    && (forall id :: id in before && (forall i :: 0 <= i < |heads| ==> heads[i].event.id != id) ==>
          id in after && after[id] == before[id])
    && (forall i :: 0 <= i < |heads| && acks[i] ==> heads[i].event.id !in after)
    && (forall i :: 0 <= i < |heads| && !acks[i] && heads[i].event.id in before ==>
          && heads[i].event.id in after
          && after[heads[i].event.id] == BackedOffRow(before[heads[i].event.id], heads[i], now, delays[i]))
  }

  /** One more attempt than the head was selected with, and not before its delay is over. */
  function BackedOffRow(row: Record, head: Record, now: int, delay: int): Record {
    row.(attempts := ToInt32(head.attempts + 1), nextAttemptAt := now + delay)
  }

  function UpdateFor(head: Record, now: int, delay: int): FailedUpdate {
    FailedUpdate(head.event.id, head.attempts + 1, now + delay)
  }

  /** Every failed head has its update ... */
  lemma {:induction false} FailedHas(heads: seq<Record>, acks: seq<bool>, now: int, delays: seq<int>, i: nat)
    returns (k: nat)
    requires |heads| == |acks| == |delays| && i < |heads| && !acks[i]
    ensures var failed := Failed(heads, acks, now, delays);
      k < |failed| && failed[k] == UpdateFor(heads[i], now, delays[i])
    decreases |heads|
  {
    var n := |heads| - 1;
    var rest := Failed(heads[..n], acks[..n], now, delays[..n]);
    k := |rest|;
    if i < n {
      k := FailedHas(heads[..n], acks[..n], now, delays[..n], i);
    }
  }

  /** ... and every update is that of a failed head. */
  lemma {:induction false} FailedFrom(heads: seq<Record>, acks: seq<bool>, now: int, delays: seq<int>, k: nat)
    returns (i: nat)
    requires |heads| == |acks| == |delays| && k < |Failed(heads, acks, now, delays)|
    ensures i < |heads| && !acks[i] && Failed(heads, acks, now, delays)[k] == UpdateFor(heads[i], now, delays[i])
    decreases |heads|
  {
    var n := |heads| - 1;
    i := n;
    if k < |Failed(heads[..n], acks[..n], now, delays[..n])| {
      i := FailedFrom(heads[..n], acks[..n], now, delays[..n], k);
    }
  }

  lemma {:induction false} FailedDistinct(heads: seq<Record>, acks: seq<bool>, now: int, delays: seq<int>)
    requires |heads| == |acks| == |delays| && DistinctHeads(heads)
    ensures DistinctIds(Failed(heads, acks, now, delays))
    decreases |heads|
  {
    if heads != [] {
      var n := |heads| - 1;
      FailedDistinct(heads[..n], acks[..n], now, delays[..n]);
      var rest := Failed(heads[..n], acks[..n], now, delays[..n]);
      forall k | 0 <= k < |rest| ensures rest[k].id != heads[n].event.id {
        var i := FailedFrom(heads[..n], acks[..n], now, delays[..n], k);
      }
      assert DistinctIds(rest + [UpdateFor(heads[n], now, delays[n])]);
    }
  }

  lemma SettledExact(events: Events, heads: seq<Record>, acks: seq<bool>, now: int, delays: seq<int>)
    requires |heads| == |acks| == |delays| && DistinctHeads(heads)
    ensures SettledTo(events, heads, acks, now, delays, Settled(events, heads, acks, now, delays))
  {
    var delivered, failed := Delivered(heads, acks), Failed(heads, acks, now, delays);
    var kept := DeleteDelivered(events, delivered);
    FailedDistinct(heads, acks, now, delays);
    BackoffExact(kept, failed);
    var after := Backoff(kept, failed);
    hide Backoff, Failed, DistinctIds;
    forall id | id in events && (forall i :: 0 <= i < |heads| ==> heads[i].event.id != id)
      ensures id in after && after[id] == events[id]
    {
      forall k | 0 <= k < |failed| ensures failed[k].id != id {
        var i := FailedFrom(heads, acks, now, delays, k);
      }
      OtherRowKept(kept, failed, after, id);
    }
    forall i | 0 <= i < |heads| && !acks[i] && heads[i].event.id in events
      ensures heads[i].event.id in after
      ensures after[heads[i].event.id] == BackedOffRow(events[heads[i].event.id], heads[i], now, delays[i])
    {
      var k := FailedHas(heads, acks, now, delays, i);
      assert heads[i].event.id !in delivered;
    }
  }

  lemma OtherRowKept(kept: Events, failed: seq<FailedUpdate>, after: Events, id: int)
    requires BackedOff(kept, failed, after) && id in kept && forall k :: 0 <= k < |failed| ==> failed[k].id != id
    ensures id in after && after[id] == kept[id]
  {
  }

  /**
   One batch: publish every head with its own key and payload, delete exactly
   those whose own record's last report says written, back off all others.
   */
  method ProcessBatch(topic: string, events: Events, heads: seq<Record>,
                      produce: seq<ProducedRecord> -> seq<ProduceResult>, placed: ProducedRecord -> Placement,
                      now: int, delays: seq<int>)
    returns (r: Events, acks: seq<bool>, ghost records: seq<ProducedRecord>)
    requires |delays| == |heads|
    ensures |acks| == |records| == |heads| && r == Settled(events, heads, acks, now, delays)
    ensures DistinctHeads(heads) ==> SettledTo(events, heads, acks, now, delays, r)
    ensures forall i :: 0 <= i < |heads| ==>
      && records[i].topic == topic && records[i].key == heads[i].event.content.key
      && records[i].value == heads[i].event.content.payload
    ensures forall i :: 0 <= i < |heads| ==> (acks[i] <==> Written(produce(records), records[i]))
    // If the broker reports success only for what it appended, the protocol's collect step is allowed.
    ensures forall log: seq<Event> ::
      (forall i :: 0 <= i < |heads| && Written(produce(records), records[i]) ==> heads[i].event in log) ==>
      Truthful(log, heads, acks)
  {
    var items := ItemsOf(heads);
    var results;
    results, records := PublishBatchWithResults(topic, items, produce, placed);
    acks := Acks(results);
    r := SettleBatch(events, heads, results, now, delays);
    if DistinctHeads(heads) {
      SettledExact(events, heads, acks, now, delays);
    }
  }

  // ------------------------------------------------- a round with failures

  /** A round in which the broker appends `appended` and answers `acks`. */
  ghost function FaultyRound(s: State, r: nat, shard: int, now: int, limit: nat, appended: seq<Event>, acks: seq<bool>,
                             delays: seq<int>): State
  {
    var s3 := Run(SendStep(SelectStep(s, r, shard, now, limit), r), AppendsOf(appended));
    SettleStep(CollectStep(s3, r, acks), r, now, delays)
  }

  lemma SelectedDistinct(s: State, shard: int, now: int, limit: nat, ids: seq<int>)
    requires Inv(s) && SelectHeads(s.events, shard, now, limit) == Success(ids)
    ensures forall i :: 0 <= i < |ids| ==> ids[i] in s.events
    ensures DistinctHeads(RecordsOf(s.events, ids))
  {
    SelectHeadsExact(s.events, shard, now, limit);
    SelectedRows(s, shard, now, limit, ids);
    forall i, j | 0 <= i < j < |ids| ensures ids[i] != ids[j] {
      assert Before(s.events, ids[i], ids[j]);
    }
  }

  lemma BatchCollected(s: State, r: nat, heads: seq<Record>, appended: seq<Event>, acks: seq<bool>)
    requires r in s.relays && s.relays[r] == Selected(heads)
    requires forall i :: 0 <= i < |appended| ==> appended[i] in EventsOf(heads)
    requires Truthful(s.log + appended, heads, acks)
    ensures CollectStep(Run(SendStep(s, r), AppendsOf(appended)), r, acks) ==
            s.(relays := s.relays[r := Answered(heads, acks)], inFlight := s.inFlight + EventsOf(heads),
               log := s.log + appended)
  {
    hide Truthful, EventsOf;
    var s2 := SendStep(s, r);
    AllAppended(s2, appended);
    assert s2.relays[r := Answered(heads, acks)] == s.relays[r := Answered(heads, acks)];
  }

  /**
   A round with any mix of outcomes, from any reachable state: the log grows by
   what the broker appended, delivered rows go, failed rows are backed off, and
   nothing else changes.
   */
  lemma FaultyRoundSettles(s: State, r: nat, shard: int, now: int, limit: nat, ids: seq<int>, appended: seq<Event>,
                           acks: seq<bool>, delays: seq<int>)
    requires Inv(s) && r !in s.relays && SelectHeads(s.events, shard, now, limit) == Success(ids)
    requires forall i :: 0 <= i < |ids| ==> ids[i] in s.events
    requires |acks| == |delays| == |ids|
    requires forall i :: 0 <= i < |appended| ==> appended[i] in EventsOf(RecordsOf(s.events, ids))
    requires Truthful(s.log + appended, RecordsOf(s.events, ids), acks)
    ensures var s' := FaultyRound(s, r, shard, now, limit, appended, acks, delays);
      && s'.log == s.log + appended
      && SettledTo(s.events, RecordsOf(s.events, ids), acks, now, delays, s'.events)
      && s'.streams == s.streams && s'.txs == s.txs && s'.relays == s.relays
  {
    hide Inv, SelectHeads, SelectStep, SendStep, CollectStep, Run, Truthful, EventsOf, Settled, SettledTo;
    var heads := RecordsOf(s.events, ids);
    SelectedDistinct(s, shard, now, limit, ids);
    RowsSelected(s, r, shard, now, limit, ids);
    var s1 := SelectStep(s, r, shard, now, limit);
    BatchCollected(s1, r, heads, appended, acks);
    SettledExact(s.events, heads, acks, now, delays);
    assert s1.relays[r := Answered(heads, acks)] - {r} == s.relays;
  }
}
