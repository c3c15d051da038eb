/**
 What whole rounds achieve: an undisturbed writer transaction, an undisturbed
 relay round, and repeated relay rounds on a shard whose writers are quiet.
 */
module OutboxDrain {
  import opened Wrappers
  import opened Sets
  import opened Outbox
  import opened OutboxProtocol

  // ------------------------------------------------- one undisturbed writer

  /** Begin, EnsureStream, ReserveSequences, InsertBatch, Commit. */
  ghost function Enqueue(s: State, t: nat, stream: string, shard: int, drafts: seq<Draft>, now: int): State
    requires t !in s.txs
  {
    var s3 := ReserveState(EnsureState(BeginStep(s, t), t, stream, shard), t, stream, |drafts|);
    Step(Step(s3, Insert(t, drafts, now)), Commit(t))
  }

  /** The range an enqueue of `count` rows reserves. */
  function NextRange(s: State, stream: string, shard: int, count: nat): Owed {
    Owed(stream, ReservedRange(Base(s.streams, stream) + 1, Base(s.streams, stream) + count,
                               if stream in s.streams then s.streams[stream].shard else shard))
  }

  /** The state after Begin, EnsureStream and ReserveSequences. */
  ghost function Reserved(s: State, t: nat, owed: Owed): State {
    var row := StreamRow(owed.range.shard, owed.range.last);
    s.(txs := s.txs[t := Tx(map[owed.stream := row], map[], Some(owed), map[])])
  }

  /** The state after Begin and EnsureStream: only a missing stream row becomes the transaction's own. */
  ghost function Ensured(s: State, t: nat, stream: string, shard: int): State {
    var own := if stream in s.streams then map[] else map[stream := StreamRow(shard, 0)];
    s.(txs := s.txs[t := Tx(own, map[], None, map[])])
  }

  /** Replacing an open transaction twice is replacing it once. */
  lemma Replaced(s: State, t: nat, tx: Tx, tx': Tx)
    ensures s.(txs := s.txs[t := tx]).(txs := s.txs[t := tx][t := tx']) == s.(txs := s.txs[t := tx'])
  {
    assert s.txs[t := tx][t := tx'] == s.txs[t := tx'];
  }

  lemma StillFree(s: State, t: nat, tx: Tx, stream: string)
    requires t !in s.txs && !Locked(s, t, stream)
    ensures !Locked(s.(txs := s.txs[t := tx]), t, stream)
  {
  }

  lemma EnqueueEnsures(s: State, t: nat, stream: string, shard: int)
    requires t !in s.txs && !Locked(s, t, stream)
    ensures EnsureState(BeginStep(s, t), t, stream, shard) == Ensured(s, t, stream, shard)
  {
    hide Locked;
    var tx := Tx(map[], map[], None, map[]);
    StillFree(s, t, tx, stream);
    assert s.streams + tx.streams == s.streams;
    var tx' := Ensured(s, t, stream, shard).txs[t];
    assert EnsureStep(BeginStep(s, t), t, tx, stream, shard) == tx';
    Replaced(s, t, tx, tx');
  }

  lemma EnqueueReserves(s: State, t: nat, stream: string, shard: int, count: nat)
    requires t !in s.txs && !Locked(s, t, stream) && count > 0
    ensures ReserveState(Ensured(s, t, stream, shard), t, stream, count)
         == Reserved(s, t, NextRange(s, stream, shard, count))
  {
    hide Locked;
    var owed := NextRange(s, stream, shard, count);
    var tx, tx' := Ensured(s, t, stream, shard).txs[t], Reserved(s, t, owed).txs[t];
    StillFree(s, t, tx, stream);
    var view := s.streams + tx.streams;
    assert stream in view && view[stream] == StreamRow(owed.range.shard, Base(s.streams, stream));
    var row := StreamRow(owed.range.shard, owed.range.last);
    assert tx.streams[stream := row] == map[stream := row];
    assert ReserveStep(Ensured(s, t, stream, shard), t, tx, stream, count) == tx';
    Replaced(s, t, tx, tx');
  }

  lemma CommitOne(s: State, t: nat, tx: Tx, drafts: seq<Draft>)
    requires t !in s.txs && tx.owed.None?
    ensures var s' := Step(InsertState(s, t, tx, drafts), Commit(t));
      && s'.streams == s.streams + tx.streams && s'.events == s.events + tx.events
      && s'.txs == s.txs && s'.relays == s.relays && s'.log == s.log
  {
    assert s.txs[t := tx] - {t} == s.txs;
  }

  lemma CommitFilled(s: State, t: nat, owed: Owed, drafts: seq<Draft>, now: int)
    requires t !in s.txs && CanInsert(Reserved(s, t, owed), Reserved(s, t, owed).txs[t], drafts, now)
    ensures var s' := Step(Step(Reserved(s, t, owed), Insert(t, drafts, now)), Commit(t));
      && s'.streams == s.streams[owed.stream := StreamRow(owed.range.shard, owed.range.last)]
      && s'.txs == s.txs && s'.relays == s.relays && s'.log == s.log
      && Inserted(s.events, BuildRecords(owed, drafts, now)) == Success(s'.events)
  {
    hide Fill, Inserted, BuildRecords, FreshIds, EnsureStep, ReserveStep, SelectHeads, Settled;
    var s3 := Reserved(s, t, owed);
    var tx := s3.txs[t];
    var tx' := Fill(tx, owed, drafts, now);
    assert s.events + tx.events == s.events;
    FillStreams(tx, owed, drafts, now);
    FillAfter(s.events, tx, owed, drafts, now);
    var s4 := Step(s3, Insert(t, drafts, now));
    assert s4 == InsertState(s, t, tx', drafts) by {
      assert s3.txs[t := tx'] == s.txs[t := tx'];
    }
    CommitOne(s, t, tx', drafts);
    assert s.streams + tx'.streams == s.streams[owed.stream := StreamRow(owed.range.shard, owed.range.last)];
  }

  /** An enqueue on a free stream commits one row per draft, on the next sequences, in the stored shard. */
  lemma EnqueueCommits(s: State, t: nat, stream: string, shard: int, drafts: seq<Draft>, now: int)
    requires Inv(s) && t !in s.txs && !Locked(s, t, stream) && drafts != [] && FreshIds(s.ids, drafts)
    ensures var s' := Enqueue(s, t, stream, shard, drafts, now);
      var owed := NextRange(s, stream, shard, |drafts|);
      && s'.streams == s.streams[stream := StreamRow(owed.range.shard, owed.range.last)]
      && s'.txs == s.txs && s'.relays == s.relays && s'.log == s.log
      && Inserted(s.events, BuildRecords(owed, drafts, now)) == Success(s'.events)
  {
    var owed := NextRange(s, stream, shard, |drafts|);
    EnqueueEnsures(s, t, stream, shard);
    EnqueueReserves(s, t, stream, shard, |drafts|);
    BeginKeeps(s, t);
    EnsureKeeps(BeginStep(s, t), t, stream, shard);
    ReserveKeeps(Ensured(s, t, stream, shard), t, stream, |drafts|);
    InsertNeverConflicts(Reserved(s, t, owed), t, drafts, now);
    CommitFilled(s, t, owed, drafts, now);
  }

  lemma {:induction false} BuildRecordsAt(owed: Owed, drafts: seq<Draft>, now: int, i: nat)
    requires i < |drafts|
    ensures |BuildRecords(owed, drafts, now)| == |drafts|
    ensures var event := Event(drafts[i].id, owed.stream, owed.range.first + i, drafts[i].content);
      BuildRecords(owed, drafts, now)[i] == Record(event, owed.range.shard, 0, 0, now)
    decreases |drafts|
  {
    if i > 0 {
      BuildRecordsAt(Rest(owed), drafts[1..], now, i - 1);
    } else if |drafts| > 1 {
      BuildRecordsAt(Rest(owed), drafts[1..], now, 0);
    }
  }

  /**
   The committed rows of an enqueue, one by one: each draft's own id and
   contents on its own sequence, in the stored shard, due at once, with no
   attempt and the given creation time; the rows that were there stay.
   */
  lemma EnqueueRows(s: State, t: nat, stream: string, shard: int, drafts: seq<Draft>, now: int, i: nat)
    requires Inv(s) && t !in s.txs && !Locked(s, t, stream) && FreshIds(s.ids, drafts) && i < |drafts|
    ensures var after := Enqueue(s, t, stream, shard, drafts, now).events;
      var stored := if stream in s.streams then s.streams[stream].shard else shard;
      && drafts[i].id in after
      && after[drafts[i].id] ==
         Record(Event(drafts[i].id, stream, Base(s.streams, stream) + 1 + i, drafts[i].content), stored, 0, 0, now)
      && (forall id :: id in s.events ==> id in after && after[id] == s.events[id])
      && |after| == |s.events| + |drafts|
  {
    hide Inv, Locked, FreshIds, Enqueue, Inserted, BuildRecords, UniqueSlots;
    EnqueueCommits(s, t, stream, shard, drafts, now);
    RowsHaveOwnSlots(s);
    BatchRows(s.events, NextRange(s, stream, shard, |drafts|), drafts, now, i);
  }

  lemma BatchRows(events: Events, owed: Owed, drafts: seq<Draft>, now: int, i: nat)
    requires UniqueSlots(events) && Inserted(events, BuildRecords(owed, drafts, now)).Success? && i < |drafts|
    ensures var after := Inserted(events, BuildRecords(owed, drafts, now)).value;
      && drafts[i].id in after
      && after[drafts[i].id] ==
         Record(Event(drafts[i].id, owed.stream, owed.range.first + i, drafts[i].content), owed.range.shard, 0, 0, now)
      && (forall id :: id in events ==> id in after && after[id] == events[id])
      && |after| == |events| + |drafts|
  {
    var records := BuildRecords(owed, drafts, now);
    hide Inserted, BuildRecords, UniqueSlots;
    InsertedExact(events, records);
    BuildRecordsAt(owed, drafts, now, i);
    InsertedSize(events, records);
    assert records[i].event.id == drafts[i].id;
  }

  lemma {:induction false} InsertedSize(events: Events, records: seq<Record>)
    requires Inserted(events, records).Success?
    ensures |Inserted(events, records).value| == |events| + |records|
    decreases |records|
  {
    if records != [] {
      InsertedSize(events[records[0].event.id := records[0]], records[1..]);
    }
  }

  lemma {:induction false} FillStreams(tx: Tx, owed: Owed, drafts: seq<Draft>, now: int)
    ensures Fill(tx, owed, drafts, now).streams == tx.streams && Fill(tx, owed, drafts, now).owed.None?
    decreases |drafts|
  {
    if drafts != [] {
      FillStreams(AddRow(tx, owed, BuildRecord(owed, drafts[0], now)), Rest(owed), drafts[1..], now);
    }
  }

  /** Committing a filled transaction on top of a table is inserting its batch into the table. */
  lemma {:induction false} FillAfter(table: Events, tx: Tx, owed: Owed, drafts: seq<Draft>, now: int)
    requires Inserted(table + tx.events, BuildRecords(owed, drafts, now)).Success?
    ensures table + Fill(tx, owed, drafts, now).events ==
            Inserted(table + tx.events, BuildRecords(owed, drafts, now)).value
    decreases |drafts|
  {
    if drafts != [] {
      var r := BuildRecord(owed, drafts[0], now);
      assert BuildRecords(owed, drafts, now)[1..] == BuildRecords(Rest(owed), drafts[1..], now);
      assert (table + tx.events)[r.event.id := r] == table + tx.events[r.event.id := r];
      FillAfter(table, AddRow(tx, owed, r), Rest(owed), drafts[1..], now);
    }
  }

  // -------------------------------------------------- one undisturbed relay

  function AllTrue(n: nat): seq<bool> {
    seq(n, i => true)
  }

  function MessagesOf(heads: seq<Record>): seq<Event> {
    seq(|heads|, i requires 0 <= i < |heads| => heads[i].event)
  }

  function AppendsOf(events: seq<Event>): seq<Action> {
    seq(|events|, i requires 0 <= i < |events| => Append(events[i]))
  }

  /** Select, publish, every record appended and acknowledged, settle. */
  ghost function RelayRound(s: State, r: nat, shard: int, now: int, limit: nat, delays: seq<int>): State {
    var s1 := SelectStep(s, r, shard, now, limit);
    var heads := if r in s1.relays then s1.relays[r].heads else [];
    var s3 := Run(SendStep(s1, r), AppendsOf(MessagesOf(heads)));
    SettleStep(CollectStep(s3, r, AllTrue(|heads|)), r, now, delays)
  }

  lemma {:induction false} AllAppended(s: State, events: seq<Event>)
    requires forall i :: 0 <= i < |events| ==> events[i] in s.inFlight
    ensures Run(s, AppendsOf(events)) == s.(log := s.log + events)
    decreases |events|
  {
    if events == [] {
      assert s.log + events == s.log;
    } else {
      var front, e := events[..|events| - 1], events[|events| - 1];
      AllAppended(s, front);
      assert AppendsOf(events)[..|events| - 1] == AppendsOf(front);
      assert s.log + events == s.log + front + [e];
    }
  }

  lemma {:induction false} AllDelivered(heads: seq<Record>, now: int, delays: seq<int>)
    requires |delays| == |heads|
    ensures Failed(heads, AllTrue(|heads|), now, delays) == []
    decreases |heads|
  {
    if heads != [] {
      assert AllTrue(|heads|)[..|heads| - 1] == AllTrue(|heads| - 1);
      AllDelivered(heads[..|heads| - 1], now, delays[..|heads| - 1]);
    }
  }

  /** Settling a fully acknowledged batch deletes its rows and changes no other. */
  lemma SettledAll(events: Events, ids: seq<int>, now: int, delays: seq<int>)
    requires forall i :: 0 <= i < |ids| ==> ids[i] in events && events[ids[i]].event.id == ids[i]
    requires |delays| == |ids|
    ensures Settled(events, RecordsOf(events, ids), AllTrue(|ids|), now, delays) == DeleteDelivered(events, ids)
  {
    var heads := RecordsOf(events, ids);
    AllDelivered(heads, now, delays);
    forall id ensures id in Delivered(heads, AllTrue(|ids|)) <==> id in ids {
      if id in ids {
        var i :| 0 <= i < |ids| && ids[i] == id;
        assert heads[i].event.id == id;
      }
    }
  }

  /** Publishing a selected batch: sent, appended, acknowledged. */
  lemma BatchAnswered(s: State, r: nat, heads: seq<Record>)
    requires r in s.relays && s.relays[r] == Selected(heads)
    ensures CollectStep(Run(SendStep(s, r), AppendsOf(MessagesOf(heads))), r, AllTrue(|heads|))
         == s.(relays := s.relays[r := Answered(heads, AllTrue(|heads|))],
               inFlight := s.inFlight + EventsOf(heads), log := s.log + MessagesOf(heads))
  {
    var s2 := SendStep(s, r);
    AllAppended(s2, MessagesOf(heads));
    var s3 := Run(s2, AppendsOf(MessagesOf(heads)));
    forall i | 0 <= i < |heads| ensures heads[i].event in s3.log {
      assert MessagesOf(heads)[i] == heads[i].event;
    }
    assert s3.relays[r := Answered(heads, AllTrue(|heads|))] == s.relays[r := Answered(heads, AllTrue(|heads|))];
  }

  lemma BatchSettled(s: State, r: nat, ids: seq<int>, now: int, delays: seq<int>)
    requires forall i :: 0 <= i < |ids| ==> ids[i] in s.events && s.events[ids[i]].event.id == ids[i]
    requires r in s.relays && s.relays[r] == Answered(RecordsOf(s.events, ids), AllTrue(|ids|)) && |delays| == |ids|
    ensures SettleStep(s, r, now, delays) == s.(events := DeleteDelivered(s.events, ids), relays := s.relays - {r})
  {
    SettledAll(s.events, ids, now, delays);
  }

  /**
   An undisturbed round appends the selected heads in the order they were
   selected, removes exactly their rows, and leaves all else as it was.
   */
  lemma RelayRoundDelivers(s: State, r: nat, shard: int, now: int, limit: nat, ids: seq<int>, delays: seq<int>)
    requires Inv(s) && r !in s.relays
    requires SelectHeads(s.events, shard, now, limit) == Success(ids) && |delays| == |ids|
    ensures forall i :: 0 <= i < |ids| ==> ids[i] in s.events
    ensures var s' := RelayRound(s, r, shard, now, limit, delays);
      && s'.log == s.log + MessagesOf(RecordsOf(s.events, ids))
      && s'.events == DeleteDelivered(s.events, ids)
      && s'.streams == s.streams && s'.txs == s.txs && s'.relays == s.relays
  {
    hide Inv, SelectHeads, RecordsOf, EventsOf, MessagesOf, AllTrue, Run, SelectStep, SendStep, CollectStep, SettleStep;
    SelectedRows(s, shard, now, limit, ids);
    var heads := RecordsOf(s.events, ids);
    var s1 := SelectStep(s, r, shard, now, limit);
    RowsSelected(s, r, shard, now, limit, ids);
    BatchAnswered(s1, r, heads);
    var s4 := CollectStep(Run(SendStep(s1, r), AppendsOf(MessagesOf(heads))), r, AllTrue(|heads|));
    BatchSettled(s4, r, ids, now, delays);
    assert s4.relays - {r} == s.relays;
  }

  lemma SelectedRows(s: State, shard: int, now: int, limit: nat, ids: seq<int>)
    requires Inv(s) && SelectHeads(s.events, shard, now, limit) == Success(ids)
    ensures forall i :: 0 <= i < |ids| ==> ids[i] in s.events && s.events[ids[i]].event.id == ids[i]
    ensures |RecordsOf(s.events, ids)| == |ids|
  {
    SelectedFine(s, shard, now, limit);
  }

  lemma RowsSelected(s: State, r: nat, shard: int, now: int, limit: nat, ids: seq<int>)
    requires r !in s.relays && SelectHeads(s.events, shard, now, limit) == Success(ids)
    requires forall i :: 0 <= i < |ids| ==> ids[i] in s.events
    ensures SelectStep(s, r, shard, now, limit) == s.(relays := s.relays[r := Selected(RecordsOf(s.events, ids))])
  {
    hide SelectHeads;
  }

  lemma RelayRoundKeepsInv(s: State, r: nat, shard: int, now: int, limit: nat, delays: seq<int>)
    requires Inv(s)
    ensures Inv(RelayRound(s, r, shard, now, limit, delays))
  {
    hide Inv, SelectStep, SendStep, CollectStep, SettleStep, Run;
    SelectKeeps(s, r, shard, now, limit);
    var s1 := SelectStep(s, r, shard, now, limit);
    var heads := if r in s1.relays then s1.relays[r].heads else [];
    SendKeeps(s1, r);
    RunKeepsInv(SendStep(s1, r), AppendsOf(MessagesOf(heads)));
    var s3 := Run(SendStep(s1, r), AppendsOf(MessagesOf(heads)));
    CollectKeeps(s3, r, AllTrue(|heads|));
    SettleKeeps(CollectStep(s3, r, AllTrue(|heads|)), r, now, delays);
  }

  // ------------------------------------------------------------ repeated rounds

  /** The table after a round in which everything selected was delivered. */
  ghost function Round(events: Events, shard: int, now: int, limit: nat): Events {
    DeleteDelivered(events, SelectHeads(events, shard, now, limit).value)
  }

  ghost function Rounds(events: Events, shard: int, now: int, limit: nat, n: nat): Events {
    if n == 0 then events else Rounds(Round(events, shard, now, limit), shard, now, limit, n - 1)
  }

  function Waiting(events: Events, shard: int): set<int> {
    set id | id in events && events[id].shard == shard
  }

  function StreamRows(events: Events, shard: int, stream: string): set<int> {
    set id | id in events && events[id].shard == shard && events[id].event.stream == stream
  }

  function LiveStreams(events: Events, shard: int): set<string> {
    set id | id in events && events[id].shard == shard :: events[id].event.stream
  }

  ghost predicate AllEligible(events: Events, shard: int, now: int) {
    forall id :: id in events && events[id].shard == shard ==> events[id].nextAttemptAt <= now
  }

  /** With every row eligible, the eligible heads are one per non-empty stream. */
  lemma HeadsAreStreams(events: Events, shard: int, now: int)
    requires UniqueSlots(events) && AllEligible(events, shard, now)
    ensures |EligibleHeads(events, shard, now)| == |LiveStreams(events, shard)|
  {
    var heads := EligibleHeads(events, shard, now);
    forall a, b | a in heads && b in heads && events[a].event.stream == events[b].event.stream ensures a == b {
      OneHeadPerStream(events, shard, now, a, b);
    }
    var f := (id: int) => if id in events then events[id].event.stream else "";
    forall k | k in LiveStreams(events, shard) ensures exists h :: h in heads && f(h) == k {
      var id :| id in events && events[id].shard == shard && events[id].event.stream == k;
      var head := HeadBelow(events, id);
      assert head in heads && f(head) == k;
    }
    ImageSize(heads, f, LiveStreams(events, shard));
  }

  /** A round on a shard removes min(limit, non-empty streams) rows of it and none of another shard. */
  lemma RoundRemoves(events: Events, shard: int, now: int, limit: nat)
    requires UniqueSlots(events) && AllEligible(events, shard, now)
    ensures var after := Round(events, shard, now, limit);
      var live := |LiveStreams(events, shard)|;
      && |Waiting(after, shard)| == |Waiting(events, shard)| - (if limit < live then limit else live)
      && (forall id :: id in events && events[id].shard != shard ==> id in after)
  {
    SelectHeadsExact(events, shard, now, limit);
    HeadsAreStreams(events, shard, now);
    HeadsRemoved(events, shard, now, limit, SelectHeads(events, shard, now, limit).value);
  }

  lemma HeadsRemoved(events: Events, shard: int, now: int, limit: nat, ids: seq<int>)
    requires FirstHeads(events, shard, now, limit, ids)
    ensures |Waiting(DeleteDelivered(events, ids), shard)| == |Waiting(events, shard)| - |ids|
    ensures forall id :: id in events && events[id].shard != shard ==> id in DeleteDelivered(events, ids)
  {
    forall i, j | 0 <= i < j < |ids| ensures ids[i] != ids[j] {
      assert Before(events, ids[i], ids[j]);
    }
    DistinctSize(ids);
    var gone := set x | x in ids;
    assert Waiting(DeleteDelivered(events, ids), shard) == Waiting(events, shard) - gone;
    SubsetSize(gone, Waiting(events, shard));
  }

  lemma RoundKeeps(events: Events, shard: int, now: int, limit: nat)
    requires UniqueSlots(events) && AllEligible(events, shard, now)
    ensures var after := Round(events, shard, now, limit);
      UniqueSlots(after) && AllEligible(after, shard, now) && LiveStreams(after, shard) <= LiveStreams(events, shard)
  {
  }

  /** With limit at least 1 the row count is a termination measure: that many rounds always suffice. */
  lemma {:induction false} DrainTerminates(events: Events, shard: int, now: int, limit: nat, n: nat)
    requires UniqueSlots(events) && AllEligible(events, shard, now)
    requires limit >= 1 && n >= |Waiting(events, shard)|
    ensures Waiting(Rounds(events, shard, now, limit, n), shard) == {}
    decreases n
  {
    if n > 0 {
      RoundRemoves(events, shard, now, limit);
      RoundKeeps(events, shard, now, limit);
      if Waiting(events, shard) != {} {
        var id := Member(Waiting(events, shard));
        assert events[id].event.stream in LiveStreams(events, shard);
      }
      DrainTerminates(Round(events, shard, now, limit), shard, now, limit, n - 1);
    }
  }

  /** With room for every stream, a round takes exactly the head of each non-empty stream. */
  lemma RoundShortensStream(events: Events, shard: int, now: int, limit: nat, stream: string)
    requires UniqueSlots(events) && AllEligible(events, shard, now) && limit >= |LiveStreams(events, shard)|
    ensures var rows := StreamRows(events, shard, stream);
      var rows' := StreamRows(Round(events, shard, now, limit), shard, stream);
      |rows'| == if rows == {} then 0 else |rows| - 1
  {
    SelectHeadsExact(events, shard, now, limit);
    HeadsAreStreams(events, shard, now);
    AllHeadsTaken(events, shard, now, limit, SelectHeads(events, shard, now, limit).value);
    HeadTaken(events, shard, now, SelectHeads(events, shard, now, limit).value, stream);
  }

  lemma AllHeadsTaken(events: Events, shard: int, now: int, limit: nat, ids: seq<int>)
    requires FirstHeads(events, shard, now, limit, ids) && limit >= |EligibleHeads(events, shard, now)|
    ensures forall id :: id in ids <==> id in EligibleHeads(events, shard, now)
  {
    forall i, j | 0 <= i < j < |ids| ensures ids[i] != ids[j] {
      assert Before(events, ids[i], ids[j]);
    }
    DistinctSize(ids);
    SubsetSize((set x | x in ids), EligibleHeads(events, shard, now));
  }

  lemma HeadTaken(events: Events, shard: int, now: int, ids: seq<int>, stream: string)
    requires UniqueSlots(events) && AllEligible(events, shard, now)
    requires forall id :: id in ids <==> id in EligibleHeads(events, shard, now)
    ensures var rows := StreamRows(events, shard, stream);
      |StreamRows(DeleteDelivered(events, ids), shard, stream)| == if rows == {} then 0 else |rows| - 1
  {
    var rows := StreamRows(events, shard, stream);
    var rows' := StreamRows(DeleteDelivered(events, ids), shard, stream);
    if rows == {} {
      assert rows' <= rows;
    } else {
      var id := Member(rows);
      var head := HeadBelow(events, id);
      assert head in EligibleHeads(events, shard, now) && head in rows;
      forall x | x in rows && x in EligibleHeads(events, shard, now) ensures x == head {
        OneHeadPerStream(events, shard, now, x, head);
      }
      assert rows' == rows - {head};
    }
  }

  lemma {:induction false} RoundsShortenStream(events: Events, shard: int, now: int, limit: nat, n: nat, stream: string)
    requires UniqueSlots(events) && AllEligible(events, shard, now) && limit >= |LiveStreams(events, shard)|
    ensures var before := |StreamRows(events, shard, stream)|;
      |StreamRows(Rounds(events, shard, now, limit, n), shard, stream)| == if before <= n then 0 else before - n
    decreases n
  {
    hide Round, StreamRows, LiveStreams, UniqueSlots, AllEligible;
    if n > 0 {
      var after := Round(events, shard, now, limit);
      RoundShortensStream(events, shard, now, limit, stream);
      RoundKeeps(events, shard, now, limit);
      SubsetSize(LiveStreams(after, shard), LiveStreams(events, shard));
      RoundsShortenStream(after, shard, now, limit, n - 1, stream);
    }
  }

  /** When the batch covers all streams, the shard is empty after n rounds exactly when no backlog exceeds n. */
  lemma DrainTime(events: Events, shard: int, now: int, limit: nat, n: nat)
    requires UniqueSlots(events) && AllEligible(events, shard, now) && limit >= |LiveStreams(events, shard)|
    ensures Waiting(Rounds(events, shard, now, limit, n), shard) == {} <==>
      forall stream :: |StreamRows(events, shard, stream)| <= n
  {
    var after := Rounds(events, shard, now, limit, n);
    forall stream ensures StreamRows(after, shard, stream) == {} <==> |StreamRows(events, shard, stream)| <= n {
      RoundsShortenStream(events, shard, now, limit, n, stream);
    }
    WaitingByStream(after, shard);
  }

  lemma WaitingByStream(events: Events, shard: int)
    ensures Waiting(events, shard) == {} <==> forall stream :: StreamRows(events, shard, stream) == {}
  {
    if Waiting(events, shard) != {} {
      var id := Member(Waiting(events, shard));
      assert id in StreamRows(events, shard, events[id].event.stream);
    }
    forall stream ensures StreamRows(events, shard, stream) <= Waiting(events, shard) {
    }
  }

  // ------------------------------------------------- rounds as runs of a relay

  /** A relay that goes round `n` times while nothing else happens. `draw` gives the backoffs, which no row takes. */
  ghost function RelayRounds(s: State, r: nat, shard: int, now: int, limit: nat, draw: nat -> int, n: nat): State
    decreases n
  {
    if n == 0 then s
    else
      var delays := seq(|SelectHeads(s.events, shard, now, limit).value|, draw);
      RelayRounds(RelayRound(s, r, shard, now, limit, delays), r, shard, now, limit, draw, n - 1)
  }

  /** Going round `n` times leaves the table of `n` rounds and keeps everything else but the log. */
  lemma {:induction false} RelayRoundsAreRounds(s: State, r: nat, shard: int, now: int, limit: nat, draw: nat -> int,
                                                n: nat)
    requires Inv(s) && r !in s.relays
    ensures var s' := RelayRounds(s, r, shard, now, limit, draw, n);
      && Inv(s') && s'.events == Rounds(s.events, shard, now, limit, n)
      && s'.streams == s.streams && s'.txs == s.txs && s'.relays == s.relays && s'.ever == s.ever
    decreases n
  {
    hide Inv, RelayRound, SelectHeads;
    if n > 0 {
      var ids := Selectable(s, shard, now, limit);
      var delays := seq(|ids|, draw);
      RelayRoundDelivers(s, r, shard, now, limit, ids, delays);
      RelayRoundKeepsInv(s, r, shard, now, limit, delays);
      RelayRoundKeepsEver(s, r, shard, now, limit, delays);
      RelayRoundsAreRounds(RelayRound(s, r, shard, now, limit, delays), r, shard, now, limit, draw, n - 1);
    }
  }

  lemma Selectable(s: State, shard: int, now: int, limit: nat) returns (ids: seq<int>)
    ensures SelectHeads(s.events, shard, now, limit) == Success(ids)
  {
    ids := SelectHeads(s.events, shard, now, limit).value;
  }

  lemma RelayRoundKeepsEver(s: State, r: nat, shard: int, now: int, limit: nat, delays: seq<int>)
    ensures RelayRound(s, r, shard, now, limit, delays).ever == s.ever
  {
    hide SelectHeads, Settled, RecordsOf, EventsOf, Truthful;
    var s1 := SelectStep(s, r, shard, now, limit);
    var heads := if r in s1.relays then s1.relays[r].heads else [];
    AppendsKeepEver(SendStep(s1, r), MessagesOf(heads));
  }

  lemma {:induction false} AppendsKeepEver(s: State, events: seq<Event>)
    ensures Run(s, AppendsOf(events)).ever == s.ever
    decreases |events|
  {
    if events != [] {
      var front := events[..|events| - 1];
      assert AppendsOf(events)[..|events| - 1] == AppendsOf(front);
      AppendsKeepEver(s, front);
    }
  }

  /** From any good state with quiet writers, as many rounds as there are rows empty the shard into the log. */
  lemma RelayDrains(s: State, r: nat, shard: int, now: int, limit: nat, draw: nat -> int, n: nat)
    requires Inv(s) && r !in s.relays && AllEligible(s.events, shard, now)
    requires limit >= 1 && n >= |Waiting(s.events, shard)|
    ensures var s' := RelayRounds(s, r, shard, now, limit, draw, n);
      && Waiting(s'.events, shard) == {}
      && forall id :: id in s.events && s.events[id].shard == shard ==> s.events[id].event in s'.log
  {
    hide RelayRounds, Rounds, AllEligible;
    var s' := RelayRounds(s, r, shard, now, limit, draw, n);
    RowsHaveOwnSlots(s);
    RelayRoundsAreRounds(s, r, shard, now, limit, draw, n);
    DrainTerminates(s.events, shard, now, limit, n);
    forall id | id in s.events && s.events[id].shard == shard ensures s.events[id].event in s'.log {
      KeptOrLogged(s, s', id);
      assert id in Waiting(s'.events, shard) <==> id in s'.events;
    }
  }

  /** Between two states of one history a row keeps its shard, and a row that is gone has been appended. */
  lemma KeptOrLogged(s: State, s': State, id: int)
    requires Inv(s) && Inv(s') && s'.ever == s.ever && s'.streams == s.streams && id in s.events
    ensures id in s'.events ==> s'.events[id].shard == s.events[id].shard
    ensures id !in s'.events ==> s.events[id].event in s'.log
  {
    assert Committed(s.ever, s.events[id].event);
    if id in s'.events {
      assert Committed(s'.ever, s'.events[id].event);
      assert s'.events[id].event == s.events[id].event;
    }
  }

  /** With room for every stream, a relay has emptied the shard after n rounds exactly when no backlog exceeds n. */
  lemma RelayDrainTime(s: State, r: nat, shard: int, now: int, limit: nat, draw: nat -> int, n: nat)
    requires Inv(s) && r !in s.relays && AllEligible(s.events, shard, now)
    requires limit >= |LiveStreams(s.events, shard)|
    ensures Waiting(RelayRounds(s, r, shard, now, limit, draw, n).events, shard) == {} <==>
      forall stream :: |StreamRows(s.events, shard, stream)| <= n
  {
    hide Inv, RelayRounds, Rounds, AllEligible, LiveStreams;
    RowsHaveOwnSlots(s);
    RelayRoundsAreRounds(s, r, shard, now, limit, draw, n);
    DrainTime(s.events, shard, now, limit, n);
  }
}
