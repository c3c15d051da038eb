/**
 The outbox as a protocol: any number of writer transactions and any number of
 relays, interleaved statement by statement, with aborts, crashes, lost
 acknowledgements, late and repeated broker appends.

 No step relies on the relay's advisory lock, so the results hold for relays
 that overlap on a shard as well.
 */
module OutboxProtocol {
  import opened Wrappers
  import opened Outbox

  type Slot = (string, int)

  /**
   A writer transaction: the stream rows it has inserted or updated (and so
   holds the row locks of), the event rows it has inserted, the range it has
   reserved and not yet filled. `slots` records its rows by stream and sequence.
   */
  datatype Tx = Tx(streams: Streams, events: Events, owed: Option<Owed>, slots: map<Slot, Event>)

  datatype Owed = Owed(stream: string, range: ReservedRange)

  /** A relay between two statements of its batch loop. */
  datatype Relay =
    | Selected(heads: seq<Record>)
    | Sent(heads: seq<Record>)
    | Answered(heads: seq<Record>, acks: seq<bool>)

  /**
   `ever` and `ids` are history: every committed event by stream and sequence,
   and every row id handed out so far.
   */
  datatype State = State(streams: Streams, events: Events, txs: map<nat, Tx>, relays: map<nat, Relay>,
                         inFlight: set<Event>, log: seq<Event>, ever: map<Slot, Event>, ids: set<int>)

  const Initial := State(map[], map[], map[], map[], {}, [], map[], {})

  datatype Draft = Draft(id: int, content: Content)

  datatype Action =
    | Begin(tx: nat)
    | Ensure(tx: nat, stream: string, shard: int)
    | Reserve(tx: nat, stream: string, count: int)
    | Insert(tx: nat, drafts: seq<Draft>, now: int)
    | Commit(tx: nat)
    | Abort(tx: nat)
    | Select(relay: nat, shard: int, now: int, limit: int)
    | Send(relay: nat)
    | Append(event: Event)
    | Collect(relay: nat, acks: seq<bool>)
    | Settle(relay: nat, now: int, delays: seq<int>)
    | Crash(relay: nat)

  // ---------------------------------------------------------------- the steps

  /** Another open transaction holds the lock of the stream row. */
  ghost predicate Locked(s: State, tx: nat, stream: string) {
    exists t :: t in s.txs && t != tx && stream in s.txs[t].streams
  }

  function SlotOf(e: Event): Slot {
    (e.stream, e.sequence)
  }

  /** The row takes the first sequence of the range and the range's shard. */
  function BuildRecord(owed: Owed, draft: Draft, now: int): Record {
    Record(Event(draft.id, owed.stream, owed.range.first, draft.content), owed.range.shard, 0, 0, now)
  }

  function Rest(owed: Owed): Owed {
    owed.(range := owed.range.(first := owed.range.first + 1))
  }

  /** The batch a writer inserts: its drafts take the sequences of the range in order. */
  function BuildRecords(owed: Owed, drafts: seq<Draft>, now: int): seq<Record>
    decreases |drafts|
  {
    if drafts == [] then [] else [BuildRecord(owed, drafts[0], now)] + BuildRecords(Rest(owed), drafts[1..], now)
  }

  /** Row ids come from a generator that never repeats one. */
  ghost predicate FreshIds(ids: set<int>, drafts: seq<Draft>) {
    && (forall i :: 0 <= i < |drafts| ==> drafts[i].id !in ids)
    && (forall i, j :: 0 <= i < j < |drafts| ==> drafts[i].id != drafts[j].id)
  }

  ghost function EnsureStep(s: State, t: nat, tx: Tx, stream: string, shard: int): Tx {
    if stream in s.streams + tx.streams || Locked(s, t, stream) then tx
    else tx.(streams := EnsureStream(tx.streams, stream, shard))
  }

  ghost function ReserveStep(s: State, t: nat, tx: Tx, stream: string, count: int): Tx {
    if tx.owed.Some? || Locked(s, t, stream) then tx
    else
      match ReserveSequences(s.streams + tx.streams, stream, count)
      case Failure(_) => tx
      case Success((streams, range)) =>
        tx.(streams := tx.streams[stream := streams[stream]], owed := Some(Owed(stream, range)))
  }

  ghost function EnsureState(s: State, t: nat, stream: string, shard: int): State
    requires t in s.txs
  {
    s.(txs := s.txs[t := EnsureStep(s, t, s.txs[t], stream, shard)])
  }

  ghost function ReserveState(s: State, t: nat, stream: string, count: int): State
    requires t in s.txs
  {
    s.(txs := s.txs[t := ReserveStep(s, t, s.txs[t], stream, count)])
  }

  ghost predicate CanInsert(s: State, tx: Tx, drafts: seq<Draft>, now: int) {
    && tx.owed.Some?
    && |drafts| == tx.owed.value.range.last - tx.owed.value.range.first + 1
    && FreshIds(s.ids, drafts)
    && Inserted(s.events + tx.events, BuildRecords(tx.owed.value, drafts, now)).Success?
  }

  function AddRow(tx: Tx, owed: Owed, r: Record): Tx {
    Tx(tx.streams, tx.events[r.event.id := r], Some(Rest(owed)), tx.slots[SlotOf(r.event) := r.event])
  }

  /** The transaction after its batch: the rows of `BuildRecords`, nothing left to fill. */
  function Fill(tx: Tx, owed: Owed, drafts: seq<Draft>, now: int): Tx
    decreases |drafts|
  {
    if drafts == [] then tx.(owed := None)
    else Fill(AddRow(tx, owed, BuildRecord(owed, drafts[0], now)), Rest(owed), drafts[1..], now)
  }

  ghost function InsertState(s: State, t: nat, tx: Tx, drafts: seq<Draft>): State {
    s.(txs := s.txs[t := tx], ids := s.ids + (set i | 0 <= i < |drafts| :: drafts[i].id))
  }

  ghost function CommitStep(s: State, t: nat): State
    requires t in s.txs
  {
    var tx := s.txs[t];
    s.(streams := s.streams + tx.streams, events := s.events + tx.events,
       ever := s.ever + tx.slots, txs := s.txs - {t})
  }

  /** The ids whose own result carried no error. */
  function Delivered(heads: seq<Record>, acks: seq<bool>): (ids: seq<int>)
    requires |heads| == |acks|
    ensures forall id :: id in ids <==> exists i :: 0 <= i < |heads| && acks[i] && heads[i].event.id == id
  {
    if heads == [] then []
    else
      var last := |heads| - 1;
      var rest := Delivered(heads[..last], acks[..last]);
      if acks[last] then rest + [heads[last].event.id] else rest
  }

  function Failed(heads: seq<Record>, acks: seq<bool>, now: int, delays: seq<int>): seq<FailedUpdate>
    requires |heads| == |acks| == |delays|
  {
    if heads == [] then []
    else
      var last := |heads| - 1;
      var rest := Failed(heads[..last], acks[..last], now, delays[..last]);
      if acks[last] then rest
      else rest + [FailedUpdate(heads[last].event.id, heads[last].attempts + 1, now + delays[last])]
  }

  /** The acknowledging transaction: delete what was delivered, back off the rest. */
  function Settled(events: Events, heads: seq<Record>, acks: seq<bool>, now: int, delays: seq<int>): Events
    requires |heads| == |acks| == |delays|
  {
    Backoff(DeleteDelivered(events, Delivered(heads, acks)), Failed(heads, acks, now, delays))
  }

  ghost function RecordsOf(events: Events, ids: seq<int>): seq<Record>
    requires forall i :: 0 <= i < |ids| ==> ids[i] in events
  {
    seq(|ids|, i requires 0 <= i < |ids| => events[ids[i]])
  }

  ghost function SelectStep(s: State, r: nat, shard: int, now: int, limit: int): State {
    if r in s.relays || limit < 0 then s
    else
      SelectHeadsExact(s.events, shard, now, limit);
      var ids := SelectHeads(s.events, shard, now, limit).value;
      s.(relays := s.relays[r := Selected(RecordsOf(s.events, ids))])
  }

  ghost function EventsOf(heads: seq<Record>): set<Event> {
    set i | 0 <= i < |heads| :: heads[i].event
  }

  /** The broker reports success only for a record it has appended. */
  ghost predicate Truthful(log: seq<Event>, heads: seq<Record>, acks: seq<bool>) {
    |heads| == |acks| && forall i :: 0 <= i < |heads| && acks[i] ==> heads[i].event in log
  }

  ghost function SendStep(s: State, r: nat): State {
    if r !in s.relays || !s.relays[r].Selected? then s
    else s.(relays := s.relays[r := Sent(s.relays[r].heads)], inFlight := s.inFlight + EventsOf(s.relays[r].heads))
  }

  ghost function CollectStep(s: State, r: nat, acks: seq<bool>): State {
    if r !in s.relays || !s.relays[r].Sent? || !Truthful(s.log, s.relays[r].heads, acks) then s
    else s.(relays := s.relays[r := Answered(s.relays[r].heads, acks)])
  }

  ghost function SettleStep(s: State, r: nat, now: int, delays: seq<int>): State {
    if r !in s.relays || !s.relays[r].Answered? || |s.relays[r].heads| != |s.relays[r].acks|
       || |delays| != |s.relays[r].heads| then s
    else s.(events := Settled(s.events, s.relays[r].heads, s.relays[r].acks, now, delays), relays := s.relays - {r})
  }

  ghost function BeginStep(s: State, t: nat): State {
    if t in s.txs then s else s.(txs := s.txs[t := Tx(map[], map[], None, map[])])
  }

  /** One step of the system. A step that is not possible leaves the state alone. */
  ghost function Step(s: State, a: Action): State {
    match a
    case Begin(t) => BeginStep(s, t)
    case Ensure(t, stream, shard) =>
      if t !in s.txs then s else EnsureState(s, t, stream, shard)
    case Reserve(t, stream, count) =>
      if t !in s.txs then s else ReserveState(s, t, stream, count)
    case Insert(t, drafts, now) =>
      if t !in s.txs || !CanInsert(s, s.txs[t], drafts, now) then s
      else InsertState(s, t, Fill(s.txs[t], s.txs[t].owed.value, drafts, now), drafts)
    case Commit(t) => if t !in s.txs || s.txs[t].owed.Some? then s else CommitStep(s, t)
    case Abort(t) => s.(txs := s.txs - {t})
    case Select(r, shard, now, limit) => SelectStep(s, r, shard, now, limit)
    case Send(r) => SendStep(s, r)
    case Append(e) => if e in s.inFlight then s.(log := s.log + [e]) else s
    case Collect(r, acks) => CollectStep(s, r, acks)
    case Settle(r, now, delays) => SettleStep(s, r, now, delays)
    case Crash(r) => s.(relays := s.relays - {r})
  }

  /** Any finite interleaving, from any state. */
  ghost function Run(s: State, actions: seq<Action>): State {
    if actions == [] then s else Step(Run(s, actions[..|actions| - 1]), actions[|actions| - 1])
  }

  // ------------------------------------------------------------ the invariant

  /** The committed sequences of a stream are exactly 1..last_sequence, one event each, ids never shared. */
  ghost predicate Contiguous(streams: Streams, ever: map<Slot, Event>, ids: set<int>) {
    && (forall k :: k in streams ==> streams[k].last >= 0)
    && (forall k, n :: (k, n) in ever <==> k in streams && 1 <= n <= streams[k].last)
    && (forall p :: p in ever ==> SlotOf(ever[p]) == p && ever[p].id in ids)
    && (forall p, q :: p in ever && q in ever && ever[p].id == ever[q].id ==> p == q)
  }

  ghost predicate Committed(ever: map<Slot, Event>, e: Event) {
    SlotOf(e) in ever && ever[SlotOf(e)] == e
  }

  /** Every visible row is a committed event and carries its stream's shard. */
  ghost predicate RowsFaithful(streams: Streams, events: Events, ever: map<Slot, Event>) {
    forall id :: id in events ==>
      && events[id].event.id == id && Committed(ever, events[id].event)
      && events[id].event.stream in streams && events[id].shard == streams[events[id].event.stream].shard
  }

  /** No committed event is lost: it is still a row, or the broker has it. */
  ghost predicate NothingLost(events: Events, ever: map<Slot, Event>, log: seq<Event>) {
    forall p :: p in ever ==> ever[p].id in events || ever[p] in log
  }

  /** Every earlier event of the stream is in the log already. */
  ghost predicate Ready(ever: map<Slot, Event>, log: seq<Event>, e: Event) {
    Committed(ever, e) && forall j :: 1 <= j < e.sequence ==> (e.stream, j) in ever && ever[(e.stream, j)] in log
  }

  /** The log holds committed events, each after all earlier ones of its stream. */
  ghost predicate InOrder(ever: map<Slot, Event>, log: seq<Event>) {
    forall i :: 0 <= i < |log| ==> Ready(ever, log[..i], log[i])
  }

  ghost predicate RelayFine(ever: map<Slot, Event>, log: seq<Event>, relay: Relay) {
    && (forall i :: 0 <= i < |relay.heads| ==> Ready(ever, log, relay.heads[i].event))
    && (relay.Answered? ==> Truthful(log, relay.heads, relay.acks))
  }

  ghost predicate RelaysFine(s: State) {
    && (forall e :: e in s.inFlight ==> Ready(s.ever, s.log, e))
    && (forall r :: r in s.relays ==> RelayFine(s.ever, s.log, s.relays[r]))
  }

  function Base(streams: Streams, stream: string): int {
    if stream in streams then streams[stream].last else 0
  }

  /** The last sequence of the stream that the transaction has a row for. */
  function Filled(tx: Tx, stream: string): int
    requires stream in tx.streams
  {
    if tx.owed.Some? && tx.owed.value.stream == stream then tx.owed.value.range.first - 1 else tx.streams[stream].last
  }

  /** A transaction extends its streams without a gap, and keeps their shards. */
  ghost predicate TxStreams(streams: Streams, tx: Tx) {
    && (forall k :: k in tx.streams ==> Base(streams, k) <= Filled(tx, k) <= tx.streams[k].last)
    && (forall k :: k in tx.streams && k in streams ==> tx.streams[k].shard == streams[k].shard)
    && (tx.owed.Some? ==>
          var o := tx.owed.value;
          && o.stream in tx.streams && o.range.last == tx.streams[o.stream].last
          && o.range.shard == tx.streams[o.stream].shard)
  }

  /** Its rows fill exactly the sequences from the base up. */
  ghost predicate SlotsFilled(streams: Streams, tx: Tx) {
    forall k, n :: (k, n) in tx.slots <==> k in tx.streams && Base(streams, k) < n <= Filled(tx, k)
  }

  /** Rows and slots name each other, and rows carry their stream's shard. */
  ghost predicate RowsSlotted(ids: set<int>, tx: Tx) {
    && (forall p :: p in tx.slots ==>
          var id := tx.slots[p].id;
          SlotOf(tx.slots[p]) == p && id in tx.events && tx.events[id].event == tx.slots[p])
    && (forall id :: id in tx.events ==>
          var r := tx.events[id];
          && r.event.id == id && id in ids && SlotOf(r.event) in tx.slots && tx.slots[SlotOf(r.event)] == r.event
          && r.event.stream in tx.streams && r.shard == tx.streams[r.event.stream].shard)
  }

  ghost predicate TxRows(streams: Streams, ids: set<int>, tx: Tx) {
    SlotsFilled(streams, tx) && RowsSlotted(ids, tx)
  }

  /** Row locks are exclusive and row ids are not shared. */
  ghost predicate Apart(s: State) {
    && (forall t, u, k :: t in s.txs && u in s.txs && k in s.txs[t].streams && k in s.txs[u].streams ==> t == u)
    && (forall t, u, id :: t in s.txs && u in s.txs && id in s.txs[t].events && id in s.txs[u].events ==> t == u)
    && (forall t, p :: t in s.txs && p in s.ever ==> s.ever[p].id !in s.txs[t].events)
  }

  ghost predicate TxsFine(s: State) {
    && (forall t :: t in s.txs ==> TxStreams(s.streams, s.txs[t]) && TxRows(s.streams, s.ids, s.txs[t]))
    && Apart(s)
  }

  ghost predicate Inv(s: State) {
    && Contiguous(s.streams, s.ever, s.ids)
    && RowsFaithful(s.streams, s.events, s.ever)
    && NothingLost(s.events, s.ever, s.log)
    && InOrder(s.ever, s.log)
    && RelaysFine(s)
    && TxsFine(s)
  }

  // ------------------------------------------------- every step keeps it

  ghost predicate TxFine(streams: Streams, ids: set<int>, tx: Tx) {
    TxStreams(streams, tx) && TxRows(streams, ids, tx)
  }

  /** The transaction takes no stream lock another one holds and no row id that was used before. */
  ghost predicate TakesOnlyFree(s: State, t: nat, tx: Tx) {
    && (forall k :: k in tx.streams ==> !Locked(s, t, k))
    && (forall id :: id in tx.events ==> (t in s.txs && id in s.txs[t].events) || id !in s.ids)
  }

  lemma ApartKept(s: State, t: nat, tx: Tx, ids: set<int>)
    requires TxsFine(s) && TakesOnlyFree(s, t, tx)
    requires forall p :: p in s.ever ==> s.ever[p].id in s.ids
    ensures Apart(s.(txs := s.txs[t := tx], ids := ids))
  {
    forall u | u in s.txs ensures forall id :: id in s.txs[u].events ==> id in s.ids {
      assert TxRows(s.streams, s.ids, s.txs[u]);
    }
  }

  lemma TxKept(s: State, t: nat, tx: Tx, ids: set<int>)
    requires TxsFine(s) && TakesOnlyFree(s, t, tx) && s.ids <= ids && TxFine(s.streams, ids, tx)
    requires forall p :: p in s.ever ==> s.ever[p].id in s.ids
    ensures TxsFine(s.(txs := s.txs[t := tx], ids := ids))
  {
    hide Apart, TakesOnlyFree, TxStreams;
    ApartKept(s, t, tx, ids);
    forall u | u in s.txs ensures TxRows(s.streams, ids, s.txs[u]) {
      assert TxRows(s.streams, s.ids, s.txs[u]);
    }
  }

  /** A writer's statement touches its own transaction only. */
  lemma WriterStep(s: State, t: nat, tx: Tx, ids: set<int>)
    requires Inv(s) && TakesOnlyFree(s, t, tx) && s.ids <= ids && TxFine(s.streams, ids, tx)
    ensures Inv(s.(txs := s.txs[t := tx], ids := ids))
  {
    TxKept(s, t, tx, ids);
  }

  lemma EnsureFine(s: State, t: nat, tx: Tx, stream: string, shard: int)
    requires TxFine(s.streams, s.ids, tx)
    ensures TxFine(s.streams, s.ids, EnsureStep(s, t, tx, stream, shard))
  {
  }

  lemma ReserveFine(s: State, t: nat, tx: Tx, stream: string, count: int)
    requires TxFine(s.streams, s.ids, tx)
    ensures TxFine(s.streams, s.ids, ReserveStep(s, t, tx, stream, count))
  {
    var tx' := ReserveStep(s, t, tx, stream, count);
    if tx' != tx {
      assert forall k :: k in tx'.streams ==>
        Filled(tx', k) == if k in tx.streams then Filled(tx, k) else Base(s.streams, k);
    }
  }

  lemma AddRowFine(streams: Streams, ids: set<int>, tx: Tx, draft: Draft, now: int)
    requires TxFine(streams, ids, tx) && tx.owed.Some? && tx.owed.value.range.first <= tx.owed.value.range.last
    requires draft.id in ids && draft.id !in tx.events
    ensures TxFine(streams, ids, AddRow(tx, tx.owed.value, BuildRecord(tx.owed.value, draft, now)))
  {
    AddRowFills(streams, tx, tx.owed.value, BuildRecord(tx.owed.value, draft, now));
    AddRowRows(ids, tx, tx.owed.value, BuildRecord(tx.owed.value, draft, now));
  }

  lemma AddRowFills(streams: Streams, tx: Tx, owed: Owed, r: Record)
    requires TxStreams(streams, tx) && SlotsFilled(streams, tx)
    requires tx.owed == Some(owed) && owed.range.first <= owed.range.last
    requires SlotOf(r.event) == (owed.stream, owed.range.first)
    ensures TxStreams(streams, AddRow(tx, owed, r)) && SlotsFilled(streams, AddRow(tx, owed, r))
    ensures SlotOf(r.event) !in tx.slots
  {
    var tx' := AddRow(tx, owed, r);
    assert forall k :: k in tx.streams ==> Filled(tx', k) == Filled(tx, k) + if k == owed.stream then 1 else 0;
  }

  lemma AddRowRows(ids: set<int>, tx: Tx, owed: Owed, r: Record)
    requires RowsSlotted(ids, tx) && r.event.id in ids && r.event.id !in tx.events && SlotOf(r.event) !in tx.slots
    requires r.event.stream in tx.streams && r.shard == tx.streams[r.event.stream].shard
    ensures RowsSlotted(ids, AddRow(tx, owed, r))
  {
  }

  lemma {:induction false} FillFine(streams: Streams, ids: set<int>, tx: Tx, drafts: seq<Draft>, now: int)
    requires TxFine(streams, ids, tx) && tx.owed.Some?
    requires |drafts| == tx.owed.value.range.last - tx.owed.value.range.first + 1
    requires FreshIds(tx.events.Keys, drafts) && forall i :: 0 <= i < |drafts| ==> drafts[i].id in ids
    ensures var tx' := Fill(tx, tx.owed.value, drafts, now);
      TxFine(streams, ids, tx') && tx'.streams == tx.streams
    decreases |drafts|
  {
    if drafts != [] {
      AddRowFine(streams, ids, tx, drafts[0], now);
      FillFine(streams, ids, AddRow(tx, tx.owed.value, BuildRecord(tx.owed.value, drafts[0], now)), drafts[1..], now);
    }
  }

  lemma {:induction false} FillKeys(tx: Tx, owed: Owed, drafts: seq<Draft>, now: int)
    ensures Fill(tx, owed, drafts, now).events.Keys == tx.events.Keys + (set i | 0 <= i < |drafts| :: drafts[i].id)
    decreases |drafts|
  {
    if drafts != [] {
      FillKeys(AddRow(tx, owed, BuildRecord(owed, drafts[0], now)), Rest(owed), drafts[1..], now);
      assert forall i :: 1 <= i < |drafts| ==> drafts[i] == drafts[1..][i - 1];
    }
  }

  lemma InsertFine(s: State, t: nat, drafts: seq<Draft>, now: int, ids: set<int>)
    requires TxsFine(s) && t in s.txs && CanInsert(s, s.txs[t], drafts, now)
    requires ids == s.ids + (set i | 0 <= i < |drafts| :: drafts[i].id)
    ensures var tx := Fill(s.txs[t], s.txs[t].owed.value, drafts, now);
      TxFine(s.streams, ids, tx) && TakesOnlyFree(s, t, tx)
  {
    var tx := s.txs[t];
    assert TxFine(s.streams, s.ids, tx);
    assert TxRows(s.streams, ids, tx);
    FillFine(s.streams, ids, tx, drafts, now);
    FillKeys(tx, tx.owed.value, drafts, now);
  }

  lemma CommitContiguous(s: State, t: nat)
    requires t in s.txs && s.txs[t].owed.None? && Apart(s) && TxFine(s.streams, s.ids, s.txs[t])
    requires Contiguous(s.streams, s.ever, s.ids)
    ensures Contiguous(s.streams + s.txs[t].streams, s.ever + s.txs[t].slots, s.ids)
    ensures forall p :: p in s.ever ==> p !in s.txs[t].slots
  {
    var tx := s.txs[t];
    forall p | p in s.ever ensures p !in tx.slots {
      assert (p.0, p.1) in s.ever;
      assert p.0 in tx.streams ==> p.1 <= Base(s.streams, p.0);
      assert (p.0, p.1) !in tx.slots;
    }
    CommitSlots(s.streams, s.ever, s.ids, tx);
  }

  lemma CommitSlots(streams: Streams, ever: map<Slot, Event>, ids: set<int>, tx: Tx)
    requires tx.owed.None? && TxFine(streams, ids, tx)
    requires Contiguous(streams, ever, ids)
    ensures forall k, n :: (k, n) in ever + tx.slots <==>
      k in streams + tx.streams && 1 <= n <= (streams + tx.streams)[k].last
  {
  }

  lemma CommitRows(s: State, t: nat)
    requires t in s.txs && TxFine(s.streams, s.ids, s.txs[t])
    requires RowsFaithful(s.streams, s.events, s.ever) && NothingLost(s.events, s.ever, s.log)
    requires forall p :: p in s.ever ==> p !in s.txs[t].slots
    ensures var s' := CommitStep(s, t);
      RowsFaithful(s'.streams, s'.events, s'.ever) && NothingLost(s'.events, s'.ever, s'.log)
  {
    var tx, s' := s.txs[t], CommitStep(s, t);
    forall id | id in s'.events
      ensures s'.events[id].event.id == id && Committed(s'.ever, s'.events[id].event)
      ensures var k := s'.events[id].event.stream; k in s'.streams && s'.events[id].shard == s'.streams[k].shard
    {
      if id in tx.events {
        assert SlotOf(tx.events[id].event) in tx.slots;
      } else {
        assert id in s.events;
      }
    }
  }

  /** A transaction does not notice changes to streams it has not touched. */
  lemma OtherStreamsChange(streams: Streams, streams': Streams, ids: set<int>, tx: Tx)
    requires TxFine(streams, ids, tx)
    requires forall k :: k in tx.streams ==>
      (k in streams <==> k in streams') && (k in streams ==> streams[k] == streams'[k])
    ensures TxFine(streams', ids, tx)
  {
  }

  lemma CommitKeepsTxs(s: State, t: nat)
    requires Inv(s) && t in s.txs && s.txs[t].owed.None?
    ensures TxsFine(CommitStep(s, t))
  {
    var s' := CommitStep(s, t);
    forall u | u in s'.txs ensures TxFine(s'.streams, s'.ids, s'.txs[u]) {
      assert TxFine(s.streams, s.ids, s.txs[u]);
      OtherStreamsChange(s.streams, s'.streams, s.ids, s.txs[u]);
    }
    CommitKeepsApart(s, t);
  }

  lemma CommitKeepsApart(s: State, t: nat)
    requires Apart(s) && t in s.txs && TxRows(s.streams, s.ids, s.txs[t])
    ensures Apart(CommitStep(s, t))
  {
  }

  /** What was ready stays ready as history and log grow. */
  lemma ReadyGrows(ever: map<Slot, Event>, ever': map<Slot, Event>, log: seq<Event>, log': seq<Event>, e: Event)
    requires Ready(ever, log, e)
    requires forall p :: p in ever ==> p in ever' && ever'[p] == ever[p]
    requires forall x :: x in log ==> x in log'
    ensures Ready(ever', log', e)
  {
  }

  lemma DeliveryGrows(s: State, s': State)
    requires InOrder(s.ever, s.log) && RelaysFine(s)
    requires forall p :: p in s.ever ==> p in s'.ever && s'.ever[p] == s.ever[p]
    requires s'.log == s.log && s'.relays == s.relays && s'.inFlight == s.inFlight
    ensures InOrder(s'.ever, s'.log) && RelaysFine(s')
  {
    forall i | 0 <= i < |s.log| ensures Ready(s'.ever, s.log[..i], s.log[i]) {
      ReadyGrows(s.ever, s'.ever, s.log[..i], s.log[..i], s.log[i]);
    }
    forall e | e in s.inFlight ensures Ready(s'.ever, s'.log, e) {
      ReadyGrows(s.ever, s'.ever, s.log, s'.log, e);
    }
    forall r | r in s.relays ensures RelayFine(s'.ever, s'.log, s.relays[r]) {
      forall i | 0 <= i < |s.relays[r].heads| ensures Ready(s'.ever, s'.log, s.relays[r].heads[i].event) {
        ReadyGrows(s.ever, s'.ever, s.log, s'.log, s.relays[r].heads[i].event);
      }
    }
  }

  lemma CommitKeeps(s: State, t: nat)
    requires Inv(s) && t in s.txs && s.txs[t].owed.None?
    ensures Inv(CommitStep(s, t))
  {
    var s' := CommitStep(s, t);
    CommitContiguous(s, t);
    CommitRows(s, t);
    CommitKeepsTxs(s, t);
    DeliveryGrows(s, s');
  }

  /** The heart of the ordering argument: a visible head has all its predecessors in the log. */
  lemma HeadIsReady(s: State, id: int)
    requires Inv(s) && IsHead(s.events, id)
    ensures Ready(s.ever, s.log, s.events[id].event)
  {
    var e := s.events[id].event;
    assert Committed(s.ever, e);
    assert (e.stream, e.sequence) in s.ever;
    forall j | 1 <= j < e.sequence ensures (e.stream, j) in s.ever && s.ever[(e.stream, j)] in s.log {
      assert (e.stream, j) in s.ever;
      var x := s.ever[(e.stream, j)];
      assert SlotOf(x) == (e.stream, j);
    }
  }

  lemma SelectedFine(s: State, shard: int, now: int, limit: nat)
    requires Inv(s)
    ensures SelectHeads(s.events, shard, now, limit).Success?
    ensures var ids := SelectHeads(s.events, shard, now, limit).value;
      forall i :: 0 <= i < |ids| ==> ids[i] in s.events && Ready(s.ever, s.log, s.events[ids[i]].event)
  {
    SelectHeadsExact(s.events, shard, now, limit);
    var ids := SelectHeads(s.events, shard, now, limit).value;
    forall i | 0 <= i < |ids| ensures ids[i] in s.events && Ready(s.ever, s.log, s.events[ids[i]].event) {
      assert ids[i] in EligibleHeads(s.events, shard, now);
      HeadIsReady(s, ids[i]);
    }
  }

  lemma RelayJoins(s: State, r: nat, relay: Relay)
    requires Inv(s) && RelayFine(s.ever, s.log, relay)
    ensures Inv(s.(relays := s.relays[r := relay]))
  {
  }

  lemma SelectKeeps(s: State, r: nat, shard: int, now: int, limit: int)
    requires Inv(s)
    ensures Inv(SelectStep(s, r, shard, now, limit))
  {
    if r !in s.relays && limit >= 0 {
      SelectedFine(s, shard, now, limit);
      var ids := SelectHeads(s.events, shard, now, limit).value;
      RelayJoins(s, r, Selected(RecordsOf(s.events, ids)));
    }
  }

  lemma SendKeeps(s: State, r: nat)
    requires Inv(s)
    ensures Inv(SendStep(s, r))
  {
    if r in s.relays && s.relays[r].Selected? {
      assert RelayFine(s.ever, s.log, s.relays[r]);
      RelayJoins(s, r, Sent(s.relays[r].heads));
    }
  }

  lemma CollectKeeps(s: State, r: nat, acks: seq<bool>)
    requires Inv(s)
    ensures Inv(CollectStep(s, r, acks))
  {
    if r in s.relays && s.relays[r].Sent? && Truthful(s.log, s.relays[r].heads, acks) {
      RelayJoins(s, r, Answered(s.relays[r].heads, acks));
    }
  }

  lemma CrashKeeps(s: State, r: nat)
    requires Inv(s)
    ensures Inv(s.(relays := s.relays - {r}))
  {
  }

  lemma AbortKeeps(s: State, t: nat)
    requires Inv(s)
    ensures Inv(s.(txs := s.txs - {t}))
  {
  }

  lemma AppendKeeps(s: State, e: Event)
    requires Inv(s) && e in s.inFlight
    ensures Inv(s.(log := s.log + [e]))
  {
    var s' := s.(log := s.log + [e]);
    forall i | 0 <= i < |s'.log| ensures Ready(s.ever, s'.log[..i], s'.log[i]) {
      if i < |s.log| {
        assert s'.log[..i] == s.log[..i];
      } else {
        assert s'.log[..i] == s.log;
      }
    }
    forall r | r in s.relays ensures RelayFine(s.ever, s'.log, s.relays[r]) {
      forall i | 0 <= i < |s.relays[r].heads| ensures Ready(s.ever, s'.log, s.relays[r].heads[i].event) {
        ReadyGrows(s.ever, s.ever, s.log, s'.log, s.relays[r].heads[i].event);
      }
    }
  }

  /** Settling deletes only acknowledged rows, and an acknowledged row is in the log. */
  lemma SettledLosesNothing(s: State, relay: Relay, now: int, delays: seq<int>)
    requires relay.Answered? && |relay.heads| == |relay.acks| == |delays| && RelayFine(s.ever, s.log, relay)
    requires Contiguous(s.streams, s.ever, s.ids) && NothingLost(s.events, s.ever, s.log)
    ensures NothingLost(Settled(s.events, relay.heads, relay.acks, now, delays), s.ever, s.log)
  {
    var heads, acks := relay.heads, relay.acks;
    forall p | p in s.ever && s.ever[p].id in Delivered(heads, acks) ensures s.ever[p] in s.log {
      var i :| 0 <= i < |heads| && acks[i] && heads[i].event.id == s.ever[p].id;
      assert Ready(s.ever, s.log, heads[i].event);
      assert SlotOf(heads[i].event) in s.ever;
    }
  }

  lemma SettleKeeps(s: State, r: nat, now: int, delays: seq<int>)
    requires Inv(s)
    ensures Inv(SettleStep(s, r, now, delays))
  {
    if SettleStep(s, r, now, delays) != s {
      SettledLosesNothing(s, s.relays[r], now, delays);
    }
  }

  lemma BeginKeeps(s: State, t: nat)
    requires Inv(s)
    ensures Inv(BeginStep(s, t))
  {
    if t !in s.txs {
      WriterStep(s, t, Tx(map[], map[], None, map[]), s.ids);
    }
  }

  lemma EnsureKeeps(s: State, t: nat, stream: string, shard: int)
    requires Inv(s) && t in s.txs
    ensures Inv(EnsureState(s, t, stream, shard))
  {
    EnsureFine(s, t, s.txs[t], stream, shard);
    WriterStep(s, t, EnsureStep(s, t, s.txs[t], stream, shard), s.ids);
  }

  lemma ReserveKeeps(s: State, t: nat, stream: string, count: int)
    requires Inv(s) && t in s.txs
    ensures Inv(ReserveState(s, t, stream, count))
  {
    ReserveFine(s, t, s.txs[t], stream, count);
    WriterStep(s, t, ReserveStep(s, t, s.txs[t], stream, count), s.ids);
  }

  lemma InsertKeeps(s: State, t: nat, tx: Tx, drafts: seq<Draft>)
    requires Inv(s) && TakesOnlyFree(s, t, tx)
    requires TxFine(s.streams, s.ids + (set i | 0 <= i < |drafts| :: drafts[i].id), tx)
    ensures Inv(InsertState(s, t, tx, drafts))
  {
    WriterStep(s, t, tx, s.ids + (set i | 0 <= i < |drafts| :: drafts[i].id));
  }

  lemma BatchKeeps(s: State, t: nat, drafts: seq<Draft>, now: int)
    requires Inv(s) && t in s.txs && CanInsert(s, s.txs[t], drafts, now)
    ensures Inv(InsertState(s, t, Fill(s.txs[t], s.txs[t].owed.value, drafts, now), drafts))
  {
    InsertFine(s, t, drafts, now, s.ids + (set i | 0 <= i < |drafts| :: drafts[i].id));
    InsertKeeps(s, t, Fill(s.txs[t], s.txs[t].owed.value, drafts, now), drafts);
  }

  lemma StepKeepsInv(s: State, a: Action)
    requires Inv(s)
    ensures Inv(Step(s, a))
  {
    hide Inv, Fill, SelectStep, SendStep, CollectStep, SettleStep, BeginStep, EnsureState, ReserveState, InsertState,
         CommitStep;
    match a
    case Begin(t) => BeginKeeps(s, t);
    case Ensure(t, stream, shard) => if t in s.txs { EnsureKeeps(s, t, stream, shard); }
    case Reserve(t, stream, count) => if t in s.txs { ReserveKeeps(s, t, stream, count); }
    case Insert(t, drafts, now) =>
      if t in s.txs && CanInsert(s, s.txs[t], drafts, now) { BatchKeeps(s, t, drafts, now); }
    case Commit(t) => if t in s.txs && s.txs[t].owed.None? { CommitKeeps(s, t); }
    case Abort(t) => AbortKeeps(s, t);
    case Select(r, shard, now, limit) => SelectKeeps(s, r, shard, now, limit);
    case Send(r) => SendKeeps(s, r);
    case Append(e) => if e in s.inFlight { AppendKeeps(s, e); }
    case Collect(r, acks) => CollectKeeps(s, r, acks);
    case Settle(r, now, delays) => SettleKeeps(s, r, now, delays);
    case Crash(r) => CrashKeeps(s, r);
  }

  lemma {:induction false} RunKeepsInv(s: State, actions: seq<Action>)
    requires Inv(s)
    ensures Inv(Run(s, actions))
  {
    if actions != [] {
      RunKeepsInv(s, actions[..|actions| - 1]);
      StepKeepsInv(Run(s, actions[..|actions| - 1]), actions[|actions| - 1]);
    }
  }

  // ------------------------------------------------------------ main results

  /**
   In every interleaving, a record of sequence n is appended only after every
   smaller sequence of its stream has been appended at least once.
   */
  lemma PublishedInOrder(actions: seq<Action>, i: nat, n: int)
    requires i < |Run(Initial, actions).log| && 1 <= n < Run(Initial, actions).log[i].sequence
    ensures var log := Run(Initial, actions).log;
      exists j :: 0 <= j < i && log[j].stream == log[i].stream && log[j].sequence == n
  {
    RunKeepsInv(Initial, actions);
    var s := Run(Initial, actions);
    var e := s.log[i];
    assert Ready(s.ever, s.log[..i], e);
    var x := s.ever[(e.stream, n)];
    assert x in s.log[..i] && SlotOf(x) == (e.stream, n);
    var j :| 0 <= j < i && s.log[..i][j] == x;
    assert s.log[j] == x;
  }

  /** What a consumer keeps of one stream when it skips every sequence it has already passed. */
  function Consumed(log: seq<Event>, stream: string): seq<Event> {
    if log == [] then []
    else
      var seen, e := Consumed(log[..|log| - 1], stream), log[|log| - 1];
      var passed := if seen == [] then 0 else seen[|seen| - 1].sequence;
      if e.stream == stream && e.sequence > passed then seen + [e] else seen
  }

  /** The events with sequences 1..n of a stream, as committed. */
  ghost function CommittedPrefix(ever: map<Slot, Event>, stream: string, n: nat): seq<Event>
    requires forall i :: 1 <= i <= n ==> (stream, i) in ever
  {
    seq(n, i requires 0 <= i < n => ever[(stream, i + 1)])
  }

  /** The consumer sees a prefix of the committed stream, and it includes all that was appended. */
  ghost predicate SeesPrefix(ever: map<Slot, Event>, log: seq<Event>, stream: string, n: nat) {
    && (forall i :: 1 <= i <= n ==> (stream, i) in ever)
    && Consumed(log, stream) == CommittedPrefix(ever, stream, n)
    && (forall i :: 1 <= i ==> ((stream, i) in ever && ever[(stream, i)] in log <==> i <= n))
  }

  lemma {:induction false} InOrderConsumed(streams: Streams, ever: map<Slot, Event>, ids: set<int>, log: seq<Event>,
                                           stream: string)
    returns (n: nat)
    requires Contiguous(streams, ever, ids) && InOrder(ever, log)
    ensures SeesPrefix(ever, log, stream, n)
    decreases |log|
  {
    n := 0;
    if log != [] {
      var before, e := log[..|log| - 1], log[|log| - 1];
      assert forall i :: 0 <= i < |before| ==> before[..i] == log[..i];
      n := InOrderConsumed(streams, ever, ids, before, stream);
      assert Ready(ever, before, e) by { assert log[..|log| - 1] == before; }
      assert log == before + [e];
      if e.stream == stream {
        n := ConsumeOne(streams, ever, ids, before, e, n);
      }
    }
  }

  lemma ConsumeOne(streams: Streams, ever: map<Slot, Event>, ids: set<int>, before: seq<Event>, e: Event, n: nat)
    returns (m: nat)
    requires Contiguous(streams, ever, ids) && Ready(ever, before, e) && SeesPrefix(ever, before, e.stream, n)
    ensures SeesPrefix(ever, before + [e], e.stream, m)
  {
    var log := before + [e];
    assert log[..|log| - 1] == before;
    assert (e.stream, e.sequence) in ever;
    if e.sequence > n {
      assert !((e.stream, n + 1) in ever && ever[(e.stream, n + 1)] in before);
      m := n + 1;
      assert Consumed(log, e.stream) == CommittedPrefix(ever, e.stream, m);
    } else {
      m := n;
    }
  }

  /**
   For every interleaving and stream, a consumer that skips sequences it has
   already passed receives exactly the committed events 1, 2, ..., n, in order,
   with their committed contents; and all of them once no row is left.
   */
  lemma ConsumerSeesCommittedStream(actions: seq<Action>, stream: string) returns (n: nat)
    ensures var s := Run(Initial, actions);
      && SeesPrefix(s.ever, s.log, stream, n)
      && n <= Base(s.streams, stream)
      && ((forall id :: id in s.events ==> s.events[id].event.stream != stream) ==> n == Base(s.streams, stream))
  {
    RunKeepsInv(Initial, actions);
    var s := Run(Initial, actions);
    n := InOrderConsumed(s.streams, s.ever, s.ids, s.log, stream);
    if n > 0 {
      assert (stream, n) in s.ever;
    }
    if n < Base(s.streams, stream) {
      assert (stream, n + 1) in s.ever;
      var x := s.ever[(stream, n + 1)];
      assert x.id in s.events;
      assert Committed(s.ever, s.events[x.id].event);
      assert s.events[x.id].event == x;
    }
  }

  /** No committed event is ever lost: it is a row under its own id and contents, or it is in the log. */
  lemma NoEventLost(actions: seq<Action>, p: Slot)
    requires p in Run(Initial, actions).ever
    ensures var s := Run(Initial, actions);
      var e := s.ever[p];
      (e.id in s.events && s.events[e.id].event == e) || e in s.log
  {
    RunKeepsInv(Initial, actions);
    var s := Run(Initial, actions);
    var e := s.ever[p];
    if e.id in s.events {
      assert Committed(s.ever, s.events[e.id].event);
    }
  }

  lemma OnlySettleDeletes(s: State, a: Action, id: int)
    requires id in s.events && id !in Step(s, a).events
    ensures a.Settle? && a.relay in s.relays && s.relays[a.relay].Answered?
    ensures |s.relays[a.relay].heads| == |s.relays[a.relay].acks|
    ensures id in Delivered(s.relays[a.relay].heads, s.relays[a.relay].acks)
  {
    hide Fill, CanInsert, EnsureStep, ReserveStep, SelectHeads, RecordsOf, EventsOf, Truthful;
  }

  /** A row disappears only when a relay settles a batch in which the row's own result carried no error. */
  lemma DeletedOnlyAfterOwnAck(actions: seq<Action>, a: Action, id: int) returns (i: nat)
    requires var s := Run(Initial, actions); id in s.events && id !in Step(s, a).events
    ensures var s := Run(Initial, actions);
      && a.Settle? && a.relay in s.relays && s.relays[a.relay].Answered?
      && var heads, acks := s.relays[a.relay].heads, s.relays[a.relay].acks;
      && i < |heads| == |acks| && acks[i]
      && heads[i].event == s.events[id].event && s.events[id].event in s.log
  {
    RunKeepsInv(Initial, actions);
    var s := Run(Initial, actions);
    OnlySettleDeletes(s, a, id);
    var heads, acks := s.relays[a.relay].heads, s.relays[a.relay].acks;
    i :| 0 <= i < |heads| && acks[i] && heads[i].event.id == id;
    assert RelayFine(s.ever, s.log, s.relays[a.relay]);
    assert Ready(s.ever, s.log, heads[i].event);
    assert Committed(s.ever, s.events[id].event);
  }

  /**
   Over every run with aborts the committed sequences of a stream are exactly
   1..last_sequence, no two events share a sequence or an id, and every visible
   row carries the shard of its stream row.
   */
  lemma CommittedSequencesContiguous(actions: seq<Action>)
    ensures var s := Run(Initial, actions);
      Contiguous(s.streams, s.ever, s.ids) && RowsFaithful(s.streams, s.events, s.ever) && UniqueSlots(s.events)
  {
    RunKeepsInv(Initial, actions);
    RowsHaveOwnSlots(Run(Initial, actions));
  }

  lemma RowsHaveOwnSlots(s: State)
    requires Inv(s)
    ensures UniqueSlots(s.events)
  {
    forall a, b | a in s.events && b in s.events && SameSlot(s.events[a].event, s.events[b].event) ensures a == b {
      assert Committed(s.ever, s.events[a].event) && Committed(s.ever, s.events[b].event);
    }
  }

  ghost predicate Grows(s: State, s': State) {
    && (forall k :: k in s.streams ==>
          k in s'.streams && s'.streams[k].shard == s.streams[k].shard && s'.streams[k].last >= s.streams[k].last)
    && (forall p :: p in s.ever ==> p in s'.ever && s'.ever[p] == s.ever[p])
    && s.log <= s'.log
  }

  lemma CommitGrows(s: State, t: nat)
    requires Inv(s) && t in s.txs && s.txs[t].owed.None?
    ensures Grows(s, CommitStep(s, t))
  {
    CommitContiguous(s, t);
    assert TxStreams(s.streams, s.txs[t]);
  }

  lemma OthersKeepTables(s: State, a: Action)
    requires !a.Commit?
    ensures var s' := Step(s, a); s'.streams == s.streams && s'.ever == s.ever && s.log <= s'.log
  {
    hide Fill, CanInsert, EnsureStep, ReserveStep, SelectHeads, RecordsOf, Settled, EventsOf, Truthful;
  }

  lemma StepGrows(s: State, a: Action)
    requires Inv(s)
    ensures Grows(s, Step(s, a))
  {
    if a.Commit? {
      if a.tx in s.txs && s.txs[a.tx].owed.None? { CommitGrows(s, a.tx); }
    } else {
      OthersKeepTables(s, a);
    }
  }

  /** A committed stream keeps its shard and its history for good, whatever later EnsureStream calls pass. */
  lemma {:induction false} StreamsOnlyGrow(s: State, actions: seq<Action>)
    requires Inv(s)
    ensures Grows(s, Run(s, actions))
  {
    if actions != [] {
      StreamsOnlyGrow(s, actions[..|actions| - 1]);
      RunKeepsInv(s, actions[..|actions| - 1]);
      StepGrows(Run(s, actions[..|actions| - 1]), actions[|actions| - 1]);
    }
  }

  /** An aborted transaction leaves both tables alone and frees its stream locks; a crashed relay is forgotten. */
  lemma AbandonedLeavesNothing(s: State, t: nat, u: nat, stream: string, r: nat)
    requires Inv(s) && t in s.txs && stream in s.txs[t].streams
    ensures var s' := Step(s, Abort(t));
      && s'.streams == s.streams && s'.events == s.events && s'.ever == s.ever
      && t !in s'.txs && !Locked(s', u, stream)
    ensures var s' := Step(s, Crash(r));
      s'.events == s.events && s'.log == s.log && s'.txs == s.txs && r !in s'.relays
  {
    hide Contiguous, RowsFaithful, NothingLost, InOrder, RelaysFine, TxStreams, TxRows;
  }

  /** Under the row locks, fresh ids and the reserved range, the batch INSERT never violates a unique constraint. */
  lemma InsertNeverConflicts(s: State, t: nat, drafts: seq<Draft>, now: int)
    requires Inv(s) && t in s.txs && s.txs[t].owed.Some? && FreshIds(s.ids, drafts)
    requires |drafts| == s.txs[t].owed.value.range.last - s.txs[t].owed.value.range.first + 1
    ensures CanInsert(s, s.txs[t], drafts, now)
  {
    var tx := s.txs[t];
    var o := tx.owed.value;
    var table := s.events + tx.events;
    forall id | id in table
      ensures id in s.ids && (table[id].event.stream == o.stream ==> table[id].event.sequence < o.range.first)
    {
      if id in tx.events {
        var r := tx.events[id];
        assert (r.event.stream, r.event.sequence) in tx.slots;
      } else {
        var r := s.events[id];
        assert Committed(s.ever, r.event);
        assert (r.event.stream, r.event.sequence) in s.ever;
      }
    }
    BatchFits(table, s.ids, o, drafts, now);
  }

  lemma {:induction false} BatchFits(table: Events, ids: set<int>, owed: Owed, drafts: seq<Draft>, now: int)
    requires FreshIds(ids, drafts)
    requires forall id :: id in table ==>
      id in ids && (table[id].event.stream == owed.stream ==> table[id].event.sequence < owed.range.first)
    ensures Inserted(table, BuildRecords(owed, drafts, now)).Success?
    decreases |drafts|
  {
    if drafts != [] {
      var r := BuildRecord(owed, drafts[0], now);
      assert BuildRecords(owed, drafts, now)[1..] == BuildRecords(Rest(owed), drafts[1..], now);
      BatchFits(table[r.event.id := r], ids + {drafts[0].id}, Rest(owed), drafts[1..], now);
    }
  }

  /**
   Why the shard has to be the stored one: with two shards in one stream,
   SelectHeads hands out sequence 2 while sequence 1 is still waiting.
   */
  lemma MixedShardsBreakOrder(content: Content)
    ensures var events := map[10 := Record(Event(10, "s", 1, content), 0, 0, 0, 1),
                              11 := Record(Event(11, "s", 2, content), 1, 0, 0, 1)];
      11 in EligibleHeads(events, 1, 0) && 10 in events
  {
  }
}
