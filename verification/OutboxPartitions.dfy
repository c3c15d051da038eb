/**
 The log as its consumers read it: the producer places a record by the hash of
 its key, and a consumer reads one partition.
 */
module OutboxPartitions {
  import opened ByteStrings
  import opened Outbox
  import opened OutboxProtocol

  /** Which partition a key goes to. */
  type Placement = Bytes -> int

  function PartitionLog(log: seq<Event>, place: Placement, p: int): seq<Event> {
    if log == [] then []
    else
      var front, e := PartitionLog(log[..|log| - 1], place, p), log[|log| - 1];
      if place(e.content.key) == p then front + [e] else front
  }

  /** Every appended event of the stream went to the partition. */
  ghost predicate AllIn(log: seq<Event>, stream: string, place: Placement, p: int) {
    forall i :: 0 <= i < |log| && log[i].stream == stream ==> place(log[i].content.key) == p
  }

  lemma {:induction false} PartitionHolds(log: seq<Event>, place: Placement, p: int)
    ensures forall e :: e in PartitionLog(log, place, p) ==> place(e.content.key) == p
  {
    if log != [] {
      PartitionHolds(log[..|log| - 1], place, p);
    }
  }

  lemma {:induction false} ConsumedAreAppended(log: seq<Event>, stream: string)
    ensures forall e :: e in Consumed(log, stream) ==> e in log && e.stream == stream
  {
    if log != [] {
      ConsumedAreAppended(log[..|log| - 1], stream);
      assert log == log[..|log| - 1] + [log[|log| - 1]];
    }
  }

  /** A partition that holds the whole stream shows its consumer what the whole log would. */
  lemma {:induction false} WholeStreamInPartition(log: seq<Event>, stream: string, place: Placement, p: int)
    requires AllIn(log, stream, place, p)
    ensures Consumed(PartitionLog(log, place, p), stream) == Consumed(log, stream)
  {
    if log != [] {
      var front, e := log[..|log| - 1], log[|log| - 1];
      WholeStreamInPartition(front, stream, place, p);
      var part := PartitionLog(front, place, p);
      assert (part + [e])[..|part|] == part;
    }
  }

  /** What the consumer of a prefix keeps is everything of the stream that was appended. */
  lemma AppendedAreConsumed(streams: Streams, ever: map<Slot, Event>, ids: set<int>, log: seq<Event>, stream: string,
                            n: nat, e: Event)
    requires Contiguous(streams, ever, ids) && SeesPrefix(ever, log, stream, n)
    requires e in log && e.stream == stream && Committed(ever, e)
    ensures e in Consumed(log, stream)
  {
    assert (stream, e.sequence) in ever && 1 <= e.sequence;
    assert ever[(stream, e.sequence)] == e;
    assert CommittedPrefix(ever, stream, n)[e.sequence - 1] == e;
  }

  /**
   In every interleaving, the consumer of a partition that skips sequences it
   has passed receives exactly the committed events 1, ..., n of the stream
   that have been appended, in order, if and only if all of them went to that
   partition.
   */
  lemma PartitionConsumerSeesStream(actions: seq<Action>, stream: string, place: Placement, p: int) returns (n: nat)
    ensures var s := Run(Initial, actions);
      && SeesPrefix(s.ever, s.log, stream, n)
      && (Consumed(PartitionLog(s.log, place, p), stream) == CommittedPrefix(s.ever, stream, n)
          <==> AllIn(s.log, stream, place, p))
  {
    n := ConsumerSeesCommittedStream(actions, stream);
    RunKeepsInv(Initial, actions);
    var s := Run(Initial, actions);
    var part := PartitionLog(s.log, place, p);
    if AllIn(s.log, stream, place, p) {
      WholeStreamInPartition(s.log, stream, place, p);
    }
    if Consumed(part, stream) == Consumed(s.log, stream) {
      forall i | 0 <= i < |s.log| && s.log[i].stream == stream ensures place(s.log[i].content.key) == p {
        assert Ready(s.ever, s.log[..i], s.log[i]);
        AppendedAreConsumed(s.streams, s.ever, s.ids, s.log, stream, n, s.log[i]);
        ConsumedAreAppended(part, stream);
        PartitionHolds(s.log, place, p);
      }
    }
  }

  /** Writers that key a stream's records by the stream meet the condition, whatever the hash. */
  lemma KeyedByStream(actions: seq<Action>, stream: string, place: Placement, keyOf: string -> Bytes)
    requires forall q :: q in Run(Initial, actions).ever ==> Run(Initial, actions).ever[q].content.key == keyOf(q.0)
    ensures AllIn(Run(Initial, actions).log, stream, place, place(keyOf(stream)))
  {
    RunKeepsInv(Initial, actions);
    var s := Run(Initial, actions);
    forall i | 0 <= i < |s.log| && s.log[i].stream == stream
      ensures place(s.log[i].content.key) == place(keyOf(stream))
    {
      assert Ready(s.ever, s.log[..i], s.log[i]);
      assert SlotOf(s.log[i]) in s.ever;
    }
  }
}
