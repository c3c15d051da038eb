/**
 The batch publisher: one broker call for the whole batch, results matched back
 to the inputs by record identity.
 */
module KafkaPublisher {
  import opened Wrappers
  import opened ByteStrings

  datatype Error = Missing(id: int) | Broker(message: string)

  /** One input of a batch. */
  datatype Item = Item(id: int, key: Bytes, payload: Bytes)

  /** A record handed to the client library; results refer to it by identity. */
  class ProducedRecord {
    const topic: string
    const key: Bytes
    const value: Bytes

    constructor (topic: string, key: Bytes, value: Bytes)
      ensures this.topic == topic && this.key == key && this.value == value
    {
      this.topic := topic;
      this.key := key;
      this.value := value;
    }
  }

  /** A result of the broker call. Its record may be nil or one that was never asked for. */
  datatype ProduceResult = ProduceResult(record: ProducedRecord?, err: Option<Error>)

  datatype Placement = Placement(partition: int, offset: int)

  datatype PublishResult = PublishResult(id: int, partition: int, offset: int, err: Option<Error>)

  /** The last result that names the record, if any does. */
  function LastFor(reported: seq<ProduceResult>, record: ProducedRecord): (r: Option<ProduceResult>)
    ensures r.Some? ==> r.value in reported && r.value.record == record
    ensures r.None? ==> forall i :: 0 <= i < |reported| ==> reported[i].record != record
  {
    if reported == [] then None
    else if reported[|reported| - 1].record == record then Some(reported[|reported| - 1])
    else LastFor(reported[..|reported| - 1], record)
  }

  /** What one input gets back: its own record's last report, or an error naming it. */
  function Outcome(reported: seq<ProduceResult>, placed: ProducedRecord -> Placement, item: Item,
                   record: ProducedRecord)
    : PublishResult
  {
    match LastFor(reported, record)
    case None => PublishResult(item.id, 0, 0, Some(Missing(item.id)))
    case Some(r) => PublishResult(item.id, placed(record).partition, placed(record).offset, r.err)
  }

  /** Report `j` names the record and no later report does. */
  ghost predicate IsLastFor(reported: seq<ProduceResult>, record: ProducedRecord, j: int) {
    && 0 <= j < |reported| && reported[j].record == record
    && forall k :: j < k < |reported| ==> reported[k].record != record
  }

  lemma {:induction false} LastForIs(reported: seq<ProduceResult>, record: ProducedRecord, j: nat)
    requires IsLastFor(reported, record, j)
    ensures LastFor(reported, record) == Some(reported[j])
  {
    if j < |reported| - 1 {
      LastForIs(reported[..|reported| - 1], record, j);
    }
  }

  lemma {:induction false} LastForAt(reported: seq<ProduceResult>, record: ProducedRecord) returns (j: nat)
    requires LastFor(reported, record).Some?
    ensures IsLastFor(reported, record, j) && LastFor(reported, record) == Some(reported[j])
  {
    j := |reported| - 1;
    if reported[j].record != record {
      j := LastForAt(reported[..j], record);
    }
  }

  /** What an input gets back, by the position of its record's last report; an error naming it if there is none. */
  ghost predicate AnswersFor(reported: seq<ProduceResult>, placed: ProducedRecord -> Placement, item: Item,
                             record: ProducedRecord, result: PublishResult)
  {
    && (forall j :: IsLastFor(reported, record, j) ==>
          result == PublishResult(item.id, placed(record).partition, placed(record).offset, reported[j].err))
    && ((forall j :: 0 <= j < |reported| ==> reported[j].record != record) ==>
          result == PublishResult(item.id, 0, 0, Some(Missing(item.id))))
    && (result.err.None? <==> Written(reported, record))
  }

  /** The last report about the record says that it was written. */
  ghost predicate Written(reported: seq<ProduceResult>, record: ProducedRecord) {
    exists j :: IsLastFor(reported, record, j) && reported[j].err.None?
  }

  lemma OutcomeAnswers(reported: seq<ProduceResult>, placed: ProducedRecord -> Placement, item: Item,
                       record: ProducedRecord)
    ensures AnswersFor(reported, placed, item, record, Outcome(reported, placed, item, record))
  {
    forall j | IsLastFor(reported, record, j) ensures LastFor(reported, record) == Some(reported[j]) {
      LastForIs(reported, record, j);
    }
    if LastFor(reported, record).Some? {
      var j := LastForAt(reported, record);
    }
  }

  /** The records built for a batch: one fresh record per input. */
  ghost predicate RecordsFor(topic: string, batch: seq<Item>, records: seq<ProducedRecord>) {
    && |records| == |batch|
    && (forall i :: 0 <= i < |batch| ==>
          records[i].topic == topic && records[i].key == batch[i].key && records[i].value == batch[i].payload)
    && (forall i, j :: 0 <= i < j < |batch| ==> records[i] != records[j])
  }

  /** `produce` and `placed` stand for the broker call: its results, and where it put each record. */
  method PublishBatchWithResults(topic: string, batch: seq<Item>, produce: seq<ProducedRecord> -> seq<ProduceResult>,
                                 placed: ProducedRecord -> Placement)
    returns (results: seq<PublishResult>, ghost records: seq<ProducedRecord>)
    ensures RecordsFor(topic, batch, records)
    ensures |results| == |batch|
    ensures forall i :: 0 <= i < |batch| ==> results[i] == Outcome(produce(records), placed, batch[i], records[i])
    ensures forall i :: 0 <= i < |batch| ==> AnswersFor(produce(records), placed, batch[i], records[i], results[i])
  {
    records := [];
    if batch == [] {
      return [], [];
    }
    var sent: seq<ProducedRecord> := [];
    var idsByRecord: map<ProducedRecord, int> := map[];
    for n := 0 to |batch|
      invariant RecordsFor(topic, batch[..n], sent)
      invariant forall i :: 0 <= i < n ==> sent[i] in idsByRecord && idsByRecord[sent[i]] == batch[i].id
      invariant forall i :: 0 <= i < n ==> allocated(sent[i])
    {
      var record := new ProducedRecord(topic, batch[n].key, batch[n].payload);
      sent := sent + [record];
      idsByRecord := idsByRecord[record := batch[n].id];
    }
    assert batch[..|batch|] == batch;
    records := sent;

    var produced := produce(sent);
    var byRecord: map<ProducedRecord, ProduceResult> := map[];
    for n := 0 to |produced|
      invariant forall r: ProducedRecord :: r in byRecord <==> LastFor(produced[..n], r).Some?
      invariant forall r: ProducedRecord :: r in byRecord ==> LastFor(produced[..n], r) == Some(byRecord[r])
    {
      assert produced[..n + 1][..n] == produced[..n];
      if produced[n].record != null {
        byRecord := byRecord[produced[n].record := produced[n]];
      }
    }
    assert produced[..|produced|] == produced;

    results := [];
    for n := 0 to |sent|
      invariant |results| == n
      invariant forall i :: 0 <= i < n ==> results[i] == Outcome(produced, placed, batch[i], sent[i])
    {
      var record := sent[n];
      if record !in byRecord {
        results := results + [PublishResult(idsByRecord[record], 0, 0, Some(Missing(idsByRecord[record])))];
      } else {
        var at := placed(record);
        results := results + [PublishResult(idsByRecord[record], at.partition, at.offset, byRecord[record].err)];
      }
    }
    forall i | 0 <= i < |batch| ensures AnswersFor(produced, placed, batch[i], records[i], results[i]) {
      OutcomeAnswers(produced, placed, batch[i], records[i]);
    }
  }

  method PublishBatch(topic: string, batch: seq<Item>, produce: seq<ProducedRecord> -> seq<ProduceResult>,
                      placed: ProducedRecord -> Placement)
    returns (failure: Option<Error>, ghost records: seq<ProducedRecord>)
    ensures RecordsFor(topic, batch, records)
    ensures failure.None? <==> forall i :: 0 <= i < |batch| ==> Written(produce(records), records[i])
    ensures failure.Some? ==> exists i ::
      && 0 <= i < |batch| && failure == Outcome(produce(records), placed, batch[i], records[i]).err
      && forall j :: 0 <= j < i ==> Written(produce(records), records[j])
  {
    var results;
    results, records := PublishBatchWithResults(topic, batch, produce, placed);
    for n := 0 to |results|
      invariant forall j :: 0 <= j < n ==> results[j].err.None?
    {
      if results[n].err.Some? {
        return results[n].err, records;
      }
    }
    failure := None;
  }

  /** At most one report per record. */
  ghost predicate AtMostOnce(reported: seq<ProduceResult>) {
    forall i, j :: 0 <= i < j < |reported| && reported[i].record != null ==> reported[i].record != reported[j].record
  }

  /** With one report per record, every permutation of the reports gives every input the same outcome. */
  lemma OutcomeIgnoresOrder(a: seq<ProduceResult>, b: seq<ProduceResult>, record: ProducedRecord)
    requires multiset(a) == multiset(b) && AtMostOnce(a) && AtMostOnce(b)
    ensures LastFor(a, record) == LastFor(b, record)
  {
    assert forall x :: x in a <==> x in multiset(a);
    assert forall x :: x in b <==> x in multiset(b);
  }

  /** Reports about other records, nil reports and reports left out never change an input's outcome. */
  lemma {:induction false} OutcomeIsOwn(reported: seq<ProduceResult>, record: ProducedRecord)
    ensures LastFor(reported, record) == LastFor(Only(reported, record), record)
  {
    if reported != [] {
      var front, last := reported[..|reported| - 1], reported[|reported| - 1];
      OutcomeIsOwn(front, record);
      if last.record == record {
        assert Only(reported, record)[|Only(reported, record)| - 1] == last;
      }
    }
  }

  function Only(reported: seq<ProduceResult>, record: ProducedRecord): seq<ProduceResult> {
    if reported == [] then []
    else
      var front, last := Only(reported[..|reported| - 1], record), reported[|reported| - 1];
      if last.record == record then front + [last] else front
  }

  /**
   The comment on PublishResult promises a partition and an offset only without
   an error. For one input that holds exactly when its record was not reported,
   was reported written, or was left unplaced.
   */
  lemma PlacementOnlyWithoutError(reported: seq<ProduceResult>, placed: ProducedRecord -> Placement, item: Item,
                                  record: ProducedRecord)
    ensures var r := Outcome(reported, placed, item, record);
      (r.err.Some? ==> r.partition == 0 && r.offset == 0) <==>
      var last := LastFor(reported, record);
      last.None? || last.value.err.None? || placed(record) == Placement(0, 0)
  {
    assert placed(record) == Placement(placed(record).partition, placed(record).offset);
  }

  /** A record that was placed and then reported with an error keeps its place in the result. */
  lemma PlacementWithError(item: Item, record: ProducedRecord)
    ensures var reported := [ProduceResult(record, Some(Broker("timed out")))];
      Outcome(reported, _ => Placement(3, 7), item, record) == PublishResult(item.id, 3, 7, Some(Broker("timed out")))
  {
    var reported := [ProduceResult(record, Some(Broker("timed out")))];
    assert LastFor(reported, record) == Some(reported[0]);
  }
}
