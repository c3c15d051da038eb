# Verified models of Cordis

Dafny models of the packages under `pkg/` that carry Cordis's delivery, limiting,
migration and encoding guarantees, with proofs of what those packages promise.
`dafny verify dfyconfig.toml` checks the whole project.

| module | models |
|---|---|
| `Outbox` | the two outbox tables and the statements of `pkg/outbox/outbox.go` |
| `OutboxProtocol` | writers, relays and the broker as one state machine, statement by statement |
| `OutboxDrain` | undisturbed writer transactions and relay rounds, and draining a shard |
| `OutboxPartitions` | what the consumer of one partition of the topic sees |
| `KafkaPublisher`, `OutboxRelay` | the batch publisher and the relay's batch body, as loops |
| `LocalRateLimit`, `RateQuota` | the in-process fixed-window limiter and how much it admits |
| `Breaker`, `RateManager` | the circuit breaker under concurrent callers, and the manager around it |
| `KeyedLimiter`, `ConcurrencyLimiter` | the two concurrency limiters under every interleaving |
| `SocketLimit` | socket leases and their exact counters |
| `Migration` | the tracked migration runner with errors and crashes |
| `Password`, `Cursor`, `Base64`, `Text` | printed password hashes, signed cursors, and the text formats they need |
| `ClientIp` | the forwarded-address resolver and the network scopes |
| `Wrappers`, `ByteStrings`, `Sets`, `Totals` | shared types and facts about finite sets and sums |

## How the outbox protocol is read

`OutboxProtocol.Step` is total: a step that is not possible leaves the state as
it is, so every sequence of actions is a run and the theorems quantify over all
of them. A run interleaves any number of writer transactions (begin, ensure,
reserve, insert, commit or abort) with any number of relays (select, send,
collect, settle, or crash at any point). The broker may append a sent record at
any later time and any number of times, also after the relay has given up on it.

The proofs assume:

- Reserving and inserting share one transaction, the writer fills exactly its
  reserved range, and its rows carry the shard that the reservation returned.
  `services/message/v1/internal/server/outbox.go:58-92` does this.
- A stream row stays locked from the statement that wrote it to the end of the
  transaction, and a commit is atomic.
- Row ids are never handed out twice (`pkg/snowflake/snowflake.go`).
- The broker reports success only for a record it has appended.
- The log is one sequence per topic. A consumer of one partition sees a stream as
  a reader of the whole log does if and only if all its records went to that
  partition (`OutboxPartitions.PartitionConsumerSeesStream`). The producer places
  records by the hash of their key (`pkg/kafka/producer.go:37`), and the writers
  derive that key from the stream, for instance in
  `services/message/v1/internal/server/events.go:290-307`.

Nothing relies on the relay's advisory lock, so the results also hold for relays
that overlap on a shard.

## Where code and comments differ

The model follows the code in each case.

- `ListReadyShards` is described as listing shards with an eligible head
  (`pkg/outbox/outbox.go:262-263`). It also lists shards whose only eligible rows
  are hidden behind heads that are backing off: `Outbox.ReadyShardWithoutHead` is
  such a table, and `Outbox.ReadyShardsExact` gives the exact condition.
- `PublishResult` is described as carrying a partition and an offset only without
  an error (`pkg/kafka/publisher.go:32`). The code copies both from the record
  whenever a result exists. `KafkaPublisher.PlacementWithError` is an input, and
  `KafkaPublisher.PlacementOnlyWithoutError` says exactly when the comment holds.
- The in-process limiter compares a 64-bit total that also grows on rejections.
  `RateQuota.OverflowAdmitsTooMuch` is a run that admits too much, and
  `RateQuota.AnswersRightIffNoOverflow` says that the answers of a run are those of
  the true totals if and only if no charge leaves the range of int64.
- The breaker is meant to let one probe through. An attempt that began while the
  primary was healthy and ends during a probe takes the probe's flag down, so two
  probes can run: `Breaker.StragglerLetsTwoProbesRun`. A probe is the only attempt
  in flight throughout a run if and only if none begins beside such a straggler:
  `Breaker.OneProbeIffNoStragglers`.
- The usage counter of the concurrency limiters can pass the capacity for a
  moment: `ConcurrencyLimiter.UsageCanExceedCapacity`. The exact condition is in
  `ConcurrencyLimiter.UsageAccounting`.

## Model

| member | source | states |
|---|---|---|
| OutboxProtocol.PublishedInOrder | pkg/outbox/outbox.go:181-197 | In every interleaving, a record of sequence n is appended only after every smaller sequence of its stream has been appended at least once. |
| OutboxProtocol.ConsumerSeesCommittedStream | pkg/outbox/outbox.go:98-260 | For every interleaving and stream, a reader of the log that skips sequences it has passed receives exactly the committed events 1..n in order, and all of them once the stream has no row left. |
| OutboxPartitions.PartitionConsumerSeesStream | pkg/kafka/producer.go:37 | In every interleaving, the consumer of one partition receives exactly the appended committed events 1..n of a stream, in order, if and only if all of them went to that partition. |
| OutboxPartitions.KeyedByStream | services/message/v1/internal/server/events.go:290-307 | Writers that key a stream's records by the stream send all of them to one partition, whatever the hash. |
| OutboxProtocol.NoEventLost | pkg/outbox/outbox.go:122-236 | Every committed event is still a row under its own id and contents, or the broker has it. |
| OutboxProtocol.DeletedOnlyAfterOwnAck | pkg/outbox/relay/relay.go:194-252 | A row disappears only when a relay settles a batch in which the row's own result carried no error, and then the broker has it. |
| OutboxProtocol.CommittedSequencesContiguous | pkg/outbox/outbox.go:86-119 | Over every run with aborts, the committed sequences of a stream are exactly 1..last_sequence, no two events share a sequence or an id, and every row carries its stream's shard. |
| OutboxProtocol.StreamsOnlyGrow | pkg/outbox/outbox.go:86-94 | A committed stream keeps its shard and history for good, whatever shard later EnsureStream calls pass; the log only grows. |
| OutboxProtocol.InsertNeverConflicts | pkg/outbox/outbox.go:122-169 | In every reachable state, a batch that fills its reserved range with fresh ids violates no unique constraint. |
| OutboxProtocol.AbandonedLeavesNothing | pkg/outbox/outbox.go:86-169 | An aborted writer leaves both tables alone and every stream it had locked free for others; a crashed relay leaves tables and log alone and can start over. |
| OutboxProtocol.RunKeepsInv | pkg/outbox/outbox.go:86-260 | Every interleaving from a good state keeps the full invariant: contiguity, faithful rows, nothing lost, log order, exclusive row locks. |
| OutboxProtocol.StepKeepsInv | pkg/outbox/outbox.go:86-260 | Each of the twelve kinds of step keeps the invariant. |
| OutboxProtocol.HeadIsReady | pkg/outbox/outbox.go:182-197 | A row that SelectHeads may return has every predecessor of its stream in the broker already. |
| OutboxProtocol.CommitContiguous | pkg/outbox/outbox.go:98-119 | A commit extends its streams without gap or overlap. |
| OutboxProtocol.SettledLosesNothing | pkg/outbox/relay/relay.go:234-248 | The acknowledging transaction deletes only rows that the broker has. |
| OutboxProtocol.MixedShardsBreakOrder | pkg/outbox/outbox.go:182-197 | With two shards in one stream, SelectHeads would hand out sequence 2 while sequence 1 waits. |
| OutboxProtocol.Delivered | pkg/outbox/relay/relay.go:216-232 | The ids to delete are exactly those whose own result carried no error. |
| OutboxDrain.EnqueueCommits | services/message/v1/internal/server/outbox.go:58-92 | An undisturbed writer commits one row per draft on the next sequences, in the shard stored for the stream. |
| OutboxDrain.EnqueueRows | services/message/v1/internal/server/outbox.go:66-86 | Row by row: each draft's own id and contents on its own next sequence, in the stored shard, due at once, no attempts, the given creation time; old rows stay and nothing else is added. |
| OutboxDrain.FillAfter | services/message/v1/internal/server/outbox.go:58-92 | Giving the drafts the sequences of the range one by one and committing is the multi-row INSERT of the batch into the table. |
| OutboxDrain.RelayRoundDelivers | pkg/outbox/relay/relay.go:194-252 | An undisturbed round appends exactly the selected heads in order and removes exactly their rows. |
| OutboxDrain.HeadsAreStreams | pkg/outbox/outbox.go:182-197 | With every row eligible there is one eligible head per non-empty stream. |
| OutboxDrain.RoundRemoves | pkg/outbox/outbox.go:181-236 | A fully acknowledged round removes min(limit, non-empty streams) rows of its shard and none of another. |
| OutboxDrain.RelayRoundsAreRounds | pkg/outbox/relay/relay.go:194-252 | From every reachable state, n rounds of a relay leave the table of n rounds, keep the invariant, and change nothing else but the log. |
| OutboxDrain.RelayDrains | pkg/outbox/relay/relay.go:194-252 | From every reachable state with all rows eligible and limit at least 1, as many relay rounds as there are rows empty the shard, and every row's event is in the log. |
| OutboxDrain.RelayDrainTime | pkg/outbox/relay/relay.go:194-252 | With room for every stream, a relay has emptied the shard after n rounds if and only if no stream's backlog exceeds n. |
| OutboxDrain.DrainTerminates | pkg/outbox/outbox.go:181-236 | The same of the table alone, for any table with unique slots: with limit at least 1, as many rounds as there are rows empty the shard. |
| OutboxDrain.RoundShortensStream | pkg/outbox/outbox.go:181-236 | With room for every stream, a round takes exactly one row of each non-empty stream. |
| OutboxDrain.DrainTime | pkg/outbox/outbox.go:181-236 | The same of the table alone: with room for every stream, the shard is empty after n rounds if and only if no backlog exceeds n. |
| Outbox.ReserveSequences | pkg/outbox/outbox.go:98-119 | Succeeds exactly for a positive count on an existing stream, and then reserves the next count sequences with the stored shard. |
| Outbox.InsertedExact | pkg/outbox/outbox.go:122-169 | A successful batch INSERT adds exactly the given rows and keeps (stream, sequence) unique. |
| Outbox.SelectHeadsExact | pkg/outbox/outbox.go:181-223 | SelectHeads returns the first limit eligible heads by (created_at, outbox_id): sorted, eligible, and older than every eligible head left out. |
| Outbox.FirstHeadsUnique | pkg/outbox/outbox.go:181-223 | That description fits one sequence of ids only. |
| Outbox.SelectsSmallestFirst | pkg/outbox/outbox.go:181-223 | In columns: the returned ids are due first rows of their streams in increasing (created_at, outbox_id), every one left out has a larger pair, and one is left out only if limit are returned. |
| Outbox.OneHeadPerStream | pkg/outbox/outbox.go:182-197 | A shard has at most one eligible head per stream. |
| Outbox.UpdateFailed | pkg/outbox/outbox.go:239-260 | The three parallel arrays built in the loop and the joined update are the backoff of the batch. |
| Outbox.BackoffExact | pkg/outbox/outbox.go:239-260 | Every named row gets its own attempts (as int32) and time, and no other row changes. |
| Outbox.BackoffKeepsHeads | pkg/outbox/outbox.go:239-260 | Backing off never changes which rows are heads, so a failed head keeps blocking its stream. |
| Outbox.ReadyShardsExact | pkg/outbox/outbox.go:262-276 | A shard is listed if and only if SelectHeads would return something for it or an eligible row is hidden behind a backing-off head. |
| Outbox.ReadyShardWithoutHead | pkg/outbox/outbox.go:262-276 | A table whose shard is listed although it has no eligible head. |
| Outbox.HeadBelow | pkg/outbox/outbox.go:182-197 | Every row has a head of its stream and shard at or before it. |
| OutboxRelay.SplitResults | pkg/outbox/relay/relay.go:216-232 | The loop sorts the results into the delivered ids and the backoff updates of the rest, which FailedHas, FailedFrom and SettledExact pin. |
| OutboxRelay.FailedHas | pkg/outbox/relay/relay.go:219-226 | Every failed head has an update with its id, one more attempt than it was selected with, and its delay from now. |
| OutboxRelay.FailedFrom | pkg/outbox/relay/relay.go:219-226 | Every update is that of a failed head. |
| OutboxRelay.SettledExact | pkg/outbox/relay/relay.go:216-248 | Settling removes the delivered rows, gives every failed row one more attempt and its delay, and leaves every other row as it was. |
| OutboxRelay.SettleBatch | pkg/outbox/relay/relay.go:234-248 | Delete and backoff in one transaction are the settle step, whose effect row by row is SettledExact. |
| OutboxRelay.ProcessBatch | pkg/outbox/relay/relay.go:194-252 | A batch publishes each head with its own key and payload, acknowledges a head if and only if its record's last report says written, and settles the table accordingly, row by row. |
| OutboxRelay.FaultyRoundSettles | pkg/outbox/relay/relay.go:194-252 | From every reachable state, a round with any mix of appended records and truthful answers appends them, removes delivered rows, backs off failed ones, and changes nothing else. |
| KafkaPublisher.PublishBatchWithResults | pkg/kafka/publisher.go:69-116 | One result per input, in input order, with the input's id: the place and error of the last report naming its record, by position, or an error naming it if no report does. |
| KafkaPublisher.OutcomeAnswers | pkg/kafka/publisher.go:98-115 | The outcome of an input is fixed by the position of its record's last report, and has no error if and only if that report has none. |
| KafkaPublisher.PublishBatch | pkg/kafka/publisher.go:56-64 | No error if and only if every input's last report says written; otherwise the first failing input's error. |
| KafkaPublisher.LastFor | pkg/kafka/publisher.go:91-100 | The report used for a record is one about that record, and is missing only if no report names it. |
| KafkaPublisher.OutcomeIgnoresOrder | pkg/kafka/publisher.go:69-116 | With one report per record, every permutation of the reports gives the same outcomes. |
| KafkaPublisher.OutcomeIsOwn | pkg/kafka/publisher.go:69-116 | Reports about other records and nil records never change an input's outcome. |
| KafkaPublisher.PlacementOnlyWithoutError | pkg/kafka/publisher.go:98-115 | A result carries a partition and an offset only without an error if and only if its record was not reported, was reported written, or was left unplaced. |
| KafkaPublisher.PlacementWithError | pkg/kafka/publisher.go:108-113 | A placed record reported with an error keeps its place in the result. |
| LocalRateLimit.LocalBackend.Take | pkg/ratelimit/local.go:38-79 | With a clock that does not run backwards, every Take answers as an unbounded, never-swept fixed-window limiter does that refuses a new window exactly while maxKeys windows are live; the map stays within maxKeys. |
| LocalRateLimit.TakeExact | pkg/ratelimit/local.go:51-78 | In columns: a live window is charged; else a window of the policy's length opens, unless maxKeys other keys have live windows, and then the call is refused for one window and changes nothing. |
| LocalRateLimit.RemainingExact | pkg/ratelimit/local.go:66-74 | A further cost at the same time is allowed if and only if it is at most the remaining that was answered. |
| LocalRateLimit.LocalBackend.Fetch | pkg/ratelimit/local.go:51-65 | Lazy expiry and the sweep at capacity find the window that the specification finds. |
| LocalRateLimit.LocalBackend.Sweep | pkg/ratelimit/local.go:81-87 | Keeps exactly the live windows. |
| LocalRateLimit.LocalBackend.constructor | pkg/ratelimit/local.go:26-35 | Starts empty, with the default capacity for a non-positive one. |
| LocalRateLimit.Wrap64 | pkg/ratelimit/local.go:66 | Two's complement wrap-around, the identity on int64 values. |
| LocalRateLimit.LiveLater | pkg/ratelimit/local.go:51-87 | Maps that agree on live windows keep agreeing as time passes. |
| RateQuota.AdmittedCostBounded | pkg/ratelimit/local.go:51-78 | Over every run of Takes for a key, at most limit is admitted per window and at most twice the limit in any interval of one window's length, if no charge overflows. |
| RateQuota.RateBoundedNeverOverflows | pkg/ratelimit/local.go:66-78 | At most (2^63 - 1) / limit calls per window length never overflow a window. |
| RateQuota.AnswersRightIffNoOverflow | pkg/ratelimit/local.go:66-78 | Over every run of Takes for a key, each answer compares the true total charged to the window with the limit if and only if no charge leaves the range of int64. |
| RateQuota.LastAnswerRight | pkg/ratelimit/local.go:66-69 | The first charge that overflows is the first wrong answer. |
| RateQuota.OverflowAdmitsTooMuch | pkg/ratelimit/local.go:66-78 | Two calls within the largest limit that are both admitted though together they exceed it. |
| RateQuota.RetryAfterSuffices | pkg/ratelimit/local.go:66-78 | After an over-limit rejection the window has expired at now + RetryAfter, and not before unless the one-millisecond minimum applied. |
| RateManager.BucketKeyInjective | pkg/ratelimit/ratelimit.go:161-164 | A bucket key determines the policy name and the digest. |
| RateManager.HexInjective | pkg/ratelimit/ratelimit.go:161-164 | The printed digest determines the digest. |
| RateManager.HexAt | pkg/ratelimit/ratelimit.go:161-164 | Two lower-case hexadecimal digits per byte, the high half first. |
| RateManager.ValidNameExact | pkg/ratelimit/ratelimit.go:21 | A policy name is valid if and only if it is a letter followed by at most 63 letters, digits or underscores. |
| RateManager.ManagerIsDisciplined | pkg/ratelimit/ratelimit.go:125-164 | What the manager lets through charges every key under one policy and within its limit. |
| RateManager.FallbackQuota | pkg/ratelimit/ratelimit.go:125-180 | Over every run of requests, one client of one policy is admitted at most twice the limit in any interval of the window's length, at a rate that cannot overflow. |
| RateManager.Manager.Take | pkg/ratelimit/ratelimit.go:125-159 | Full outcome of a call: invalid or oversized requests touch nothing, the caller's own cancellation neither trips the breaker nor falls back, any other primary failure trips it and falls back. |
| RateManager.Manager.TakeFallback | pkg/ratelimit/ratelimit.go:166-180 | Answers from the in-process limiter and marks the reply as fallback. |
| RateManager.Manager.BeginPrimaryAttempt | pkg/ratelimit/ratelimit.go:182-197 | Refines the breaker's begin step; refuses without a primary. |
| RateManager.Manager.FinishPrimaryAttempt | pkg/ratelimit/ratelimit.go:199-208 | Refines the breaker's finish step. |
| RateManager.Manager.CancelPrimaryAttempt | pkg/ratelimit/ratelimit.go:210-214 | Refines the breaker's cancel step. |
| RateManager.NewManager | pkg/ratelimit/ratelimit.go:84-122 | A manager exists exactly for a non-empty set of valid policies, with the documented defaults. |
| Breaker.RunKeepsInv | pkg/ratelimit/ratelimit.go:182-214 | Over all concurrent runs the probe flag, the deadline and the number of probes stay tied to the attempts in flight. |
| Breaker.NeverSticks | pkg/ratelimit/ratelimit.go:182-214 | The flag is up only while its probe is in flight and an outage is recorded; idle and past the deadline an attempt is let in. |
| Breaker.NoAttemptBeforeRetry | pkg/ratelimit/ratelimit.go:182-208 | After a failure stamped t with no success since, an attempt begins if and only if it is t + retryInterval or later and no flag is up. |
| Breaker.ProbesBounded | pkg/ratelimit/ratelimit.go:182-214 | Concurrent probes are at most one plus the attempts that ended under another attempt's flag since probes last ran out. |
| Breaker.OneProbeIffNoStragglers | pkg/ratelimit/ratelimit.go:182-214 | Throughout a run a probe is the only attempt in flight if and only if no probe begins while an attempt begun healthy is still running. |
| Breaker.StragglerLetsTwoProbesRun | pkg/ratelimit/ratelimit.go:199-214 | A run in which a straggler lets two probes be in flight. |
| KeyedLimiter.EntriesExact | pkg/concurrencylimit/keyed.go:46-105 | In every interleaving, callers of a key share one entry, refs is their number, the entry is in the map if and only if refs > 0, and it holds exactly their weight, at most the capacity. |
| KeyedLimiter.GuardAlwaysHolds | pkg/concurrencylimit/keyed.go:98-105 | Whenever a reference is dropped the map holds this very entry, and it leaves the map exactly with the last reference. |
| KeyedLimiter.UsageAccounting | pkg/concurrencylimit/keyed.go:56-84 | inUse is the weight of the callers between their two updates, never negative, equal to what the semaphores hold when no caller is mid-step; nothing stays behind. |
| KeyedLimiter.FreeKeyGrants | pkg/concurrencylimit/keyed.go:46-74 | With no other holder of the key the semaphore lets a waiting caller in. |
| KeyedLimiter.CallEnters | pkg/concurrencylimit/keyed.go:46-54 | In every reachable state, a new call waits for its key if and only if the key is not empty and 0 < weight <= capacity; otherwise nothing changes. |
| KeyedLimiter.GrantExact | pkg/concurrencylimit/keyed.go:56-63 | In every reachable state, a waiting caller can be let in if and only if its weight fits beside what the callers of its entry hold. |
| KeyedLimiter.NobodyStuck | pkg/concurrencylimit/keyed.go:46-74 | In every reachable state, a waiting caller can give up and every other caller's next step takes effect. |
| KeyedLimiter.ReleaseOnce | pkg/concurrencylimit/keyed.go:64-73 | After its first call a release function does nothing, whatever has happened in between: proved from its once flag. |
| KeyedLimiter.HistoryIsRun | pkg/concurrencylimit/keyed.go:46-74 | With the once flag alone guarding release functions, every history of calls is a run of the limiter, so a release takes effect only while its caller holds. |
| KeyedLimiter.RunKeepsInv | pkg/concurrencylimit/keyed.go:46-105 | Every interleaving keeps map, heap, callers and counters consistent. |
| KeyedLimiter.LastReference | pkg/concurrencylimit/keyed.go:98-105 | With one reference left, the entry holds nothing and no other caller refers to it. |
| KeyedLimiter.KeyedLimiterObject.ReferenceKey | pkg/concurrencylimit/keyed.go:86-96 | The critical section refines the reference step. |
| KeyedLimiter.KeyedLimiterObject.UnreferenceKey | pkg/concurrencylimit/keyed.go:98-105 | The critical section refines the unreference step. |
| ConcurrencyLimiter.UsageAccounting | pkg/concurrencylimit/limiter.go:64-115 | The semaphore stays within capacity; inUse is never negative, differs from the held weight by what is mid-step, and is within capacity if and only if the weight held, plus mid-release, minus mid-acquire is. |
| ConcurrencyLimiter.UsageCanExceedCapacity | pkg/concurrencylimit/limiter.go:101-115 | An interleaving with inUse above the capacity. |
| ConcurrencyLimiter.AcquireExact | pkg/concurrencylimit/limiter.go:64-85 | In every reachable state, a new caller is let in if and only if its weight is valid and fits beside what is held; otherwise nothing changes. |
| ConcurrencyLimiter.NobodyStuck | pkg/concurrencylimit/limiter.go:64-115 | Every holder's next step takes effect. |
| ConcurrencyLimiter.ReleaseOnce | pkg/concurrencylimit/limiter.go:106-115 | After its first call a release function does nothing, whatever has happened in between: proved from its once flag. |
| ConcurrencyLimiter.HistoryIsRun | pkg/concurrencylimit/limiter.go:64-115 | With the once flag alone guarding release functions, every history of calls is a run of the limiter. |
| ConcurrencyLimiter.NewLimiter | pkg/concurrencylimit/limiter.go:48-60 | A limiter exists exactly for a name and a positive capacity, and starts idle. |
| ConcurrencyLimiter.Limiter.TryAcquire | pkg/concurrencylimit/limiter.go:79-85 | Succeeds if and only if the weight is valid, nobody is queued and it fits beside the weight of all release functions not called yet; a refusal changes nothing. |
| ConcurrencyLimiter.Limiter.InUse | pkg/concurrencylimit/limiter.go:93-95 | Between calls the usage is exactly the weight of the release functions not called yet, at most the capacity. |
| ConcurrencyLimiter.Release.Call | pkg/concurrencylimit/limiter.go:106-115 | The first call gives the weight back; every further call changes nothing. |
| SocketLimit.Manager.Acquire | pkg/socketlimit/limiter.go:32-50 | Grants a lease if and only if all three counts are below their limits, counts it, and leaves each within its limit; a refusal changes nothing. |
| SocketLimit.Manager.TakeSlots | pkg/socketlimit/limiter.go:41-49 | Takes one slot of each kind and keeps the counters exact. |
| SocketLimit.Manager.ReleasePending | pkg/socketlimit/limiter.go:87-93 | Gives one pending slot back and leaves no zero entry. |
| SocketLimit.Lease.MarkReady | pkg/socketlimit/limiter.go:62-70 | Leaves the pending counts and keeps the connection; repeated and late calls change nothing. |
| SocketLimit.Lease.Release | pkg/socketlimit/limiter.go:73-85 | Frees the connection and any pending slot exactly once, whatever the order of calls. |
| SocketLimit.ScopesAdd | pkg/socketlimit/limiter.go:41-49 | Counting one more lease keeps the per-scope counters exact. |
| SocketLimit.ScopesRemove | pkg/socketlimit/limiter.go:87-93 | Counting one lease less keeps them exact, with no zero entry. |
| Migration.RunsLeavePrefix | pkg/migration/migration.go:45-116 | After any sequence of runs on a fixed file set, each stopping at any error or crash, the committed bodies of a service are a prefix of its list, each once and in order, and the ledger records exactly them. |
| Migration.CompleteRunIsFinal | pkg/migration/migration.go:45-116 | Once a run has returned without error the whole list stays committed and every later run of the service commits nothing. |
| Migration.DirectoryApplied | pkg/migration/migration.go:45-139 | Any sequence of runs over a directory commits only its forward migrations, each at most once and in name order; after a complete run, all of them. |
| Migration.CleanRunApplies | pkg/migration/migration.go:45-116 | After any history over a directory, one undisturbed run reports success and leaves every forward migration committed, once and in name order. |
| Migration.LoopCompletes | pkg/migration/migration.go:73-116 | From a prefix of the list, a run gets to the end if and only if nothing stops it at any entry and no commit of a pending entry is left in doubt. |
| Migration.EditedMigrationFails | pkg/migration/migration.go:73-94 | A run over a file whose recorded checksum differs never reports success, commits nothing from that file on, and keeps the recorded checksum. |
| Migration.LoopElsewhere | pkg/migration/migration.go:73-116 | Runs of other services leave a service's bodies and ledger rows alone. |
| Migration.ApplyNamed | pkg/migration/migration.go:45-116 | Listing, filtering and applying a directory is one run of the specification, whose progress is LoopCompletes and CleanRunApplies; no error exactly when it got to the end and unlocked, and which error for a missing name, an unreadable directory or a changed checksum. |
| Migration.MigrationEntries | pkg/migration/migration.go:118-139 | Sorting and filtering in place leaves the selected entries of the sorted listing in front of the array. |
| Migration.FilterInPlace | pkg/migration/migration.go:128-138 | The loop that writes kept entries over the front of the same array leaves exactly the selected ones, in order. |
| Migration.EntriesExact | pkg/migration/migration.go:118-139 | The list is exactly the forward migrations of the directory in strictly increasing name order. |
| Migration.ForwardMigration | pkg/migration/migration.go:131-133 | A forward migration is a file named *.sql and not *.down.sql. |
| Migration.LessExact | pkg/migration/migration.go:124-126 | Name order is a proper prefix first, or the smaller character where two names first differ. |
| Password.DecodeFormat | pkg/password/password.go:72-131 | Decoding the printed form returns the settings, salt and key, for all settings that fit their fields and all non-empty salts and keys. |
| Password.VerifyHash | pkg/password/password.go:34-70 | A hash verifies its own password, and another one exactly when both derive the same key. |
| Password.VerifyStored | pkg/password/password.go:54-70 | For every stored hash, a password verifies if and only if the stored settings, salt and key length derive the stored key from it. |
| Password.HashText | pkg/password/password.go:34-52 | The printed form of a new hash, letter by letter, with its constants. |
| Password.DecodeExact | pkg/password/password.go:72-102 | A hash is accepted if and only if it reads $argon2id$v=19$settings$salt$key with accepted settings and a salt and key that decode to some bytes; and what it decodes to. |
| Password.DecodeParamsExact | pkg/password/password.go:104-157 | Settings are accepted if and only if they read m=..,t=..,p=.. with three numbers that fit their widths and are not zero. |
| Password.Normalises | pkg/password/password.go:72-102 | Printing what any accepted hash decodes to gives a hash that decodes the same. |
| Password.FormatInjective | pkg/password/password.go:43-51 | Equal printed hashes have equal settings, salts and keys. |
| Password.Decode | pkg/password/password.go:72-102 | What is accepted has settings within their fields and none zero, so the key derivation never panics, and a salt and key that are not empty. |
| Password.DecodeParams | pkg/password/password.go:104-131 | Accepted settings are within their fields and none is zero. |
| Password.ParamsRoundTrip | pkg/password/password.go:104-131 | Decoding undoes printing of the three settings. |
| Password.UintParamRoundTrip | pkg/password/password.go:133-157 | A named number that fits its width is read back. |
| Cursor.RoundTrip | pkg/cursor/cursor.go:50-97 | A token opens under its codec and kind to its payload if and only if the payload serialises to at least one byte, which JSON always does. |
| Cursor.OtherKindRefused | pkg/cursor/cursor.go:68-97 | Under any other valid kind the token is refused as invalid. |
| Cursor.DecodeExact | pkg/cursor/cursor.go:68-125 | A payload comes out of exactly the tokens whose digest, under the codec's secret (OtherSecret), is over their payload text and that kind. |
| Cursor.OtherSecret | pkg/cursor/cursor.go:86-117 | A token of one secret opens under another if and only if the two secrets give the same digest of its signed text; otherwise it is refused as invalid. |
| Cursor.EncodeText | pkg/cursor/cursor.go:50-64 | Encode succeeds if and only if there is a codec, a non-empty kind without a dot and a payload that serialises; and the text it writes. |
| Cursor.DecodeRefusals | pkg/cursor/cursor.go:68-78 | Only the empty token gives neither payload nor error; a missing codec and a bad kind are reported exactly when they occur. |
| Cursor.SignedTextUnique | pkg/cursor/cursor.go:111-117 | The signed text determines the payload text and the kind. |
| Cursor.AcceptedIsIssued | pkg/cursor/cursor.go:50-117 | An accepted token over a text that was signed for some payload is that very token and gives that payload under that kind. |
| Cursor.SplitTokenExact | pkg/cursor/cursor.go:119-125 | A token splits into p, k, h if and only if it is p.k.h with non-empty parts that hold no dot. |
| Cursor.PagesCover | pkg/cursor/cursor.go:99-109 | Querying one row more than the page and trimming gives every row once and in order, in full pages up to the last. |
| Cursor.TrimExact | pkg/cursor/cursor.go:99-109 | A page is a prefix of the rows within the limit, empty for a negative one, and more is to come exactly when something was cut. |
| Base64.RoundTrip | pkg/password/password.go:88-96 | Decoding undoes encoding, and the text uses alphabet symbols only. |
| Base64.AcceptedIsCanonical | pkg/cursor/cursor.go:89-92 | An accepted text is the encoding of its bytes if and only if it holds no line break and its spare bits are zero. |
| Base64.DecodeAccepts | pkg/password/password.go:88-96 | A text decodes if and only if it holds alphabet symbols and line breaks only and its symbols do not leave one over from groups of four. |
| Base64.EncodeAt | pkg/password/password.go:41-50 | Every four symbols are the base-64 digits, leading one first, of three bytes read as one number. |
| Base64.PlainHasNoSeparator | pkg/cursor/cursor.go:61-63 | Encoded text holds no dot, dollar sign or comma. |
| Text.ParseDecimal | pkg/password/password.go:133-157 | Parsing a printed number returns it if it fits the width and fails otherwise. |
| Text.JoinUndoesSplit | pkg/cursor/cursor.go:119-125 | Joining undoes splitting, and no part holds the separator. |
| Text.SplitConcat | pkg/password/password.go:73-105 | Splitting a text at a separator is splitting both sides of it. |
| Text.CutUnique | pkg/cursor/cursor.go:111-117 | A text is cut at its first separator in one way only. |
| Text.TrimSpaceIs | pkg/clientip/resolver.go:112 | Surrounding blanks go, whatever and however many they are. |
| Text.TrimSpaceCore | pkg/clientip/resolver.go:112 | Every text is its trimmed core between blanks. |
| ClientIp.Resolve | pkg/clientip/resolver.go:70-100 | The scan from the right returns the resolution of the request; it fails exactly when the peer address does not parse. |
| ClientIp.ClientIs | pkg/clientip/resolver.go:79-91 | The client is the address with only proxies to its right that is itself none, or is the first. |
| ClientIp.ClientAt | pkg/clientip/resolver.go:79-91 | Every chain has such an address. |
| ClientIp.LeftNeverMatters | pkg/clientip/resolver.go:70-100 | Inside a line or across lines, two headers that agree from an untrusted address on resolve alike if and only if what stands to the left in the second parses as well, or the answer was the peer. |
| ClientIp.RightDecides | pkg/clientip/resolver.go:70-100 | With an untrusted address on the right, the answer is the client of the right part if the left part parses and the peer otherwise. |
| ClientIp.LinesAreOneLine | pkg/clientip/resolver.go:126-138 | Several header lines resolve as the one comma-joined line (section 5.3 of RFC 9110). |
| ClientIp.HeadersBelieved | pkg/clientip/resolver.go:70-100 | Headers count only from a trusted peer, X-Real-IP only without X-Forwarded-For, and an answer out of a chain with an untrusted address is untrusted and in the chain. |
| ClientIp.RealIpAnswers | pkg/clientip/resolver.go:94-99 | Without X-Forwarded-For, a trusted peer's X-Real-IP is the unmapped answer exactly when it is an address between blanks; else the answer is the peer. |
| ClientIp.PeerExact | pkg/clientip/resolver.go:111-124 | The peer text: blanks never matter, a port is dropped, the address is unmapped; empty and unparseable texts are errors. |
| ClientIp.ChainBlanks | pkg/clientip/resolver.go:126-138 | Blanks around the parts of X-Forwarded-For never matter. |
| ClientIp.ParseForwardedFor | pkg/clientip/resolver.go:126-138 | Succeeds exactly when every part of every line parses, with the addresses in order. |
| ClientIp.IsTrusted | pkg/clientip/resolver.go:102-109 | True exactly when some configured network contains the address. |
| ClientIp.New | pkg/clientip/resolver.go:53-63 | Fails exactly when some range does not parse; the kept networks contain the same addresses as the given ranges. |
| ClientIp.ScopeExact | pkg/clientip/resolver.go:36-45 | Two addresses share a scope if and only if one scope's network contains the other address, up to its zone. |
| ClientIp.ScopeBits | pkg/clientip/resolver.go:36-45 | IPv4 addresses share a scope only with themselves, IPv6 addresses exactly with those that have the same first 64 bits. |
| ClientIp.MappedIsPlain | pkg/clientip/resolver.go:36-45 | An IPv4 address and its IPv6 spelling are one address and have one scope. |

## Left out

- `gen/**`, `cmd/**`, `services/**` apart from the outbox writer: generated code, wiring, and thin wrappers.
- `pkg/ratelimit/redis.go`: the primary backend is a reply (a decision, the end of the caller's context, or another failure).
- Metrics, tracing, logging, and trace headers on records: no effect on any decision.
- `pkg/kafka/producer.go` apart from the placement by key, `pkg/sessionregistry`, `pkg/database`, `pkg/probe`: client set-up around external systems.
- `pkg/apierror`, `pkg/rpcerror`, `pkg/realtime`, `pkg/mail`: constant tables and one-branch lookups.
- The SQL text and placeholder numbering of `InsertBatch`, NOTIFY wake-ups, advisory locks, and isolation beyond row locks and atomic commit.
- `outbox.ShardID`: any shard number is allowed, so the hash does not matter.
- The relay's worker loop and the jitter of its backoff: delays are arbitrary inputs.
- `migration.Apply`, the untracked variant.
- Randomness of the salt and its error path, and the strength of Argon2, HMAC and SHA-256: the digest and the key derivation are parameters with a fixed output length.
- Real JSON: a pair of functions, with the payloads that survive it as a hypothesis.
- `netip` and host:port parsing: parameters. Scope keys as text and the zero address are not modelled.
- Fairness of `semaphore.Weighted`: waiting callers are granted in any order that fits.
- ConcurrencyLimiter.UsageAccounting: atomic steps on a state value, because the two updates of one call interleave with other calls; `Limiter` and `Release` are the objects between calls, without the waiting in Acquire.
- KeyedLimiter.EntriesExact: the same, with the two critical sections also as methods of a class; entries live in a map from handles instead of behind pointers.
- RateManager.Manager.Take: one call from start to end; concurrent calls are in `Breaker`.
- Migration.MigrationEntries: the sort is a function whose result is written back; the in-place filter is the loop of the source, in `FilterInPlace`.
- OutboxRelay.ProcessBatch: one batch of a shard; the loop around it repeats it.
