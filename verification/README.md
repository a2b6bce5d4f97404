# QueueKit, verified

A model of the QueueKit job queue: its jobs, the two storage backends (Redis and Postgres), the
workers that drive them, the retry backoff, and the HTTP and dashboard handlers that combine
several backend calls. `dafny verify dfyconfig.toml` checks everything.

## How it is built

One protocol over a plain table of jobs (`JobSystem.dfy`) is the specification. Any number of
workers reserve, ack, nack or give up; clients enqueue fresh jobs and delete any job; time never
goes backwards. `JobRuns.dfy` proves what holds over all its runs. Both backends are then shown to
refine it, at the grain at which they can really be interrupted:

- **Redis** (`RedisStore.dfy`): job hashes, one sorted set per queue and one set per queue and
  status, changed by scripts and pipelines. `RedisIndexes.dfy` says what each of these does to the
  table behind the hashes and when it leaves the indexes exact. `RedisOps.dfy` takes the operations
  as a sequential client sees them, on jobs in any status. `RedisProtocol.dfy` lets the round trips
  of `Ack`, `Nack` and `DeleteJob` interleave freely with everything else, and `RedisRuns.dfy` holds
  the results about such runs. `Keys.dfy` and `Codec.dfy` connect the typed store with key names,
  field strings and replies; `RedisListing.dfy` is about what a listing starts from, and
  `RedisRemnants.dfy` about where stray hashes come from.
- **Postgres** (`PostgresOrder.dfy`, `PostgresProtocol.dfy`): one table, `ORDER BY priority DESC,
  scheduled_at ASC`, row locks with `SKIP LOCKED`, transactions that lock first and write later and
  may roll back.
- **Winding down** (`JobDraining.dfy`, `RedisDraining.dfy`, `PostgresDraining.dfy`): with any number
  of workers and as long as outcomes are delivered, no state is a dead end, workers' steps use up a
  bounded effort, and every run can go on until all jobs are completed or dead. In runs without end
  (`RedisFairness.dfy`, `PostgresFairness.dfy`) it does, if workers get their turn.
- **Objects**: `RedisBackend.dfy`, `PostgresBackend.dfy` and `Worker.dfy` are classes with the
  fields the Go code updates in place. Their methods make the same changes one after the other and
  are proved equal to the specification functions above.
- `Backoff.dfy`, `Dashboard.dfy`, `Handlers.dfy`: retry delays (joined to whole runs in
  `DefaultSpacing`), paging, and the composite handlers.

Instants are integers. A column keeps whole units of them, rounded down: `unit` is a second on
Redis and a microsecond (or anything else) on Postgres. How each try of each job turns out is an
arbitrary function in `JobSystem.Config`; since a try takes place at most once, that fixes nothing.

## What turns out not to hold

Each of these is stated exactly, with the condition under which things go well.

- Redis status sets: exactly three kinds of step put them wrong (`RedisRuns.StatusSetsStep`):
  finishing a delete whose status read is out of date, finishing an `Ack` whose job was deleted
  meanwhile, and losing the second round trip of an `Ack`. `RedisRuns.StaleDelete` is the first one,
  for any fresh job. Sorted sets and exclusive claims survive all three; the third does not even
  change the total of the statistics (`RedisRuns.TotalIsJobCount`).
- `Ack`, `Nack` and `MoveToDLQ` do not look at the status of a job. `RedisOps` says for which
  statuses each keeps the indexes in agreement: a pending job nacked on its last attempt dies
  inside the sorted set, and dead-lettering cleans neither the pending nor the completed set. No
  pending job is ever stranded by any of it.
- Redis ignores priorities: `CrossBackend.RedisPickIsPgPick` says when its choice is one that
  Postgres could make, and `CrossBackend.PrioritiesIgnored` shows one that is not.
- The backend interface (internal/backend/backend.go:31-37) promises all queues, and all jobs when
  queue or status are empty. The Redis code differs, and the model follows the code:
  `RedisRuns.ListedMeansPending` and the lemmas of `RedisListing`.
- Listing panics when offset plus limit overflows inside the list (`Dashboard.WindowPanics`).
- Paging stops at an id whose job is gone: the page that asks for it has no next one, and jobs after
  that page are never shown. `Dashboard.Walk` says what is shown, and that it is everything if and
  only if no stored job comes later. `HiddenJobs.StaleDeleteHides` is a Redis run that gets there.
- A status that ends in a colon and the name of a status reads the set of another queue
  (`Keys.ColonsCollide`, `RedisListing.ColonReachesOtherQueue`). Listing by queue and status is
  right for every store exactly for all other statuses (`RedisListing.ListingIsReliable`).
- Acking a deleted job on Redis reports an error but leaves a remnant of a hash. Remnants are part
  of the store (`RedisStore.Entry`); they are in no index and never count as jobs. They arise in no
  other way (`RedisRemnants.RemnantsAreLateAcks`); `RedisRemnants.LateAck` is a run that makes one.

## Model

| member | source | states |
|---|---|---|
| JobSystem.NextKeepsInv | internal/worker/worker.go:130-196 | every reserve, ack, nack, loss of an outcome, enqueue and delete keeps the protocol invariant: exclusive claims on running rows, history length equal to tries, rows that agree with the outcomes so far, retries not due before their delay |
| JobSystem.RunInv | internal/worker/worker.go:103-196 | the invariant holds in every state of every run, with any number of workers |
| JobRuns.OneHolder | internal/worker/worker.go:130-196 | no job is held by two workers at once, and a held job that still exists is running at the try its holder reserved |
| JobRuns.ReservationCounts | internal/backend/postgres/postgres.go:135-214 | reservations equal attempts, plus one if running or completed; only dead jobs have used up their attempts; no job, deleted or not, is reserved more than max_attempts times, even when outcomes get lost |
| JobRuns.DeliveredInRun | internal/worker/worker.go:159-195 | in every run an outcome changes the row as its try calls for: success completes it, a failure counts an attempt, records the error and reschedules it after nextDelay(attempts+1), or buries it on the last one; a type without handler fails with its own message and is due again at the instant of the Nack |
| JobRuns.RetrySpacing | internal/worker/worker.go:182-192 | reservation n+1 comes at least the sum of the first n delays after the first, up to less than one column unit per retry |
| JobRuns.WholeUnitSpacing | internal/backend/postgres/postgres.go:195-202 | when delays are whole units, less than one unit is lost in the whole run, and none between instants at column precision |
| JobRuns.OutcomesDecide | internal/worker/worker.go:146-196 | status, attempts and last error of a finished job are those dictated by its own outcomes: first success on try k gives completed with k-1 attempts, none gives dead with max attempts and the last error |
| JobRuns.DoneIsStable | internal/backend/postgres/postgres.go:135-214 | one step leaves a completed or dead row exactly as it is unless it deletes it, and no used id comes back |
| JobRuns.DoneForGood | internal/backend/postgres/postgres.go:135-214 | over whole runs, completed and dead are never left except by deletion |
| JobRuns.WorkShrinks | internal/worker/worker.go:116-196 | without new jobs the sum of 2(max-attempts) per pending job, one less per running one, strictly decreases on every reserve and on every delivered outcome, and never grows |
| JobRuns.WorkBoundsRun | internal/worker/worker.go:116-196 | hence in any interleaving claims and delivered outcomes together are bounded by the work outstanding at the start |
| JobDraining.RunningHasHolder | internal/worker/worker.go:130-196 | in runs in which no outcome gets lost every running job is held by some worker |
| JobDraining.RestMeansDone | internal/worker/worker.go:116-196 | when then no worker holds a job, no queue has an eligible one and the clock has passed every scheduled_at, every job is completed or dead as its outcomes dictate |
| JobDraining.CanProgress | internal/worker/worker.go:116-196 | while any job is undone, a reserve or the delivery of an outcome is possible after waiting, by any idle worker or by the job's holder; a busy worker can at least let go of a deleted job |
| RedisDraining.RunningHasHolder | internal/backend/redis/scripts.go:29-37 | on Redis, unless an outcome was lost, every running job is in the hands of a worker, perhaps between the trips of Nack |
| RedisDraining.RestMeansDone | internal/backend/redis/scripts.go:11-41 | on Redis, when no worker holds a job, Reserve comes back empty on every queue and the clock has passed every scheduled_at, every job is completed or dead as its outcomes dictate |
| RedisDraining.EffortShrinks | internal/backend/redis/redis.go:106-226 | every round trip of a worker but polling in vain uses up effort: three for each claim and outcome outstanding, and the trips left of operations in progress |
| RedisDraining.EffortBoundsRun | internal/backend/redis/redis.go:106-226 | without new jobs, the round trips of any number of workers are bounded by the effort at the start |
| RedisDraining.CanProgress | internal/backend/redis/redis.go:106-226 | while any job is undone, some worker can take its next round trip after waiting, wherever the others are in their operations |
| RedisDraining.RunCanFinish | internal/worker/worker.go:103-196 | any Redis run in which no outcome was lost can go on, by time and workers' own round trips only, each queue polled by its own worker, until every job is completed or dead as its outcomes dictate |
| RedisFairness.EverythingGetsDone | internal/worker/worker.go:103-196 | every Redis run without end in which no outcome gets lost, new jobs cease, busy workers go on and queues with a waiting job keep being polled reaches a state from which on every job is completed or dead as its outcomes dictate |
| PostgresDraining.RunningHasHolder | internal/backend/postgres/postgres.go:111-131 | on Postgres, unless an outcome was lost, every running row is in the hands of a worker |
| PostgresDraining.RestMeansDone | internal/backend/postgres/postgres.go:83-109 | on Postgres, when no worker is at work, no row is eligible and the clock has passed every scheduled_at, every job is completed or dead as its outcomes dictate |
| PostgresDraining.EffortShrinks | internal/backend/postgres/postgres.go:75-214 | every statement and commit of a worker uses up effort, unless an open Reserve rolls back |
| PostgresDraining.EffortBoundsRun | internal/backend/postgres/postgres.go:75-214 | without new jobs and rollbacks, the statements of any number of workers are bounded by the effort at the start |
| PostgresDraining.CanProgress | internal/backend/postgres/postgres.go:75-214 | row locks never deadlock the workers: while any job is undone, some worker can execute its next statement after waiting |
| PostgresDraining.RunCanFinish | internal/worker/worker.go:103-196 | the same for any Postgres run, whatever transactions are open |
| PostgresFairness.EverythingGetsDone | internal/worker/worker.go:103-196 | the same for Postgres, when rollbacks cease too, the clock passes every instant and no queue with a free row is passed over for good |
| QueueStats.RowCountsTotal | internal/queue/queue.go:14-16 | TotalJobs of the per-status row counts is the number of rows of the queue |
| Keys.KeysDecode | internal/backend/redis/redis.go:46-59 | job, queue and status keys read back as what they were built from, so the families are disjoint and each builder is injective, even for queue names with colons |
| Keys.ColonsCollide | internal/backend/redis/redis.go:56-59 | a status with a colon makes two different (queue, status) pairs share a key |
| Keys.ScriptsAgree | internal/backend/redis/scripts.go:35-37 | the scripts build the same keys as the Go code, spelled as given, and the [4:] and [6:] slices invert the builders |
| Keys.ListingByPattern | internal/backend/redis/redis.go:266-276 | scanning for `queue:*` or `job:*` and cutting the prefix finds exactly the names of that family |
| RedisStore.FirstReady | internal/backend/redis/scripts.go:12-16 | ZRANGEBYSCORE with LIMIT 0 1: the least ready member by score and then id, none only if none is ready |
| RedisStore.FirstReadyUnique | internal/backend/redis/scripts.go:12-16 | that member is unique |
| RedisStore.StringLeqIs | internal/backend/redis/scripts.go:13 | the order of ids is byte order: a prefix comes first, and otherwise the smaller character at the first difference |
| RedisStore.FirstReadyInBytes | internal/backend/redis/scripts.go:13 | the first ready member precedes every other ready one by score, and by byte order among equal scores |
| RedisIndexes.ReserveChoice | internal/backend/redis/scripts.go:12-27 | with exact sorted sets the script finds the first eligible job by (scheduled_at, id), and nothing only if no job is eligible |
| RedisIndexes.ReserveOrder | internal/backend/redis/scripts.go:12-40 | the claimed job is scheduled before every other due one, or in the same second and then precedes it in byte order |
| RedisIndexes.ReserveRefines | internal/backend/redis/scripts.go:11-41 | on the table the script moves exactly that row to running and returns it; all indexes stay exact; when it returns nothing it changes nothing |
| RedisIndexes.EnqueueRefines | internal/backend/redis/redis.go:62-103 | the pipeline adds exactly one row, with its instants in whole seconds, and keeps all indexes exact |
| RedisIndexes.AckFirstRefines | internal/backend/redis/redis.go:142-160 | the first trip completes the row (or, for a missing job, leaves the table as it is and ends in an error) and keeps the sorted sets exact |
| RedisIndexes.AckSecondSettles | internal/backend/redis/redis.go:162-177 | the second trip makes the status sets exact again if and only if the job still exists |
| RedisIndexes.NackScriptRefines | internal/backend/redis/scripts.go:51-90 | on values still current the script is an atomic Nack of the row, retry or dead, and all indexes stay exact; for a missing job it writes nothing |
| RedisIndexes.DeleteRefines | internal/backend/redis/redis.go:387-403 | the pipeline removes exactly the row and keeps the sorted sets exact however old the read is |
| RedisIndexes.DeleteSettles | internal/backend/redis/redis.go:373-404 | the status sets stay exact if and only if the status read earlier is still the set the job is in |
| RedisOps.NeverStranded | internal/backend/redis/scripts.go:77-89 | after any sequence of operations on jobs in any status, every pending job is in its queue's sorted set with score scheduled_at |
| RedisOps.StoredJobsValidate | internal/queue/job.go:66-80 | after any sequence of operations every stored job passes Validate and is filed under its id |
| RedisOps.StaleEntriesDrain | internal/backend/redis/scripts.go:21-27 | each empty-handed Reserve removes a stale ready entry, so while a ready pending job exists at most as many come back empty as there are stale entries |
| RedisOps.EnqueueKeepsAgreement | internal/backend/redis/redis.go:62-103 | enqueueing under a new id keeps the indexes in agreement if and only if the job is pending |
| RedisOps.AckKeepsAgreement | internal/backend/redis/redis.go:142-178 | acking keeps agreement if and only if the job is missing, running or completed |
| RedisOps.NackKeepsAgreement | internal/backend/redis/redis.go:183-226 | nacking keeps agreement if and only if the job is missing, running, pending with attempts to spare, or dead and staying dead |
| RedisOps.MoveToDLQKeepsAgreement | internal/backend/redis/redis.go:229-262 | dead-lettering keeps agreement if and only if the job is missing, running, failed or dead |
| RedisOps.MoveToDLQMoves | internal/backend/redis/redis.go:242-254 | in any status: the job is dead, leaves the sorted set and the running and failed sets of its queue, enters the dead set, and nothing else changes |
| RedisOps.MissingChangesNothing | internal/backend/redis/redis.go:183-192 | nacking or dead-lettering what is no stored job, and deleting what has no hash, change nothing |
| RedisOps.DeletesRemnant | internal/backend/redis/redis.go:384-396 | a remnant's hash goes, and its id is looked for under the empty queue name only |
| RedisOps.AckOpRow | internal/backend/redis/redis.go:151-155 | in any status: status completed, completed_at and updated_at now, no other field and no other job changed; a missing job leaves just these fields |
| RedisOps.NackOpRow | internal/backend/redis/scripts.go:54-89 | in any status: one more attempt, the error, failed_at and updated_at now, and pending at now plus the delay or dead, no other field and no other job changed |
| RedisOps.ReserveAndDeleteKeepAgreement | internal/backend/redis/redis.go:373-404 | undisturbed, reserving and deleting always keep agreement, and deleting removes exactly the row |
| RedisOps.AckOpOnTable | internal/backend/redis/redis.go:142-178 | both trips together complete the row of a running job, and nothing else |
| RedisOps.NackOpOnTable | internal/backend/redis/redis.go:183-226 | both trips together count one failed try of a running job, and nothing else |
| RedisOps.RedisDrainSorted | internal/backend/redis/scripts.go:12-40 | draining a queue at a fixed instant claims every pending due job of it exactly once, by scheduled_at and then by id in byte order |
| RedisOps.RedisDrainExists | internal/backend/redis/scripts.go:12-40 | repeated Reserve calls at a fixed instant come to an end, stale entries or not |
| RedisProtocol.StepRefines | internal/backend/redis/redis.go:142-226 | any single round trip, in the middle of others' operations, is one atomic step of the protocol or none, and keeps the Redis invariant |
| RedisProtocol.RunInvs | internal/backend/redis/redis.go:62-404 | the invariants of both levels hold in every reachable state |
| RedisProtocol.RedisRefinesJobSystem | internal/backend/redis/redis.go:62-404 | every interleaving of workers, enqueues and two-step deletes on Redis is a run of the atomic protocol |
| RedisRuns.NeverHeldTwice | internal/backend/redis/scripts.go:11-41 | no job is held by two workers, not even between the trips of Ack or Nack |
| RedisRuns.SplitNackIsAtomic | internal/backend/redis/redis.go:183-226 | when the nack script runs, the attempts, limit and queue read earlier are the stored ones and exactly one attempt is added, or the job is gone and nothing is written |
| RedisRuns.SortedSetsExact | internal/backend/redis/scripts.go:11-41 | in every reachable state the sorted sets hold exactly the pending jobs at their scheduled_at; Reserve comes back empty only if no job is eligible, and else claims the first by (scheduled_at, id) |
| RedisRuns.RedisTriesBounded | internal/backend/redis/scripts.go:54-89 | on Redis a job is handed out at most max_attempts times, and exactly as often as its row says |
| RedisRuns.RedisDelivers | internal/backend/redis/redis.go:142-226 | on Redis runs the first trip of Ack and the second of Nack deliver outcomes so |
| RedisRuns.RedisRetrySpacing | internal/backend/redis/redis.go:209-219 | on Redis retries are spaced by their delays, less than one second per retry given away |
| RedisRuns.RedisWholeSecondSpacing | internal/backend/redis/redis.go:209-219 | with delays of whole seconds, less than one second is given away in the whole run |
| RedisRuns.RedisOutcomesDecide | internal/backend/redis/scripts.go:54-89 | on Redis a finished job has the status, attempts and error its own outcomes dictate |
| RedisRuns.StatusSetsStep | internal/backend/redis/redis.go:142-404 | from exact status sets a step leads to exact ones if and only if it is none of three kinds: delete with an outdated status, second trip of Ack for a deleted job, lost second trip of Ack |
| RedisRuns.StatusSetsExact | internal/backend/redis/redis.go:142-404 | in runs without those steps every job is always in exactly the status set of its hash, but for an outstanding second trip of Ack |
| RedisRuns.StaleDelete | internal/backend/redis/redis.go:373-404 | a run in which a job reserved between the trips of its deletion stays in the running set although it is gone, for any fresh job |
| RedisRuns.ThenStaleDelete | internal/backend/redis/redis.go:373-404 | this can happen after any run, to any fresh job that is due, on a queue with nothing waiting |
| RedisRuns.StatsCountIndexes | internal/backend/redis/scripts.go:94-112 | the sets the statistics count are the jobs as indexed, and their total is the number of jobs of the queue, even with Acks half done |
| RedisRuns.StatsAreRowCounts | internal/backend/redis/scripts.go:94-112 | with no Ack half done the statistics are the per-status row counts |
| RedisRuns.TotalIsJobCount | internal/queue/queue.go:14-16 | at every moment of every run without deletes TotalJobs is the number of jobs of the queue, even if second trips of Ack are outstanding or were lost |
| RedisRuns.TotalMovesOnEnqueueOnly | internal/queue/queue.go:14-16 | in runs without deletes TotalJobs grows by one when a job is enqueued and is left alone by every other step |
| RedisRuns.SettledTotalIsJobCount | internal/queue/queue.go:14-16 | in runs with deletes the same holds as long as no step has unsettled the status sets |
| RedisRuns.SettledTotalMovesOnEnqueueOnly | internal/queue/queue.go:14-16 | in such runs TotalJobs moves only on enqueue and delete |
| RedisRuns.ListedMeansPending | internal/backend/redis/redis.go:264-294 | Redis lists exactly the queues that have a pending job |
| RedisListing.MembersBySpelling | internal/backend/redis/redis.go:301-307 | a status set read by key holds exactly the jobs whose own queue and status spell that key |
| RedisListing.ListsQueueAndStatus | internal/backend/redis/redis.go:301-307 | with a queue and any status the listing is the documented one if and only if no job of another queue is filed under a key spelled the same |
| RedisListing.ListingIsReliable | internal/backend/redis/redis.go:301-307 | for callers: it is the documented one for every consistent store if and only if the status does not end in a colon and the name of a status |
| RedisListing.ListsPendingOnly | internal/backend/redis/redis.go:308-314 | with a queue only, the pending jobs are listed: what is documented if and only if all the queue's jobs are pending |
| RedisListing.ListsNothingWithoutQueue | internal/backend/redis/redis.go:301-307 | with any status and no queue: what is documented if and only if no job has that status and none is filed under a key spelled the same; for a status that does not end in a colon and the name of a status, nothing is listed |
| RedisListing.ListsRemnantsToo | internal/backend/redis/redis.go:315-326 | with neither, all hashes are listed: what is documented if and only if none is a remnant |
| RedisRemnants.RemnantsAreLateAcks | internal/backend/redis/redis.go:147-160 | a remnant sits under an id exactly if a worker acked that job when it was gone and the id has not been deleted since |
| RedisRemnants.LateAckFollowsDelete | internal/backend/redis/redis.go:373-404 | such an Ack comes after a deletion of that job |
| RedisRemnants.LateAck | internal/backend/redis/redis.go:147-160 | a run in which a job is deleted while its handler runs and its Ack leaves a remnant that is listed, for any fresh job whose first try succeeds |
| RedisRemnants.ListsAllUnlessLateAck | internal/backend/redis/redis.go:315-326 | the listing of everything is the documented one exactly if no late Ack has left a remnant |
| RedisListing.ColonReachesOtherQueue | internal/backend/redis/redis.go:301-307 | a status with a colon lists jobs of another queue |
| PostgresOrder.PgDrainSorted | internal/backend/postgres/postgres.go:83-131 | draining a queue at a fixed instant claims exactly its pending due jobs, by priority descending and then scheduled_at ascending |
| PostgresOrder.PgDrainExists | internal/backend/postgres/postgres.go:83-131 | every queue has a drain at every instant |
| PostgresOrder.PgDrainCounts | internal/backend/postgres/postgres.go:83-131 | the drain is a permutation of the eligible jobs |
| CrossBackend.RedisPickIsPgPick | internal/backend/redis/scripts.go:12-27 | Redis hands out the row first by (scheduled_at, id); it is one the Postgres order allows if and only if no eligible job has a higher priority |
| CrossBackend.PrioritiesIgnored | internal/backend/redis/redis.go:87-92 | of any two fresh jobs that are due Redis hands out the earlier, and Postgres would not if the later has a higher priority |
| CrossBackend.EqualPrioritiesAgree | internal/backend/postgres/postgres.go:83-93 | with equal priorities every Redis choice is a Postgres choice, and both find nothing together |
| PostgresProtocol.StepRefines | internal/backend/postgres/postgres.go:75-214 | each statement or commit, in the middle of others' transactions, is one atomic step or none; locking and rolling back are none |
| PostgresProtocol.PostgresRefinesJobSystem | internal/backend/postgres/postgres.go:48-214 | every interleaving of Postgres transactions is a run of the atomic protocol |
| PostgresProtocol.LocksAreExclusive | internal/backend/postgres/postgres.go:75-132 | no row is locked by two transactions, and a selected row stays eligible until its transaction ends |
| PostgresProtocol.BestStayLocked | internal/backend/postgres/postgres.go:83-93 | rows locked by open Reserves stay at least as good as all eligible unlocked ones, unless a job enters the queue or one of them rolls back |
| PostgresProtocol.BestAreLockedInRun | internal/backend/postgres/postgres.go:83-93 | over runs: any number of concurrent Reserves at one instant lock the best rows of the queue |
| PostgresProtocol.PostgresDelivers | internal/backend/postgres/postgres.go:135-214 | on Postgres runs Ack and the commit of Nack deliver outcomes as in JobRuns.DeliveredInRun |
| PostgresProtocol.PostgresRetrySpacing | internal/backend/postgres/postgres.go:195-202 | on Postgres reservation n+1 comes at least the sum of the first n delays after the first, up to less than one column unit per retry |
| PostgresProtocol.PostgresWholeUnitSpacing | internal/backend/postgres/postgres.go:195-202 | with delays of whole column units, less than one unit is given away in the whole run |
| Backoff.DelayGrows | internal/worker/backoff.go:37-50 | with factor at least 1 and 0 <= initial <= max the delay is monotone in the attempt and stays between initial and max |
| Backoff.CapReached | internal/worker/backoff.go:46-48 | with factor above 1 and a positive initial delay the maximal delay is reached by a given attempt and kept |
| Backoff.FixedDelay | internal/worker/backoff.go:20-23 | a fixed backoff waits its delay after every try |
| Backoff.ExponentialDelay | internal/worker/backoff.go:36-50 | for any settings: the initial delay before any try, then initial * factor^(n-1) truncated toward zero, or the maximal delay if that is exceeded; a factor that is not positive means 2 |
| Backoff.DefaultDelays | internal/worker/backoff.go:52-60 | the default is 5*2^(n-1) seconds for tries 1 to 10, one hour from then on |
| DefaultSpacing.DefaultRetrySpacing | internal/worker/backoff.go:52-60 | with the default, reservation n+1 comes at least 5(2^n - 1) seconds after the first for n <= 10, and an hour later for each further retry, up to less than one column unit in the whole run |
| DefaultSpacing.RedisDefaultSpacing | internal/backend/redis/redis.go:209-219 | the same for interleaved Redis runs, up to less than one second in the whole run |
| DefaultSpacing.PostgresDefaultSpacing | internal/backend/postgres/postgres.go:195-202 | the same for interleaved Postgres runs, up to less than one column unit in the whole run |
| DefaultSpacing.FixedRetrySpacing | internal/worker/backoff.go:15-23 | with a fixed backoff, reservation n+1 comes at least n delays after the first, up to less than one column unit per retry |
| DefaultSpacing.RedisFixedSpacing | internal/backend/redis/redis.go:209-219 | the same for interleaved Redis runs |
| DefaultSpacing.PostgresFixedSpacing | internal/backend/postgres/postgres.go:195-202 | the same for interleaved Postgres runs |
| Decimal.IntRoundTrip | internal/backend/redis/redis.go:449-469 | exactly the 64-bit integers survive printing and parsing, negative ones included |
| Decimal.IntIsCanonical | internal/backend/redis/redis.go:76-81 | numbers are printed as digits without leading zero, behind a minus sign if negative |
| Decimal.GarbageFails | internal/backend/redis/redis.go:449-457 | a string with anything but digits behind an optional sign does not parse |
| HashCodec.StatusKeysDistinct | internal/backend/redis/redis.go:56-59 | status keys are equal exactly for equal queue and status |
| HashCodec.Names | internal/backend/redis/redis.go:70-83 | the names of fields and statuses |
| HashCodec.EnqueueWritesFields | internal/backend/redis/redis.go:69-85 | the stored entry has the twelve fields of HSET over what was there, and only them under a new id |
| HashCodec.AckWritesFields | internal/backend/redis/redis.go:151-155 | the first trip of Ack is an HSET of three fields, whether or not there is a hash |
| HashCodec.DeadWritesFields | internal/backend/redis/redis.go:243-246 | MoveToDLQ is an HSET of two fields |
| HashCodec.NackWritesFields | internal/backend/redis/scripts.go:66-89 | the nack script writes attempts, error, instants and status, and scheduled_at only for a retry |
| HashCodec.ReserveWritesFields | internal/backend/redis/scripts.go:29-30 | the reserve script writes status and updated_at of the job it claims |
| HashCodec.FullRoundTrip | internal/backend/redis/redis.go:434-481 | parsing the fields of a stored job gives the job back, optional instants that are not positive dropped |
| HashCodec.RemnantRoundTrip | internal/backend/redis/redis.go:434-481 | a remnant parses as a nameless job with zero instants where fields are missing |
| HashCodec.GarbageIsMissing | internal/backend/redis/redis.go:448-478 | a number or instant that does not parse counts as missing |
| HashCodec.HashRoundTrip | internal/backend/redis/redis.go:69-85 | a job with 64-bit numbers survives enqueue and parse, its instants floored to the second and without completed or failed instant |
| HashCodec.FlattenRoundTrip | internal/backend/redis/redis.go:418-429 | collecting the pairs of a flattened hash gives it back in whatever order it was flattened |
| HashCodec.LastPair | internal/backend/redis/redis.go:419-429 | a pair that is not two strings is skipped, and of pairs with one name the last counts |
| HashCodec.ReplyRoundTrip | internal/backend/redis/redis.go:413-481 | reading the reply for a stored entry, in any field order, gives the job back |
| HashCodec.CollectPairs | internal/backend/redis/redis.go:418-429 | the loop over the flat reply collects its string pairs, later ones winning |
| HashCodec.ParseJobFromHash | internal/backend/redis/redis.go:413-432 | an odd number of fields is an error; the reply for a stored entry, in any field order, gives the job back |
| HashCodec.StatsRoundTrip | internal/backend/redis/scripts.go:94-112 | the pairs of the statistics reply give the statistics back |
| HashCodec.OddPairs | internal/backend/redis/redis.go:486-513 | values of the wrong type and unknown names leave no trace, except that a name that is no string is emptied |
| HashCodec.ParseQueueStats | internal/backend/redis/redis.go:483-517 | the parser recovers exactly what the script put in, and skips values of the wrong type |
| RedisBackend.Backend.FirstDue | internal/backend/redis/scripts.go:12-16 | looking through the sorted set finds its first ready member |
| RedisBackend.Backend.Enqueue | internal/backend/redis/redis.go:62-103 | rejects invalid jobs unchanged; a new id adds exactly one row; a fresh job keeps the indexes exact |
| RedisBackend.Backend.RunReserveScript | internal/backend/redis/scripts.go:11-41 | command by command, the script's new state and reply |
| RedisBackend.Backend.Reserve | internal/backend/redis/redis.go:106-139 | claims the first eligible job of a valid store, and comes back empty, with nothing changed, only if there is none |
| RedisBackend.Backend.Ack | internal/backend/redis/redis.go:142-178 | completes a running job; for a missing one reports an error and leaves the table unchanged |
| RedisBackend.Backend.RunNackScript | internal/backend/redis/scripts.go:51-90 | command by command, the script's new state |
| RedisBackend.Backend.Nack | internal/backend/redis/redis.go:183-226 | counts one failed try of a running job and reschedules or buries it; an error for a missing one |
| RedisBackend.Backend.MoveToDLQ | internal/backend/redis/redis.go:229-262 | the new state of dead-lettering; an error for a missing job |
| RedisBackend.Backend.DeleteJob | internal/backend/redis/redis.go:373-404 | removes exactly the hash, and keeps a valid store valid; an error for a missing one |
| PostgresBackend.Backend.Enqueue | internal/backend/postgres/postgres.go:48-72 | adds exactly one row, or rejects an invalid job or a used id unchanged; a fresh job is stored as it is, at column precision |
| PostgresBackend.Backend.Reserve | internal/backend/postgres/postgres.go:75-132 | claims a pending due row of the queue such that no other has a higher priority, or the same priority and an earlier scheduled_at; sets status and updated_at only; finds none only if none is eligible |
| PostgresBackend.Backend.Ack | internal/backend/postgres/postgres.go:135-153 | completes exactly the row; an error for a missing one |
| PostgresBackend.Backend.Nack | internal/backend/postgres/postgres.go:158-214 | counts one failed try of exactly the row and reschedules or buries it; an error for a missing one |
| PostgresBackend.Backend.DeleteJob | internal/backend/postgres/postgres.go:366-379 | removes exactly the row; an error for a missing one |
| Worker.TurnProgresses | internal/worker/worker.go:131-196 | reserve, handler and ack or nack together move a pending job on by one try, in agreement with its outcomes, with less work left |
| Worker.TurnIsProtocolSteps | internal/worker/worker.go:131-196 | a worker's turn is a reservation and the matching ack or nack of the protocol |
| Worker.Worker.Execute | internal/worker/worker.go:146-196 | the row is completed after success; after a failure it has one more attempt and the error, and is due after nextDelay(attempts+1), or dead; without handler it is due at once with the no-handler message; the worker ends idle |
| Worker.Worker.ProcessNext | internal/worker/worker.go:131-143 | claims and executes one best eligible job, idle only if there is none |
| Worker.Worker.Turn | internal/worker/worker.go:116-143 | a worker with its queue to itself leaves strictly less work after each busy turn and keeps all rows in agreement with their outcomes |
| Worker.Worker.Run | internal/worker/worker.go:104-128 | if the clock passes every instant, polling ends with every job of the queue completed or dead as its outcomes dictate, every other row untouched |
| Dashboard.WindowPanics | internal/backend/redis/redis.go:329-338 | the slice bounds panic exactly when offset plus limit overflows inside the list |
| Dashboard.WindowIs | internal/backend/redis/redis.go:329-338 | a positive limit cuts out that many ids from the offset on, or what is left; any other limit takes all; an offset behind the end gives none; overflow panics |
| Dashboard.ListJobs | internal/backend/redis/redis.go:328-350 | the stored jobs of that cut, in order |
| Dashboard.HandleListJobs | internal/httpapi/handlers.go:178-207 | the HTTP listing passes limit and offset unchanged, with 50 and 0 for unreadable or useless ones |
| Dashboard.ReadParams | internal/dashboard/dashboard.go:95-107 | readable positive limits and non-negative offsets are taken as printed, others replaced by 50 and 0 |
| Dashboard.Fetch | internal/backend/redis/redis.go:341-348 | the listed jobs that still exist, in order |
| Dashboard.ListForPage | internal/dashboard/dashboard.go:109 | a page asks for its window and one more, wrap-around included |
| Dashboard.ShowPage | internal/dashboard/dashboard.go:109-135 | hasNext holds exactly when further ids remain and none it asked for is gone; then the whole window is shown |
| Dashboard.NextOffset | internal/dashboard/dashboard.go:133 | the next offset, wrapped around to 64 bits |
| Dashboard.WalkIsComplete | internal/dashboard/dashboard.go:109-135 | the jobs up to the first page that asks for an id whose job is gone are all stored jobs if and only if none comes later |
| Dashboard.Walk | internal/dashboard/dashboard.go:95-135 | following next offsets while there is a next page ends, for every limit, and shows once each and in order the stored jobs up to that page: all of them if and only if none comes later, and the whole listing if all its jobs are stored |
| HiddenJobs.StaleDeleteHides | internal/dashboard/dashboard.go:109-118 | a Redis run after which the running set has the id of a deleted job; if that is replied first, a walk with one job per page never shows a job that is stored and running |
| Handlers.RequestedIsFresh | internal/httpapi/handlers.go:47-62 | accepted are exactly the requests with type, queue, payload and no limit below one; omitted fields mean priority 10, three attempts, due at once; what is accepted is a fresh job |
| Handlers.RetriedIsFresh | internal/httpapi/handlers.go:110-112 | a replacement has attempts 0, is pending and due at once, keeps type, queue, payload, priority and limit, and is valid exactly if the old job was |
| Handlers.HandleEnqueue | internal/httpapi/handlers.go:40-71 | a request without type, queue or payload, or with a limit below one, is refused for the first of these reasons and changes nothing; any other adds exactly one pending row with each requested value, and priority 10, three attempts and due now for what is left out |
| Handlers.HandleRetryJob | internal/httpapi/handlers.go:90-121 | on Redis a stored job is always swapped for exactly one fresh pending job; a missing one is not found, a remnant an error, and nothing changes |
| Handlers.DashboardRetryJob | internal/dashboard/dashboard.go:159-183 | the same for the dashboard, except that a remnant is removed and not replaced |
| Handlers.HandleCancelJob | internal/httpapi/handlers.go:123-149 | undisturbed, exactly pending jobs are removed, and nothing else; jobs in any other status are a conflict, missing ones are not found |
| Handlers.HandleRetryJobPostgres | internal/httpapi/handlers.go:90-121 | on Postgres a stored job is always swapped for exactly one fresh pending job |

## Left out

- Connection and command failures, context cancellation and `Close`: every command is answered. A
  call that never arrives is the `Abandon` or `Stop` step of the protocols, so a job may stay
  running after its worker has stopped.
- A pipeline is taken as one atomic step. Redis may in fact interleave other clients' commands
  between those of a pipeline that is no transaction.
- `MoveToDLQ` in the step machines: nothing in the program calls it. It is an operation of `RedisOps`
  and of the Redis class. The Postgres `MoveToDLQ`, a single update, is not modelled.
- Postgres `ListQueues` and `ListJobs`: SQL counting, filtering and sorting.
- Which order SMEMBERS and KEYS reply in: paging is proved for any fixed order of ids.
- Dashboard.Walk: the listing is fixed during the walk and has at most 2^62 ids, which is more strings
  than a Go slice can have; `ShowPage` has no such bound.
- Dashboard.ListJobs: offsets are not negative, as both handlers see to; a negative one would panic.
- Worker.Worker.Run: stops when no job of its queue is pending (the program stops when it is told
  to), and has its queue and a Postgres backend to itself. `RedisDraining` and `PostgresDraining` are
  about any number of workers on either backend.
- That the scheduler is fair is an assumption of the two `EverythingGetsDone`; the results of
  `RedisDraining` and `PostgresDraining` do without.
- Workers with different registries or backoffs: as in a pool, which hands its own to each of its
  workers, all workers of a run share one `JobSystem.Config`.
- Handlers.HandleCancelJob: the check and the delete are two calls; a worker may reserve the job in
  between, so the contract is sequential. The same goes for both retries.
- Handler bodies, panics, logging, and the quoting of unusual characters in the no-handler message.
- Fresh ids and a clock shared by all workers that never goes back are assumed; `NewJob` takes both
  as parameters.
- Ids are compared by characters; Redis compares bytes, which for UTF-8 is the same order.
- Sorted-set scores and Lua numbers are integers here: they are doubles in Redis, exact below 2^53.
- The backoff is computed over the reals; rounding, infinities and values beyond 64 bits are not
  modelled. The powers of two of the default are exact in floating point.
- A NULL last_error in Postgres reads as the empty string, which is what the scan intends.
- The worker pool, HTTP routing, JSON, the API key, the CLI, templates, `HealthScore`,
  `IsRetryable` and the `Mark` methods of a job, which no backend uses.
