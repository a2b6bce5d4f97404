/** The backend operations as a sequential client sees them, on jobs in any status: what they
    never break, and exactly which calls keep the status sets right. */
module RedisOps {
  import opened Options
  import opened Jobs
  import opened RedisStore
  import opened RedisIndexes

  datatype Op =
    | Enqueue(job: Job)
    | Reserve(queue: string, now: int)
    | Ack(id: string, now: int)
    | Nack(id: string, err: string, now: int, retryAt: int)
    | MoveToDLQ(id: string, now: int)
    | Delete(id: string)

  function EnqueueOp(s: Store, job: Job): Store {
    if Validate(job).Some? then s else EnqueuePipeline(s, job)
  }

  function AckOp(s: Store, id: string, now: int): Store {
    var (s1, queue) := AckFirst(s, id, now);
    if queue.None? then s1 else AckSecond(s1, queue.value, id)
  }

  function NackOp(s: Store, id: string, err: string, now: int, retryAt: int): Store {
    match ReadForNack(s, id)
    case None => s
    case Some(read) => NackScript(s, id, read, err, now, retryAt)
  }

  function DeadOp(s: Store, id: string, now: int): Store {
    if IsFull(s, id) then DeadPipeline(s, id, s.hashes[id].job.queue, now) else s
  }

  function DeleteOp(s: Store, id: string): Store {
    match ReadForDelete(s, id)
    case None => s
    case Some(read) => DeletePipeline(s, read)
  }

  ghost function Apply(s: Store, op: Op): Store {
    match op
    case Enqueue(job) => EnqueueOp(s, job)
    case Reserve(queue, now) => ReserveScript(s, queue, now).0
    case Ack(id, now) => AckOp(s, id, now)
    case Nack(id, err, now, retryAt) => NackOp(s, id, err, now, retryAt)
    case MoveToDLQ(id, now) => DeadOp(s, id, now)
    case Delete(id) => DeleteOp(s, id)
  }

  ghost function ApplyAll(s: Store, ops: seq<Op>): Store {
    if ops == [] then s else Apply(ApplyAll(s, ops[..|ops| - 1]), ops[|ops| - 1])
  }

  // ---------- No pending job is ever stranded ----------

  predicate QueuedAt(s: Store, id: string) {
    IsPending(s, id) ==>
      var j := s.hashes[id].job;
      id in ZSet(s, j.queue) && ZSet(s, j.queue)[id] == j.scheduledAt
  }

  ghost predicate NoneStranded(s: Store) {
    && (forall id | IsPending(s, id) :: QueuedAt(s, id))
    && (forall id | IsFull(s, id) :: s.hashes[id].job.id == id)
  }

  lemma ApplyStrandsNone(s: Store, op: Op)
    requires NoneStranded(s)
    ensures NoneStranded(Apply(s, op))
  {
    match op
    case Nack(id, err, now, retryAt) => NackStrandsNone(s, id, err, now, retryAt);
    case Ack(id, now) => KeepsQueued(s, AckOp(s, id, now), id);
    case MoveToDLQ(id, now) => KeepsQueued(s, DeadOp(s, id, now), id);
    case Enqueue(job) => EnqueueStrandsNone(s, job);
    case Delete(id) => KeepsQueued(s, DeleteOp(s, id), id);
    case Reserve(queue, now) => ReserveStrandsNone(s, queue, now);
  }

  lemma EnqueueStrandsNone(s: Store, job: Job)
    requires NoneStranded(s)
    ensures NoneStranded(EnqueueOp(s, job))
  {
    KeepsQueued(s, EnqueuePipeline(s, job), job.id);
  }

  lemma ReserveStrandsNone(s: Store, queue: string, now: int)
    requires NoneStranded(s)
    ensures NoneStranded(ReserveScript(s, queue, now).0)
  {
    var r := FirstReady(ZSet(s, queue), now);
    if r.Some? { KeepsQueued(s, ReserveScript(s, queue, now).0, r.value); }
  }

  /** An operation that concerns one job only: entries of other jobs stay. */
  lemma KeepsQueued(s: Store, s': Store, own: string)
    requires NoneStranded(s)
    requires forall id | id != own :: id in s'.hashes ==> id in s.hashes && s'.hashes[id] == s.hashes[id]
    requires forall q, id | id != own && id in ZSet(s, q) :: id in ZSet(s', q) && ZSet(s', q)[id] == ZSet(s, q)[id]
    requires QueuedAt(s', own)
    requires IsFull(s', own) ==> s'.hashes[own].job.id == own
    ensures NoneStranded(s')
  {
    forall id | IsPending(s', id) ensures QueuedAt(s', id) {
      if id != own { assert QueuedAt(s, id); }
    }
  }

  lemma NackStrandsNone(s: Store, id: string, err: string, now: int, retryAt: int)
    requires NoneStranded(s)
    ensures NoneStranded(NackOp(s, id, err, now, retryAt))
  {
    if IsFull(s, id) {
      var read := ReadForNack(s, id).value;
      NackHashes(s, id, read, err, now, retryAt);
      NackSortedSets(s, id, read, err, now, retryAt);
      KeepsQueued(s, NackScript(s, id, read, err, now, retryAt), id);
    }
  }

  /** After any sequence of operations on jobs in any status, ids reused or not, every pending
      job is in its queue's sorted set at its scheduled instant. */
  lemma {:induction false} NeverStranded(ops: seq<Op>)
    ensures NoneStranded(ApplyAll(EMPTY, ops))
  {
    if ops != [] {
      NeverStranded(ops[..|ops| - 1]);
      ApplyStrandsNone(ApplyAll(EMPTY, ops[..|ops| - 1]), ops[|ops| - 1]);
    }
  }

  // ---------- Stored jobs stay valid ----------

  /** A step that changes no hash but one, whose new row is valid. */
  lemma OneRowKeepsValidity(s: Store, s': Store, own: string)
    requires AllValidate(TableOf(s))
    requires forall id | id != own && id in s'.hashes :: id in s.hashes && s'.hashes[id] == s.hashes[id]
    requires IsFull(s', own) ==> Validate(s'.hashes[own].job) == None
    ensures AllValidate(TableOf(s'))
  {
    forall id | id in TableOf(s') ensures Validate(TableOf(s')[id]) == None {
      assert id != own ==> id in TableOf(s);
    }
  }

  lemma ApplyKeepsValidity(s: Store, op: Op)
    requires AllValidate(TableOf(s))
    ensures AllValidate(TableOf(Apply(s, op)))
  {
    match op
    case Enqueue(job) => EnqueueKeepsValidity(s, job);
    case Reserve(queue, now) => ReserveKeepsValidity(s, queue, now);
    case Ack(id, now) => EndKeepsValidity(s, id, now);
    case Nack(id, err, now, retryAt) => NackKeepsValidity(s, id, err, now, retryAt);
    case MoveToDLQ(id, now) => EndKeepsValidity(s, id, now);
    case Delete(id) => OneRowKeepsValidity(s, DeleteOp(s, id), id);
  }

  lemma EnqueueKeepsValidity(s: Store, job: Job)
    requires AllValidate(TableOf(s))
    ensures AllValidate(TableOf(EnqueueOp(s, job)))
  {
    RowIsValid(s, job.id);
    OneRowKeepsValidity(s, EnqueueOp(s, job), job.id);
  }

  lemma EndKeepsValidity(s: Store, id: string, now: int)
    requires AllValidate(TableOf(s))
    ensures AllValidate(TableOf(AckOp(s, id, now))) && AllValidate(TableOf(DeadOp(s, id, now)))
  {
    RowIsValid(s, id);
    OneRowKeepsValidity(s, AckOp(s, id, now), id);
    OneRowKeepsValidity(s, DeadOp(s, id, now), id);
  }

  lemma RowIsValid(s: Store, id: string)
    requires AllValidate(TableOf(s))
    ensures IsFull(s, id) ==> Validate(s.hashes[id].job) == None
  {
    assert IsFull(s, id) ==> id in TableOf(s);
  }

  lemma ReserveKeepsValidity(s: Store, queue: string, now: int)
    requires AllValidate(TableOf(s))
    ensures AllValidate(TableOf(ReserveScript(s, queue, now).0))
  {
    var r := FirstReady(ZSet(s, queue), now);
    if r.Some? {
      RowIsValid(s, r.value);
      OneRowKeepsValidity(s, ReserveScript(s, queue, now).0, r.value);
    }
  }

  lemma NackKeepsValidity(s: Store, id: string, err: string, now: int, retryAt: int)
    requires AllValidate(TableOf(s))
    ensures AllValidate(TableOf(NackOp(s, id, err, now, retryAt)))
  {
    if IsFull(s, id) {
      RowIsValid(s, id);
      NackHashes(s, id, ReadForNack(s, id).value, err, now, retryAt);
      OneRowKeepsValidity(s, NackOp(s, id, err, now, retryAt), id);
    }
  }

  /** After any sequence of operations every stored job would pass validation again, so that a
      retry's re-enqueue cannot be rejected. */
  lemma {:induction false} StoredJobsValidate(ops: seq<Op>)
    ensures AllValidate(TableOf(ApplyAll(EMPTY, ops))) && Keyed(TableOf(ApplyAll(EMPTY, ops)))
  {
    NeverStranded(ops);
    if ops != [] {
      StoredJobsValidate(ops[..|ops| - 1]);
      ApplyKeepsValidity(ApplyAll(EMPTY, ops[..|ops| - 1]), ops[|ops| - 1]);
    }
  }

  // ---------- Stale entries ----------

  /** Entries that are due but whose job is not pending (any more). */
  function Stale(s: Store, queue: string, now: int): set<string> {
    set id | id in ZSet(s, queue) && ZSet(s, queue)[id] <= now && !IsPending(s, id)
  }

  /** `n` Reserve calls in a row that come back empty. */
  ghost predicate AllEmpty(s: Store, queue: string, now: int, n: nat)
    decreases n
  {
    n == 0 || (ReserveScript(s, queue, now).1.None? && AllEmpty(ReserveScript(s, queue, now).0, queue, now, n - 1))
  }

  /** Stale entries cannot hide a due job: each empty-handed Reserve removes one of them, so
      more empty calls than stale entries means that there is nothing to claim. */
  lemma {:induction false} StaleEntriesDrain(s: Store, queue: string, now: int, id: string, n: nat)
    requires NoneStranded(s)
    requires IsPending(s, id) && s.hashes[id].job.queue == queue && s.hashes[id].job.scheduledAt <= now
    requires AllEmpty(s, queue, now, n)
    ensures n <= |Stale(s, queue, now)|
    decreases n
  {
    if n > 0 {
      assert QueuedAt(s, id);
      var first := FirstReady(ZSet(s, queue), now).value;
      var s' := ReserveScript(s, queue, now).0;
      assert s' == ZRem(s, queue, first);
      assert Stale(s', queue, now) == Stale(s, queue, now) - {first};
      ApplyStrandsNone(s, Reserve(queue, now));
      StaleEntriesDrain(s', queue, now, id, n - 1);
    }
  }

  // ---------- Which calls keep the indexes in agreement ----------

  lemma EnqueueKeepsAgreement(s: Store, job: Job)
    requires Agrees(s) && job.id !in s.hashes && Validate(job) == None
    ensures Agrees(EnqueueOp(s, job)) <==> job.status == Pending
  {
    if job.status == Pending {
      EnqueueRefines(s, job, {});
    } else {
      assert !QueueAgreesAt(EnqueueOp(s, job), job.queue, job.id);
    }
  }

  /** Acking keeps agreement exactly for a job that is running or already completed. */
  lemma AckKeepsAgreement(s: Store, id: string, now: int)
    requires Agrees(s)
    ensures Agrees(AckOp(s, id, now)) <==>
            (IsFull(s, id) ==> s.hashes[id].job.status in {Running, Completed})
  {
    var s' := AckOp(s, id, now);
    if !IsFull(s, id) {
      SameIndexes(s, s');
    } else {
      var j := s.hashes[id].job;
      if j.status in {Running, Completed} {
        forall q, x ensures QueueAgreesAt(s', q, x) { assert QueueAgreesAt(s, q, x); }
        forall q, st, x ensures StatusAgreesAt(s', {}, q, st, x) { assert StatusAgreesAt(s, {}, q, st, x); }
      } else {
        assert StatusAgreesAt(s, {}, j.queue, j.status, id);
        assert !StatusAgreesAt(s', {}, j.queue, j.status, id);
      }
    }
  }

  /** A hash that is no job is in no index. */
  lemma SameIndexes(s: Store, s': Store)
    requires Agrees(s)
    requires s'.zsets == s.zsets && s'.sets == s.sets
    requires TableOf(s') == TableOf(s)
    ensures Agrees(s')
  {
    forall id ensures IsFull(s', id) == IsFull(s, id) && (IsFull(s, id) ==> s'.hashes[id] == s.hashes[id]) {
      assert id in TableOf(s') <==> id in TableOf(s);
    }
    forall q, x ensures QueueAgreesAt(s', q, x) { assert QueueAgreesAt(s, q, x); }
    forall q, st, x ensures StatusAgreesAt(s', {}, q, st, x) { assert StatusAgreesAt(s, {}, q, st, x); }
  }

  /** Nacking keeps agreement exactly for a running job, a pending one with attempts to spare,
      and a dead one that stays dead. In particular a pending job nacked on its last attempt
      dies inside the sorted set. */
  lemma NackKeepsAgreement(s: Store, id: string, err: string, now: int, retryAt: int)
    requires Agrees(s)
    ensures Agrees(NackOp(s, id, err, now, retryAt)) <==> (IsFull(s, id) ==> NackFits(s.hashes[id].job))
  {
    if IsFull(s, id) {
      var read, j := ReadForNack(s, id).value, s.hashes[id].job;
      NackStatusSets(s, id, read, err, now, retryAt);
      assert StatusAgreesAt(s, {}, j.queue, j.status, id);
      if NackFits(j) {
        NackFitsAgrees(s, id, err, now, retryAt);
      } else {
        assert !StatusAgreesAt(NackOp(s, id, err, now, retryAt), {}, j.queue, j.status, id);
      }
    }
  }

  predicate NackFits(j: Job) {
    || j.status == Running
    || (j.status == Pending && j.attempts + 1 < j.maxAttempts)
    || (j.status == Dead && j.attempts + 1 >= j.maxAttempts)
  }

  lemma NackFitsAgrees(s: Store, id: string, err: string, now: int, retryAt: int)
    requires Agrees(s) && IsFull(s, id) && NackFits(s.hashes[id].job)
    ensures Agrees(NackOp(s, id, err, now, retryAt))
  {
    var read := ReadForNack(s, id).value;
    NackHashes(s, id, read, err, now, retryAt);
    NackSortedSets(s, id, read, err, now, retryAt);
    NackStatusSets(s, id, read, err, now, retryAt);
    MovedAgrees(s, NackScript(s, id, read, err, now, retryAt), id, NackedRow(s.hashes[id].job, err, now, retryAt));
  }

  /** A job that leaves the sorted set and status set of its row, or the running set, and
      enters those of its new row `j`. */
  lemma MovedAgrees(s: Store, s': Store, id: string, j: Job)
    requires Agrees(s) && IsFull(s, id) && s'.hashes == s.hashes[id := Full(j)]
    requires j.id == id && j.queue == s.hashes[id].job.queue && j.status in {Pending, Dead}
    requires s.hashes[id].job.status in {Running, j.status}
    requires forall q :: ZSet(s', q) == if q == j.queue && j.status == Pending
                                        then ZSet(s, q)[id := j.scheduledAt] else ZSet(s, q)
    requires forall q, st :: SSet(s', q, st) == if q == j.queue && st == Running then SSet(s, q, st) - {id}
                                                else if q == j.queue && st == j.status then SSet(s, q, st) + {id}
                                                else SSet(s, q, st)
    ensures Agrees(s')
  {
    forall q, x ensures QueueAgreesAt(s', q, x) { assert QueueAgreesAt(s, q, x); }
    forall q, st, x ensures StatusAgreesAt(s', {}, q, st, x) { assert StatusAgreesAt(s, {}, q, st, x); }
  }

  lemma NackStatusSets(s: Store, id: string, read: NackRead, err: string, now: int, retryAt: int)
    requires IsFull(s, id)
    ensures var s' := NackScript(s, id, read, err, now, retryAt);
            var next := if read.attempts + 1 >= read.maxAttempts then Dead else Pending;
            forall q, st :: SSet(s', q, st) ==
                            if q == read.queue && st == Running then SSet(s, q, st) - {id}
                            else if q == read.queue && st == next then SSet(s, q, st) + {id}
                            else SSet(s, q, st)
  {
  }

  /** Dead-lettering keeps agreement exactly for a job that is running, failed or dead: the
      pending and completed sets are not cleaned. */
  lemma MoveToDLQKeepsAgreement(s: Store, id: string, now: int)
    requires Agrees(s)
    ensures Agrees(DeadOp(s, id, now)) <==>
            (IsFull(s, id) ==> s.hashes[id].job.status in {Running, Failed, Dead})
  {
    if IsFull(s, id) {
      var s', j := DeadOp(s, id, now), s.hashes[id].job;
      assert StatusAgreesAt(s, {}, j.queue, j.status, id);
      if j.status in {Running, Failed, Dead} {
        forall q, x ensures QueueAgreesAt(s', q, x) { assert QueueAgreesAt(s, q, x); }
        forall q, st, x ensures StatusAgreesAt(s', {}, q, st, x) { assert StatusAgreesAt(s, {}, q, st, x); }
      } else {
        assert !StatusAgreesAt(s', {}, j.queue, j.status, id);
      }
    }
  }

  /** What Ack and Nack leave under the id, whatever its status was. */
  lemma AckOpRow(s: Store, id: string, now: int)
    ensures AckOp(s, id, now).hashes ==
            s.hashes[id := if IsFull(s, id)
                           then Full(s.hashes[id].job.(status := Completed, completedAt := Some(now), updatedAt := now))
                           else Remnant(Completed, Some(now), now)]
  {
  }

  lemma NackOpRow(s: Store, id: string, err: string, now: int, delay: int)
    requires IsFull(s, id)
    ensures var s' := NackOp(s, id, err, Ticks(now, SECOND), Ticks(now + delay, SECOND));
            && IsFull(s', id)
            && s'.hashes == s.hashes[id := s'.hashes[id]]
            && FailedInto(s.hashes[id].job, s'.hashes[id].job, err, delay, now, SECOND)
  {
    NackHashes(s, id, ReadForNack(s, id).value, err, Ticks(now, SECOND), Ticks(now + delay, SECOND));
  }

  /** Nacking, dead-lettering or deleting what is not there changes nothing; nor do a Nack or
      MoveToDLQ of a remnant. */
  lemma MissingChangesNothing(s: Store, id: string, err: string, now: int, retryAt: int)
    ensures !IsFull(s, id) ==> NackOp(s, id, err, now, retryAt) == s && DeadOp(s, id, now) == s
    ensures id !in s.hashes ==> DeleteOp(s, id) == s
  {
  }

  /** Deleting a remnant looks for it under the empty queue name, and takes its hash away. */
  lemma DeletesRemnant(s: Store, id: string)
    requires id in s.hashes && s.hashes[id].Remnant?
    ensures var s' := DeleteOp(s, id);
            && s'.hashes == s.hashes - {id}
            && (forall q :: ZSet(s', q) == if q == "" then ZSet(s, q) - {id} else ZSet(s, q))
            && (forall q, st :: SSet(s', q, st) == if q == "" && st == s.hashes[id].status
                                                   then SSet(s, q, st) - {id} else SSet(s, q, st))
  {
  }

  /** What dead-lettering does to a stored job in any status: it is dead, waits no more, and is
      listed as dead and neither as running nor as failed. Nothing else changes. */
  lemma MoveToDLQMoves(s: Store, id: string, now: int)
    requires IsFull(s, id)
    ensures var j, s' := s.hashes[id].job, DeadOp(s, id, now);
            && s'.hashes == s.hashes[id := Full(j.(status := Dead, updatedAt := now))]
            && (forall q :: ZSet(s', q) == if q == j.queue then ZSet(s, q) - {id} else ZSet(s, q))
            && (forall q, st ::
                  SSet(s', q, st) ==
                  if q != j.queue then SSet(s, q, st)
                  else match st
                    case Dead => SSet(s, q, st) + {id}
                    case Running => SSet(s, q, st) - {id}
                    case Failed => SSet(s, q, st) - {id}
                    case _ => SSet(s, q, st))
  {
  }

  /** Reserving and deleting always keep agreement when nobody else is at work. */
  lemma ReserveAndDeleteKeepAgreement(s: Store, queue: string, now: int, id: string)
    requires Agrees(s)
    ensures Agrees(ReserveScript(s, queue, now).0)
    ensures Agrees(DeleteOp(s, id)) && TableOf(DeleteOp(s, id)) == TableOf(s) - {id}
  {
    ReserveRefines(s, queue, now, {});
    if id in s.hashes {
      var read := ReadForDelete(s, id).value;
      DeleteRefines(s, read);
      DeleteSettles(s, read, {});
    }
  }

  // ---------- The operations on the table ----------

  /** Ack and Nack by the holder of a running job, as table updates. */
  lemma AckOpOnTable(s: Store, id: string, now: int)
    requires Agrees(s) && (IsFull(s, id) ==> s.hashes[id].job.status == Running)
    ensures Agrees(AckOp(s, id, now))
    ensures TableOf(AckOp(s, id, now)) ==
            if IsFull(s, id) then TableOf(s)[id := AckedRow(TableOf(s)[id], now)] else TableOf(s)
  {
    AckKeepsAgreement(s, id, now);
    AckFirstRefines(s, id, now, {});
  }

  lemma NackOpOnTable(s: Store, id: string, err: string, now: int, retryAt: int)
    requires Agrees(s) && (IsFull(s, id) ==> s.hashes[id].job.status == Running)
    ensures Agrees(NackOp(s, id, err, now, retryAt))
    ensures TableOf(NackOp(s, id, err, now, retryAt)) ==
            if IsFull(s, id) then TableOf(s)[id := NackedRow(TableOf(s)[id], err, now, retryAt)] else TableOf(s)
  {
    NackKeepsAgreement(s, id, err, now, retryAt);
    if IsFull(s, id) {
      NackScriptRefines(s, id, ReadForNack(s, id).value, err, now, retryAt, {});
    }
  }

  // ---------- The order of claims ----------

  /** `picks` is what repeated Reserve calls at a fixed instant return until one is empty. */
  ghost predicate RedisDrain(s: Store, queue: string, now: int, picks: seq<string>)
    decreases |picks|
  {
    var (s', r) := ReserveScript(s, queue, now);
    if picks == [] then r.None?
    else r.Some? && r.value.id == picks[0] && RedisDrain(s', queue, now, picks[1..])
  }

  /** Repeated Reserve calls do come to an end, on any store. */
  lemma {:induction false} RedisDrainExists(s: Store, queue: string, now: int) returns (picks: seq<string>)
    requires forall id | IsFull(s, id) :: s.hashes[id].job.id == id
    ensures RedisDrain(s, queue, now, picks)
    decreases |ZSet(s, queue)|
  {
    var (s', r) := ReserveScript(s, queue, now);
    if r.None? {
      picks := [];
    } else {
      ClaimLeavesZSet(s, queue, now);
      var rest := RedisDrainExists(s', queue, now);
      picks := [r.value.id] + rest;
      assert picks[1..] == rest;
    }
  }

  lemma ClaimLeavesZSet(s: Store, queue: string, now: int)
    requires ReserveScript(s, queue, now).1.Some?
    requires forall id | IsFull(s, id) :: s.hashes[id].job.id == id
    ensures var (s', r) := ReserveScript(s, queue, now);
            && |ZSet(s', queue)| < |ZSet(s, queue)|
            && forall id | IsFull(s', id) :: s'.hashes[id].job.id == id
  {
    var first := FirstReady(ZSet(s, queue), now).value;
    var s' := ReserveScript(s, queue, now).0;
    assert ZSet(s', queue) == ZSet(s, queue) - {first};
    assert ZSet(s', queue).Keys == ZSet(s, queue).Keys - {first};
  }

  /** Distinct rows, each before all later ones. */
  ghost predicate InRedisOrder(t: Table, picks: seq<string>) {
    && (forall id | id in picks :: id in t)
    && (forall i, k | 0 <= i < k < |picks| :: picks[i] != picks[k] && RedisBefore(t[picks[i]], t[picks[k]]))
  }

  lemma FirstInRedisOrder(t: Table, first: string, rest: seq<string>)
    requires InRedisOrder(t, rest) && first in t && first !in rest
    requires forall id | id in rest :: RedisBefore(t[first], t[id])
    ensures InRedisOrder(t, [first] + rest)
  {
    var picks := [first] + rest;
    forall i, k | 0 <= i < k < |picks|
      ensures picks[i] != picks[k] && RedisBefore(t[picks[i]], t[picks[k]])
    {
      assert picks[k] == rest[k - 1] && picks[k] in rest;
      if i > 0 { assert picks[i] == rest[i - 1]; }
    }
  }

  /** Draining a queue claims every eligible job exactly once, in order of (scheduled_at, id). */
  lemma RedisDrainSorted(s: Store, queue: string, now: int, picks: seq<string>)
    requires QueuesAgree(s) && RedisDrain(s, queue, now, picks)
    ensures forall id :: id in picks <==>
                         IsPending(s, id) && s.hashes[id].job.queue == queue && s.hashes[id].job.scheduledAt <= now
    ensures InRedisOrder(TableOf(s), picks)
    ensures forall i, k | 0 <= i < k < |picks| ::
              var a, b := TableOf(s)[picks[i]], TableOf(s)[picks[k]];
              a.scheduledAt < b.scheduledAt || (a.scheduledAt == b.scheduledAt && BytesBefore(picks[i], picks[k]))
  {
    RedisDrainInOrder(s, queue, now, picks);
    assert forall id :: id in picks <==> id in EligibleIds(TableOf(s), queue, now);
    forall i, k | 0 <= i < k < |picks|
      ensures var a, b := TableOf(s)[picks[i]], TableOf(s)[picks[k]];
              a.scheduledAt < b.scheduledAt || (a.scheduledAt == b.scheduledAt && BytesBefore(picks[i], picks[k]))
    {
      assert picks[i] in TableOf(s) && picks[k] in TableOf(s);
      assert IsFull(s, picks[i]) && IsFull(s, picks[k]);
      StringLeqIs(picks[i], picks[k]);
    }
  }

  lemma {:induction false} RedisDrainInOrder(s: Store, queue: string, now: int, picks: seq<string>)
    requires QueuesAgree(s) && RedisDrain(s, queue, now, picks)
    ensures forall id :: id in picks <==> id in EligibleIds(TableOf(s), queue, now)
    ensures InRedisOrder(TableOf(s), picks)
    decreases |picks|
  {
    if picks == [] {
      ReserveRefines(s, queue, now, {});
    } else {
      var s' := DrainHead(s, queue, now, picks);
      RedisDrainInOrder(s', queue, now, picks[1..]);
      PrependPick(TableOf(s), TableOf(s'), queue, now, picks);
    }
  }

  lemma DrainHead(s: Store, queue: string, now: int, picks: seq<string>) returns (s': Store)
    requires QueuesAgree(s) && RedisDrain(s, queue, now, picks) && picks != []
    ensures QueuesAgree(s') && RedisDrain(s', queue, now, picks[1..])
    ensures RedisPick(TableOf(s), queue, now, picks[0])
    ensures TableOf(s') == TableOf(s)[picks[0] := ReservedRow(TableOf(s)[picks[0]], now)]
  {
    ReserveRefines(s, queue, now, {});
    s' := ReserveScript(s, queue, now).0;
  }

  lemma PrependPick(t: Table, t': Table, queue: string, now: int, picks: seq<string>)
    requires picks != [] && RedisPick(t, queue, now, picks[0])
    requires t' == t[picks[0] := ReservedRow(t[picks[0]], now)]
    requires forall id :: id in picks[1..] <==> id in EligibleIds(t', queue, now)
    requires InRedisOrder(t', picks[1..])
    ensures forall id :: id in picks <==> id in EligibleIds(t, queue, now)
    ensures InRedisOrder(t, picks)
  {
    var first, rest := picks[0], picks[1..];
    assert EligibleIds(t', queue, now) == EligibleIds(t, queue, now) - {first};
    assert InRedisOrder(t, rest);
    FirstInRedisOrder(t, first, rest);
    assert picks == [first] + rest;
  }
}
