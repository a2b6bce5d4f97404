/** The Redis backend as the object its callers use: its keys are updated command by command. */
module RedisBackend {
  import opened Options
  import opened Jobs
  import opened RedisStore
  import opened RedisIndexes
  import opened RedisOps

  datatype Error = InvalidJob(why: Invalid) | NotFound

  class Backend {
    var hashes: map<string, Entry>
    var zsets: map<string, map<string, int>>
    var sets: map<(string, Status), set<string>>

    ghost function State(): Store
      reads this
    {
      Store(hashes, zsets, sets)
    }

    ghost function Table(): Table
      reads this
    {
      TableOf(State())
    }

    /** The indexes agree with the job table, and the table holds valid jobs only. */
    ghost predicate Valid()
      reads this
    {
      Agrees(State()) && AllValidate(Table())
    }

    constructor ()
      ensures State() == EMPTY && Valid()
    {
      hashes, zsets, sets := map[], map[], map[];
      new;
      forall q, id ensures QueueAgreesAt(State(), q, id) { }
      forall q, st, id ensures StatusAgreesAt(State(), {}, q, st, id) { }
    }

    // ---------- Commands ----------

    method HSet(id: string, e: Entry)
      modifies this`hashes
      ensures State() == Put(old(State()), id, e)
    {
      hashes := hashes[id := e];
    }

    method DelHash(id: string)
      modifies this`hashes
      ensures State() == Del(old(State()), id)
    {
      hashes := hashes - {id};
    }

    method ZAddMember(queue: string, id: string, score: int)
      modifies this`zsets
      ensures State() == ZAdd(old(State()), queue, id, score)
    {
      zsets := zsets[queue := (if queue in zsets then zsets[queue] else map[])[id := score]];
    }

    method ZRemMember(queue: string, id: string)
      modifies this`zsets
      ensures State() == ZRem(old(State()), queue, id)
    {
      zsets := zsets[queue := (if queue in zsets then zsets[queue] else map[]) - {id}];
    }

    method SAddMember(queue: string, status: Status, id: string)
      modifies this`sets
      ensures State() == SAdd(old(State()), queue, status, id)
    {
      sets := sets[(queue, status) := (if (queue, status) in sets then sets[(queue, status)] else {}) + {id}];
    }

    method SRemMember(queue: string, status: Status, id: string)
      modifies this`sets
      ensures State() == SRem(old(State()), queue, status, id)
    {
      sets := sets[(queue, status) := (if (queue, status) in sets then sets[(queue, status)] else {}) - {id}];
    }

    /** ZRANGEBYSCORE queue -inf now LIMIT 0 1 */
    method FirstDue(queue: string, now: int) returns (r: Option<string>)
      ensures r == FirstReady(ZSet(State(), queue), now)
    {
      var z := if queue in zsets then zsets[queue] else map[];
      var due := set id | id in z && z[id] <= now;
      FirstReadyExists(z, now);
      if due == {} {
        r := None;
        assert forall id | id in z :: z[id] <= now ==> id in due;
      } else {
        var some :| some in due;
        assert !NoneReady(z, now);
        ghost var w :| IsFirstReady(z, now, w);
        assert w in due;
        var first :| first in due && forall other | other in due :: ZBefore(z, first, other);
        assert IsFirstReady(z, now, first);
        FirstReadyUnique(z, now, first, FirstReady(z, now).value);
        r := Some(first);
      }
    }

    // ---------- Operations ----------

    method Enqueue(job: Job) returns (err: Option<Error>)
      modifies this
      ensures err == (if Validate(job).Some? then Some(InvalidJob(Validate(job).value)) else None)
      ensures State() == EnqueueOp(old(State()), job)
      ensures Validate(job) == None && job.id !in old(hashes) ==>
                Table() == old(Table())[job.id := ToRow(job, SECOND).(completedAt := None, failedAt := None)]
      ensures old(Valid()) && IsFresh(job) && job.id !in old(hashes) ==> Valid()
    {
      var why := Validate(job);
      if why.Some? {
        return Some(InvalidJob(why.value));
      }
      var row := ToRow(job, SECOND).(completedAt := None, failedAt := None);
      if job.id in hashes {
        // HSET leaves the fields it is not given
        match hashes[job.id]
        case Full(was) => row := row.(completedAt := was.completedAt, failedAt := was.failedAt);
        case Remnant(_, completedAt, _) => row := row.(completedAt := completedAt);
      }
      HSet(job.id, Full(row));
      ZAddMember(job.queue, job.id, Ticks(job.scheduledAt, SECOND));
      SAddMember(job.queue, job.status, job.id);
      err := None;
      if old(Valid()) && IsFresh(job) && job.id !in old(hashes) {
        EnqueueRefines(old(State()), job, {});
      }
    }

    method RunReserveScript(queue: string, t: int) returns (job: Option<Job>)
      modifies this
      ensures (State(), job) == ReserveScript(old(State()), queue, t)
    {
      var first := FirstDue(queue, t);
      if first.None? {
        return None;
      }
      var id := first.value;
      if !(id in hashes && hashes[id].Full? && hashes[id].job.status == Pending) {
        ZRemMember(queue, id);
        return None;
      }
      var e := Full(hashes[id].job.(status := Running, updatedAt := t));
      HSet(id, e);
      ZRemMember(queue, id);
      SAddMember(queue, Running, id);
      SRemMember(queue, Pending, id);
      job := Some(View(e));
    }

    /** Claims the first due job. Comes back empty, on a valid store, only when no job of the
        queue is eligible. */
    method Reserve(queue: string, now: int) returns (job: Option<Job>)
      modifies this
      ensures (State(), job) == ReserveScript(old(State()), queue, Ticks(now, SECOND))
      ensures old(Valid()) ==>
                && Valid()
                && (job.None? ==> EligibleIds(old(Table()), queue, Ticks(now, SECOND)) == {} && State() == old(State()))
                && (job.Some? ==>
                      && RedisPick(old(Table()), queue, Ticks(now, SECOND), job.value.id)
                      && old(Table())[job.value.id].queue == queue && old(Table())[job.value.id].status == Pending
                      && old(Table())[job.value.id].scheduledAt <= Ticks(now, SECOND)
                      && Table()[job.value.id] == old(Table())[job.value.id].(status := Running,
                                                                              updatedAt := Ticks(now, SECOND))
                      && Table() == old(Table())[job.value.id := ReservedRow(old(Table())[job.value.id],
                                                                             Ticks(now, SECOND))])
    {
      if Agrees(State()) { ReserveRefines(State(), queue, Ticks(now, SECOND), {}); }
      job := RunReserveScript(queue, Ticks(now, SECOND));
    }

    /** Completes a running job. For a missing one it reports an error, but has already written
        a remnant of a hash, which belongs to no job. */
    method Ack(id: string, now: int) returns (err: Option<Error>)
      modifies this
      ensures err == (if id in old(Table()) then None else Some(NotFound))
      ensures State() == AckOp(old(State()), id, Ticks(now, SECOND))
      ensures id in old(Table()) ==>
                hashes == old(hashes)[id := Full(old(Table())[id].(status := Completed,
                                                                   completedAt := Some(Ticks(now, SECOND)),
                                                                   updatedAt := Ticks(now, SECOND)))]
      ensures old(Valid()) && (id in old(Table()) ==> old(Table())[id].status == Running) ==>
                && Valid()
                && Table() == (if id in old(Table())
                               then old(Table())[id := AckedRow(old(Table())[id], Ticks(now, SECOND))]
                               else old(Table()))
    {
      var t := Ticks(now, SECOND);
      AckOpRow(State(), id, t);
      if old(Valid()) && (id in Table() ==> Table()[id].status == Running) {
        AckOpOnTable(State(), id, t);
      }
      var queue: Option<string> := None;
      if id in hashes && hashes[id].Full? {
        queue := Some(hashes[id].job.queue);
        HSet(id, Full(hashes[id].job.(status := Completed, completedAt := Some(t), updatedAt := t)));
      } else {
        HSet(id, Remnant(Completed, Some(t), t));
      }
      if queue.None? {
        return Some(NotFound);
      }
      SRemMember(queue.value, Running, id);
      SAddMember(queue.value, Completed, id);
      err := None;
    }

    method RunNackScript(id: string, read: NackRead, lastError: string, t: int, retryAt: int)
      modifies this
      ensures State() == NackScript(old(State()), id, read, lastError, t, retryAt)
    {
      if !(id in hashes && hashes[id].Full?) {
        return;
      }
      var attempts := read.attempts + 1;
      var j := hashes[id].job.(attempts := attempts, lastError := lastError, failedAt := Some(t), updatedAt := t);
      SRemMember(read.queue, Running, id);
      if attempts >= read.maxAttempts {
        HSet(id, Full(j.(status := Dead)));
        SAddMember(read.queue, Dead, id);
      } else {
        HSet(id, Full(j.(status := Pending, scheduledAt := retryAt)));
        ZAddMember(read.queue, id, retryAt);
        SAddMember(read.queue, Pending, id);
      }
    }

    /** Counts a failed try of a running job, and sends it back to its queue or to the dead. */
    method Nack(id: string, lastError: string, delay: int, now: int) returns (err: Option<Error>)
      modifies this
      ensures err == (if id in old(Table()) then None else Some(NotFound))
      ensures State() == NackOp(old(State()), id, lastError, Ticks(now, SECOND), Ticks(now + delay, SECOND))
      ensures id in old(Table()) ==>
                id in Table() && FailedInto(old(Table())[id], Table()[id], lastError, delay, now, SECOND)
      ensures old(Valid()) && (id in old(Table()) ==> old(Table())[id].status == Running) ==>
                && Valid()
                && Table() == (if id in old(Table())
                               then old(Table())[id := NackedRow(old(Table())[id], lastError, Ticks(now, SECOND),
                                                                 Ticks(now + delay, SECOND))]
                               else old(Table()))
    {
      if Agrees(State()) && (id in Table() ==> Table()[id].status == Running) {
        NackOpOnTable(State(), id, lastError, Ticks(now, SECOND), Ticks(now + delay, SECOND));
      }
      if !(id in hashes && hashes[id].Full?) {
        return Some(NotFound);
      }
      NackOpRow(State(), id, lastError, now, delay);
      var j := hashes[id].job;
      var read := NackRead(j.attempts, j.maxAttempts, j.queue);
      RunNackScript(id, read, lastError, Ticks(now, SECOND), Ticks(now + delay, SECOND));
      err := None;
    }

    method MoveToDLQ(id: string, now: int) returns (err: Option<Error>)
      modifies this
      ensures err == (if id in old(Table()) then None else Some(NotFound))
      ensures State() == DeadOp(old(State()), id, Ticks(now, SECOND))
      ensures hashes == if id in old(Table())
                        then old(hashes)[id := Full(old(Table())[id].(status := Dead, updatedAt := Ticks(now, SECOND)))]
                        else old(hashes)
    {
      if !(id in hashes && hashes[id].Full?) {
        return Some(NotFound);
      }
      var queue := hashes[id].job.queue;
      HSet(id, Full(hashes[id].job.(status := Dead, updatedAt := Ticks(now, SECOND))));
      ZRemMember(queue, id);
      SRemMember(queue, Running, id);
      SRemMember(queue, Failed, id);
      SAddMember(queue, Dead, id);
      err := None;
    }

    method GetJob(id: string) returns (job: Option<Job>)
      ensures job == if id in hashes then Some(View(hashes[id])) else None
    {
      job := if id in hashes then Some(View(hashes[id])) else None;
    }

    method DeleteJob(id: string) returns (err: Option<Error>)
      modifies this
      ensures err == (if id in old(hashes) then None else Some(NotFound))
      ensures State() == DeleteOp(old(State()), id)
      ensures hashes == old(hashes) - {id} && Table() == old(Table()) - {id}
      ensures old(Valid()) ==> Valid()
    {
      if old(Valid()) { ReserveAndDeleteKeepAgreement(State(), "", 0, id); }
      if id !in hashes {
        return Some(NotFound);
      }
      var queue, status := "", Pending;
      match hashes[id] {
        case Full(j) => queue, status := j.queue, j.status;
        case Remnant(st, _, _) => status := st;
      }
      DelHash(id);
      ZRemMember(queue, id);
      SRemMember(queue, status, id);
      err := None;
    }
  }
}
