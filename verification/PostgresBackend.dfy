/** The Postgres backend as the object its callers use: one table of jobs. Each method is one
    statement or one committed transaction. Errors of the connection are not modelled. */
module PostgresBackend {
  import opened Options
  import opened Jobs
  import opened PostgresOrder

  datatype Error = InvalidJob(why: Invalid) | DuplicateId | NotFound

  class Backend {
    const unit: int
    var rows: Table

    ghost predicate Valid()
      reads this
    {
      unit > 0 && Keyed(rows) && AllValidate(rows)
    }

    constructor (unit: int)
      requires unit > 0
      ensures Valid() && this.unit == unit && rows == map[]
    {
      this.unit := unit;
      rows := map[];
    }

    /** INSERT of the eleven columns; the others start out NULL, and NULL reads as no error. */
    method Enqueue(job: Job) returns (err: Option<Error>)
      requires Valid()
      modifies this
      ensures Valid()
      ensures err.None? <==> Validate(job) == None && job.id !in old(rows)
      ensures rows == if err.Some? then old(rows)
                      else old(rows)[job.id := ToRow(job, unit).(completedAt := None, failedAt := None,
                                                                 lastError := "")]
      ensures err.None? && IsFresh(job) ==> rows[job.id] == ToRow(job, unit)
    {
      var why := Validate(job);
      if why.Some? {
        return Some(InvalidJob(why.value));
      }
      if job.id in rows {
        return Some(DuplicateId);
      }
      rows := rows[job.id := ToRow(job, unit).(completedAt := None, failedAt := None, lastError := "")];
      err := None;
    }

    /** Claims the best eligible row; finds none only when no row is eligible. */
    method Reserve(queue: string, now: int, upd: int) returns (job: Option<Job>)
      requires Valid()
      modifies this
      ensures Valid()
      ensures job.None? ==> EligibleIds(old(rows), queue, Ticks(now, unit)) == {} && rows == old(rows)
      ensures job.Some? ==>
                && PgPick(old(rows), {}, queue, Ticks(now, unit), job.value.id)
                && rows == old(rows)[job.value.id := ReservedRow(old(rows)[job.value.id], Ticks(upd, unit))]
                && job.value == rows[job.value.id]
      ensures job.Some? ==>
                && job.value.id in old(rows)
                && var was := old(rows)[job.value.id];
                && was.queue == queue && was.status == Pending && was.scheduledAt <= Ticks(now, unit)
                && job.value == was.(status := Running, updatedAt := Ticks(upd, unit))
                && forall id | id in old(rows) && Eligible(old(rows)[id], queue, Ticks(now, unit)) ::
                     var other := old(rows)[id];
                     was.priority > other.priority
                     || (was.priority == other.priority && was.scheduledAt <= other.scheduledAt)
    {
      var eligible := EligibleIds(rows, queue, Ticks(now, unit));
      if eligible == {} {
        return None;
      }
      ghost var best := BestExists(rows, eligible);
      assert IsBest(rows, eligible, best);
      var id :| id in eligible && forall other | other in eligible :: Better(rows[id], rows[other]);
      rows := rows[id := rows[id].(status := Running, updatedAt := Ticks(upd, unit))];
      job := Some(rows[id]);
    }

    method Ack(id: string, now: int) returns (err: Option<Error>)
      requires Valid()
      modifies this
      ensures Valid()
      ensures err == (if id in old(rows) then None else Some(NotFound))
      ensures rows == if id in old(rows) then old(rows)[id := AckedRow(old(rows)[id], Ticks(now, unit))] else old(rows)
      ensures id in old(rows) ==>
                rows[id] == old(rows)[id].(status := Completed, completedAt := Some(Ticks(now, unit)),
                                           updatedAt := Ticks(now, unit))
    {
      if id !in rows {
        return Some(NotFound);
      }
      var t := Ticks(now, unit);
      rows := rows[id := rows[id].(status := Completed, completedAt := Some(t), updatedAt := t)];
      err := None;
    }

    method Nack(id: string, lastError: string, delay: int, now: int) returns (err: Option<Error>)
      requires Valid()
      modifies this
      ensures Valid()
      ensures err == (if id in old(rows) then None else Some(NotFound))
      ensures rows == if id in old(rows)
                      then old(rows)[id := NackedRow(old(rows)[id], lastError,
                                                     Ticks(now, unit), Ticks(now + delay, unit))]
                      else old(rows)
      ensures id in old(rows) ==> FailedInto(old(rows)[id], rows[id], lastError, delay, now, unit)
    {
      if id !in rows {
        return Some(NotFound);
      }
      var attempts, maxAttempts := rows[id].attempts, rows[id].maxAttempts;
      attempts := attempts + 1;
      var t := Ticks(now, unit);
      if attempts >= maxAttempts {
        rows := rows[id := rows[id].(status := Dead, attempts := attempts, lastError := lastError,
                                     failedAt := Some(t), updatedAt := t)];
      } else {
        rows := rows[id := rows[id].(status := Pending, attempts := attempts, lastError := lastError,
                                     failedAt := Some(t), updatedAt := t, scheduledAt := Ticks(now + delay, unit))];
      }
      err := None;
    }

    method GetJob(id: string) returns (job: Option<Job>)
      ensures job == if id in rows then Some(rows[id]) else None
    {
      job := if id in rows then Some(rows[id]) else None;
    }

    method DeleteJob(id: string) returns (err: Option<Error>)
      requires Valid()
      modifies this
      ensures Valid()
      ensures err == (if id in old(rows) then None else Some(NotFound))
      ensures rows == old(rows) - {id}
    {
      if id !in rows {
        return Some(NotFound);
      }
      rows := rows - {id};
      err := None;
    }
  }
}
