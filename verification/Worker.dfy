/** A worker: it polls one queue, runs handlers, and reports each outcome to the backend. */
module Worker {
  import opened Options
  import opened Jobs
  import opened JobSystem
  import opened PostgresOrder
  import JobRuns
  import PostgresBackend

  datatype WorkerStatus = WorkerIdle | WorkerRunning | WorkerStopped

  /** The row after the try of which `job` is the reserved copy. */
  function TriedRow(c: Config, row: Job, job: Job, at: int, unit: int): Job
    requires unit > 0
  {
    match c.Try(job.id, job.typ, job.attempts + 1)
    case Success => AckedRow(row, Ticks(at, unit))
    case Failure(err) => NackedRow(row, err, Ticks(at, unit), Ticks(at + c.Delay(job.typ, job.attempts + 1), unit))
  }

  /** The row after a whole turn: reserved at `at`, its outcome delivered at `done`. */
  function TurnRow(c: Config, row: Job, at: int, done: int, unit: int): Job
    requires unit > 0
  {
    var reserved := ReservedRow(row, Ticks(at, unit));
    TriedRow(c, reserved, reserved, done, unit)
  }

  /** A turn moves a pending job on by exactly one try and leaves less work. */
  lemma TurnProgresses(c: Config, row: Job, at: int, done: int, unit: int)
    requires unit > 0 && Progress(c, row) && row.status == Pending
    ensures var j := TurnRow(c, row, at, done, unit);
            && Progress(c, j)
            && j.status != Running
            && Weight(j) < Weight(row)
            && j.id == row.id && j.queue == row.queue && j.typ == row.typ && j.maxAttempts == row.maxAttempts
  {
  }

  ghost predicate Passes(clock: nat -> int, t: int) {
    exists i: nat :: clock(i) >= t
  }

  class Worker {
    const queueName: string
    const backend: PostgresBackend.Backend
    const config: Config
    var status: WorkerStatus
    var lastJobID: string
    var updatedAt: int

    constructor (queueName: string, backend: PostgresBackend.Backend, config: Config, now: int)
      ensures this.queueName == queueName && this.backend == backend && this.config == config
      ensures status == WorkerIdle && lastJobID == ""
    {
      this.queueName, this.backend, this.config := queueName, backend, config;
      status, lastJobID, updatedAt := WorkerIdle, "", now;
    }

    method SetState(s: WorkerStatus, jobID: string, now: int)
      modifies this
      ensures status == s && lastJobID == jobID && updatedAt == now
    {
      status, lastJobID, updatedAt := s, jobID, now;
    }

    /** Runs the handler on a reserved job and acks or nacks. The delay comes from the reserved
        copy; a job without a handler is nacked with no delay. */
    method Execute(job: Job, now: int, done: int) returns (err: Option<PostgresBackend.Error>)
      requires backend.Valid()
      modifies this, backend
      ensures backend.Valid()
      ensures job.id in old(backend.rows) ==>
                && job.id in backend.rows
                && JobRuns.Delivered(config, old(backend.rows)[job.id], backend.rows[job.id],
                                     job.id, job.typ, job.attempts + 1, done, backend.unit)
      ensures status == WorkerIdle && lastJobID == ""
      ensures err.None? <==> job.id in old(backend.rows)
      ensures backend.rows == if job.id in old(backend.rows)
                              then old(backend.rows)[job.id := TriedRow(config, old(backend.rows)[job.id], job,
                                                                        done, backend.unit)]
                              else old(backend.rows)
    {
      SetState(WorkerRunning, job.id, now);
      if job.typ !in config.handlers {
        err := backend.Nack(job.id, NoHandlerError(job.typ), 0, done);
      } else {
        var outcome := config.handler(job.id, job.attempts + 1);
        match outcome {
          case Success =>
            err := backend.Ack(job.id, done);
          case Failure(execErr) =>
            var delay := config.nextDelay(job.attempts + 1);
            err := backend.Nack(job.id, execErr, delay, done);
        }
      }
      SetState(WorkerIdle, "", done);
    }

    /** One turn of the polling loop. It is idle only when no job of the queue is eligible. */
    method ProcessNext(now: int, done: int) returns (ghost picked: Option<string>, busy: bool)
      requires backend.Valid()
      modifies this, backend
      ensures backend.Valid()
      ensures busy == picked.Some?
      ensures picked.None? ==> EligibleIds(old(backend.rows), queueName, Ticks(now, backend.unit)) == {}
                               && backend.rows == old(backend.rows)
      ensures picked.Some? ==>
                && PgPick(old(backend.rows), {}, queueName, Ticks(now, backend.unit), picked.value)
                && backend.rows == old(backend.rows)[picked.value := TurnRow(config, old(backend.rows)[picked.value],
                                                                             now, done, backend.unit)]
    {
      var job := backend.Reserve(queueName, now, now);
      if job.None? {
        return None, false;
      }
      var err := Execute(job.value, now, done);
      picked, busy := Some(job.value.id), true;
    }

    /** Every row is filed under its id and agrees with the outcomes so far, and no other worker
        holds a job of this queue. */
    ghost predicate Ready()
      reads this, backend
    {
      && backend.Valid()
      && (forall id | id in backend.rows :: Progress(config, backend.rows[id]))
      && (forall id | id in backend.rows && backend.rows[id].queue == queueName :: backend.rows[id].status != Running)
    }

    /** A turn of a worker that has its queue to itself. */
    method Turn(now: int, done: int) returns (busy: bool)
      requires Ready()
      modifies this, backend
      ensures Ready() && SameJobs(old(backend.rows), backend.rows)
      ensures busy ==> Work(backend.rows) < Work(old(backend.rows))
      ensures !busy ==> EligibleIds(old(backend.rows), queueName, Ticks(now, backend.unit)) == {}
                        && backend.rows == old(backend.rows)
    {
      ghost var rows0 := backend.rows;
      ghost var picked;
      picked, busy := ProcessNext(now, done);
      if busy {
        TurnProgresses(config, rows0[picked.value], now, done, backend.unit);
        WorkUpdate(rows0, picked.value, backend.rows[picked.value]);
      }
    }

    /** The polling loop, stopped once no job of the queue is pending. If the clock never goes
        back and passes every instant, the loop ends, with every job of the queue completed or
        dead as its handler's outcomes dictate, and every other row untouched. */
    method Run(clock: nat -> int)
      requires Ready()
      requires forall i, k | 0 <= i <= k :: clock(i) <= clock(k)
      requires forall t: int :: Passes(clock, t)
      modifies this, backend
      ensures backend.rows.Keys == old(backend.rows.Keys) && status == WorkerStopped
      ensures forall id | id in backend.rows :: Drained(old(backend.rows)[id], backend.rows[id])
    {
      SetState(WorkerIdle, "", clock(0));
      ghost var rows0 := backend.rows;
      var i: nat := 0;
      ghost var waiting: string, due: nat;
      waiting, due := NextDue(clock);
      while WaitingIn(backend.rows) != {}
        invariant Ready() && SameJobs(rows0, backend.rows)
        invariant IsNextDue(clock, waiting, due)
        decreases Work(backend.rows), if i <= due then due - i else 0
      {
        i, waiting, due := TurnAt(clock, i, waiting, due);
      }
      AllDrained(rows0);
      SetState(WorkerStopped, "", clock(i));
    }

    lemma AllDrained(rows0: Table)
      requires Ready() && SameJobs(rows0, backend.rows) && WaitingIn(backend.rows) == {}
      ensures forall id | id in backend.rows :: Drained(rows0[id], backend.rows[id])
    {
      forall id | id in backend.rows ensures Drained(rows0[id], backend.rows[id]) {
        assert id !in WaitingIn(backend.rows);
        if backend.rows[id].queue == queueName { ProgressTerminal(config, backend.rows[id]); }
      }
    }

    /** What becomes of a row: in this worker's queue it is done, as its handler's outcomes
        dictate; elsewhere it is as before. */
    ghost predicate Drained(was: Job, now: Job) {
      if was.queue == queueName
      then Terminal(now)
           && (now.status, now.attempts, now.lastError) == JobRuns.Verdict(config, was.id, was.typ, was.maxAttempts)
      else now == was
    }

    function WaitingIn(rows: Table): set<string> {
      set id | id in rows && rows[id].queue == queueName && rows[id].status == Pending
    }

    /** If any job is waiting, `id` is, and it is due at tick `due`. */
    ghost predicate IsNextDue(clock: nat -> int, id: string, due: nat)
      requires backend.unit > 0
      reads backend
    {
      WaitingIn(backend.rows) != {} ==>
        id in WaitingIn(backend.rows) && backend.rows[id].scheduledAt <= Ticks(clock(due), backend.unit)
    }

    ghost method NextDue(clock: nat -> int) returns (id: string, due: nat)
      requires backend.Valid()
      requires forall t: int :: Passes(clock, t)
      ensures IsNextDue(clock, id, due)
    {
      id, due := "", 0;
      if WaitingIn(backend.rows) != {} {
        id :| id in WaitingIn(backend.rows);
        var t := backend.unit * backend.rows[id].scheduledAt;
        assert Passes(clock, t);
        due :| clock(due) >= t;
        TicksMonotone(t, clock(due), backend.unit);
        JobRuns.QuotientUnique(t, backend.unit, backend.rows[id].scheduledAt, 0);
      }
    }

    /** The turn at tick `i`: it gets a try done, or is too early for the waiting job. */
    method TurnAt(clock: nat -> int, i: nat, ghost waiting: string, ghost due: nat)
        returns (next: nat, ghost waiting': string, ghost due': nat)
      requires Ready() && IsNextDue(clock, waiting, due) && WaitingIn(backend.rows) != {}
      requires forall i, k | 0 <= i <= k :: clock(i) <= clock(k)
      requires forall t: int :: Passes(clock, t)
      modifies this, backend
      ensures Ready() && SameJobs(old(backend.rows), backend.rows) && IsNextDue(clock, waiting', due')
      ensures Work(backend.rows) < Work(old(backend.rows))
              || (backend.rows == old(backend.rows) && due' == due && i < due && i < next)
    {
      if due <= i {
        TicksMonotone(clock(due), clock(i), backend.unit);
        assert waiting in EligibleIds(backend.rows, queueName, Ticks(clock(i), backend.unit));
      }
      var busy := Turn(clock(i), clock(i + 1));
      if busy {
        waiting', due' := NextDue(clock);
        next := i + 2;
      } else {
        waiting', due' := waiting, due;
        next := i + 1;
      }
    }

    /** The same jobs, and the same rows outside this worker's queue. */
    ghost predicate SameJobs(rows0: Table, rows: Table) {
      && rows.Keys == rows0.Keys
      && forall id | id in rows ::
           && rows[id].id == rows0[id].id && rows[id].queue == rows0[id].queue
           && rows[id].typ == rows0[id].typ && rows[id].maxAttempts == rows0[id].maxAttempts
           && (rows0[id].queue != queueName ==> rows[id] == rows0[id])
    }
  }

  /** A worker's turn is two steps of the job protocol with time passing in between: a
      reservation, and the ack or nack its outcome calls for. */
  lemma TurnIsProtocolSteps(c: Config, s: Sys, w: nat, queue: string, id: string, done: int)
      returns (s1: Sys, s2: Sys, s3: Sys, finish: Step)
    requires c.unit > 0 && Inv(c, s) && w !in s.held && s.now <= done
    requires id in EligibleIds(s.table, queue, Ticks(s.now, c.unit))
    ensures Next(c, s, s1, Reserve(w, queue, id, s.now, s.now))
    ensures Next(c, s1, s2, Tick(done))
    ensures Next(c, s2, s3, finish)
    ensures finish == (if c.Try(id, s.table[id].typ, s.table[id].attempts + 1) == Success
                       then Ack(w, done) else Nack(w, done))
    ensures s3.table == s.table[id := TurnRow(c, s.table[id], s.now, done, c.unit)] && s3.held == s.held
  {
    assert JobInv(c, id, s.table[id], s.hist[id]);
    s1 := StartTurn(c, s, w, queue, id);
    s2 := s1.(now := done);
    s3, finish := EndTurn(c, s, s2, w, id, done);
  }

  lemma EndTurn(c: Config, s: Sys, s2: Sys, w: nat, id: string, done: int) returns (s3: Sys, finish: Step)
    requires c.unit > 0 && w !in s.held && id in s.table && s.table[id].id == id && s.now <= done == s2.now
    requires s2.table == s.table[id := ReservedRow(s.table[id], Ticks(s.now, c.unit))]
    requires s2.held == s.held[w := Claim(id, s.table[id].typ, s.table[id].attempts, s.now)]
    ensures Next(c, s2, s3, finish)
    ensures finish == (if c.Try(id, s.table[id].typ, s.table[id].attempts + 1) == Success
                       then Ack(w, done) else Nack(w, done))
    ensures s3.table == s.table[id := TurnRow(c, s.table[id], s.now, done, c.unit)] && s3.held == s.held
  {
    s3, finish := FinishTurn(c, s2, w, done);
    SameRow(s.table, s2.table, s3.table, id, ReservedRow(s.table[id], Ticks(s.now, c.unit)), s3.table[id]);
    assert s2.held - {w} == s.held;
  }

  lemma StartTurn(c: Config, s: Sys, w: nat, queue: string, id: string) returns (s': Sys)
    requires c.unit > 0 && w !in s.held && id in s.hist
    requires id in EligibleIds(s.table, queue, Ticks(s.now, c.unit))
    ensures Next(c, s, s', Reserve(w, queue, id, s.now, s.now))
    ensures s'.table == s.table[id := ReservedRow(s.table[id], Ticks(s.now, c.unit))] && s'.now == s.now
    ensures s'.held == s.held[w := Claim(id, s.table[id].typ, s.table[id].attempts, s.now)]
  {
    var j := s.table[id];
    s' := s.(table := s.table[id := ReservedRow(j, Ticks(s.now, c.unit))],
             held := s.held[w := Claim(id, j.typ, j.attempts, s.now)],
             hist := s.hist[id := s.hist[id].(times := s.hist[id].times + [s.now])]);
  }

  lemma SameRow(t: Table, t1: Table, t3: Table, id: string, j1: Job, j3: Job)
    requires t1 == t[id := j1] && t3 == t1[id := j3]
    ensures t3 == t[id := j3]
  {
  }

  lemma FinishTurn(c: Config, s: Sys, w: nat, done: int) returns (s': Sys, finish: Step)
    requires c.unit > 0 && w in s.held && s.now == done
    requires var cl := s.held[w];
             && cl.since <= done && cl.id in s.table
             && var j := s.table[cl.id];
             j.id == cl.id && j.typ == cl.typ && j.attempts == cl.attempts
    ensures Next(c, s, s', finish)
    ensures var j := s.table[s.held[w].id];
            && finish == (if c.Try(j.id, j.typ, j.attempts + 1) == Success then Ack(w, done) else Nack(w, done))
            && s'.table == s.table[j.id := TriedRow(c, j, j, done, c.unit)]
            && s'.held == s.held - {w}
  {
    var j := s.table[s.held[w].id];
    s' := s.(table := s.table[j.id := TriedRow(c, j, j, done, c.unit)], held := s.held - {w});
    finish := if c.Try(j.id, j.typ, j.attempts + 1) == Success then Ack(w, done) else Nack(w, done);
  }

  lemma ProgressTerminal(c: Config, j: Job)
    requires Progress(c, j) && j.status != Pending && j.status != Running
    ensures Terminal(j) && (j.status, j.attempts, j.lastError) == JobRuns.Verdict(c, j.id, j.typ, j.maxAttempts)
  {
    JobRuns.ProgressDecides(c, j);
  }
}
