/** The domain model: jobs, their statuses, and the row updates every backend makes. */

module Options {
  datatype Option<+T> = None | Some(value: T)
}

module Jobs {
  import opened Options

  datatype Status = Pending | Running | Completed | Failed | Dead

  /** A job. Instants are integers: nanoseconds in a job built by `NewJob`, whole column
      units (see `Ticks`) in a job read from a store. */
  datatype Job = Job(
    id: string,
    typ: string,
    queue: string,
    payload: string,
    status: Status,
    priority: int,
    attempts: int,
    maxAttempts: int,
    scheduledAt: int,
    createdAt: int,
    updatedAt: int,
    completedAt: Option<int>,
    failedAt: Option<int>,
    lastError: string
  )

  datatype Invalid = MissingType | MissingQueue | MissingPayload | BadMaxAttempts

  const SECOND: int := 1_000_000_000
  const PRIORITY_NORMAL := 10
  const DEFAULT_MAX_ATTEMPTS := 3

  function NewJob(id: string, typ: string, queue: string, payload: string, now: int): Job {
    Job(id, typ, queue, payload, Pending, PRIORITY_NORMAL, 0, DEFAULT_MAX_ATTEMPTS, now, now, now, None, None, "")
  }

  function Validate(j: Job): Option<Invalid> {
    if j.typ == "" then Some(MissingType)
    else if j.queue == "" then Some(MissingQueue)
    else if |j.payload| == 0 then Some(MissingPayload)
    else if j.maxAttempts < 1 then Some(BadMaxAttempts)
    else None
  }

  /** What the application enqueues: a `NewJob` value with its priority, max_attempts and
      scheduled_at possibly overridden, that passed validation. */
  predicate IsFresh(j: Job) {
    && j.status == Pending
    && j.attempts == 0
    && j.completedAt == None
    && j.failedAt == None
    && j.lastError == ""
    && Validate(j) == None
  }

  predicate Terminal(j: Job) {
    j.status == Completed || j.status == Dead
  }

  // ---------- Column units ----------

  /** The stored value of the instant `t` in a column that counts whole `unit`s (floor). */
  function Ticks(t: int, unit: int): int
    requires unit > 0
  {
    t / unit
  }

  lemma TicksMonotone(t: int, u: int, unit: int)
    requires unit > 0 && t <= u
    ensures Ticks(t, unit) <= Ticks(u, unit)
  {
    if Ticks(t, unit) > Ticks(u, unit) {
      ScaleStrict(unit, Ticks(u, unit), Ticks(t, unit));
    }
  }

  lemma ScaleStrict(unit: int, a: int, b: int)
    requires unit > 0 && a < b
    ensures unit * a + unit <= unit * b
  {
    assert unit * (a + 1) <= unit * b;
  }

  /** Flooring loses less than one unit. */
  lemma TicksTight(t: int, unit: int)
    requires unit > 0
    ensures unit * Ticks(t, unit) <= t <= unit * Ticks(t, unit) + unit - 1
  {
  }

  /** The stored image of a job about to be enqueued. */
  function ToRow(j: Job, unit: int): Job
    requires unit > 0
  {
    j.(scheduledAt := Ticks(j.scheduledAt, unit),
       createdAt := Ticks(j.createdAt, unit),
       updatedAt := Ticks(j.updatedAt, unit))
  }

  // ---------- Row updates ----------

  function ReservedRow(j: Job, t: int): Job {
    j.(status := Running, updatedAt := t)
  }

  function AckedRow(j: Job, t: int): Job {
    j.(status := Completed, completedAt := Some(t), updatedAt := t)
  }

  /** What Nack writes to a row, given the attempts and the limit it has read. */
  function NackWrite(j: Job, attempts: int, maxAttempts: int, err: string, t: int, retryAt: int): Job {
    var n := j.(attempts := attempts + 1, lastError := err, failedAt := Some(t), updatedAt := t);
    if attempts + 1 >= maxAttempts then n.(status := Dead)
    else n.(status := Pending, scheduledAt := retryAt)
  }

  function NackedRow(j: Job, err: string, t: int, retryAt: int): Job {
    NackWrite(j, j.attempts, j.maxAttempts, err, t, retryAt)
  }

  function DeadRow(j: Job, t: int): Job {
    j.(status := Dead, updatedAt := t)
  }

  /** A failed try: one more attempt, and back to the queue after `delay`, or dead. */
  ghost predicate FailedInto(was: Job, row: Job, err: string, delay: int, at: int, unit: int)
    requires unit > 0
  {
    && row.attempts == was.attempts + 1 && row.lastError == err
    && row.failedAt == Some(Ticks(at, unit)) && row.updatedAt == Ticks(at, unit)
    && (if was.attempts + 1 < was.maxAttempts
        then row.status == Pending && row.scheduledAt == Ticks(at + delay, unit)
        else row.status == Dead && row.scheduledAt == was.scheduledAt)
    && row.id == was.id && row.typ == was.typ && row.queue == was.queue && row.payload == was.payload
    && row.priority == was.priority && row.maxAttempts == was.maxAttempts
    && row.createdAt == was.createdAt && row.completedAt == was.completedAt
  }

  // ---------- Tables ----------

  type Table = map<string, Job>

  predicate Eligible(j: Job, queue: string, t: int) {
    j.queue == queue && j.status == Pending && j.scheduledAt <= t
  }

  function EligibleIds(table: Table, queue: string, t: int): set<string> {
    set id | id in table && Eligible(table[id], queue, t)
  }

  /** Rows are filed under their own ids. */
  predicate Keyed(table: Table) {
    forall id | id in table :: table[id].id == id
  }

  /** Every stored job would pass validation again. */
  predicate AllValidate(table: Table) {
    forall id | id in table :: Validate(table[id]) == None
  }

  // ---------- Outstanding work ----------

  /** Claims and outcomes a job can still go through: each remaining try is one reservation
      and one ack or nack. */
  function Weight(j: Job): nat {
    if j.attempts >= j.maxAttempts then 0
    else match j.status
      case Pending => 2 * (j.maxAttempts - j.attempts)
      case Running => 2 * (j.maxAttempts - j.attempts) - 1
      case _ => 0
  }

  ghost function Work(table: Table): nat {
    if table == map[] then 0
    else
      var id :| id in table;
      Weight(table[id]) + Work(table - {id})
  }

  /** The sum does not depend on the order in which rows are visited. */
  lemma {:induction false} WorkSplit(table: Table, id: string)
    requires id in table
    ensures Work(table) == Weight(table[id]) + Work(table - {id})
    decreases |table|
  {
    var first :| first in table && Work(table) == Weight(table[first]) + Work(table - {first});
    if first != id {
      assert |table - {first}| < |table| && |table - {id}| < |table| by {
        assert (table - {first}).Keys == table.Keys - {first};
        assert (table - {id}).Keys == table.Keys - {id};
      }
      WorkSplit(table - {first}, id);
      WorkSplit(table - {id}, first);
      assert table - {first} - {id} == table - {id} - {first};
    }
  }

  /** Replacing one row changes the sum by the difference of that row's weights. */
  lemma WorkUpdate(table: Table, id: string, j: Job)
    requires id in table
    ensures Work(table[id := j]) == Work(table) - Weight(table[id]) + Weight(j)
  {
    WorkSplit(table, id);
    WorkSplit(table[id := j], id);
    assert table[id := j] - {id} == table - {id};
  }

  lemma WorkDelete(table: Table, id: string)
    ensures Work(table - {id}) <= Work(table)
    ensures id in table && Weight(table[id]) > 0 ==> Work(table - {id}) < Work(table)
  {
    if id in table {
      WorkSplit(table, id);
    } else {
      assert table - {id} == table;
    }
  }
}

/** Queue statistics. */
module QueueStats {
  import opened Jobs

  datatype Queue = Queue(
    name: string,
    size: int,
    processingCount: int,
    completedCount: int,
    failedCount: int,
    deadCount: int
  )

  function TotalJobs(q: Queue): int {
    q.size + q.processingCount + q.completedCount + q.failedCount + q.deadCount
  }

  function JobsIn(table: Table, queue: string): set<string> {
    set id | id in table && table[id].queue == queue
  }

  function JobsWith(table: Table, queue: string, status: Status): set<string> {
    set id | id in table && table[id].queue == queue && table[id].status == status
  }

  /** Per-status row counts of one queue. */
  function RowCounts(table: Table, queue: string): Queue {
    Queue(queue,
          |JobsWith(table, queue, Pending)|,
          |JobsWith(table, queue, Running)|,
          |JobsWith(table, queue, Completed)|,
          |JobsWith(table, queue, Failed)|,
          |JobsWith(table, queue, Dead)|)
  }

  /** The ids that `statusOf` maps to `st`. */
  function Under(statusOf: map<string, Status>, st: Status): set<string> {
    set id | id in statusOf && statusOf[id] == st
  }

  lemma UnderWithout(statusOf: map<string, Status>, id: string, st: Status)
    requires id in statusOf
    ensures |Under(statusOf, st)| == |Under(statusOf - {id}, st)| + if statusOf[id] == st then 1 else 0
  {
    if statusOf[id] == st {
      assert Under(statusOf, st) == Under(statusOf - {id}, st) + {id};
    } else {
      assert Under(statusOf, st) == Under(statusOf - {id}, st);
    }
  }

  /** Every id has exactly one status. */
  lemma {:induction false} CountByStatus(statusOf: map<string, Status>)
    ensures |Under(statusOf, Pending)| + |Under(statusOf, Running)| + |Under(statusOf, Completed)|
            + |Under(statusOf, Failed)| + |Under(statusOf, Dead)| == |statusOf.Keys|
    decreases |statusOf.Keys|
  {
    if statusOf.Keys != {} {
      var id :| id in statusOf.Keys;
      var rest := statusOf - {id};
      assert rest.Keys == statusOf.Keys - {id};
      UnderWithout(statusOf, id, Pending);
      UnderWithout(statusOf, id, Running);
      UnderWithout(statusOf, id, Completed);
      UnderWithout(statusOf, id, Failed);
      UnderWithout(statusOf, id, Dead);
      CountByStatus(rest);
    }
  }

  /** The five counts add up to the number of rows of the queue. */
  lemma RowCountsTotal(table: Table, queue: string)
    ensures TotalJobs(RowCounts(table, queue)) == |JobsIn(table, queue)|
  {
    var statusOf := map id | id in JobsIn(table, queue) :: table[id].status;
    forall st ensures Under(statusOf, st) == JobsWith(table, queue, st) { }
    assert statusOf.Keys == JobsIn(table, queue);
    CountByStatus(statusOf);
  }
}
