/** The HTTP and dashboard handlers that combine several backend calls. */
module Handlers {
  import opened Options
  import opened Jobs
  import RedisBackend
  import PostgresBackend

  datatype Response =
    | Created(job: Job) | Done(job: Job) | Cancelled | NotFound | Conflict
    | Unprocessable(why: Invalid) | ServerError

  datatype EnqueueRequest = EnqueueRequest(
    typ: string, queue: string, payload: string,
    priority: Option<int>, maxAttempts: Option<int>, scheduledAt: Option<int>
  )

  /** The job a request asks for: a new job with the given fields overridden. */
  function RequestedJob(req: EnqueueRequest, id: string, now: int): Job {
    var j := NewJob(id, req.typ, req.queue, req.payload, now);
    j.(priority := if req.priority.Some? then req.priority.value else j.priority,
       maxAttempts := if req.maxAttempts.Some? then req.maxAttempts.value else j.maxAttempts,
       scheduledAt := if req.scheduledAt.Some? then req.scheduledAt.value else j.scheduledAt)
  }

  /** A request is accepted exactly if it names a type, a queue and a payload and does not ask
      for less than one attempt; what it leaves out is normal priority, three attempts, and due
      at once. What is accepted is a fresh job. */
  lemma RequestedIsFresh(req: EnqueueRequest, id: string, now: int)
    ensures var j := RequestedJob(req, id, now);
            && (IsFresh(j) <==> req.typ != "" && req.queue != "" && req.payload != ""
                                && (req.maxAttempts.Some? ==> req.maxAttempts.value >= 1))
            && (Validate(j) == None <==> IsFresh(j))
            && (req.priority == None ==> j.priority == 10)
            && (req.maxAttempts == None ==> j.maxAttempts == 3)
            && (req.scheduledAt == None ==> j.scheduledAt == now)
  {
  }

  /** A row holds what was asked for: every given value, and the defaults for the others. */
  ghost predicate AsRequested(req: EnqueueRequest, id: string, now: int, row: Job) {
    && row.id == id && row.typ == req.typ && row.queue == req.queue && row.payload == req.payload
    && row.status == Pending && row.attempts == 0 && row.lastError == ""
    && row.completedAt == None && row.failedAt == None
    && row.priority == (match req.priority case Some(p) => p case None => 10)
    && row.maxAttempts == (match req.maxAttempts case Some(m) => m case None => 3)
    && row.scheduledAt == Ticks(match req.scheduledAt case Some(t) => t case None => now, SECOND)
    && row.createdAt == row.updatedAt == Ticks(now, SECOND)
  }

  /** Why a request is refused, if it is: the first thing missing. */
  ghost predicate Refused(req: EnqueueRequest, why: Invalid) {
    match why
    case MissingType => req.typ == ""
    case MissingQueue => req.typ != "" && req.queue == ""
    case MissingPayload => req.typ != "" && req.queue != "" && req.payload == ""
    case BadMaxAttempts =>
      req.typ != "" && req.queue != "" && req.payload != "" && req.maxAttempts.Some? && req.maxAttempts.value < 1
  }

  lemma RequestedIsStored(req: EnqueueRequest, id: string, now: int)
    ensures AsRequested(req, id, now, ToRow(RequestedJob(req, id, now), SECOND))
    ensures ToRow(RequestedJob(req, id, now), SECOND).(completedAt := None, failedAt := None)
            == ToRow(RequestedJob(req, id, now), SECOND)
  {
  }

  lemma RefusedAsInvalid(req: EnqueueRequest, id: string, now: int, why: Invalid)
    ensures Validate(RequestedJob(req, id, now)) == Some(why) <==> Refused(req, why)
  {
  }

  /** The replacement that a retry enqueues. */
  function RetriedJob(j: Job, id: string, now: int): Job {
    NewJob(id, j.typ, j.queue, j.payload, now).(priority := j.priority, maxAttempts := j.maxAttempts)
  }

  /** A replacement starts afresh with the old job's type, queue, payload, priority and limit,
      and is due at once; if the old job was valid it is, too. */
  lemma RetriedIsFresh(j: Job, id: string, now: int)
    ensures var r := RetriedJob(j, id, now);
            && r.attempts == 0 && r.status == Pending && r.lastError == "" && r.id == id
            && r.scheduledAt == r.createdAt == r.updatedAt == now && r.completedAt == None && r.failedAt == None
            && r.typ == j.typ && r.queue == j.queue && r.payload == j.payload
            && r.priority == j.priority && r.maxAttempts == j.maxAttempts
            && (Validate(j) == None <==> IsFresh(r))
  {
  }

  /** Only valid requests reach the backend, and what reaches it is a fresh job. */
  method HandleEnqueue(b: RedisBackend.Backend, req: EnqueueRequest, id: string, now: int) returns (r: Response)
    requires id !in b.hashes
    modifies b
    ensures old(b.Valid()) ==> b.Valid()
    ensures var j := RequestedJob(req, id, now);
            if Validate(j).Some? then r == Unprocessable(Validate(j).value) && b.State() == old(b.State())
            else r == Created(j) && b.Table() == old(b.Table())[id := ToRow(j, SECOND)]
    ensures r.Created? || r.Unprocessable?
    ensures r.Unprocessable? ==> Refused(req, r.why) && b.Table() == old(b.Table())
    ensures r.Created? ==>
              && id in b.Table() && AsRequested(req, id, now, b.Table()[id])
              && b.Table() - {id} == old(b.Table()) - {id}
              && forall why :: !Refused(req, why)
  {
    var job := NewJob(id, req.typ, req.queue, req.payload, now);
    if req.priority.Some? {
      job := job.(priority := req.priority.value);
    }
    if req.maxAttempts.Some? {
      job := job.(maxAttempts := req.maxAttempts.value);
    }
    if req.scheduledAt.Some? {
      job := job.(scheduledAt := req.scheduledAt.value);
    }
    var why := Validate(job);
    assert job == RequestedJob(req, id, now);
    forall w ensures Validate(job) == Some(w) <==> Refused(req, w) {
      RefusedAsInvalid(req, id, now, w);
    }
    if why.Some? {
      return Unprocessable(why.value);
    }
    RequestedIsStored(req, id, now);
    var err := b.Enqueue(job);
    r := if err.Some? then ServerError else Created(job);
  }

  /** POST /jobs/{id}/retry on Redis. A stored job is always replaced by exactly one fresh
      pending job: its re-enqueue never fails. A remnant of an acked deleted job is left alone. */
  method HandleRetryJob(b: RedisBackend.Backend, id: string, newId: string, now: int) returns (r: Response)
    requires Keyed(b.Table()) && AllValidate(b.Table()) && newId !in b.hashes && "" !in b.hashes
    modifies b
    ensures Keyed(b.Table()) && AllValidate(b.Table()) && (old(b.Valid()) ==> b.Valid())
    ensures id in old(b.Table()) ==>
              var retried := RetriedJob(old(b.Table())[id], newId, now);
              r == Done(retried) && b.Table() == (old(b.Table()) - {id})[newId := ToRow(retried, SECOND)]
    ensures id !in old(b.Table()) ==>
              r == (if id in old(b.hashes) then ServerError else NotFound) && b.State() == old(b.State())
  {
    ghost var t := b.Table();
    var found := b.GetJob(id);
    if found.None? {
      return NotFound;
    }
    var job := found.value;
    assert id in t ==> job.id == id;
    var err := b.DeleteJob(job.id);
    if err.Some? {
      return ServerError;
    }
    var retried := NewJob(newId, job.typ, job.queue, job.payload, now);
    retried := retried.(priority := job.priority, maxAttempts := job.maxAttempts);
    assert Validate(t[id]) == None;
    err := b.Enqueue(retried);
    r := if err.Some? then ServerError else Done(retried);
  }

  /** The retry button of the dashboard deletes by the id in the path. It does the same to a
      stored job; a remnant it removes, and then fails to replace. */
  method DashboardRetryJob(b: RedisBackend.Backend, id: string, newId: string, now: int) returns (r: Response)
    requires Keyed(b.Table()) && AllValidate(b.Table()) && newId !in b.hashes
    modifies b
    ensures Keyed(b.Table()) && AllValidate(b.Table()) && (old(b.Valid()) ==> b.Valid())
    ensures id in old(b.Table()) ==>
              var retried := RetriedJob(old(b.Table())[id], newId, now);
              r == Done(retried) && b.Table() == (old(b.Table()) - {id})[newId := ToRow(retried, SECOND)]
    ensures id !in old(b.Table()) ==>
              && r == (if id in old(b.hashes) then ServerError else NotFound)
              && b.Table() == old(b.Table()) && b.hashes == old(b.hashes) - {id}
  {
    ghost var t := b.Table();
    var found := b.GetJob(id);
    if found.None? {
      return NotFound;
    }
    var job := found.value;
    var err := b.DeleteJob(id);
    if err.Some? {
      return ServerError;
    }
    var retried := NewJob(newId, job.typ, job.queue, job.payload, now);
    retried := retried.(priority := job.priority, maxAttempts := job.maxAttempts);
    assert id in t ==> Validate(t[id]) == None;
    err := b.Enqueue(retried);
    r := if err.Some? then ServerError else Done(retried);
  }

  /** Without interference, cancelling removes pending jobs and no others. */
  method HandleCancelJob(b: RedisBackend.Backend, id: string) returns (r: Response)
    modifies b
    ensures old(b.Valid()) ==> b.Valid()
    ensures r == Cancelled <==> id in old(b.Table()) && old(b.Table())[id].status == Pending
    ensures r == NotFound <==> id !in old(b.hashes)
    ensures r == Conflict <==>
              id in old(b.hashes) && !(id in old(b.Table()) && old(b.Table())[id].status == Pending)
    ensures b.Table() == if r == Cancelled then old(b.Table()) - {id} else old(b.Table())
  {
    var found := b.GetJob(id);
    if found.None? {
      return NotFound;
    }
    if found.value.status != Pending {
      return Conflict;
    }
    var err := b.DeleteJob(id);
    r := if err.Some? then ServerError else Cancelled;
  }

  /** POST /jobs/{id}/retry on Postgres. */
  method HandleRetryJobPostgres(b: PostgresBackend.Backend, id: string, newId: string, now: int) returns (r: Response)
    requires b.Valid() && newId !in b.rows
    modifies b
    ensures b.Valid()
    ensures if id in old(b.rows)
            then var retried := RetriedJob(old(b.rows)[id], newId, now);
                 r == Done(retried) && b.rows == (old(b.rows) - {id})[newId := ToRow(retried, b.unit)]
            else r == NotFound && b.rows == old(b.rows)
  {
    var found := b.GetJob(id);
    if found.None? {
      return NotFound;
    }
    var job := found.value;
    var err := b.DeleteJob(job.id);
    if err.Some? {
      return ServerError;
    }
    var retried := NewJob(newId, job.typ, job.queue, job.payload, now);
    retried := retried.(priority := job.priority, maxAttempts := job.maxAttempts);
    err := b.Enqueue(retried);
    r := if err.Some? then ServerError else Done(retried);
  }
}
