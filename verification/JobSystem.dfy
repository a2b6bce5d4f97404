/** The job protocol over a plain table: every backend operation is one atomic step on a row.
    This is the specification that the Redis and the Postgres step machines refine; what is
    proved here about every run therefore holds of both. */
module JobSystem {
  import opened Options
  import opened Jobs

  datatype Outcome = Success | Failure(err: string)

  function NoHandlerError(typ: string): string {
    "no handler registered for job type \"" + typ + "\""
  }

  /** What does not change during a run: the column unit of the store, the job types that have
      a handler, the backoff strategy, and how each try of each job turns out. */
  datatype Config = Config(
    unit: int,
    handlers: set<string>,
    nextDelay: int -> int,
    handler: (string, int) -> Outcome
  ) {
    /** The outcome of try `n` (from 1) of job `id`. */
    function Try(id: string, typ: string, n: int): Outcome {
      if typ in handlers then handler(id, n) else Failure(NoHandlerError(typ))
    }

    /** The retry delay the worker passes to Nack after try `n`. */
    function Delay(typ: string, n: int): int {
      if typ in handlers then nextDelay(n) else 0
    }
  }

  /** What a worker keeps of the job it reserved, and when it reserved it. */
  datatype Claim = Claim(id: string, typ: string, attempts: int, since: int)

  /** The instants at which a job was reserved. Histories outlive deletion, so they also say
      which ids were ever enqueued. */
  datatype History = History(typ: string, maxAttempts: int, times: seq<int>)

  datatype Sys = Sys(
    now: int,
    table: Table,
    held: map<nat, Claim>,
    hist: map<string, History>
  )

  datatype Step =
    | Tick(now: int)
    | Enqueue(job: Job)
    | Reserve(w: nat, queue: string, id: string, at: int, upd: int)
    | Ack(w: nat, at: int)
    | Nack(w: nat, at: int)
    | Abandon(w: nat)
    | Delete(id: string)

  // ---------- Steps ----------

  ghost predicate Init(s: Sys) {
    s.table == map[] && s.held == map[] && s.hist == map[]
  }

  ghost predicate TickStep(s: Sys, s': Sys, now: int) {
    && s.now <= now
    && s' == s.(now := now)
  }

  /** Enqueue of a fresh job under an id never used before. */
  ghost predicate EnqueueStep(c: Config, s: Sys, s': Sys, job: Job)
    requires c.unit > 0
  {
    && IsFresh(job)
    && job.id !in s.hist
    && s' == s.(table := s.table[job.id := ToRow(job, c.unit)],
                hist := s.hist[job.id := History(job.typ, job.maxAttempts, [])])
  }

  /** An idle worker claims an eligible row. The worker read its clock (`at`, `upd`) no later
      than the moment at which the claim takes effect. */
  ghost predicate ReserveStep(c: Config, s: Sys, s': Sys, w: nat, queue: string, id: string, at: int, upd: int)
    requires c.unit > 0
  {
    && w !in s.held
    && at <= s.now && upd <= s.now
    && id in s.table && id in s.hist
    && Eligible(s.table[id], queue, Ticks(at, c.unit))
    && var j := s.table[id];
    && s' == s.(table := s.table[id := ReservedRow(j, Ticks(upd, c.unit))],
                held := s.held[w := Claim(id, j.typ, j.attempts, s.now)],
                hist := s.hist[id := s.hist[id].(times := s.hist[id].times + [s.now])])
  }

  ghost predicate AckStep(c: Config, s: Sys, s': Sys, w: nat, at: int)
    requires c.unit > 0
  {
    && w in s.held
    && at <= s.now
    && var cl := s.held[w];
    && c.Try(cl.id, cl.typ, cl.attempts + 1) == Success
    && s' == s.(table := if cl.id in s.table
                         then s.table[cl.id := AckedRow(s.table[cl.id], Ticks(at, c.unit))] else s.table,
                held := s.held - {w})
  }

  /** The worker computes the delay from its reserved copy; the row counts its own attempts. */
  function NackedBy(c: Config, cl: Claim, j: Job, at: int): Job
    requires c.unit > 0 && c.Try(cl.id, cl.typ, cl.attempts + 1).Failure?
  {
    NackedRow(j, c.Try(cl.id, cl.typ, cl.attempts + 1).err, Ticks(at, c.unit),
              Ticks(at + c.Delay(cl.typ, cl.attempts + 1), c.unit))
  }

  ghost predicate NackStep(c: Config, s: Sys, s': Sys, w: nat, at: int)
    requires c.unit > 0
  {
    && w in s.held
    && var cl := s.held[w];
    && cl.since <= at <= s.now
    && c.Try(cl.id, cl.typ, cl.attempts + 1).Failure?
    && s' == s.(table := if cl.id in s.table then s.table[cl.id := NackedBy(c, cl, s.table[cl.id], at)] else s.table,
                held := s.held - {w})
  }

  /** The worker stops, or its Ack or Nack is never delivered. */
  ghost predicate AbandonStep(s: Sys, s': Sys, w: nat) {
    && w in s.held
    && s' == s.(held := s.held - {w})
  }

  ghost predicate DeleteStep(s: Sys, s': Sys, id: string) {
    s' == s.(table := s.table - {id})
  }

  ghost predicate Next(c: Config, s: Sys, s': Sys, step: Step)
    requires c.unit > 0
  {
    match step
    case Tick(now) => TickStep(s, s', now)
    case Enqueue(job) => EnqueueStep(c, s, s', job)
    case Reserve(w, queue, id, at, upd) => ReserveStep(c, s, s', w, queue, id, at, upd)
    case Ack(w, at) => AckStep(c, s, s', w, at)
    case Nack(w, at) => NackStep(c, s, s', w, at)
    case Abandon(w) => AbandonStep(s, s', w)
    case Delete(id) => DeleteStep(s, s', id)
  }

  ghost predicate IsRun(c: Config, run: seq<Sys>, steps: seq<Step>)
    requires c.unit > 0
  {
    && |run| == |steps| + 1
    && Init(run[0])
    && forall i | 0 <= i < |steps| :: Next(c, run[i], run[i + 1], steps[i])
  }

  // ---------- Invariant ----------

  /** All tries up to `n` failed. */
  ghost predicate AllFailed(c: Config, id: string, typ: string, n: int) {
    forall k | 1 <= k <= n :: c.Try(id, typ, k).Failure?
  }

  /** A row agrees with the outcomes of the tries it counts. */
  ghost predicate Progress(c: Config, j: Job) {
    && Validate(j) == None
    && j.status != Failed
    && 0 <= j.attempts <= j.maxAttempts
    && (j.status == Dead <==> j.attempts == j.maxAttempts)
    && AllFailed(c, j.id, j.typ, j.attempts)
    && j.lastError == (if j.attempts == 0 then "" else c.Try(j.id, j.typ, j.attempts).err)
    && (j.status == Completed ==> c.Try(j.id, j.typ, j.attempts + 1) == Success)
  }

  /** The number of times a row in this state has been reserved. */
  function Tries(j: Job): int {
    j.attempts + if j.status == Running || j.status == Completed then 1 else 0
  }

  /** A row `j` filed under `id`, together with the history `h` of that id. */
  ghost predicate JobInv(c: Config, id: string, j: Job, h: History)
    requires c.unit > 0
  {
    && j.id == id
    && Progress(c, j)
    && h.typ == j.typ && h.maxAttempts == j.maxAttempts
    && |h.times| == Tries(j)
    && (j.status == Pending && j.attempts > 0 ==> DelayKept(c, j, h))
  }

  /** A job waiting for a retry is not due before its delay has passed. */
  ghost predicate DelayKept(c: Config, j: Job, h: History)
    requires c.unit > 0
  {
    && 0 < j.attempts <= |h.times|
    && j.scheduledAt >= Ticks(h.times[j.attempts - 1] + c.Delay(j.typ, j.attempts), c.unit)
  }

  /** Consecutive reservations are a retry delay apart, counted in column units. */
  ghost predicate Spaced(c: Config, h: History)
    requires c.unit > 0
  {
    forall i | 0 < i < |h.times| ::
      Ticks(h.times[i], c.unit) >= Ticks(h.times[i - 1] + c.Delay(h.typ, i), c.unit)
  }

  ghost predicate HistInv(c: Config, h: History)
    requires c.unit > 0
  {
    && Spaced(c, h)
    && |h.times| <= h.maxAttempts
  }

  /** A claim on a row: the row is running, at the try the worker reserved. */
  ghost predicate Claims(cl: Claim, j: Job, h: History) {
    && j.status == Running
    && j.typ == cl.typ
    && j.attempts == cl.attempts
    && 0 <= j.attempts && |h.times| == j.attempts + 1
    && h.times[j.attempts] == cl.since
  }

  ghost predicate Exclusive(held: map<nat, Claim>) {
    forall w1, w2 | w1 in held && w2 in held && w1 != w2 :: held[w1].id != held[w2].id
  }

  ghost predicate Inv(c: Config, s: Sys)
    requires c.unit > 0
  {
    && s.table.Keys <= s.hist.Keys
    && (forall id | id in s.table :: JobInv(c, id, s.table[id], s.hist[id]))
    && (forall id | id in s.hist :: HistInv(c, s.hist[id]))
    && (forall w | w in s.held :: s.held[w].id in s.hist && s.held[w].since <= s.now)
    && (forall w | w in s.held && s.held[w].id in s.table ::
          Claims(s.held[w], s.table[s.held[w].id], s.hist[s.held[w].id]))
    && Exclusive(s.held)
  }

  // ---------- Every step keeps the invariant ----------

  lemma EnqueueKeepsInv(c: Config, s: Sys, s': Sys, job: Job)
    requires c.unit > 0 && Inv(c, s) && EnqueueStep(c, s, s', job)
    ensures Inv(c, s')
  {
    assert JobInv(c, job.id, s'.table[job.id], s'.hist[job.id]);
  }

  lemma ReserveKeepsInv(c: Config, s: Sys, s': Sys, w: nat, queue: string, id: string, at: int, upd: int)
    requires c.unit > 0 && Inv(c, s) && ReserveStep(c, s, s', w, queue, id, at, upd)
    ensures Inv(c, s')
  {
    ReservedRowInv(c, id, s.table[id], s.hist[id], at, upd, s.now);
    forall v | v in s.held ensures s.held[v].id != id {
      var own := s.held[v].id;
      assert own in s.table ==> Claims(s.held[v], s.table[own], s.hist[own]);
    }
  }

  lemma ReservedRowInv(c: Config, id: string, j: Job, h: History, at: int, upd: int, now: int)
    requires c.unit > 0 && JobInv(c, id, j, h) && HistInv(c, h)
    requires at <= now && j.status == Pending && j.scheduledAt <= Ticks(at, c.unit)
    ensures var h' := h.(times := h.times + [now]);
            && JobInv(c, id, ReservedRow(j, Ticks(upd, c.unit)), h')
            && HistInv(c, h')
  {
    TicksMonotone(at, now, c.unit);
    assert Progress(c, ReservedRow(j, Ticks(upd, c.unit)));
    var h' := h.(times := h.times + [now]);
    forall i | 0 < i < |h'.times|
      ensures Ticks(h'.times[i], c.unit) >= Ticks(h'.times[i - 1] + c.Delay(h.typ, i), c.unit)
    {
      assert i < |h.times| ==> h'.times[i] == h.times[i];
    }
  }

  /** A worker lets go of its job, whose row becomes `j`. */
  lemma FinishKeepsInv(c: Config, s: Sys, s': Sys, w: nat, j: Job)
    requires c.unit > 0 && Inv(c, s) && w in s.held && s.held[w].id in s.table
    requires s' == s.(table := s.table[s.held[w].id := j], held := s.held - {w})
    requires JobInv(c, s.held[w].id, j, s.hist[s.held[w].id])
    ensures Inv(c, s')
  {
  }

  lemma AckKeepsInv(c: Config, s: Sys, s': Sys, w: nat, at: int)
    requires c.unit > 0 && Inv(c, s) && AckStep(c, s, s', w, at)
    ensures Inv(c, s')
  {
    var cl := s.held[w];
    if cl.id in s.table {
      assert Claims(cl, s.table[cl.id], s.hist[cl.id]);
      FinishKeepsInv(c, s, s', w, AckedRow(s.table[cl.id], Ticks(at, c.unit)));
    }
  }

  lemma NackKeepsInv(c: Config, s: Sys, s': Sys, w: nat, at: int)
    requires c.unit > 0 && Inv(c, s) && NackStep(c, s, s', w, at)
    ensures Inv(c, s')
  {
    var cl := s.held[w];
    if cl.id in s.table {
      NackedRowInv(c, cl, s.table[cl.id], s.hist[cl.id], at);
      FinishKeepsInv(c, s, s', w, NackedBy(c, cl, s.table[cl.id], at));
    }
  }

  lemma NackedRowInv(c: Config, cl: Claim, j: Job, h: History, at: int)
    requires c.unit > 0 && JobInv(c, cl.id, j, h) && Claims(cl, j, h)
    requires cl.since <= at && c.Try(cl.id, cl.typ, cl.attempts + 1).Failure?
    ensures JobInv(c, cl.id, NackedBy(c, cl, j, at), h)
  {
    var d := c.Delay(cl.typ, cl.attempts + 1);
    TicksMonotone(cl.since + d, at + d, c.unit);
    var n := NackedBy(c, cl, j, at);
    assert Progress(c, n);
    assert n.status == Pending ==> DelayKept(c, n, h);
  }

  lemma NextKeepsInv(c: Config, s: Sys, s': Sys, step: Step)
    requires c.unit > 0 && Inv(c, s) && Next(c, s, s', step)
    ensures Inv(c, s')
  {
    match step
    case Enqueue(job) => EnqueueKeepsInv(c, s, s', job);
    case Reserve(w, queue, id, at, upd) => ReserveKeepsInv(c, s, s', w, queue, id, at, upd);
    case Ack(w, at) => AckKeepsInv(c, s, s', w, at);
    case Nack(w, at) => NackKeepsInv(c, s, s', w, at);
    case _ =>
  }

  /** The invariant holds in every state of every run. */
  lemma {:induction false} RunInv(c: Config, run: seq<Sys>, steps: seq<Step>, i: nat)
    requires c.unit > 0 && IsRun(c, run, steps) && i < |run|
    ensures Inv(c, run[i])
  {
    if i > 0 {
      RunInv(c, run, steps, i - 1);
      NextKeepsInv(c, run[i - 1], run[i], steps[i - 1]);
    }
  }
}
