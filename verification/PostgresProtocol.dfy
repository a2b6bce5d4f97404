/** Any number of workers driving the Postgres backend. Reserve and Nack are transactions that
    lock their row first and write later; a transaction may also roll back. Every such run
    refines the atomic protocol. */
module PostgresProtocol {
  import opened Jobs
  import opened PostgresOrder
  import JobSystem
  import JobRuns

  /** Where a worker is; one that is not in the map is idle. */
  datatype Pc =
    | Selected(id: string, queue: string, at: int)     // Reserve has locked its row
    | Holding(cl: JobSystem.Claim)                     // Reserve has committed
    | NackLocked(cl: JobSystem.Claim, attempts: int, maxAttempts: int) // Nack has locked and read its row

  function IdOf(pc: Pc): string {
    if pc.Selected? then pc.id else pc.cl.id
  }

  predicate Locks(pc: Pc) {
    !pc.Holding?
  }

  datatype Sys = Sys(
    now: int,
    table: Table,
    pcs: map<nat, Pc>,
    hist: map<string, JobSystem.History>
  )

  ghost function Locked(pcs: map<nat, Pc>): set<string> {
    set w | w in pcs && Locks(pcs[w]) :: IdOf(pcs[w])
  }

  datatype Step =
    | Tick(now: int)
    | Enqueue(job: Job)
    | Select(w: nat, queue: string, id: string, at: int)
    | CommitReserve(w: nat, upd: int)
    | Ack(w: nat, at: int)
    | LockForNack(w: nat)
    | CommitNack(w: nat, at: int)
    | Stop(w: nat)
    | Delete(id: string)

  ghost predicate Init(s: Sys) {
    s.table == map[] && s.pcs == map[] && s.hist == map[]
  }

  // ---------- Steps ----------

  ghost predicate EnqueueStep(c: JobSystem.Config, s: Sys, s': Sys, job: Job)
    requires c.unit > 0
  {
    && IsFresh(job) && job.id !in s.hist
    && s' == s.(table := s.table[job.id := ToRow(job, c.unit)],
                hist := s.hist[job.id := JobSystem.History(job.typ, job.maxAttempts, [])])
  }

  /** SELECT ... FOR UPDATE SKIP LOCKED */
  ghost predicate SelectStep(c: JobSystem.Config, s: Sys, s': Sys, w: nat, queue: string, id: string, at: int)
    requires c.unit > 0
  {
    && w !in s.pcs && at <= s.now
    && PgPick(s.table, Locked(s.pcs), queue, Ticks(at, c.unit), id)
    && s' == s.(pcs := s.pcs[w := Selected(id, queue, at)])
  }

  /** UPDATE to running, then commit. */
  ghost predicate CommitReserveStep(c: JobSystem.Config, s: Sys, s': Sys, w: nat, upd: int)
    requires c.unit > 0
  {
    && w in s.pcs && s.pcs[w].Selected? && upd <= s.now
    && var id := s.pcs[w].id;
    && id in s.table && id in s.hist
    && var j := s.table[id];
    && s' == s.(table := s.table[id := ReservedRow(j, Ticks(upd, c.unit))],
                pcs := s.pcs[w := Holding(JobSystem.Claim(id, j.typ, j.attempts, s.now))],
                hist := s.hist[id := s.hist[id].(times := s.hist[id].times + [s.now])])
  }

  /** A single UPDATE; it has to wait while another transaction has the row locked. */
  ghost predicate AckStep(c: JobSystem.Config, s: Sys, s': Sys, w: nat, at: int)
    requires c.unit > 0
  {
    && w in s.pcs && s.pcs[w].Holding? && at <= s.now
    && var cl := s.pcs[w].cl;
    && cl.id !in Locked(s.pcs)
    && c.Try(cl.id, cl.typ, cl.attempts + 1) == JobSystem.Success
    && s' == s.(table := if cl.id in s.table
                         then s.table[cl.id := AckedRow(s.table[cl.id], Ticks(at, c.unit))] else s.table,
                pcs := s.pcs - {w})
  }

  /** SELECT ... FOR UPDATE; Nack ends with an error when there is no such row. */
  ghost predicate LockForNackStep(c: JobSystem.Config, s: Sys, s': Sys, w: nat) {
    && w in s.pcs && s.pcs[w].Holding?
    && var cl := s.pcs[w].cl;
    && cl.id !in Locked(s.pcs)
    && c.Try(cl.id, cl.typ, cl.attempts + 1).Failure?
    && s' == s.(pcs := if cl.id in s.table
                       then s.pcs[w := NackLocked(cl, s.table[cl.id].attempts, s.table[cl.id].maxAttempts)]
                       else s.pcs - {w})
  }

  /** Nack writes from the values it read when it locked the row, and commits. */
  ghost predicate CommitNackStep(c: JobSystem.Config, s: Sys, s': Sys, w: nat, at: int)
    requires c.unit > 0
  {
    && w in s.pcs && s.pcs[w].NackLocked?
    && var pc := s.pcs[w];
    && pc.cl.since <= at <= s.now
    && pc.cl.id in s.table
    && var o := c.Try(pc.cl.id, pc.cl.typ, pc.cl.attempts + 1);
    && o.Failure?
    && var retryAt := Ticks(at + c.Delay(pc.cl.typ, pc.cl.attempts + 1), c.unit);
    && var t := Ticks(at, c.unit);
    && s' == s.(table := s.table[pc.cl.id := NackWrite(s.table[pc.cl.id], pc.attempts, pc.maxAttempts,
                                                       o.err, t, retryAt)],
                pcs := s.pcs - {w})
  }

  /** The worker stops or gives up; an open transaction rolls back. */
  ghost predicate StopStep(s: Sys, s': Sys, w: nat) {
    && w in s.pcs
    && s' == s.(pcs := s.pcs - {w})
  }

  ghost predicate DeleteStep(s: Sys, s': Sys, id: string) {
    && id !in Locked(s.pcs)
    && s' == s.(table := s.table - {id})
  }

  ghost predicate Next(c: JobSystem.Config, s: Sys, s': Sys, step: Step)
    requires c.unit > 0
  {
    match step
    case Tick(now) => s.now <= now && s' == s.(now := now)
    case Enqueue(job) => EnqueueStep(c, s, s', job)
    case Select(w, queue, id, at) => SelectStep(c, s, s', w, queue, id, at)
    case CommitReserve(w, upd) => CommitReserveStep(c, s, s', w, upd)
    case Ack(w, at) => AckStep(c, s, s', w, at)
    case LockForNack(w) => LockForNackStep(c, s, s', w)
    case CommitNack(w, at) => CommitNackStep(c, s, s', w, at)
    case Stop(w) => StopStep(s, s', w)
    case Delete(id) => DeleteStep(s, s', id)
  }

  ghost predicate IsRun(c: JobSystem.Config, run: seq<Sys>, steps: seq<Step>)
    requires c.unit > 0
  {
    && |run| == |steps| + 1
    && Init(run[0])
    && forall i | 0 <= i < |steps| :: Next(c, run[i], run[i + 1], steps[i])
  }

  // ---------- Invariant ----------

  /** A locked row stays as it was when it was locked; a held one is running. */
  ghost predicate PcOk(c: JobSystem.Config, s: Sys, pc: Pc)
    requires c.unit > 0
  {
    var id := IdOf(pc);
    && id in s.hist
    && match pc
       case Selected(_, queue, at) =>
         at <= s.now && id in s.table && Eligible(s.table[id], queue, Ticks(at, c.unit))
       case Holding(cl) =>
         cl.since <= s.now && (id in s.table ==> s.table[id].status == Running)
       case NackLocked(cl, attempts, maxAttempts) =>
         cl.since <= s.now && id in s.table && s.table[id].status == Running
         && s.table[id].attempts == attempts && s.table[id].maxAttempts == maxAttempts
  }

  ghost predicate Inv(c: JobSystem.Config, s: Sys)
    requires c.unit > 0
  {
    && s.table.Keys <= s.hist.Keys
    && (forall w | w in s.pcs :: PcOk(c, s, s.pcs[w]))
    && (forall v, w | v in s.pcs && w in s.pcs && v != w :: IdOf(s.pcs[v]) != IdOf(s.pcs[w]))
  }

  // ---------- Refinement ----------

  ghost function HeldIn(pcs: map<nat, Pc>): map<nat, JobSystem.Claim> {
    map w | w in pcs && !pcs[w].Selected? :: pcs[w].cl
  }

  ghost function Abs(s: Sys): JobSystem.Sys {
    JobSystem.Sys(s.now, s.table, HeldIn(s.pcs), s.hist)
  }

  /** Reserve and Nack take effect when they commit; rolling a Reserve back is no step at all. */
  ghost function AbsStep(s: Sys, step: Step): JobSystem.Step {
    var stutter := JobSystem.Tick(s.now);
    match step
    case Tick(now) => JobSystem.Tick(now)
    case Enqueue(job) => JobSystem.Enqueue(job)
    case Select(_, _, _, _) => stutter
    case CommitReserve(w, upd) =>
      if w in s.pcs && s.pcs[w].Selected?
      then JobSystem.Reserve(w, s.pcs[w].queue, s.pcs[w].id, s.pcs[w].at, upd) else stutter
    case Ack(w, at) => JobSystem.Ack(w, at)
    case LockForNack(w) =>
      if w in s.pcs && !s.pcs[w].Selected? && s.pcs[w].cl.id !in s.table then JobSystem.Nack(w, s.now) else stutter
    case CommitNack(w, at) => JobSystem.Nack(w, at)
    case Stop(w) => if w in s.pcs && !s.pcs[w].Selected? then JobSystem.Abandon(w) else stutter
    case Delete(id) => JobSystem.Delete(id)
  }

  /** A step of worker `w` that changes no row but that of its own job disturbs no other worker. */
  lemma OwnRowKeepsInv(c: JobSystem.Config, s: Sys, s': Sys, w: nat, id: string)
    requires c.unit > 0 && Inv(c, s) && s'.now == s.now && s'.hist.Keys == s.hist.Keys && id in s.hist
    requires s'.table.Keys == s.table.Keys
    requires forall x | x != id && x in s.table :: s'.table[x] == s.table[x]
    requires forall v | v in s.pcs && v != w :: IdOf(s.pcs[v]) != id
    requires s'.pcs == s.pcs - {w} || (w in s'.pcs && s'.pcs == s.pcs[w := s'.pcs[w]]
                                         && IdOf(s'.pcs[w]) == id && PcOk(c, s', s'.pcs[w]))
    ensures Inv(c, s')
  {
    forall v | v in s'.pcs ensures PcOk(c, s', s'.pcs[v]) {
      if v != w { assert PcOk(c, s, s.pcs[v]); }
    }
  }

  lemma SelectRefinesStep(c: JobSystem.Config, s: Sys, s': Sys, w: nat, queue: string, id: string, at: int)
    requires c.unit > 0 && Inv(c, s) && SelectStep(c, s, s', w, queue, id, at)
    ensures Inv(c, s') && Abs(s') == Abs(s)
  {
    forall v | v in s.pcs ensures IdOf(s.pcs[v]) != id {
      assert PcOk(c, s, s.pcs[v]);
      assert Locks(s.pcs[v]) ==> IdOf(s.pcs[v]) in Locked(s.pcs);
    }
    OwnRowKeepsInv(c, s, s', w, id);
    assert HeldIn(s'.pcs) == HeldIn(s.pcs);
  }

  lemma CommitReserveRefinesStep(c: JobSystem.Config, s: Sys, s': Sys, w: nat, upd: int)
    requires c.unit > 0 && Inv(c, s) && CommitReserveStep(c, s, s', w, upd)
    ensures Inv(c, s') && JobSystem.Next(c, Abs(s), Abs(s'), AbsStep(s, CommitReserve(w, upd)))
  {
    assert PcOk(c, s, s.pcs[w]);
    OwnRowKeepsInv(c, s, s', w, s.pcs[w].id);
    assert HeldIn(s'.pcs) == HeldIn(s.pcs)[w := s'.pcs[w].cl];
  }

  lemma AckRefinesStep(c: JobSystem.Config, s: Sys, s': Sys, w: nat, at: int)
    requires c.unit > 0 && Inv(c, s) && AckStep(c, s, s', w, at)
    ensures Inv(c, s') && JobSystem.Next(c, Abs(s), Abs(s'), JobSystem.Ack(w, at))
  {
    assert PcOk(c, s, s.pcs[w]);
    OwnRowKeepsInv(c, s, s', w, s.pcs[w].cl.id);
    assert HeldIn(s'.pcs) == HeldIn(s.pcs) - {w};
  }

  /** Worker `w` lets go of the row it holds. */
  lemma LetGo(s: Sys, s': Sys, w: nat)
    requires w in s.pcs && !s.pcs[w].Selected? && s'.pcs == s.pcs - {w}
    ensures HeldIn(s'.pcs) == HeldIn(s.pcs) - {w}
  {
  }

  lemma LockForNackRefinesStep(c: JobSystem.Config, s: Sys, s': Sys, w: nat)
    requires c.unit > 0 && Inv(c, s) && LockForNackStep(c, s, s', w)
    ensures Inv(c, s') && JobSystem.Next(c, Abs(s), Abs(s'), AbsStep(s, LockForNack(w)))
  {
    LockForNackKeepsInv(c, s, s', w);
    assert PcOk(c, s, s.pcs[w]);
    if s.pcs[w].cl.id in s.table {
      assert Abs(s') == Abs(s) by { assert HeldIn(s'.pcs) == HeldIn(s.pcs); }
    } else {
      LetGo(s, s', w);
    }
  }

  lemma LockForNackKeepsInv(c: JobSystem.Config, s: Sys, s': Sys, w: nat)
    requires c.unit > 0 && Inv(c, s) && LockForNackStep(c, s, s', w)
    ensures Inv(c, s')
  {
    assert PcOk(c, s, s.pcs[w]);
    OwnRowKeepsInv(c, s, s', w, s.pcs[w].cl.id);
  }

  lemma CommitNackRefinesStep(c: JobSystem.Config, s: Sys, s': Sys, w: nat, at: int)
    requires c.unit > 0 && Inv(c, s) && CommitNackStep(c, s, s', w, at)
    ensures Inv(c, s') && JobSystem.Next(c, Abs(s), Abs(s'), JobSystem.Nack(w, at))
  {
    var cl := s.pcs[w].cl;
    assert PcOk(c, s, s.pcs[w]);
    OwnRowKeepsInv(c, s, s', w, cl.id);
    LetGo(s, s', w);
    CommitIsNack(c, Abs(s), Abs(s'), w, at, s.pcs[w].attempts, s.pcs[w].maxAttempts);
  }

  lemma CommitIsNack(c: JobSystem.Config, a: JobSystem.Sys, a': JobSystem.Sys, w: nat, at: int, attempts: int,
          maxAttempts: int)
    requires c.unit > 0 && w in a.held && a.held[w].id in a.table
    requires var cl := a.held[w];
             && cl.since <= at <= a.now
             && a.table[cl.id].attempts == attempts && a.table[cl.id].maxAttempts == maxAttempts
             && var o := c.Try(cl.id, cl.typ, cl.attempts + 1);
             && o.Failure?
             && a'.table == a.table[cl.id := NackWrite(a.table[cl.id], attempts, maxAttempts, o.err, Ticks(at, c.unit),
                                                       Ticks(at + c.Delay(cl.typ, cl.attempts + 1), c.unit))]
             && a'.held == a.held - {w} && a'.now == a.now && a'.hist == a.hist
    ensures JobSystem.Next(c, a, a', JobSystem.Nack(w, at))
  {
  }

  lemma OtherStepsKeepInv(c: JobSystem.Config, s: Sys, s': Sys, step: Step)
    requires c.unit > 0 && Inv(c, s) && Next(c, s, s', step)
    requires step.Tick? || step.Enqueue? || step.Stop? || step.Delete?
    ensures Inv(c, s')
  {
    forall v | v in s'.pcs ensures PcOk(c, s', s'.pcs[v]) {
      assert PcOk(c, s, s.pcs[v]);
      assert Locks(s.pcs[v]) ==> IdOf(s.pcs[v]) in Locked(s.pcs);
    }
  }

  lemma OtherStepsRefine(c: JobSystem.Config, s: Sys, s': Sys, step: Step)
    requires c.unit > 0 && Next(c, s, s', step)
    requires step.Tick? || step.Enqueue? || step.Stop? || step.Delete?
    ensures JobSystem.Next(c, Abs(s), Abs(s'), AbsStep(s, step))
  {
    if step.Stop? {
      if s.pcs[step.w].Selected? {
        assert HeldIn(s'.pcs) == HeldIn(s.pcs);
      } else {
        LetGo(s, s', step.w);
      }
    }
  }

  lemma StepRefines(c: JobSystem.Config, s: Sys, s': Sys, step: Step)
    requires c.unit > 0 && Inv(c, s) && Next(c, s, s', step)
    ensures Inv(c, s') && JobSystem.Next(c, Abs(s), Abs(s'), AbsStep(s, step))
  {
    match step
    case Select(w, queue, id, at) => SelectRefinesStep(c, s, s', w, queue, id, at);
    case CommitReserve(w, upd) => CommitReserveRefinesStep(c, s, s', w, upd);
    case Ack(w, at) => AckRefinesStep(c, s, s', w, at);
    case LockForNack(w) => LockForNackRefinesStep(c, s, s', w);
    case CommitNack(w, at) => CommitNackRefinesStep(c, s, s', w, at);
    case _ =>
      OtherStepsKeepInv(c, s, s', step);
      OtherStepsRefine(c, s, s', step);
  }

  lemma {:induction false} RunInv(c: JobSystem.Config, run: seq<Sys>, steps: seq<Step>, i: nat)
    requires c.unit > 0 && IsRun(c, run, steps) && i < |run|
    ensures Inv(c, run[i])
  {
    if i > 0 {
      RunInv(c, run, steps, i - 1);
      StepRefines(c, run[i - 1], run[i], steps[i - 1]);
    }
  }

  ghost function AbsRun(run: seq<Sys>): seq<JobSystem.Sys> {
    seq(|run|, i requires 0 <= i < |run| => Abs(run[i]))
  }

  ghost function AbsSteps(run: seq<Sys>, steps: seq<Step>): seq<JobSystem.Step>
    requires |run| == |steps| + 1
  {
    seq(|steps|, i requires 0 <= i < |steps| => AbsStep(run[i], steps[i]))
  }

  /** Every interleaving of Postgres transactions is a run of the atomic protocol. */
  lemma PostgresRefinesJobSystem(c: JobSystem.Config, run: seq<Sys>, steps: seq<Step>)
    requires c.unit > 0 && IsRun(c, run, steps)
    ensures JobSystem.IsRun(c, AbsRun(run), AbsSteps(run, steps))
  {
    assert HeldIn(run[0].pcs) == map[];
    forall i | 0 <= i < |steps|
      ensures JobSystem.Next(c, AbsRun(run)[i], AbsRun(run)[i + 1], AbsSteps(run, steps)[i])
    {
      RunInv(c, run, steps, i);
      StepRefines(c, run[i], run[i + 1], steps[i]);
    }
  }

  // ---------- Row locks ----------

  /** In every reachable state no row is locked by two transactions, no held job is in another
      worker's open Reserve, and a row stays eligible from its selection to the commit. */
  lemma LocksAreExclusive(c: JobSystem.Config, run: seq<Sys>, steps: seq<Step>, i: nat, v: nat, w: nat)
    requires c.unit > 0 && IsRun(c, run, steps) && i < |run|
    requires v in run[i].pcs && w in run[i].pcs
    ensures v != w ==> IdOf(run[i].pcs[v]) != IdOf(run[i].pcs[w])
    ensures run[i].pcs[w].Selected? ==>
              var pc := run[i].pcs[w];
              pc.id in run[i].table && Eligible(run[i].table[pc.id], pc.queue, Ticks(pc.at, c.unit))
  {
    RunInv(c, run, steps, i);
    assert PcOk(c, run[i], run[i].pcs[w]);
  }

  /** The rows that open Reserve transactions on `queue` have locked are the best ones: each is
      at least as good as every eligible row nobody has locked. */
  ghost predicate BestAreLocked(s: Sys, queue: string, t: int) {
    forall w, id | w in s.pcs && s.pcs[w].Selected? && s.pcs[w].queue == queue
                   && id in EligibleIds(s.table, queue, t) - Locked(s.pcs) ::
      s.pcs[w].id in s.table && Better(s.table[s.pcs[w].id], s.table[id])
  }

  /** A job enters the queue, or a transaction that has picked one of its jobs rolls back. */
  ghost predicate Disturbs(s: Sys, step: Step, queue: string) {
    match step
    case Enqueue(job) => job.queue == queue
    case CommitNack(w, _) => w in s.pcs && IdOf(s.pcs[w]) in s.table && s.table[IdOf(s.pcs[w])].queue == queue
    case Stop(w) => w in s.pcs && s.pcs[w].Selected? && s.pcs[w].queue == queue
    case _ => false
  }

  lemma BestStayLocked(c: JobSystem.Config, s: Sys, s': Sys, step: Step, queue: string, t: int)
    requires c.unit > 0 && Inv(c, s) && Next(c, s, s', step) && BestAreLocked(s, queue, t)
    requires !Disturbs(s, step, queue)
    requires step.Select? && step.queue == queue ==> Ticks(step.at, c.unit) == t
    ensures BestAreLocked(s', queue, t)
  {
    StepRefines(c, s, s', step);
    forall w, id | w in s'.pcs && s'.pcs[w].Selected? && s'.pcs[w].queue == queue
                   && id in EligibleIds(s'.table, queue, t) - Locked(s'.pcs)
      ensures s'.pcs[w].id in s'.table && Better(s'.table[s'.pcs[w].id], s'.table[id])
    {
      assert PcOk(c, s', s'.pcs[w]);
      UnlockedBefore(c, s, s', step, queue, t, id);
      if w in s.pcs && s.pcs[w] == s'.pcs[w] {
        RowsKept(c, s, s', step, s'.pcs[w].id, w);
      }
    }
  }

  /** k concurrent Reserves at one instant lock the k best rows: from a state without open
      Reserves on the queue, and while no job enters it and none of them rolls back, every row
      they have locked is at least as good as every row they have left. */
  lemma {:induction false} BestAreLockedInRun(c: JobSystem.Config, run: seq<Sys>, steps: seq<Step>, i: nat, k: nat,
          queue: string, t: int)
    requires c.unit > 0 && IsRun(c, run, steps) && i <= k < |run|
    requires forall w | w in run[i].pcs :: !(run[i].pcs[w].Selected? && run[i].pcs[w].queue == queue)
    requires forall m | i <= m < k :: !Disturbs(run[m], steps[m], queue)
    requires forall m | i <= m < k && steps[m].Select? && steps[m].queue == queue :: Ticks(steps[m].at, c.unit) == t
    ensures BestAreLocked(run[k], queue, t)
  {
    if i < k {
      BestAreLockedInRun(c, run, steps, i, k - 1, queue, t);
      RunInv(c, run, steps, k - 1);
      BestStayLocked(c, run[k - 1], run[k], steps[k - 1], queue, t);
    }
  }

  lemma UnlockedBefore(c: JobSystem.Config, s: Sys, s': Sys, step: Step, queue: string, t: int, id: string)
    requires c.unit > 0 && Inv(c, s) && Next(c, s, s', step) && !Disturbs(s, step, queue)
    requires id in EligibleIds(s'.table, queue, t) - Locked(s'.pcs)
    ensures id in EligibleIds(s.table, queue, t) - Locked(s.pcs) && s'.table[id] == s.table[id]
  {
    forall v | v in s.pcs && Locks(s.pcs[v])
      ensures PcOk(c, s, s.pcs[v]) && (v in s'.pcs && Locks(s'.pcs[v]) ==> IdOf(s'.pcs[v]) in Locked(s'.pcs))
    {
    }
  }

  lemma RowsKept(c: JobSystem.Config, s: Sys, s': Sys, step: Step, id: string, w: nat)
    requires c.unit > 0 && Inv(c, s) && Next(c, s, s', step)
    requires w in s.pcs && s.pcs[w].Selected? && s.pcs[w].id == id && w in s'.pcs && s'.pcs[w] == s.pcs[w]
    ensures id in s'.table && id in s.table && s'.table[id] == s.table[id]
  {
    assert PcOk(c, s, s.pcs[w]);
    assert IdOf(s.pcs[w]) in Locked(s.pcs);
  }

  /** On Postgres, too, an outcome is delivered to the row as the try it counts calls for. */
  lemma PostgresDelivers(c: JobSystem.Config, run: seq<Sys>, steps: seq<Step>, i: nat, w: nat, at: int)
    requires c.unit > 0 && IsRun(c, run, steps) && i < |steps|
    requires steps[i] == Ack(w, at) || steps[i] == CommitNack(w, at)
    ensures w in run[i].pcs
    ensures var id := IdOf(run[i].pcs[w]);
            id in run[i].table ==>
              && id in run[i + 1].table
              && var was := run[i].table[id];
              JobRuns.Delivered(c, was, run[i + 1].table[id], id, was.typ, was.attempts + 1, at, c.unit)
  {
    assert Next(c, run[i], run[i + 1], steps[i]);
    assert w in Abs(run[i]).held;
    PostgresRefinesJobSystem(c, run, steps);
    JobRuns.DeliveredInRun(c, AbsRun(run), AbsSteps(run, steps), i, w, at);
  }

  /** Retries on Postgres are spaced by their delays, up to less than one column unit each. */
  lemma PostgresRetrySpacing(c: JobSystem.Config, run: seq<Sys>, steps: seq<Step>, i: nat, id: string, n: nat)
    requires c.unit > 0 && IsRun(c, run, steps) && i < |run|
    requires id in run[i].hist && n < |run[i].hist[id].times|
    ensures var h := run[i].hist[id];
            h.times[n] - h.times[0] >= JobRuns.TotalDelay(c, h.typ, n) - n * (c.unit - 1)
  {
    PostgresRefinesJobSystem(c, run, steps);
    JobRuns.RetrySpacing(c, AbsRun(run), AbsSteps(run, steps), i, id, n);
  }

  /** When all delays are whole units, less than one unit is given away in the whole run. */
  lemma PostgresWholeUnitSpacing(c: JobSystem.Config, run: seq<Sys>, steps: seq<Step>, i: nat, id: string, n: nat)
    requires c.unit > 0 && IsRun(c, run, steps) && i < |run|
    requires id in run[i].hist && n < |run[i].hist[id].times|
    requires forall k | 1 <= k <= n :: c.nextDelay(k) % c.unit == 0
    ensures var h := run[i].hist[id];
            h.times[n] - h.times[0] >= JobRuns.TotalDelay(c, h.typ, n) - (c.unit - 1)
  {
    PostgresRefinesJobSystem(c, run, steps);
    JobRuns.WholeUnitSpacing(c, AbsRun(run), AbsSteps(run, steps), i, id, n);
  }
}
