/** Any number of workers driving the Redis backend, with enqueues and two-step deletes at any
    point. Ack, Nack and DeleteJob are two round trips each, and every round trip may be
    separated from the next by steps of others. Every such run refines the atomic protocol. */
module RedisProtocol {
  import opened Options
  import opened Jobs
  import opened RedisStore
  import opened RedisIndexes
  import JobSystem

  /** Where a worker is; one that is not in the map is idle. */
  datatype Pc =
    | Holding(cl: JobSystem.Claim)                  // reserved a job, handler running or just done
    | NackHasRead(cl: JobSystem.Claim, read: NackRead) // between the two round trips of Nack
    | AckHalfDone(id: string, queue: string)        // between the two round trips of Ack

  function IdOf(pc: Pc): string {
    if pc.AckHalfDone? then pc.id else pc.cl.id
  }

  datatype Sys = Sys(
    now: int,
    store: Store,
    pcs: map<nat, Pc>,
    deletes: map<nat, DeleteRead>,                  // clients between the two round trips of DeleteJob
    hist: map<string, JobSystem.History>
  )

  datatype Step =
    | Tick(now: int)
    | Enqueue(job: Job)
    | Reserve(w: nat, queue: string, at: int)
    | AckFirstTrip(w: nat, at: int)
    | AckSecondTrip(w: nat)
    | NackReads(w: nat)
    | NackWrites(w: nat, at: int)
    | Abandon(w: nat)
    | DeleteReads(client: nat, id: string)
    | DeleteWrites(client: nat)

  ghost predicate Init(s: Sys) {
    s.store == EMPTY && s.pcs == map[] && s.deletes == map[] && s.hist == map[]
  }

  // ---------- Steps ----------

  ghost predicate EnqueueStep(s: Sys, s': Sys, job: Job) {
    && IsFresh(job) && job.id !in s.hist
    && s' == s.(store := EnqueuePipeline(s.store, job),
                hist := s.hist[job.id := JobSystem.History(job.typ, job.maxAttempts, [])])
  }

  /** The worker read its clock at `at`, then the script ran. */
  ghost predicate ReserveStep(s: Sys, s': Sys, w: nat, queue: string, at: int) {
    && w !in s.pcs && at <= s.now
    && var (store', r) := ReserveScript(s.store, queue, Ticks(at, SECOND));
    && match r
       case None => s' == s.(store := store')
       case Some(j) =>
         && j.id in s.hist
         && s' == s.(store := store',
                     pcs := s.pcs[w := Holding(JobSystem.Claim(j.id, j.typ, j.attempts, s.now))],
                     hist := s.hist[j.id := s.hist[j.id].(times := s.hist[j.id].times + [s.now])])
  }

  /** The handler succeeded. When the job is gone, the first trip reports an error and Ack ends. */
  ghost predicate AckFirstStep(c: JobSystem.Config, s: Sys, s': Sys, w: nat, at: int) {
    && w in s.pcs && s.pcs[w].Holding? && at <= s.now
    && var cl := s.pcs[w].cl;
    && c.Try(cl.id, cl.typ, cl.attempts + 1) == JobSystem.Success
    && var (store', queue) := AckFirst(s.store, cl.id, Ticks(at, SECOND));
    && s' == s.(store := store',
                pcs := if queue.Some? then s.pcs[w := AckHalfDone(cl.id, queue.value)] else s.pcs - {w})
  }

  ghost predicate AckSecondStep(s: Sys, s': Sys, w: nat) {
    && w in s.pcs && s.pcs[w].AckHalfDone?
    && s' == s.(store := AckSecond(s.store, s.pcs[w].queue, s.pcs[w].id), pcs := s.pcs - {w})
  }

  /** The handler failed, or there is none. When the job is gone, Nack ends with an error. */
  ghost predicate NackReadStep(c: JobSystem.Config, s: Sys, s': Sys, w: nat) {
    && w in s.pcs && s.pcs[w].Holding?
    && var cl := s.pcs[w].cl;
    && c.Try(cl.id, cl.typ, cl.attempts + 1).Failure?
    && var read := ReadForNack(s.store, cl.id);
    && s' == s.(pcs := if read.Some? then s.pcs[w := NackHasRead(cl, read.value)] else s.pcs - {w})
  }

  ghost predicate NackWriteStep(c: JobSystem.Config, s: Sys, s': Sys, w: nat, at: int) {
    && w in s.pcs && s.pcs[w].NackHasRead?
    && var cl := s.pcs[w].cl;
    && cl.since <= at <= s.now
    && var o := c.Try(cl.id, cl.typ, cl.attempts + 1);
    && o.Failure?
    && var retryAt := Ticks(at + c.Delay(cl.typ, cl.attempts + 1), SECOND);
    && s' == s.(store := NackScript(s.store, cl.id, s.pcs[w].read, o.err, Ticks(at, SECOND), retryAt),
                pcs := s.pcs - {w})
  }

  ghost predicate DeleteReadStep(s: Sys, s': Sys, client: nat, id: string) {
    var read := ReadForDelete(s.store, id);
    s' == if read.Some? then s.(deletes := s.deletes[client := read.value]) else s
  }

  ghost predicate DeleteWriteStep(s: Sys, s': Sys, client: nat) {
    && client in s.deletes
    && s' == s.(store := DeletePipeline(s.store, s.deletes[client]), deletes := s.deletes - {client})
  }

  ghost predicate Next(c: JobSystem.Config, s: Sys, s': Sys, step: Step) {
    match step
    case Tick(now) => s.now <= now && s' == s.(now := now)
    case Enqueue(job) => EnqueueStep(s, s', job)
    case Reserve(w, queue, at) => ReserveStep(s, s', w, queue, at)
    case AckFirstTrip(w, at) => AckFirstStep(c, s, s', w, at)
    case AckSecondTrip(w) => AckSecondStep(s, s', w)
    case NackReads(w) => NackReadStep(c, s, s', w)
    case NackWrites(w, at) => NackWriteStep(c, s, s', w, at)
    case Abandon(w) => w in s.pcs && s' == s.(pcs := s.pcs - {w})
    case DeleteReads(client, id) => DeleteReadStep(s, s', client, id)
    case DeleteWrites(client) => DeleteWriteStep(s, s', client)
  }

  ghost predicate IsRun(c: JobSystem.Config, run: seq<Sys>, steps: seq<Step>) {
    && |run| == |steps| + 1
    && Init(run[0])
    && forall i | 0 <= i < |steps| :: Next(c, run[i], run[i + 1], steps[i])
  }

  // ---------- Invariant ----------

  /** What a worker at `pc` knows about its job, unless the job has been deleted. Between the
      trips of Nack the values read earlier are still the stored ones. */
  ghost predicate PcOk(s: Store, pc: Pc) {
    var id := IdOf(pc);
    id in s.hashes ==>
      && s.hashes[id].Full?
      && var j := s.hashes[id].job;
      match pc
      case Holding(cl) => j.status == Running && j.attempts == cl.attempts
      case NackHasRead(cl, read) => j.status == Running && j.attempts == cl.attempts && ReadForNack(s, id) == Some(read)
      case AckHalfDone(_, queue) => j.status == Completed && j.queue == queue
  }

  /** A delete in progress knows the right queue; a queue never changes. */
  predicate DeleteOk(s: Store, read: DeleteRead) {
    IsFull(s, read.id) ==> s.hashes[read.id].job.queue == read.queue
  }

  ghost predicate Inv(s: Sys) {
    && QueuesAgree(s.store)
    && s.store.hashes.Keys <= s.hist.Keys
    && (forall w | w in s.pcs :: IdOf(s.pcs[w]) in s.hist && PcOk(s.store, s.pcs[w]))
    && (forall v, w | v in s.pcs && w in s.pcs && v != w :: IdOf(s.pcs[v]) != IdOf(s.pcs[w]))
    && (forall d | d in s.deletes :: s.deletes[d].id in s.hist && DeleteOk(s.store, s.deletes[d]))
  }

  // ---------- Refinement ----------

  ghost function HeldIn(pcs: map<nat, Pc>): map<nat, JobSystem.Claim> {
    map w | w in pcs && !pcs[w].AckHalfDone? :: pcs[w].cl
  }

  /** The atomic protocol's view: the table behind the hashes. An Ack takes effect with its
      first trip, a Nack with its second. */
  ghost function Abs(s: Sys): JobSystem.Sys {
    JobSystem.Sys(s.now, TableOf(s.store), HeldIn(s.pcs), s.hist)
  }

  /** The atomic step that a Redis step amounts to; letting no time pass is a stutter. */
  ghost function AbsStep(s: Sys, step: Step): JobSystem.Step {
    var stutter := JobSystem.Tick(s.now);
    match step
    case Tick(now) => JobSystem.Tick(now)
    case Enqueue(job) => JobSystem.Enqueue(job)
    case Reserve(w, queue, at) =>
      var r := ReserveScript(s.store, queue, Ticks(at, SECOND)).1;
      if r.Some? then JobSystem.Reserve(w, queue, r.value.id, at, at) else stutter
    case AckFirstTrip(w, at) => JobSystem.Ack(w, at)
    case AckSecondTrip(_) => stutter
    case NackReads(w) =>
      if w in s.pcs && !s.pcs[w].AckHalfDone? && ReadForNack(s.store, s.pcs[w].cl.id).None?
      then JobSystem.Nack(w, s.now) else stutter
    case NackWrites(w, at) => JobSystem.Nack(w, at)
    case Abandon(w) => if w in s.pcs && !s.pcs[w].AckHalfDone? then JobSystem.Abandon(w) else stutter
    case DeleteReads(_, _) => stutter
    case DeleteWrites(client) => if client in s.deletes then JobSystem.Delete(s.deletes[client].id) else stutter
  }

  /** A step of worker `w` that changes no hash but that of its own job `id`, and not that
      job's queue, disturbs no other worker and no delete. */
  lemma OwnHashKeepsInv(s: Sys, s': Sys, w: nat, id: string)
    requires Inv(s) && QueuesAgree(s'.store) && s'.deletes == s.deletes && s'.hist.Keys == s.hist.Keys
    requires id in s.hist && s'.store.hashes.Keys <= s.store.hashes.Keys + {id}
    requires forall x | x != id && x in s'.store.hashes :: s'.store.hashes[x] == s.store.hashes[x]
    requires IsFull(s'.store, id) ==>
               IsFull(s.store, id) && s'.store.hashes[id].job.queue == s.store.hashes[id].job.queue
    requires forall v | v in s.pcs && v != w :: IdOf(s.pcs[v]) != id
    requires s'.pcs == s.pcs - {w} || (w in s'.pcs && s'.pcs == s.pcs[w := s'.pcs[w]]
                                         && IdOf(s'.pcs[w]) == id && PcOk(s'.store, s'.pcs[w]))
    ensures Inv(s')
  {
    forall v | v in s'.pcs ensures IdOf(s'.pcs[v]) in s'.hist && PcOk(s'.store, s'.pcs[v]) {
      if v != w { assert PcOk(s.store, s.pcs[v]); }
    }
    forall d | d in s'.deletes ensures DeleteOk(s'.store, s'.deletes[d]) {
      assert DeleteOk(s.store, s.deletes[d]);
    }
  }

  lemma EnqueueRefinesStep(c: JobSystem.Config, s: Sys, s': Sys, job: Job)
    requires c.unit == SECOND && Inv(s) && EnqueueStep(s, s', job)
    ensures Inv(s') && JobSystem.Next(c, Abs(s), Abs(s'), JobSystem.Enqueue(job))
  {
    EnqueueRefines(s.store, job, {});
    assert s'.store.hashes.Keys == s.store.hashes.Keys + {job.id};
    assert ToRow(job, SECOND).(completedAt := None, failedAt := None) == ToRow(job, SECOND);
  }

  lemma ReserveRefinesStep(c: JobSystem.Config, s: Sys, s': Sys, w: nat, queue: string, at: int)
    requires c.unit == SECOND && Inv(s) && ReserveStep(s, s', w, queue, at)
    ensures Inv(s') && JobSystem.Next(c, Abs(s), Abs(s'), AbsStep(s, Reserve(w, queue, at)))
  {
    ReserveRefines(s.store, queue, Ticks(at, SECOND), {});
    var r := ReserveScript(s.store, queue, Ticks(at, SECOND)).1;
    if r.Some? {
      ClaimRefinesStep(c, s, s', w, queue, at, r.value.id);
    }
  }

  /** What claiming the row `id` for worker `w` makes of the system. */
  ghost predicate ClaimedAs(s: Sys, s': Sys, w: nat, id: string, j: Job)
  {
    && id in s.hist
    && s' == s.(store := s'.store,
                pcs := s.pcs[w := Holding(JobSystem.Claim(id, j.typ, j.attempts, s.now))],
                hist := s.hist[id := s.hist[id].(times := s.hist[id].times + [s.now])])
    && s'.store.hashes == s.store.hashes[id := Full(j)]
  }

  lemma ClaimRefinesStep(c: JobSystem.Config, s: Sys, s': Sys, w: nat, queue: string, at: int, id: string)
    requires c.unit == SECOND && Inv(s) && w !in s.pcs && at <= s.now && QueuesAgree(s'.store)
    requires id in EligibleIds(TableOf(s.store), queue, Ticks(at, SECOND))
    requires ClaimedAs(s, s', w, id, ReservedRow(TableOf(s.store)[id], Ticks(at, SECOND)))
    ensures Inv(s') && JobSystem.Next(c, Abs(s), Abs(s'), JobSystem.Reserve(w, queue, id, at, at))
  {
    ClaimKeepsInv(s, s', w, queue, Ticks(at, SECOND), id);
    ClaimOnAbs(s, s', w, id, ReservedRow(TableOf(s.store)[id], Ticks(at, SECOND)));
  }

  lemma ClaimKeepsInv(s: Sys, s': Sys, w: nat, queue: string, t: int, id: string)
    requires Inv(s) && w !in s.pcs && QueuesAgree(s'.store)
    requires id in EligibleIds(TableOf(s.store), queue, t)
    requires ClaimedAs(s, s', w, id, ReservedRow(TableOf(s.store)[id], t))
    ensures Inv(s')
  {
    assert IsPending(s.store, id);
    forall v | v in s.pcs ensures IdOf(s.pcs[v]) != id {
      assert PcOk(s.store, s.pcs[v]);
    }
    OwnHashKeepsInv(s, s', w, id);
  }

  lemma ClaimOnAbs(s: Sys, s': Sys, w: nat, id: string, j: Job)
    requires ClaimedAs(s, s', w, id, j)
    ensures Abs(s').table == Abs(s).table[id := j]
    ensures Abs(s').held == Abs(s).held[w := JobSystem.Claim(id, j.typ, j.attempts, s.now)]
    ensures Abs(s').now == s.now && Abs(s').hist == s'.hist && Abs(s).hist == s.hist
  {
  }

  /** Worker `w` lets go of its job: from the atomic protocol's view, at least. */
  lemma LetGoOnAbs(s: Sys, s': Sys, w: nat)
    requires w in s.pcs && !s.pcs[w].AckHalfDone?
    requires s'.pcs == s.pcs - {w} || (w in s'.pcs && s'.pcs == s.pcs[w := s'.pcs[w]] && s'.pcs[w].AckHalfDone?)
    ensures HeldIn(s'.pcs) == HeldIn(s.pcs) - {w}
  {
  }

  lemma AckFirstRefinesStep(c: JobSystem.Config, s: Sys, s': Sys, w: nat, at: int)
    requires c.unit == SECOND && Inv(s) && AckFirstStep(c, s, s', w, at)
    ensures Inv(s') && JobSystem.Next(c, Abs(s), Abs(s'), JobSystem.Ack(w, at))
  {
    AckFirstKeepsInv(c, s, s', w, at);
    LetGoOnAbs(s, s', w);
    AckFirstRefines(s.store, s.pcs[w].cl.id, Ticks(at, SECOND), {});
  }

  lemma AckFirstKeepsInv(c: JobSystem.Config, s: Sys, s': Sys, w: nat, at: int)
    requires Inv(s) && AckFirstStep(c, s, s', w, at)
    ensures Inv(s') && (IsFull(s.store, s.pcs[w].cl.id) ==> s.store.hashes[s.pcs[w].cl.id].job.status == Running)
  {
    var cl := s.pcs[w].cl;
    assert PcOk(s.store, s.pcs[w]);
    AckFirstRefines(s.store, cl.id, Ticks(at, SECOND), {});
    OwnHashKeepsInv(s, s', w, cl.id);
  }

  lemma AckSecondRefinesStep(c: JobSystem.Config, s: Sys, s': Sys, w: nat)
    requires c.unit == SECOND && Inv(s) && AckSecondStep(s, s', w)
    ensures Inv(s') && JobSystem.Next(c, Abs(s), Abs(s'), JobSystem.Tick(s.now))
  {
    assert PcOk(s.store, s.pcs[w]);
    AckSecondSettles(s.store, s.pcs[w].queue, s.pcs[w].id, {});
    assert s'.store.hashes == s.store.hashes;
    assert HeldIn(s'.pcs) == HeldIn(s.pcs);
    forall v | v in s'.pcs ensures PcOk(s'.store, s'.pcs[v]) {
      assert PcOk(s.store, s.pcs[v]);
    }
  }

  lemma NackReadRefinesStep(c: JobSystem.Config, s: Sys, s': Sys, w: nat)
    requires c.unit == SECOND && Inv(s) && NackReadStep(c, s, s', w)
    requires forall v | v in s.pcs && !s.pcs[v].AckHalfDone? :: s.pcs[v].cl.since <= s.now
    ensures Inv(s') && JobSystem.Next(c, Abs(s), Abs(s'), AbsStep(s, NackReads(w)))
  {
    NackReadKeepsInv(c, s, s', w);
    if ReadForNack(s.store, s.pcs[w].cl.id).Some? {
      assert HeldIn(s'.pcs) == HeldIn(s.pcs);
    } else {
      NackFindsNoJob(c, s, s', w);
    }
  }

  lemma NackFindsNoJob(c: JobSystem.Config, s: Sys, s': Sys, w: nat)
    requires c.unit == SECOND && w in s.pcs && s.pcs[w].Holding? && s.pcs[w].cl.since <= s.now
    requires var cl := s.pcs[w].cl;
             c.Try(cl.id, cl.typ, cl.attempts + 1).Failure? && ReadForNack(s.store, cl.id).None?
    requires s' == s.(pcs := s.pcs - {w})
    ensures JobSystem.Next(c, Abs(s), Abs(s'), JobSystem.Nack(w, s.now))
  {
    LetGoOnAbs(s, s', w);
    GoneIsNack(c, Abs(s), Abs(s'), w);
  }

  lemma GoneIsNack(c: JobSystem.Config, a: JobSystem.Sys, a': JobSystem.Sys, w: nat)
    requires c.unit == SECOND && w in a.held
    requires var cl := a.held[w];
             && cl.since <= a.now && cl.id !in a.table
             && c.Try(cl.id, cl.typ, cl.attempts + 1).Failure?
             && a' == a.(held := a'.held) && a'.held == a.held - {w}
    ensures JobSystem.Next(c, a, a', JobSystem.Nack(w, a.now))
  {
  }

  lemma NackReadKeepsInv(c: JobSystem.Config, s: Sys, s': Sys, w: nat)
    requires Inv(s) && NackReadStep(c, s, s', w)
    ensures Inv(s')
  {
    assert PcOk(s.store, s.pcs[w]);
    OwnHashKeepsInv(s, s', w, s.pcs[w].cl.id);
  }

  lemma NackWriteRefinesStep(c: JobSystem.Config, s: Sys, s': Sys, w: nat, at: int)
    requires c.unit == SECOND && Inv(s) && NackWriteStep(c, s, s', w, at)
    ensures Inv(s') && JobSystem.Next(c, Abs(s), Abs(s'), JobSystem.Nack(w, at))
  {
    var cl := s.pcs[w].cl;
    assert PcOk(s.store, s.pcs[w]);
    var err := c.Try(cl.id, cl.typ, cl.attempts + 1).err;
    var t, retryAt := Ticks(at, SECOND), Ticks(at + c.Delay(cl.typ, cl.attempts + 1), SECOND);
    var store' := NackScript(s.store, cl.id, s.pcs[w].read, err, t, retryAt);
    assert s' == s.(store := store', pcs := s.pcs - {w});
    NackScriptOnHashes(s.store, cl.id, s.pcs[w].read, err, t, retryAt, store');
    NackedRefinesStep(c, s, s', w, at, err, t, retryAt);
  }

  lemma NackScriptOnHashes(s: Store, id: string, read: NackRead, err: string, t: int, retryAt: int, s': Store)
    requires QueuesAgree(s) && s' == NackScript(s, id, read, err, t, retryAt)
    requires IsFull(s, id) ==> ReadForNack(s, id) == Some(read) && s.hashes[id].job.status == Running
    ensures QueuesAgree(s')
    ensures s'.hashes == if IsFull(s, id)
                         then s.hashes[id := Full(NackedRow(s.hashes[id].job, err, t, retryAt))] else s.hashes
  {
    NackScriptRefines(s, id, read, err, t, retryAt, {});
  }

  lemma NackedRefinesStep(c: JobSystem.Config, s: Sys, s': Sys, w: nat, at: int, err: string, t: int, retryAt: int)
    requires c.unit == SECOND && Inv(s) && w in s.pcs && s.pcs[w].NackHasRead? && QueuesAgree(s'.store)
    requires s' == s.(store := s'.store, pcs := s.pcs - {w})
    requires var cl := s.pcs[w].cl;
             && cl.since <= at <= s.now
             && c.Try(cl.id, cl.typ, cl.attempts + 1) == JobSystem.Failure(err)
             && t == Ticks(at, SECOND) && retryAt == Ticks(at + c.Delay(cl.typ, cl.attempts + 1), SECOND)
             && s'.store.hashes ==
                if IsFull(s.store, cl.id)
                then s.store.hashes[cl.id := Full(NackedRow(s.store.hashes[cl.id].job, err, t, retryAt))]
                else s.store.hashes
    ensures Inv(s') && JobSystem.Next(c, Abs(s), Abs(s'), JobSystem.Nack(w, at))
  {
    NackedKeepsInv(s, s', w, err, t, retryAt);
    LetGoOnAbs(s, s', w);
    NackedIsNack(c, Abs(s), Abs(s'), w, at, err, t, retryAt);
  }

  lemma NackedKeepsInv(s: Sys, s': Sys, w: nat, err: string, t: int, retryAt: int)
    requires Inv(s) && w in s.pcs && s.pcs[w].NackHasRead? && QueuesAgree(s'.store)
    requires s' == s.(store := s'.store, pcs := s.pcs - {w})
    requires var id := s.pcs[w].cl.id;
             s'.store.hashes == if IsFull(s.store, id)
                                then s.store.hashes[id := Full(NackedRow(s.store.hashes[id].job, err, t, retryAt))]
                                else s.store.hashes
    ensures Inv(s')
  {
    OwnHashKeepsInv(s, s', w, s.pcs[w].cl.id);
  }

  lemma NackedIsNack(c: JobSystem.Config, a: JobSystem.Sys, a': JobSystem.Sys, w: nat, at: int, err: string, t: int,
          retryAt: int)
    requires c.unit == SECOND && w in a.held
    requires var cl := a.held[w];
             && cl.since <= at <= a.now
             && c.Try(cl.id, cl.typ, cl.attempts + 1) == JobSystem.Failure(err)
             && t == Ticks(at, SECOND) && retryAt == Ticks(at + c.Delay(cl.typ, cl.attempts + 1), SECOND)
             && a'.table == (if cl.id in a.table
                            then a.table[cl.id := NackedRow(a.table[cl.id], err, t, retryAt)] else a.table)
             && a'.held == a.held - {w} && a'.now == a.now && a'.hist == a.hist
    ensures JobSystem.Next(c, a, a', JobSystem.Nack(w, at))
  {
  }

  lemma DeleteRefinesStep(c: JobSystem.Config, s: Sys, s': Sys, client: nat)
    requires c.unit == SECOND && Inv(s) && DeleteWriteStep(s, s', client)
    ensures Inv(s') && JobSystem.Next(c, Abs(s), Abs(s'), AbsStep(s, DeleteWrites(client)))
  {
    var read := s.deletes[client];
    assert DeleteOk(s.store, read);
    DeleteRefines(s.store, read);
    forall v | v in s'.pcs ensures PcOk(s'.store, s'.pcs[v]) {
      assert PcOk(s.store, s.pcs[v]);
    }
    forall d | d in s'.deletes ensures DeleteOk(s'.store, s'.deletes[d]) {
      assert DeleteOk(s.store, s.deletes[d]);
    }
  }

  lemma AbandonRefinesStep(c: JobSystem.Config, s: Sys, s': Sys, w: nat)
    requires c.unit == SECOND && Inv(s) && Next(c, s, s', Abandon(w))
    ensures Inv(s') && JobSystem.Next(c, Abs(s), Abs(s'), AbsStep(s, Abandon(w)))
  {
    if s.pcs[w].AckHalfDone? {
      assert HeldIn(s'.pcs) == HeldIn(s.pcs);
    } else {
      assert HeldIn(s'.pcs) == HeldIn(s.pcs) - {w};
    }
  }

  /** One Redis step, from anywhere in the middle of other clients' operations, is one atomic
      step or none. */
  lemma StepRefines(c: JobSystem.Config, s: Sys, s': Sys, step: Step)
    requires c.unit == SECOND && Inv(s) && JobSystem.Inv(c, Abs(s)) && Next(c, s, s', step)
    ensures Inv(s') && JobSystem.Next(c, Abs(s), Abs(s'), AbsStep(s, step))
  {
    match step
    case Enqueue(job) => EnqueueRefinesStep(c, s, s', job);
    case Reserve(w, queue, at) => ReserveRefinesStep(c, s, s', w, queue, at);
    case AckFirstTrip(w, at) => AckFirstRefinesStep(c, s, s', w, at);
    case AckSecondTrip(w) => AckSecondRefinesStep(c, s, s', w);
    case NackReads(w) =>
      forall v | v in s.pcs && !s.pcs[v].AckHalfDone? ensures s.pcs[v].cl.since <= s.now {
        assert v in Abs(s).held;
      }
      NackReadRefinesStep(c, s, s', w);
    case NackWrites(w, at) => NackWriteRefinesStep(c, s, s', w, at);
    case Abandon(w) => AbandonRefinesStep(c, s, s', w);
    case DeleteWrites(client) => DeleteRefinesStep(c, s, s', client);
    case Tick(_) =>
    case DeleteReads(_, _) =>
  }

  ghost function AbsRun(run: seq<Sys>): seq<JobSystem.Sys> {
    seq(|run|, i requires 0 <= i < |run| => Abs(run[i]))
  }

  ghost function AbsSteps(run: seq<Sys>, steps: seq<Step>): seq<JobSystem.Step>
    requires |run| == |steps| + 1
  {
    seq(|steps|, i requires 0 <= i < |steps| => AbsStep(run[i], steps[i]))
  }

  lemma {:induction false} RunInvs(c: JobSystem.Config, run: seq<Sys>, steps: seq<Step>, i: nat)
    requires c.unit == SECOND && IsRun(c, run, steps) && i < |run|
    ensures Inv(run[i]) && JobSystem.Inv(c, Abs(run[i]))
  {
    if i == 0 {
      assert TableOf(run[0].store) == map[] && HeldIn(run[0].pcs) == map[];
      forall q, id ensures QueueAgreesAt(run[0].store, q, id) { }
    } else {
      RunInvs(c, run, steps, i - 1);
      StepRefines(c, run[i - 1], run[i], steps[i - 1]);
      JobSystem.NextKeepsInv(c, Abs(run[i - 1]), Abs(run[i]), AbsStep(run[i - 1], steps[i - 1]));
    }
  }

  /** Every interleaving of workers, enqueues and two-step deletes on Redis is a run of the
      atomic protocol. All that is proved of the latter's runs (one holder per job, the count of
      reservations, the spacing of retries, verdicts, outstanding work) holds of Redis. */
  lemma RedisRefinesJobSystem(c: JobSystem.Config, run: seq<Sys>, steps: seq<Step>)
    requires c.unit == SECOND && IsRun(c, run, steps)
    ensures JobSystem.IsRun(c, AbsRun(run), AbsSteps(run, steps))
  {
    RunInvs(c, run, steps, 0);
    assert TableOf(run[0].store) == map[] && HeldIn(run[0].pcs) == map[];
    forall i | 0 <= i < |steps|
      ensures JobSystem.Next(c, AbsRun(run)[i], AbsRun(run)[i + 1], AbsSteps(run, steps)[i])
    {
      RunInvs(c, run, steps, i);
      StepRefines(c, run[i], run[i + 1], steps[i]);
    }
  }
}
