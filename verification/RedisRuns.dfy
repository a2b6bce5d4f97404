/** What holds in every reachable state of the Redis backend under concurrent workers and
    two-step deletes, and exactly which steps unsettle its status sets. */
module RedisRuns {
  import opened Options
  import opened Jobs
  import opened RedisStore
  import opened RedisIndexes
  import opened RedisProtocol
  import opened QueueStats
  import JobSystem
  import JobRuns

  // ---------- Claims ----------

  /** No job is ever held by two workers at once, whatever the interleaving, not even while one
      of them is between the trips of Ack or Nack. */
  lemma NeverHeldTwice(c: JobSystem.Config, run: seq<Sys>, steps: seq<Step>, i: nat, v: nat, w: nat)
    requires c.unit == SECOND && IsRun(c, run, steps) && i < |run|
    requires v in run[i].pcs && w in run[i].pcs && v != w
    ensures IdOf(run[i].pcs[v]) != IdOf(run[i].pcs[w])
  {
    RunInvs(c, run, steps, i);
  }

  /** When the nack script runs, either the attempts, max_attempts and queue read earlier are
      still the stored ones and the row becomes what an atomic Nack would make of it, or the job
      is gone and the script changes nothing. No increment is ever lost. */
  lemma SplitNackIsAtomic(c: JobSystem.Config, run: seq<Sys>, steps: seq<Step>, i: nat, w: nat, err: string,
          now: int, retryAt: int)
    requires c.unit == SECOND && IsRun(c, run, steps) && i < |run|
    requires w in run[i].pcs && run[i].pcs[w].NackHasRead?
    ensures var s := run[i].store;
            var id, read := IdOf(run[i].pcs[w]), run[i].pcs[w].read;
            var s' := NackScript(s, id, read, err, now, retryAt);
            if id in s.hashes
            then ReadForNack(s, id) == Some(read)
                 && TableOf(s') == TableOf(s)[id := NackedRow(TableOf(s)[id], err, now, retryAt)]
                 && TableOf(s')[id].attempts == TableOf(s)[id].attempts + 1
            else s' == s
  {
    RunInvs(c, run, steps, i);
    var s := run[i].store;
    var id, read := IdOf(run[i].pcs[w]), run[i].pcs[w].read;
    assert PcOk(s, run[i].pcs[w]);
    NackScriptRefines(s, id, read, err, now, retryAt, {});
  }

  /** In every reachable state the sorted sets hold exactly the pending jobs at their scheduled
      instants, so Reserve comes back empty only when no eligible job exists, and never has to
      clean up a stale entry. */
  lemma SortedSetsExact(c: JobSystem.Config, run: seq<Sys>, steps: seq<Step>, i: nat, queue: string, now: int)
    requires c.unit == SECOND && IsRun(c, run, steps) && i < |run|
    ensures QueuesAgree(run[i].store)
    ensures var (s', r) := ReserveScript(run[i].store, queue, now);
            if r.None? then EligibleIds(TableOf(run[i].store), queue, now) == {} && s' == run[i].store
            else RedisPick(TableOf(run[i].store), queue, now, r.value.id)
  {
    RunInvs(c, run, steps, i);
    ReserveRefines(run[i].store, queue, now, {});
  }

  /** A job is handed out at most max_attempts times on Redis, even when outcomes get lost. */
  lemma RedisTriesBounded(c: JobSystem.Config, run: seq<Sys>, steps: seq<Step>, i: nat, id: string)
    requires c.unit == SECOND && IsRun(c, run, steps) && i < |run| && id in run[i].hist
    ensures |run[i].hist[id].times| <= run[i].hist[id].maxAttempts
    ensures IsFull(run[i].store, id) ==> |run[i].hist[id].times| == JobSystem.Tries(run[i].store.hashes[id].job)
  {
    RedisRefinesJobSystem(c, run, steps);
    JobRuns.ReservationCounts(c, AbsRun(run), AbsSteps(run, steps), i, id);
  }

  /** On Redis a retry is late by its delay, less than one second per retry given away. */
  lemma RedisRetrySpacing(c: JobSystem.Config, run: seq<Sys>, steps: seq<Step>, i: nat, id: string, n: nat)
    requires c.unit == SECOND && IsRun(c, run, steps) && i < |run|
    requires id in run[i].hist && n < |run[i].hist[id].times|
    ensures var h := run[i].hist[id];
            h.times[n] - h.times[0] >= JobRuns.TotalDelay(c, h.typ, n) - n * (SECOND - 1)
  {
    RedisRefinesJobSystem(c, run, steps);
    JobRuns.RetrySpacing(c, AbsRun(run), AbsSteps(run, steps), i, id, n);
  }

  /** When all delays are whole seconds, less than one second is given away in the whole run. */
  lemma RedisWholeSecondSpacing(c: JobSystem.Config, run: seq<Sys>, steps: seq<Step>, i: nat, id: string, n: nat)
    requires c.unit == SECOND && IsRun(c, run, steps) && i < |run|
    requires id in run[i].hist && n < |run[i].hist[id].times|
    requires forall k | 1 <= k <= n :: c.nextDelay(k) % SECOND == 0
    ensures var h := run[i].hist[id];
            h.times[n] - h.times[0] >= JobRuns.TotalDelay(c, h.typ, n) - (SECOND - 1)
  {
    RedisRefinesJobSystem(c, run, steps);
    JobRuns.WholeUnitSpacing(c, AbsRun(run), AbsSteps(run, steps), i, id, n);
  }

  /** On Redis, too, an outcome is delivered to the job as the try it counts calls for: by the first
      trip of Ack, or the second of Nack. */
  lemma RedisDelivers(c: JobSystem.Config, run: seq<Sys>, steps: seq<Step>, i: nat, w: nat, at: int)
    requires c.unit == SECOND && IsRun(c, run, steps) && i < |steps|
    requires steps[i] == AckFirstTrip(w, at) || steps[i] == NackWrites(w, at)
    ensures w in run[i].pcs
    ensures var id := IdOf(run[i].pcs[w]);
            id in TableOf(run[i].store) ==>
              && id in TableOf(run[i + 1].store)
              && var was, row := TableOf(run[i].store)[id], TableOf(run[i + 1].store)[id];
              JobRuns.Delivered(c, was, row, id, was.typ, was.attempts + 1, at, SECOND)
  {
    assert Next(c, run[i], run[i + 1], steps[i]);
    assert w in Abs(run[i]).held;
    RedisRefinesJobSystem(c, run, steps);
    JobRuns.DeliveredInRun(c, AbsRun(run), AbsSteps(run, steps), i, w, at);
  }

  /** A finished job on Redis has the status, attempts and error its outcomes dictate. */
  lemma RedisOutcomesDecide(c: JobSystem.Config, run: seq<Sys>, steps: seq<Step>, i: nat, id: string)
    requires c.unit == SECOND && IsRun(c, run, steps) && i < |run|
    requires IsFull(run[i].store, id) && Terminal(run[i].store.hashes[id].job)
    ensures var j := run[i].store.hashes[id].job;
            (j.status, j.attempts, j.lastError) == JobRuns.Verdict(c, id, j.typ, j.maxAttempts)
  {
    RedisRefinesJobSystem(c, run, steps);
    JobRuns.OutcomesDecide(c, AbsRun(run), AbsSteps(run, steps), i, id);
  }

  // ---------- Status sets ----------

  /** The jobs between the two trips of Ack. */
  ghost function Half(pcs: map<nat, Pc>): set<string> {
    set w | w in pcs && pcs[w].AckHalfDone? :: pcs[w].id
  }

  ghost predicate StatusSetsRight(s: Sys) {
    StatusesAgree(s.store, Half(s.pcs))
  }

  /** The three kinds of step that put a status set wrong: deleting with a status that is no
      longer current, finishing the Ack of a job that was deleted meanwhile, and losing the
      second trip of an Ack. */
  ghost predicate Unsettles(s: Sys, step: Step) {
    match step
    case DeleteWrites(client) =>
      client in s.deletes
      && var read := s.deletes[client];
      IsFull(s.store, read.id) && IndexStatus(s.store, Half(s.pcs), read.id) != read.status
    case AckSecondTrip(w) => w in s.pcs && s.pcs[w].AckHalfDone? && !IsFull(s.store, s.pcs[w].id)
    case Abandon(w) => w in s.pcs && s.pcs[w].AckHalfDone? && IsFull(s.store, s.pcs[w].id)
    case _ => false
  }

  lemma HalfDone(s: Sys, id: string)
    requires Inv(s) && id in Half(s.pcs)
    ensures IsFull(s.store, id) ==> s.store.hashes[id].job.status == Completed
  {
    var w :| w in s.pcs && s.pcs[w].AckHalfDone? && s.pcs[w].id == id;
    assert PcOk(s.store, s.pcs[w]);
  }

  lemma NotHalf(s: Sys, w: nat)
    requires Inv(s) && w in s.pcs && !s.pcs[w].AckHalfDone?
    ensures s.pcs[w].cl.id !in Half(s.pcs)
  {
  }

  /** From a state whose status sets are right, a step leaves them right if and only if it is
      none of those three. */
  lemma StatusSetsStep(c: JobSystem.Config, s: Sys, s': Sys, step: Step)
    requires c.unit == SECOND && Inv(s) && StatusSetsRight(s) && Next(c, s, s', step)
    ensures StatusSetsRight(s') <==> !Unsettles(s, step)
  {
    var half := Half(s.pcs);
    forall id | id in half && IsFull(s.store, id) ensures s.store.hashes[id].job.status == Completed {
      HalfDone(s, id);
    }
    match step
    case Enqueue(job) =>
      assert job.id !in half;
      EnqueueRefines(s.store, job, half);
    case Reserve(w, queue, at) =>
      ReserveRefines(s.store, queue, Ticks(at, SECOND), half);
      HalfUnchanged(s, s', w);
    case AckFirstTrip(w, at) =>
      AckFirstSettled(c, s, s', w, at);
    case AckSecondTrip(w) =>
      assert PcOk(s.store, s.pcs[w]);
      HalfOfSecondTrip(s, w);
      AckSecondSettles(s.store, s.pcs[w].queue, s.pcs[w].id, half);
    case NackReads(w) =>
      HalfUnchanged(s, s', w);
    case NackWrites(w, at) =>
      NackWriteSettled(c, s, s', w, at);
    case Abandon(w) =>
      if s.pcs[w].AckHalfDone? {
        LostSecondTrip(s, s', w);
      } else {
        HalfUnchanged(s, s', w);
      }
    case DeleteWrites(client) =>
      assert DeleteOk(s.store, s.deletes[client]);
      DeleteSettles(s.store, s.deletes[client], half);
    case _ =>
  }

  lemma AckFirstSettled(c: JobSystem.Config, s: Sys, s': Sys, w: nat, at: int)
    requires Inv(s) && StatusSetsRight(s) && AckFirstStep(c, s, s', w, at)
    ensures StatusSetsRight(s')
  {
    var id, half := s.pcs[w].cl.id, Half(s.pcs);
    NotHalf(s, w);
    assert PcOk(s.store, s.pcs[w]);
    AckFirstRefines(s.store, id, Ticks(at, SECOND), half);
    HalfOfFirstTrip(s, s', w);
    assert Half(s'.pcs) == if IsFull(s.store, id) then half + {id} else half;
  }

  lemma NackWriteSettled(c: JobSystem.Config, s: Sys, s': Sys, w: nat, at: int)
    requires Inv(s) && StatusSetsRight(s) && NackWriteStep(c, s, s', w, at)
    ensures StatusSetsRight(s')
  {
    var cl := s.pcs[w].cl;
    NotHalf(s, w);
    assert PcOk(s.store, s.pcs[w]);
    HalfUnchanged(s, s', w);
    var err := c.Try(cl.id, cl.typ, cl.attempts + 1).err;
    var t, retryAt := Ticks(at, SECOND), Ticks(at + c.Delay(cl.typ, cl.attempts + 1), SECOND);
    NackScriptSettles(s.store, cl.id, s.pcs[w].read, err, t, retryAt, Half(s.pcs), s'.store);
  }

  lemma NackScriptSettles(s: Store, id: string, read: NackRead, err: string, t: int, retryAt: int, half: set<string>,
          s': Store)
    requires QueuesAgree(s) && StatusesAgree(s, half) && id !in half
    requires IsFull(s, id) ==> ReadForNack(s, id) == Some(read) && s.hashes[id].job.status == Running
    requires s' == NackScript(s, id, read, err, t, retryAt)
    ensures StatusesAgree(s', half)
  {
    NackScriptRefines(s, id, read, err, t, retryAt, half);
  }

  lemma HalfUnchanged(s: Sys, s': Sys, w: nat)
    requires w in s.pcs ==> !s.pcs[w].AckHalfDone?
    requires s'.pcs == s.pcs || s'.pcs == s.pcs - {w}
             || (w in s'.pcs && s'.pcs == s.pcs[w := s'.pcs[w]] && !s'.pcs[w].AckHalfDone?)
    ensures Half(s'.pcs) == Half(s.pcs)
  {
    forall id | id in Half(s.pcs) ensures id in Half(s'.pcs) {
      var v :| v in s.pcs && s.pcs[v].AckHalfDone? && s.pcs[v].id == id;
      assert v in s'.pcs && s'.pcs[v].AckHalfDone? && s'.pcs[v].id == id;
    }
  }

  lemma HalfOfFirstTrip(s: Sys, s': Sys, w: nat)
    requires w in s.pcs && !s.pcs[w].AckHalfDone?
    requires s'.pcs == s.pcs - {w} || (w in s'.pcs && s'.pcs == s.pcs[w := s'.pcs[w]] && s'.pcs[w].AckHalfDone?)
    ensures Half(s'.pcs) == Half(s.pcs) + if w in s'.pcs then {s'.pcs[w].id} else {}
  {
    forall id | id in Half(s.pcs) ensures id in Half(s'.pcs) {
      var v :| v in s.pcs && s.pcs[v].AckHalfDone? && s.pcs[v].id == id;
      assert v in s'.pcs && s'.pcs[v].AckHalfDone? && s'.pcs[v].id == id;
    }
  }

  lemma HalfOfSecondTrip(s: Sys, w: nat)
    requires Inv(s) && w in s.pcs && s.pcs[w].AckHalfDone?
    ensures Half(s.pcs - {w}) == Half(s.pcs) - {s.pcs[w].id}
  {
    forall id | id in Half(s.pcs) && id != s.pcs[w].id ensures id in Half(s.pcs - {w}) {
      var v :| v in s.pcs && s.pcs[v].AckHalfDone? && s.pcs[v].id == id;
      assert v in s.pcs - {w};
    }
  }

  lemma LostSecondTrip(s: Sys, s': Sys, w: nat)
    requires Inv(s) && StatusSetsRight(s) && w in s.pcs && s.pcs[w].AckHalfDone?
    requires s' == s.(pcs := s.pcs - {w})
    ensures StatusSetsRight(s') <==> !IsFull(s.store, s.pcs[w].id)
  {
    var id, half := s.pcs[w].id, Half(s.pcs);
    HalfOfSecondTrip(s, w);
    assert PcOk(s.store, s.pcs[w]);
    if IsFull(s.store, id) {
      var q := s.store.hashes[id].job.queue;
      assert StatusAgreesAt(s.store, half, q, Running, id);
      assert !StatusAgreesAt(s.store, half - {id}, q, Running, id);
    } else {
      forall q, st, x ensures StatusAgreesAt(s.store, half - {id}, q, st, x) {
        assert StatusAgreesAt(s.store, half, q, st, x);
      }
    }
  }

  /** In a run without such steps every job is, at every moment, in exactly the status set of
      its hash, except that the second trip of an Ack may be outstanding. */
  lemma {:induction false} StatusSetsExact(c: JobSystem.Config, run: seq<Sys>, steps: seq<Step>, i: nat)
    requires c.unit == SECOND && IsRun(c, run, steps) && i < |run|
    requires forall m | 0 <= m < i :: !Unsettles(run[m], steps[m])
    ensures StatusSetsRight(run[i])
  {
    if i == 0 {
      forall q, st, id ensures StatusAgreesAt(run[0].store, Half(run[0].pcs), q, st, id) { }
    } else {
      StatusSetsExact(c, run, steps, i - 1);
      RunInvs(c, run, steps, i - 1);
      StatusSetsStep(c, run[i - 1], run[i], steps[i - 1]);
    }
  }

  // ---------- Some runs ----------

  function Last(run: seq<Sys>): Sys
    requires run != []
  {
    run[|run| - 1]
  }

  lemma Extended(c: JobSystem.Config, run: seq<Sys>, steps: seq<Step>, s: Sys, step: Step)
    requires IsRun(c, run, steps) && Next(c, Last(run), s, step)
    ensures IsRun(c, run + [s], steps + [step])
  {
    var all, moves := run + [s], steps + [step];
    forall i | 0 <= i < |moves| ensures Next(c, all[i], all[i + 1], moves[i]) {
      if i < |steps| { assert Next(c, run[i], run[i + 1], steps[i]); }
    }
  }

  /** A new job that is due, for a queue with nothing waiting. */
  predicate FreshFor(s: Sys, job: Job) {
    && IsFresh(job) && job.scheduledAt <= s.now
    && job.id !in s.hist && job.id !in s.store.hashes
    && ZSet(s.store, job.queue) == map[]
  }

  function Enqueued(s: Sys, job: Job): Sys {
    s.(store := EnqueuePipeline(s.store, job),
       hist := s.hist[job.id := JobSystem.History(job.typ, job.maxAttempts, [])])
  }

  /** `s'` is `s` with `job` claimed by worker `w`. */
  ghost predicate ClaimedBy(s: Sys, s': Sys, job: Job, w: nat) {
    && s'.now == s.now && s'.deletes == s.deletes && s'.hist.Keys == s.hist.Keys + {job.id}
    && s'.pcs == s.pcs[w := Holding(JobSystem.Claim(job.id, job.typ, 0, s.now))]
    && ZSet(s'.store, job.queue) == map[]
    && SSet(s'.store, job.queue, Running) == SSet(s.store, job.queue, Running) + {job.id}
    && s'.store.hashes == s.store.hashes[job.id := Full(ReservedRow(ToRow(job, SECOND), Ticks(s.now, SECOND)))]
  }

  lemma FreshIsReserved(s: Store, job: Job, now: int)
    requires IsFresh(job) && job.scheduledAt <= now && job.id !in s.hashes && ZSet(s, job.queue) == map[]
    ensures var (s', r) := ReserveScript(EnqueuePipeline(s, job), job.queue, Ticks(now, SECOND));
            && r.Some? && r.value.id == job.id && r.value.typ == job.typ && r.value.attempts == 0
            && s'.hashes == s.hashes[job.id := Full(ReservedRow(ToRow(job, SECOND), Ticks(now, SECOND)))]
            && SSet(s', job.queue, Running) == SSet(s, job.queue, Running) + {job.id}
            && ZSet(s', job.queue) == map[]
  {
    var s1 := EnqueuePipeline(s, job);
    TicksMonotone(job.scheduledAt, now, SECOND);
    assert ToRow(job, SECOND).(completedAt := None, failedAt := None) == ToRow(job, SECOND);
    assert ZSet(s1, job.queue) == map[job.id := Ticks(job.scheduledAt, SECOND)];
    StringLeqTotal(job.id, job.id);
    assert IsFirstReady(ZSet(s1, job.queue), Ticks(now, SECOND), job.id);
    assert s1.hashes[job.id] == Full(ToRow(job, SECOND));
  }

  /** Enqueue, time for other clients to start a delete of the job, and Reserve. */
  lemma ClaimFresh(c: JobSystem.Config, s: Sys, s1: Sys, job: Job, w: nat) returns (s2: Sys)
    requires FreshFor(s, job) && w !in s.pcs
    requires s1 == Enqueued(s, job).(deletes := s1.deletes)
    ensures Next(c, s1, s2, Reserve(w, job.queue, s.now))
    ensures ClaimedBy(s.(deletes := s1.deletes), s2, job, w)
  {
    FreshIsReserved(s.store, job, s.now);
    var (store', r) := ReserveScript(s1.store, job.queue, Ticks(s.now, SECOND));
    s2 := s1.(store := store',
              pcs := s1.pcs[w := Holding(JobSystem.Claim(job.id, job.typ, 0, s.now))],
              hist := s1.hist[job.id := s1.hist[job.id].(times := s1.hist[job.id].times + [s.now])]);
  }

  /** A run goes on with a new job being claimed. */
  lemma ThenClaim(c: JobSystem.Config, run: seq<Sys>, steps: seq<Step>, job: Job, w: nat)
      returns (run': seq<Sys>, steps': seq<Step>)
    requires IsRun(c, run, steps) && FreshFor(Last(run), job) && w !in Last(run).pcs
    ensures IsRun(c, run', steps') && |run'| == |run| + 2
    ensures ClaimedBy(Last(run), Last(run'), job, w)
  {
    var s := Last(run);
    var s1 := Enqueued(s, job);
    var s2 := ClaimFresh(c, s, s1, job, w);
    Extended(c, run, steps, s1, Enqueue(job));
    Extended(c, run + [s1], steps + [Enqueue(job)], s2, Reserve(w, job.queue, s.now));
    run' := run + [s1] + [s2];
    steps' := steps + [Enqueue(job)] + [Reserve(w, job.queue, s.now)];
  }

  /** `s'` is `s` but for the id of a deleted job left in the running set, and the worker that
      holds it. */
  ghost predicate LeftRunning(s: Sys, s': Sys, job: Job, w: nat) {
    && s'.now == s.now && s'.hist.Keys == s.hist.Keys + {job.id} && s'.pcs.Keys == s.pcs.Keys + {w}
    && s'.store.hashes == s.store.hashes
    && ZSet(s'.store, job.queue) == map[]
    && SSet(s'.store, job.queue, Running) == SSet(s.store, job.queue, Running) + {job.id}
  }

  lemma DeleteLeaves(s: Sys, s3: Sys, s4: Sys, job: Job, w: nat)
    requires FreshFor(s, job)
    requires ClaimedBy(s.(deletes := s3.deletes), s3, job, w)
    requires s4 == s3.(store := DeletePipeline(s3.store, DeleteRead(job.id, job.queue, Pending)), deletes := s4.deletes)
    ensures LeftRunning(s, s4, job, w)
  {
    assert s4.store.hashes == s3.store.hashes - {job.id};
    assert SSet(s4.store, job.queue, Running) == SSet(s3.store, job.queue, Running);
  }

  /** A run goes on with a new job being reserved between the two trips of its deletion. */
  lemma ThenStaleDelete(c: JobSystem.Config, run: seq<Sys>, steps: seq<Step>, job: Job, w: nat)
      returns (run': seq<Sys>, steps': seq<Step>)
    requires IsRun(c, run, steps) && FreshFor(Last(run), job) && w !in Last(run).pcs
    ensures IsRun(c, run', steps') && |run'| == |run| + 4
    ensures LeftRunning(Last(run), Last(run'), job, w)
  {
    var s, read := Last(run), DeleteRead(job.id, job.queue, Pending);
    var s1 := Enqueued(s, job);
    var s2 := s1.(deletes := s1.deletes[w := read]);
    var s3 := ClaimFresh(c, s, s2, job, w);
    var s4 := s3.(store := DeletePipeline(s3.store, read), deletes := s3.deletes - {w});
    DeleteLeaves(s, s3, s4, job, w);
    assert ReadForDelete(s1.store, job.id) == Some(read);
    Extended(c, run, steps, s1, Enqueue(job));
    run', steps' := run + [s1], steps + [Enqueue(job)];
    Extended(c, run', steps', s2, DeleteReads(w, job.id));
    run', steps' := run' + [s2], steps' + [DeleteReads(w, job.id)];
    Extended(c, run', steps', s3, Reserve(w, job.queue, s.now));
    run', steps' := run' + [s3], steps' + [Reserve(w, job.queue, s.now)];
    assert s3.deletes[w] == read;
    Extended(c, run', steps', s4, DeleteWrites(w));
    run', steps' := run' + [s4], steps' + [DeleteWrites(w)];
  }

  lemma NewRun(c: JobSystem.Config, now: int) returns (run: seq<Sys>, steps: seq<Step>)
    ensures IsRun(c, run, steps) && run == [Sys(now, EMPTY, map[], map[], map[])]
  {
    run, steps := [Sys(now, EMPTY, map[], map[], map[])], [];
  }

  /** Two-step deletion does go wrong: any fresh job can be reserved between the two trips of
      its deletion, and is then left in the running set although it is gone. */
  lemma StaleDelete(c: JobSystem.Config, job: Job, now: int) returns (run: seq<Sys>, steps: seq<Step>)
    requires c.unit == SECOND && IsFresh(job) && job.scheduledAt <= now
    ensures IsRun(c, run, steps) && |run| == 5
    ensures TableOf(run[4].store) == map[] && job.id in SSet(run[4].store, job.queue, Running)
    ensures !StatusSetsRight(run[4])
  {
    run, steps := NewRun(c, now);
    run, steps := ThenStaleDelete(c, run, steps, job, 0);
    assert !StatusAgreesAt(run[4].store, Half(run[4].pcs), job.queue, Running, job.id);
  }

  // ---------- Statistics ----------

  /** The statistics script. */
  function StatsScript(s: Store, queue: string): Queue {
    Queue(queue,
          |ZSet(s, queue)|,
          |SSet(s, queue, Running)|,
          |SSet(s, queue, Completed)|,
          |SSet(s, queue, Failed)|,
          |SSet(s, queue, Dead)|)
  }

  function IndexedAs(s: Store, half: set<string>, queue: string, st: Status): set<string> {
    set id | id in s.hashes && s.hashes[id].Full? && s.hashes[id].job.queue == queue && IndexStatus(s, half, id) == st
  }

  lemma StatsCountIndexes(s: Store, half: set<string>, queue: string)
    requires QueuesAgree(s) && StatusesAgree(s, half)
    requires forall id | id in half && IsFull(s, id) :: s.hashes[id].job.status == Completed
    ensures ZSet(s, queue).Keys == IndexedAs(s, half, queue, Pending)
    ensures forall st :: SSet(s, queue, st) == IndexedAs(s, half, queue, st)
    ensures TotalJobs(StatsScript(s, queue)) == |JobsIn(TableOf(s), queue)|
  {
    forall id ensures id in ZSet(s, queue) <==> id in IndexedAs(s, half, queue, Pending) {
      assert QueueAgreesAt(s, queue, id);
    }
    assert |ZSet(s, queue)| == |ZSet(s, queue).Keys|;
    forall st ensures SSet(s, queue, st) == IndexedAs(s, half, queue, st) {
      forall id ensures id in SSet(s, queue, st) <==> id in IndexedAs(s, half, queue, st) {
        assert StatusAgreesAt(s, half, queue, st, id);
      }
    }
    IndexedTotal(s, half, queue);
  }

  lemma IndexedTotal(s: Store, half: set<string>, queue: string)
    ensures |IndexedAs(s, half, queue, Pending)| + |IndexedAs(s, half, queue, Running)|
            + |IndexedAs(s, half, queue, Completed)|
            + |IndexedAs(s, half, queue, Failed)| + |IndexedAs(s, half, queue, Dead)| == |JobsIn(TableOf(s), queue)|
  {
    var statusOf := map id | id in JobsIn(TableOf(s), queue) :: IndexStatus(s, half, id);
    forall st ensures Under(statusOf, st) == IndexedAs(s, half, queue, st) { }
    assert statusOf.Keys == JobsIn(TableOf(s), queue);
    CountByStatus(statusOf);
  }

  /** When no Ack is half done, the statistics are the per-status row counts. */
  lemma StatsAreRowCounts(s: Store, queue: string)
    requires Agrees(s)
    ensures StatsScript(s, queue) == RowCounts(TableOf(s), queue)
  {
    StatsCountIndexes(s, {}, queue);
    assert |ZSet(s, queue)| == |ZSet(s, queue).Keys|;
    forall st ensures IndexedAs(s, {}, queue, st) == JobsWith(TableOf(s), queue, st) { }
  }

  /** `behind` are completed jobs still indexed as running: the second trip of their Ack is
      outstanding, or was lost. But for these every job is in the status set of its hash. */
  ghost predicate AllButBehind(s: Sys, behind: set<string>) {
    && StatusesAgree(s.store, behind)
    && Half(s.pcs) <= behind
    && forall id | id in behind :: IsFull(s.store, id) && s.store.hashes[id].job.status == Completed
  }

  /** A step that changes no hash of a job that is behind. */
  lemma StaysBehind(s: Sys, s': Sys, behind: set<string>)
    requires AllButBehind(s, behind) && StatusesAgree(s'.store, behind) && Half(s'.pcs) <= behind
    requires forall id | id in behind :: id in s'.store.hashes && s'.store.hashes[id] == s.store.hashes[id]
    ensures AllButBehind(s', behind)
  {
    forall id | id in behind
      ensures IsFull(s'.store, id) && s'.store.hashes[id].job.status == Completed
    {
      assert IsFull(s.store, id);
    }
  }

  lemma EnqueueBehind(s: Sys, s': Sys, job: Job, behind: set<string>)
    requires Inv(s) && EnqueueStep(s, s', job) && AllButBehind(s, behind)
    ensures AllButBehind(s', behind)
  {
    assert job.id in behind ==> IsFull(s.store, job.id);
    EnqueueRefines(s.store, job, behind);
    StaysBehind(s, s', behind);
  }

  lemma ReserveBehind(s: Sys, s': Sys, w: nat, queue: string, at: int, behind: set<string>)
    requires Inv(s) && ReserveStep(s, s', w, queue, at) && AllButBehind(s, behind)
    ensures AllButBehind(s', behind)
  {
    ReserveRefines(s.store, queue, Ticks(at, SECOND), behind);
    HalfUnchanged(s, s', w);
    var r := ReserveScript(s.store, queue, Ticks(at, SECOND)).1;
    if r.Some? {
      assert r.value.id in EligibleIds(TableOf(s.store), queue, Ticks(at, SECOND));
      assert r.value.id !in behind;
    }
    StaysBehind(s, s', behind);
  }

  lemma AckFirstBehind(c: JobSystem.Config, s: Sys, s': Sys, w: nat, at: int, behind: set<string>)
    requires Inv(s) && AckFirstStep(c, s, s', w, at) && AllButBehind(s, behind)
    ensures AllButBehind(s', if IsFull(s.store, s.pcs[w].cl.id) then behind + {s.pcs[w].cl.id} else behind)
  {
    var id := s.pcs[w].cl.id;
    assert PcOk(s.store, s.pcs[w]);
    assert id in behind ==> IsFull(s.store, id);
    AckFirstRefines(s.store, id, Ticks(at, SECOND), behind);
    HalfOfFirstTrip(s, s', w);
    assert forall x | x != id :: x in s'.store.hashes <==> x in s.store.hashes;
  }

  lemma AckSecondBehind(s: Sys, s': Sys, w: nat, behind: set<string>)
    requires Inv(s) && AckSecondStep(s, s', w) && AllButBehind(s, behind)
    ensures AllButBehind(s', behind - {s.pcs[w].id})
  {
    var id := s.pcs[w].id;
    assert id in Half(s.pcs);
    assert PcOk(s.store, s.pcs[w]);
    HalfOfSecondTrip(s, w);
    AckSecondSettles(s.store, s.pcs[w].queue, id, behind);
    assert s'.store.hashes == s.store.hashes;
  }

  lemma NackWriteBehind(c: JobSystem.Config, s: Sys, s': Sys, w: nat, at: int, behind: set<string>)
    requires Inv(s) && NackWriteStep(c, s, s', w, at) && AllButBehind(s, behind)
    ensures AllButBehind(s', behind)
  {
    var cl := s.pcs[w].cl;
    assert PcOk(s.store, s.pcs[w]);
    assert cl.id in behind ==> IsFull(s.store, cl.id);
    HalfUnchanged(s, s', w);
    var err := c.Try(cl.id, cl.typ, cl.attempts + 1).err;
    var t, retryAt := Ticks(at, SECOND), Ticks(at + c.Delay(cl.typ, cl.attempts + 1), SECOND);
    NackScriptSettles(s.store, cl.id, s.pcs[w].read, err, t, retryAt, behind, s'.store);
    NackScriptOnHashes(s.store, cl.id, s.pcs[w].read, err, t, retryAt, s'.store);
    StaysBehind(s, s', behind);
  }

  lemma AbandonBehind(s: Sys, s': Sys, w: nat, behind: set<string>)
    requires w in s.pcs && s' == s.(pcs := s.pcs - {w}) && AllButBehind(s, behind)
    ensures AllButBehind(s', behind)
  {
    assert Half(s'.pcs) <= Half(s.pcs);
  }

  /** Whatever happens but a deletion, every job stays counted: one whose second trip of Ack
      gets lost stays among the running ones for good. */
  lemma BehindStep(c: JobSystem.Config, s: Sys, s': Sys, step: Step, behind: set<string>)
      returns (behind': set<string>)
    requires c.unit == SECOND && Inv(s) && Next(c, s, s', step) && !step.DeleteWrites?
    requires AllButBehind(s, behind)
    ensures AllButBehind(s', behind')
  {
    behind' := behind;
    match step {
      case Tick(_) =>
      case Enqueue(job) =>
        EnqueueBehind(s, s', job, behind);
      case Reserve(w, queue, at) =>
        ReserveBehind(s, s', w, queue, at, behind);
      case AckFirstTrip(w, at) =>
        AckFirstBehind(c, s, s', w, at, behind);
        behind' := if IsFull(s.store, s.pcs[w].cl.id) then behind + {s.pcs[w].cl.id} else behind;
      case AckSecondTrip(w) =>
        AckSecondBehind(s, s', w, behind);
        behind' := behind - {s.pcs[w].id};
      case NackReads(w) =>
        HalfUnchanged(s, s', w);
      case NackWrites(w, at) =>
        NackWriteBehind(c, s, s', w, at, behind);
      case Abandon(w) =>
        AbandonBehind(s, s', w, behind);
      case DeleteReads(_, _) =>
    }
  }

  lemma {:induction false} BehindInRun(c: JobSystem.Config, run: seq<Sys>, steps: seq<Step>, i: nat)
      returns (behind: set<string>)
    requires c.unit == SECOND && IsRun(c, run, steps) && i < |run|
    requires forall m | 0 <= m < i :: !steps[m].DeleteWrites?
    ensures AllButBehind(run[i], behind)
  {
    if i == 0 {
      behind := {};
      forall q, st, id ensures StatusAgreesAt(run[0].store, {}, q, st, id) { }
    } else {
      behind := BehindInRun(c, run, steps, i - 1);
      RunInvs(c, run, steps, i - 1);
      behind := BehindStep(c, run[i - 1], run[i], steps[i - 1], behind);
    }
  }

  /** In every run without deletes, at every moment, between the trips of an Ack and even after
      a second trip has been lost, the statistics of a queue add up to its number of jobs. */
  lemma TotalIsJobCount(c: JobSystem.Config, run: seq<Sys>, steps: seq<Step>, i: nat, queue: string)
    requires c.unit == SECOND && IsRun(c, run, steps) && i < |run|
    requires forall m | 0 <= m < i :: !steps[m].DeleteWrites?
    ensures TotalJobs(StatsScript(run[i].store, queue)) == |JobsIn(TableOf(run[i].store), queue)|
  {
    RunInvs(c, run, steps, i);
    var behind := BehindInRun(c, run, steps, i);
    StatsCountIndexes(run[i].store, behind, queue);
  }

  /** Hence without deletes TotalJobs moves only when a job enters the queue. */
  lemma TotalMovesOnEnqueueOnly(c: JobSystem.Config, run: seq<Sys>, steps: seq<Step>, i: nat, queue: string)
    requires c.unit == SECOND && IsRun(c, run, steps) && i + 1 < |run|
    requires forall m | 0 <= m <= i :: !steps[m].DeleteWrites?
    ensures TotalJobs(StatsScript(run[i + 1].store, queue)) ==
            TotalJobs(StatsScript(run[i].store, queue))
            + if steps[i].Enqueue? && steps[i].job.queue == queue then 1 else 0
  {
    TotalIsJobCount(c, run, steps, i, queue);
    TotalIsJobCount(c, run, steps, i + 1, queue);
    RunInvs(c, run, steps, i);
    JobsInStep(c, run[i], run[i + 1], steps[i], queue);
  }

  /** With deletes, the statistics add up as long as no step has unsettled the status sets. */
  lemma SettledTotalIsJobCount(c: JobSystem.Config, run: seq<Sys>, steps: seq<Step>, i: nat, queue: string)
    requires c.unit == SECOND && IsRun(c, run, steps) && i < |run|
    requires forall m | 0 <= m < i :: !Unsettles(run[m], steps[m])
    ensures TotalJobs(StatsScript(run[i].store, queue)) == |JobsIn(TableOf(run[i].store), queue)|
  {
    RunInvs(c, run, steps, i);
    StatusSetsExact(c, run, steps, i);
    forall id | id in Half(run[i].pcs) && IsFull(run[i].store, id)
      ensures run[i].store.hashes[id].job.status == Completed
    {
      HalfDone(run[i], id);
    }
    StatsCountIndexes(run[i].store, Half(run[i].pcs), queue);
  }

  lemma SettledTotalMovesOnEnqueueOnly(c: JobSystem.Config, run: seq<Sys>, steps: seq<Step>, i: nat, queue: string)
    requires c.unit == SECOND && IsRun(c, run, steps) && i + 1 < |run|
    requires forall m | 0 <= m <= i :: !Unsettles(run[m], steps[m])
    requires !steps[i].DeleteWrites?
    ensures TotalJobs(StatsScript(run[i + 1].store, queue)) ==
            TotalJobs(StatsScript(run[i].store, queue))
            + if steps[i].Enqueue? && steps[i].job.queue == queue then 1 else 0
  {
    SettledTotalIsJobCount(c, run, steps, i, queue);
    SettledTotalIsJobCount(c, run, steps, i + 1, queue);
    RunInvs(c, run, steps, i);
    JobsInStep(c, run[i], run[i + 1], steps[i], queue);
  }

  lemma JobsInStep(c: JobSystem.Config, s: Sys, s': Sys, step: Step, queue: string)
    requires c.unit == SECOND && Inv(s) && JobSystem.Inv(c, Abs(s)) && Next(c, s, s', step) && !step.DeleteWrites?
    ensures |JobsIn(TableOf(s'.store), queue)| ==
            |JobsIn(TableOf(s.store), queue)| + if step.Enqueue? && step.job.queue == queue then 1 else 0
  {
    StepRefines(c, s, s', step);
    AtomicJobsIn(c, Abs(s), Abs(s'), AbsStep(s, step), queue);
    AddedToJobs(JobsIn(TableOf(s.store), queue), JobsIn(TableOf(s'.store), queue),
                if step.Enqueue? && step.job.queue == queue then {step.job.id} else {});
  }

  lemma AddedToJobs(before: set<string>, after: set<string>, added: set<string>)
    requires after == before + added && before !! added
    ensures |after| == |before| + |added|
  {
  }

  lemma AtomicJobsIn(c: JobSystem.Config, s: JobSystem.Sys, s': JobSystem.Sys, step: JobSystem.Step, queue: string)
    requires c.unit > 0 && JobSystem.Inv(c, s) && JobSystem.Next(c, s, s', step) && !step.Delete?
    ensures JobsIn(s'.table, queue) ==
            JobsIn(s.table, queue) + if step.Enqueue? && step.job.queue == queue then {step.job.id} else {}
    ensures step.Enqueue? ==> step.job.id !in JobsIn(s.table, queue)
  {
    if !step.Enqueue? {
      RowsKeepQueue(c, s, s', step);
    }
  }

  lemma RowsKeepQueue(c: JobSystem.Config, s: JobSystem.Sys, s': JobSystem.Sys, step: JobSystem.Step)
    requires c.unit > 0 && JobSystem.Next(c, s, s', step) && !step.Delete? && !step.Enqueue?
    ensures s'.table.Keys == s.table.Keys
    ensures forall id | id in s.table :: s'.table[id].queue == s.table[id].queue
  {
  }

  // ---------- Listing queues ----------

  /** ListQueues scans the sorted sets, and an empty one has no key. */
  function ListedQueues(s: Store): set<string> {
    set q | q in s.zsets && s.zsets[q] != map[]
  }

  /** Redis lists exactly the queues with a pending job; queues whose jobs are all running or
      done are not listed. */
  lemma ListedMeansPending(s: Store, queue: string)
    requires QueuesAgree(s)
    ensures queue in ListedQueues(s) <==> exists id :: IsPending(s, id) && s.hashes[id].job.queue == queue
  {
    if queue in ListedQueues(s) {
      var id :| id in ZSet(s, queue);
      assert QueueAgreesAt(s, queue, id);
    }
    if id :| IsPending(s, id) && s.hashes[id].job.queue == queue {
      assert QueueAgreesAt(s, queue, id);
      assert id in ZSet(s, queue);
    }
  }
}
