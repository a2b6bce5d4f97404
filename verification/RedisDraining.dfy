/** The Redis backend with any number of workers winds down: no state is a dead end, every step of
    a worker uses up a bounded effort, and what is left at the end is done. */
module RedisDraining {
  import opened Jobs
  import opened RedisStore
  import opened RedisIndexes
  import opened RedisProtocol
  import JobSystem
  import JobRuns
  import D = JobDraining

  // ---------- Every running job has a worker ----------

  /** A worker gives up before its outcome is stored. Losing the second trip of Ack is not that. */
  ghost predicate LosesOutcome(s: Sys, step: Step) {
    step.Abandon? && step.w in s.pcs && !s.pcs[step.w].AckHalfDone?
  }

  ghost predicate Sound(c: JobSystem.Config, s: Sys)
    requires c.unit > 0
  {
    Inv(s) && JobSystem.Inv(c, Abs(s)) && D.RunningIsHeld(Abs(s))
  }

  lemma SoundStep(c: JobSystem.Config, s: Sys, s': Sys, step: Step)
    requires c.unit == SECOND && Sound(c, s) && Next(c, s, s', step) && !LosesOutcome(s, step)
    ensures Sound(c, s')
  {
    StepRefines(c, s, s', step);
    JobSystem.NextKeepsInv(c, Abs(s), Abs(s'), AbsStep(s, step));
    D.RunningStaysHeld(c, Abs(s), Abs(s'), AbsStep(s, step));
  }

  lemma {:induction false} RunIsSound(c: JobSystem.Config, run: seq<Sys>, steps: seq<Step>, i: nat)
    requires c.unit == SECOND && IsRun(c, run, steps) && i < |run|
    requires forall m | 0 <= m < i :: !LosesOutcome(run[m], steps[m])
    ensures Sound(c, run[i])
  {
    if i == 0 {
      RunInvs(c, run, steps, 0);
      assert TableOf(run[0].store) == map[];
    } else {
      RunIsSound(c, run, steps, i - 1);
      SoundStep(c, run[i - 1], run[i], steps[i - 1]);
    }
  }

  /** In runs in which no outcome gets lost every running job is in the hands of a worker. */
  lemma RunningHasHolder(c: JobSystem.Config, run: seq<Sys>, steps: seq<Step>, i: nat, id: string) returns (w: nat)
    requires c.unit == SECOND && IsRun(c, run, steps) && i < |run|
    requires forall m | 0 <= m < i :: !LosesOutcome(run[m], steps[m])
    requires IsFull(run[i].store, id) && run[i].store.hashes[id].job.status == Running
    ensures w in run[i].pcs && !run[i].pcs[w].AckHalfDone? && IdOf(run[i].pcs[w]) == id
  {
    RunIsSound(c, run, steps, i);
    w := HolderOf(run[i], id);
  }

  lemma HolderOf(s: Sys, id: string) returns (w: nat)
    requires D.RunningIsHeld(Abs(s)) && IsFull(s.store, id) && s.store.hashes[id].job.status == Running
    ensures w in s.pcs && !s.pcs[w].AckHalfDone? && IdOf(s.pcs[w]) == id
  {
    assert id in Abs(s).table && D.HeldBySome(Abs(s), id);
    w :| w in Abs(s).held && Abs(s).held[w].id == id;
  }

  // ---------- A system at rest is done ----------

  /** When no worker holds a job, Reserve comes back empty on every queue, and the clock has
      passed every scheduled instant, all jobs are done. */
  lemma RestMeansDone(c: JobSystem.Config, run: seq<Sys>, steps: seq<Step>, i: nat)
    requires c.unit == SECOND && IsRun(c, run, steps) && i < |run|
    requires forall m | 0 <= m < i :: !LosesOutcome(run[m], steps[m])
    requires forall w | w in run[i].pcs :: run[i].pcs[w].AckHalfDone?
    requires forall queue :: ReserveScript(run[i].store, queue, Ticks(run[i].now, SECOND)).1.None?
    requires forall id | IsFull(run[i].store, id) ::
               run[i].store.hashes[id].job.scheduledAt <= Ticks(run[i].now, SECOND)
    ensures D.AllDone(c, TableOf(run[i].store))
  {
    RunIsSound(c, run, steps, i);
    forall queue ensures EligibleIds(TableOf(run[i].store), queue, Ticks(run[i].now, SECOND)) == {} {
      ReserveRefines(run[i].store, queue, Ticks(run[i].now, SECOND), {});
    }
    assert Abs(run[i]).held == map[];
    D.AtRest(c, Abs(run[i]));
  }

  // ---------- Every step of a worker uses up effort ----------

  ghost function Holders(pcs: map<nat, Pc>): set<nat> {
    set w | w in pcs && pcs[w].Holding?
  }

  /** An operation in progress has at most two round trips to go; each claim and each outcome
      still outstanding is worth three. */
  ghost function Effort(s: Sys): nat {
    3 * Work(TableOf(s.store)) + |s.pcs| + |Holders(s.pcs)|
  }

  /** A round trip of a worker, other than polling an empty queue. */
  ghost predicate Moves(s: Sys, step: Step) {
    match step
    case Reserve(_, queue, at) => ReserveScript(s.store, queue, Ticks(at, SECOND)).1.Some?
    case AckFirstTrip(_, _) => true
    case AckSecondTrip(_) => true
    case NackReads(_) => true
    case NackWrites(_, _) => true
    case Abandon(_) => true
    case _ => false
  }

  lemma WithoutPc(pcs: map<nat, Pc>, w: nat)
    requires w in pcs
    ensures |pcs - {w}| == |pcs| - 1
    ensures |Holders(pcs - {w})| == |Holders(pcs)| - if pcs[w].Holding? then 1 else 0
  {
    assert (pcs - {w}).Keys == pcs.Keys - {w};
    assert Holders(pcs - {w}) == Holders(pcs) - {w};
  }

  lemma WithPc(pcs: map<nat, Pc>, w: nat, pc: Pc)
    ensures |pcs[w := pc]| == |pcs| + if w in pcs then 0 else 1
    ensures |Holders(pcs[w := pc])| == |Holders(pcs)| - (if w in Holders(pcs) then 1 else 0)
                                       + if pc.Holding? then 1 else 0
  {
    assert pcs[w := pc].Keys == pcs.Keys + {w};
    assert w !in pcs ==> |pcs.Keys + {w}| == |pcs.Keys| + 1;
    assert w in pcs ==> pcs.Keys + {w} == pcs.Keys;
    HoldersWith(pcs, w, pc);
  }

  lemma HoldersWith(pcs: map<nat, Pc>, w: nat, pc: Pc)
    ensures |Holders(pcs[w := pc])| == |Holders(pcs)| - (if w in Holders(pcs) then 1 else 0)
                                       + if pc.Holding? then 1 else 0
  {
    var with, others := Holders(pcs[w := pc]), Holders(pcs) - {w};
    forall v ensures v in with <==> (v == w && pc.Holding?) || v in others { }
    if pc.Holding? {
      assert with == others + {w};
    } else {
      assert with == others;
    }
  }

  lemma TableWork(c: JobSystem.Config, s: Sys, s': Sys, step: Step)
    requires c.unit == SECOND && Inv(s) && JobSystem.Inv(c, Abs(s)) && Next(c, s, s', step) && !step.Enqueue?
    ensures Work(TableOf(s'.store)) + (if JobRuns.Productive(Abs(s), AbsStep(s, step)) then 1 else 0)
            <= Work(TableOf(s.store))
  {
    StepRefines(c, s, s', step);
    JobRuns.WorkShrinks(c, Abs(s), Abs(s'), AbsStep(s, step));
  }

  /** How a step changes what is left of the operations in progress. */
  lemma TripsLeft(c: JobSystem.Config, s: Sys, s': Sys, step: Step)
    requires Inv(s) && Next(c, s, s', step) && !step.Enqueue?
    ensures |s'.pcs| + |Holders(s'.pcs)| + (if Moves(s, step) then 1 else 0)
            <= |s.pcs| + |Holders(s.pcs)| + (if step.Reserve? && Moves(s, step) then 3 else 0)
  {
    match step
    case Reserve(w, queue, at) => ClaimTrips(s, s', w, queue, at);
    case AckFirstTrip(w, _) => OneTripLess(s.pcs, s'.pcs, w);
    case NackReads(w) => OneTripLess(s.pcs, s'.pcs, w);
    case AckSecondTrip(w) => OneTripLess(s.pcs, s'.pcs, w);
    case NackWrites(w, _) => OneTripLess(s.pcs, s'.pcs, w);
    case Abandon(w) => OneTripLess(s.pcs, s'.pcs, w);
    case _ =>
  }

  lemma ClaimTrips(s: Sys, s': Sys, w: nat, queue: string, at: int)
    requires ReserveStep(s, s', w, queue, at)
    ensures |s'.pcs| + |Holders(s'.pcs)| ==
            |s.pcs| + |Holders(s.pcs)| + if Moves(s, Reserve(w, queue, at)) then 2 else 0
  {
    if Moves(s, Reserve(w, queue, at)) { WithPc(s.pcs, w, s'.pcs[w]); }
  }

  /** A worker ends its operation, or moves from holding its job into one. */
  lemma OneTripLess(pcs: map<nat, Pc>, pcs': map<nat, Pc>, w: nat)
    requires w in pcs
    requires pcs' == pcs - {w}
             || (pcs[w].Holding? && w in pcs' && pcs' == pcs[w := pcs'[w]] && !pcs'[w].Holding?)
    ensures |pcs'| + |Holders(pcs')| < |pcs| + |Holders(pcs)|
  {
    if w in pcs' { WithPc(pcs, w, pcs'[w]); } else { WithoutPc(pcs, w); }
  }

  lemma EffortShrinks(c: JobSystem.Config, s: Sys, s': Sys, step: Step)
    requires c.unit == SECOND && Inv(s) && JobSystem.Inv(c, Abs(s)) && Next(c, s, s', step) && !step.Enqueue?
    ensures Effort(s') + (if Moves(s, step) then 1 else 0) <= Effort(s)
  {
    TripsLeft(c, s, s', step);
    TableWork(c, s, s', step);
  }

  ghost function Efforts(run: seq<Sys>): seq<nat> {
    seq(|run|, m requires 0 <= m < |run| => Effort(run[m]))
  }

  /** Which steps are round trips of workers that do not poll in vain. */
  ghost function MoveFlags(run: seq<Sys>, steps: seq<Step>): seq<bool>
    requires |run| == |steps| + 1
  {
    seq(|steps|, m requires 0 <= m < |steps| => Moves(run[m], steps[m]))
  }

  /** Without new jobs all workers together make a bounded number of round trips, but for those
      that poll in vain. */
  lemma EffortBoundsRun(c: JobSystem.Config, run: seq<Sys>, steps: seq<Step>, i: nat, k: nat)
    requires c.unit == SECOND && IsRun(c, run, steps) && i <= k < |run|
    requires forall m | i <= m < k :: !steps[m].Enqueue?
    ensures Effort(run[k]) + D.CountSet(MoveFlags(run, steps), i, k) <= Effort(run[i])
  {
    var efforts, flags := Efforts(run), MoveFlags(run, steps);
    forall m | i <= m < k ensures efforts[m + 1] + (if flags[m] then 1 else 0) <= efforts[m] {
      EffortInRun(c, run, steps, m);
    }
    D.Descent(efforts, flags, i, k);
  }

  lemma EffortInRun(c: JobSystem.Config, run: seq<Sys>, steps: seq<Step>, m: nat)
    requires c.unit == SECOND && IsRun(c, run, steps) && m < |steps| && !steps[m].Enqueue?
    ensures Effort(run[m + 1]) + (if Moves(run[m], steps[m]) then 1 else 0) <= Effort(run[m])
  {
    RunInvs(c, run, steps, m);
    EffortShrinks(c, run[m], run[m + 1], steps[m]);
  }

  // ---------- There is always something to do ----------

  /** Wherever a worker is in an operation, it can take the next round trip. */
  lemma BusyCanMove(c: JobSystem.Config, s: Sys, w: nat) returns (s': Sys, step: Step)
    requires c.unit == SECOND && w in s.pcs
    requires !s.pcs[w].AckHalfDone? ==> s.pcs[w].cl.since <= s.now
    requires s.pcs[w].NackHasRead? ==> D.FailedTry(c, s.pcs[w].cl)
    ensures Next(c, s, s', step) && Moves(s, step) && !step.Abandon? && !step.Reserve?
  {
    match s.pcs[w]
    case Holding(cl) =>
      if D.FailedTry(c, cl) {
        step := NackReads(w);
        var read := ReadForNack(s.store, cl.id);
        s' := s.(pcs := if read.Some? then s.pcs[w := NackHasRead(cl, read.value)] else s.pcs - {w});
      } else {
        step := AckFirstTrip(w, s.now);
        var (store', queue) := AckFirst(s.store, cl.id, Ticks(s.now, SECOND));
        s' := s.(store := store',
                 pcs := if queue.Some? then s.pcs[w := AckHalfDone(cl.id, queue.value)] else s.pcs - {w});
      }
    case NackHasRead(cl, read) =>
      step := NackWrites(w, s.now);
      var retryAt := Ticks(s.now + c.Delay(cl.typ, cl.attempts + 1), SECOND);
      var err := c.Try(cl.id, cl.typ, cl.attempts + 1).err;
      s' := s.(store := NackScript(s.store, cl.id, read, err, Ticks(s.now, SECOND), retryAt), pcs := s.pcs - {w});
    case AckHalfDone(id, queue) =>
      step := AckSecondTrip(w);
      s' := s.(store := AckSecond(s.store, queue, id), pcs := s.pcs - {w});
  }

  /** A worker between the trips of Nack got there because its try failed. */
  ghost predicate NackersFailed(c: JobSystem.Config, s: Sys) {
    forall w | w in s.pcs && s.pcs[w].NackHasRead? :: D.FailedTry(c, s.pcs[w].cl)
  }

  lemma NackersFailedStep(c: JobSystem.Config, s: Sys, s': Sys, step: Step)
    requires NackersFailed(c, s) && Next(c, s, s', step)
    ensures NackersFailed(c, s')
  {
    forall w | w in s'.pcs && s'.pcs[w].NackHasRead? ensures D.FailedTry(c, s'.pcs[w].cl) {
      if w in s.pcs && s'.pcs[w] == s.pcs[w] { assert D.FailedTry(c, s.pcs[w].cl); }
    }
  }

  lemma IdleCanClaim(c: JobSystem.Config, s: Sys, id: string, w: nat) returns (s1: Sys, s2: Sys, step: Step)
    requires c.unit == SECOND && Sound(c, s) && IsPending(s.store, id) && w !in s.pcs
    ensures Next(c, s, s1, Tick(s1.now)) && Next(c, s1, s2, step) && Moves(s1, step) && !step.Abandon?
    ensures step == Reserve(w, s.store.hashes[id].job.queue, s1.now)
  {
    var j := s.store.hashes[id].job;
    D.DueIsDue(s.now, j.scheduledAt, SECOND);
    s1 := s.(now := D.Due(s.now, j.scheduledAt, SECOND));
    assert id in EligibleIds(TableOf(s.store), j.queue, Ticks(s1.now, SECOND));
    ReserveRefines(s.store, j.queue, Ticks(s1.now, SECOND), {});
    step := Reserve(w, j.queue, s1.now);
    var (store', r) := ReserveScript(s.store, j.queue, Ticks(s1.now, SECOND));
    var k := r.value;
    assert k.id in Abs(s).table;
    s2 := s1.(store := store',
              pcs := s.pcs[w := Holding(JobSystem.Claim(k.id, k.typ, k.attempts, s1.now))],
              hist := s.hist[k.id := s.hist[k.id].(times := s.hist[k.id].times + [s1.now])]);
  }

  /** While any job is undone, a worker can take a round trip once enough time has passed: one
      that is busy, or else any worker `w` that polls the job's queue. */
  lemma CanProgress(c: JobSystem.Config, s: Sys, id: string, w: nat) returns (s1: Sys, s2: Sys, step: Step)
    requires c.unit == SECOND && Sound(c, s) && NackersFailed(c, s)
    requires IsFull(s.store, id) && !Terminal(s.store.hashes[id].job)
    ensures Next(c, s, s1, Tick(s1.now)) && Next(c, s1, s2, step) && Moves(s1, step) && !step.Abandon?
    ensures step.Reserve? ==> step.w == w && step.queue == s.store.hashes[id].job.queue
  {
    D.DoneUnlessUnderWay(c, Abs(s), id);
    if w !in s.pcs && IsPending(s.store, id) {
      s1, s2, step := IdleCanClaim(c, s, id, w);
    } else {
      var v := w;
      if w !in s.pcs { v := HolderOf(s, id); }
      assert !s.pcs[v].AckHalfDone? ==> v in Abs(s).held;
      s1 := s;
      s2, step := BusyCanMove(c, s, v);
    }
  }

  // ---------- Every run can be completed ----------

  ghost predicate IsPath(c: JobSystem.Config, states: seq<Sys>, moves: seq<Step>) {
    && |states| == |moves| + 1
    && forall i | 0 <= i < |moves| :: Next(c, states[i], states[i + 1], moves[i])
  }

  /** Time passing, and round trips of workers that lose nothing; every queue is polled by its
      own worker. */
  predicate Ordinary(poller: string -> nat, step: Step) {
    && !step.Enqueue? && !step.Abandon? && !step.DeleteReads? && !step.DeleteWrites?
    && (step.Reserve? ==> step.w == poller(step.queue))
  }

  /** A continuation from `s`, without new jobs, deletes or losses, after which all is done. */
  ghost predicate Finishes(c: JobSystem.Config, poller: string -> nat, s: Sys, states: seq<Sys>, moves: seq<Step>) {
    && IsPath(c, states, moves) && states[0] == s
    && (forall i | 0 <= i < |moves| :: Ordinary(poller, moves[i]))
    && D.AllDone(c, TableOf(states[|moves|].store))
  }

  lemma Prepend(c: JobSystem.Config, poller: string -> nat, s: Sys, s': Sys, step: Step, states: seq<Sys>,
          moves: seq<Step>)
    requires Finishes(c, poller, s', states, moves) && Next(c, s, s', step) && Ordinary(poller, step)
    ensures Finishes(c, poller, s, [s] + states, [step] + moves)
  {
    var all, steps := [s] + states, [step] + moves;
    forall i | 0 <= i < |steps| ensures Next(c, all[i], all[i + 1], steps[i]) && Ordinary(poller, steps[i]) {
      if i > 0 { assert Next(c, states[i - 1], states[i], moves[i - 1]) && Ordinary(poller, moves[i - 1]); }
    }
    assert all[|steps|] == states[|moves|];
  }

  /** Waiting and one round trip, after which less effort is left. */
  lemma Round(c: JobSystem.Config, poller: string -> nat, s: Sys, id: string) returns (s1: Sys, s2: Sys, step: Step)
    requires c.unit == SECOND && Sound(c, s) && NackersFailed(c, s)
    requires IsFull(s.store, id) && !Terminal(s.store.hashes[id].job)
    ensures Next(c, s, s1, Tick(s1.now)) && Next(c, s1, s2, step) && Ordinary(poller, step)
    ensures Sound(c, s2) && NackersFailed(c, s2) && Effort(s2) < Effort(s)
  {
    s1, s2, step := CanProgress(c, s, id, poller(s.store.hashes[id].job.queue));
    SoundStep(c, s, s1, Tick(s1.now));
    EffortShrinks(c, s, s1, Tick(s1.now));
    NackersFailedStep(c, s, s1, Tick(s1.now));
    SoundStep(c, s1, s2, step);
    EffortShrinks(c, s1, s2, step);
    NackersFailedStep(c, s1, s2, step);
  }

  lemma NothingUndone(c: JobSystem.Config, s: Sys)
    requires c.unit == SECOND && Sound(c, s)
    requires forall id | IsFull(s.store, id) :: Terminal(s.store.hashes[id].job)
    ensures D.AllDone(c, TableOf(s.store))
  {
    forall id | id in TableOf(s.store) ensures D.Done(c, id, TableOf(s.store)[id]) {
      D.DoneUnlessUnderWay(c, Abs(s), id);
    }
  }

  lemma {:induction false} CanFinishFrom(c: JobSystem.Config, poller: string -> nat, s: Sys)
      returns (states: seq<Sys>, moves: seq<Step>)
    requires c.unit == SECOND && Sound(c, s) && NackersFailed(c, s)
    ensures Finishes(c, poller, s, states, moves)
    decreases Effort(s)
  {
    if forall id | IsFull(s.store, id) :: Terminal(s.store.hashes[id].job) {
      states, moves := [s], [];
      NothingUndone(c, s);
    } else {
      var id :| IsFull(s.store, id) && !Terminal(s.store.hashes[id].job);
      var s1, s2, step := Round(c, poller, s, id);
      states, moves := CanFinishFrom(c, poller, s2);
      states, moves := PrependRound(c, poller, s, s1, s2, step, states, moves);
    }
  }

  lemma PrependRound(c: JobSystem.Config, poller: string -> nat, s: Sys, s1: Sys, s2: Sys, step: Step,
          rest: seq<Sys>, steps: seq<Step>)
      returns (states: seq<Sys>, moves: seq<Step>)
    requires Next(c, s, s1, Tick(s1.now)) && Next(c, s1, s2, step) && Ordinary(poller, step)
    requires Finishes(c, poller, s2, rest, steps)
    ensures Finishes(c, poller, s, states, moves)
  {
    Prepend(c, poller, s1, s2, step, rest, steps);
    states, moves := [s1] + rest, [step] + steps;
    Prepend(c, poller, s, s1, Tick(s1.now), states, moves);
    states, moves := [s] + states, [Tick(s1.now)] + moves;
  }

  /** However far a run has come, and wherever its workers are in their operations: as long as
      no outcome was lost, it can go on, with nothing but time and the workers' own steps, until
      every job is completed or dead as its outcomes dictate. */
  lemma RunCanFinish(c: JobSystem.Config, run: seq<Sys>, steps: seq<Step>, poller: string -> nat)
      returns (states: seq<Sys>, moves: seq<Step>)
    requires c.unit == SECOND && IsRun(c, run, steps)
    requires forall m | 0 <= m < |steps| :: !LosesOutcome(run[m], steps[m])
    ensures Finishes(c, poller, run[|steps|], states, moves)
  {
    RunIsSound(c, run, steps, |steps|);
    RunNackersFailed(c, run, steps, |steps|);
    states, moves := CanFinishFrom(c, poller, run[|steps|]);
  }

  lemma {:induction false} RunNackersFailed(c: JobSystem.Config, run: seq<Sys>, steps: seq<Step>, i: nat)
    requires IsRun(c, run, steps) && i < |run|
    ensures NackersFailed(c, run[i])
  {
    if i > 0 {
      RunNackersFailed(c, run, steps, i - 1);
      NackersFailedStep(c, run[i - 1], run[i], steps[i - 1]);
    }
  }
}
