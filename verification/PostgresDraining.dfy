/** The Postgres backend with any number of workers winds down: no state is a dead end, every step
    of a worker uses up a bounded effort, and what is left at the end is done. */
module PostgresDraining {
  import opened Jobs
  import opened PostgresOrder
  import opened PostgresProtocol
  import JobSystem
  import JobRuns
  import D = JobDraining

  // ---------- Every running job has a worker ----------

  /** A worker gives up a job it has reserved. Rolling an open Reserve back is not that. */
  ghost predicate LosesOutcome(s: Sys, step: Step) {
    step.Stop? && step.w in s.pcs && !s.pcs[step.w].Selected?
  }

  /** A worker that is in its Nack got there because its try failed. */
  ghost predicate NackersFailed(c: JobSystem.Config, s: Sys) {
    forall w | w in s.pcs && s.pcs[w].NackLocked? :: D.FailedTry(c, s.pcs[w].cl)
  }

  ghost predicate Sound(c: JobSystem.Config, s: Sys)
    requires c.unit > 0
  {
    Inv(c, s) && JobSystem.Inv(c, Abs(s)) && D.RunningIsHeld(Abs(s)) && NackersFailed(c, s)
  }

  lemma NackersFailedStep(c: JobSystem.Config, s: Sys, s': Sys, step: Step)
    requires c.unit > 0 && NackersFailed(c, s) && Next(c, s, s', step)
    ensures NackersFailed(c, s')
  {
    forall w | w in s'.pcs && s'.pcs[w].NackLocked? ensures D.FailedTry(c, s'.pcs[w].cl) {
      if w in s.pcs && s'.pcs[w] == s.pcs[w] { assert D.FailedTry(c, s.pcs[w].cl); }
    }
  }

  lemma SoundStep(c: JobSystem.Config, s: Sys, s': Sys, step: Step)
    requires c.unit > 0 && Sound(c, s) && Next(c, s, s', step) && !LosesOutcome(s, step)
    ensures Sound(c, s')
  {
    StepRefines(c, s, s', step);
    NackersFailedStep(c, s, s', step);
    JobSystem.NextKeepsInv(c, Abs(s), Abs(s'), AbsStep(s, step));
    D.RunningStaysHeld(c, Abs(s), Abs(s'), AbsStep(s, step));
  }

  lemma {:induction false} RunIsSound(c: JobSystem.Config, run: seq<Sys>, steps: seq<Step>, i: nat)
    requires c.unit > 0 && IsRun(c, run, steps) && i < |run|
    requires forall m | 0 <= m < i :: !LosesOutcome(run[m], steps[m])
    ensures Sound(c, run[i])
  {
    if i == 0 {
      assert Abs(run[0]).held == map[];
    } else {
      RunIsSound(c, run, steps, i - 1);
      SoundStep(c, run[i - 1], run[i], steps[i - 1]);
    }
  }

  /** In runs in which no outcome gets lost every running job is in the hands of a worker. */
  lemma RunningHasHolder(c: JobSystem.Config, run: seq<Sys>, steps: seq<Step>, i: nat, id: string) returns (w: nat)
    requires c.unit > 0 && IsRun(c, run, steps) && i < |run|
    requires forall m | 0 <= m < i :: !LosesOutcome(run[m], steps[m])
    requires id in run[i].table && run[i].table[id].status == Running
    ensures w in run[i].pcs && !run[i].pcs[w].Selected? && IdOf(run[i].pcs[w]) == id
  {
    RunIsSound(c, run, steps, i);
    w := HolderOf(run[i], id);
  }

  lemma HolderOf(s: Sys, id: string) returns (w: nat)
    requires D.RunningIsHeld(Abs(s)) && id in s.table && s.table[id].status == Running
    ensures w in s.pcs && !s.pcs[w].Selected? && IdOf(s.pcs[w]) == id
  {
    assert D.HeldBySome(Abs(s), id);
    w :| w in Abs(s).held && Abs(s).held[w].id == id;
  }

  // ---------- A system at rest is done ----------

  /** When no worker is at work, no queue has an eligible row, and the clock has passed every
      scheduled instant, all jobs are done. */
  lemma RestMeansDone(c: JobSystem.Config, run: seq<Sys>, steps: seq<Step>, i: nat)
    requires c.unit > 0 && IsRun(c, run, steps) && i < |run|
    requires forall m | 0 <= m < i :: !LosesOutcome(run[m], steps[m])
    requires run[i].pcs == map[]
    requires forall queue :: EligibleIds(run[i].table, queue, Ticks(run[i].now, c.unit)) == {}
    requires forall id | id in run[i].table :: run[i].table[id].scheduledAt <= Ticks(run[i].now, c.unit)
    ensures D.AllDone(c, run[i].table)
  {
    RunIsSound(c, run, steps, i);
    assert Abs(run[i]).held == map[];
    D.AtRest(c, Abs(run[i]));
  }

  // ---------- Every step of a worker uses up effort ----------

  ghost function HoldersOf(pcs: map<nat, Pc>): set<nat> {
    set w | w in pcs && pcs[w].Holding?
  }

  ghost function NackersOf(pcs: map<nat, Pc>): set<nat> {
    set w | w in pcs && pcs[w].NackLocked?
  }

  /** Pending rows that no open Reserve has picked. */
  ghost function Unpicked(s: Sys): set<string> {
    set id | id in s.table && s.table[id].status == Pending && id !in Picked(s.pcs)
  }

  ghost function Picked(pcs: map<nat, Pc>): set<string> {
    set w | w in pcs && pcs[w].Selected? :: pcs[w].id
  }

  /** What is left to do: outcomes and claims, rows to pick, statements of Nack and Ack. */
  ghost function Effort(s: Sys): nat {
    4 * Work(s.table) + |Unpicked(s)| + 2 * |HoldersOf(s.pcs)| + |NackersOf(s.pcs)|
  }

  predicate Moves(step: Step) {
    step.Select? || step.CommitReserve? || step.Ack? || step.LockForNack? || step.CommitNack?
  }

  /** An open Reserve rolls back: its row can be picked again. */
  ghost predicate RollsBack(s: Sys, step: Step) {
    step.Stop? && step.w in s.pcs && s.pcs[step.w].Selected?
  }

  lemma WithoutPc(pcs: map<nat, Pc>, w: nat)
    requires w in pcs
    ensures |HoldersOf(pcs - {w})| == |HoldersOf(pcs)| - if pcs[w].Holding? then 1 else 0
    ensures |NackersOf(pcs - {w})| == |NackersOf(pcs)| - if pcs[w].NackLocked? then 1 else 0
  {
    assert HoldersOf(pcs - {w}) == HoldersOf(pcs) - {w};
    assert NackersOf(pcs - {w}) == NackersOf(pcs) - {w};
  }

  lemma WithPc(pcs: map<nat, Pc>, w: nat, pc: Pc)
    ensures |HoldersOf(pcs[w := pc])| == |HoldersOf(pcs - {w})| + if pc.Holding? then 1 else 0
    ensures |NackersOf(pcs[w := pc])| == |NackersOf(pcs - {w})| + if pc.NackLocked? then 1 else 0
  {
    AddTo(HoldersOf(pcs - {w}), HoldersOf(pcs[w := pc]), w, pc.Holding?);
    AddTo(NackersOf(pcs - {w}), NackersOf(pcs[w := pc]), w, pc.NackLocked?);
  }

  lemma AddTo(before: set<nat>, after: set<nat>, w: nat, added: bool)
    requires w !in before
    requires forall v :: v in after <==> v in before || (v == w && added)
    ensures |after| == |before| + if added then 1 else 0
  {
    assert after == if added then before + {w} else before;
  }

  /** How a step changes the number of statements left to workers that hold a job. */
  lemma StatementsLeft(c: JobSystem.Config, s: Sys, s': Sys, step: Step)
    requires c.unit > 0 && Inv(c, s) && Next(c, s, s', step)
    ensures 2 * |HoldersOf(s'.pcs)| + |NackersOf(s'.pcs)|
            + (if step.Ack? || step.LockForNack? || step.CommitNack? then 1 else 0)
            <= 2 * |HoldersOf(s.pcs)| + |NackersOf(s.pcs)| + (if step.CommitReserve? then 2 else 0)
  {
    match step
    case Select(w, _, _, _) =>
      assert s.pcs - {w} == s.pcs;
      WithPc(s.pcs, w, s'.pcs[w]);
    case CommitReserve(w, _) =>
      WithoutPc(s.pcs, w);
      WithPc(s.pcs, w, s'.pcs[w]);
    case Ack(w, _) => WithoutPc(s.pcs, w);
    case LockForNack(w) =>
      WithoutPc(s.pcs, w);
      if w in s'.pcs { WithPc(s.pcs, w, s'.pcs[w]); }
    case CommitNack(w, _) => WithoutPc(s.pcs, w);
    case Stop(w) => WithoutPc(s.pcs, w);
    case _ =>
  }

  lemma Fewer(before: set<string>, after: set<string>, id: string)
    requires after <= before && id in before && id !in after
    ensures |after| < |before|
  {
    Shrinks(before - {id}, after);
  }

  lemma Shrinks(before: set<string>, after: set<string>)
    requires after <= before
    ensures |after| <= |before|
  {
    assert before == after + (before - after);
  }

  /** How a step changes the number of rows to pick. */
  lemma RowsLeft(c: JobSystem.Config, s: Sys, s': Sys, step: Step)
    requires c.unit > 0 && Inv(c, s) && Next(c, s, s', step)
    requires !step.Enqueue? && !RollsBack(s, step)
    ensures |Unpicked(s')| + (if step.Select? then 1 else 0) <= |Unpicked(s)| + (if step.CommitNack? then 1 else 0)
  {
    if step.Select? {
      SelectPicks(c, s, s', step);
    } else if step.CommitReserve? {
      CommitPicksNone(c, s, s', step);
      Shrinks(Unpicked(s), Unpicked(s'));
    } else if step.CommitNack? {
      NackedIsUnpicked(c, s, s', step);
      Shrinks(Unpicked(s) + {s.pcs[step.w].cl.id}, Unpicked(s'));
    } else {
      PickedKept(c, s, s', step);
      Shrinks(Unpicked(s), Unpicked(s'));
    }
  }

  lemma PickedKept(c: JobSystem.Config, s: Sys, s': Sys, step: Step)
    requires c.unit > 0 && Next(c, s, s', step) && !RollsBack(s, step)
    requires !step.Select? && !step.CommitReserve?
    ensures Picked(s'.pcs) == Picked(s.pcs)
  {
    forall w | w in s.pcs && s.pcs[w].Selected? ensures w in s'.pcs && s'.pcs[w] == s.pcs[w] { }
  }

  lemma SelectPicks(c: JobSystem.Config, s: Sys, s': Sys, step: Step)
    requires c.unit > 0 && Inv(c, s) && Next(c, s, s', step) && step.Select?
    ensures |Unpicked(s')| < |Unpicked(s)|
  {
    var w, id := step.w, step.id;
    forall v | v in s.pcs && s.pcs[v].Selected? ensures s.pcs[v].id in Locked(s.pcs) {
      assert IdOf(s.pcs[v]) == s.pcs[v].id;
    }
    assert w in s'.pcs && s'.pcs[w].Selected? && s'.pcs[w].id == id;
    assert forall v | v in s.pcs :: v in s'.pcs && s'.pcs[v] == s.pcs[v];
    Fewer(Unpicked(s), Unpicked(s'), id);
  }

  lemma CommitPicksNone(c: JobSystem.Config, s: Sys, s': Sys, step: Step)
    requires c.unit > 0 && Inv(c, s) && Next(c, s, s', step) && step.CommitReserve?
    ensures Unpicked(s') <= Unpicked(s)
  {
    var w := step.w;
    assert s'.table[s.pcs[w].id].status == Running;
    forall v | v in s.pcs && v != w && s.pcs[v].Selected? ensures s.pcs[v].id in Picked(s'.pcs) {
      assert v in s'.pcs && s'.pcs[v] == s.pcs[v];
    }
  }

  lemma NackedIsUnpicked(c: JobSystem.Config, s: Sys, s': Sys, step: Step)
    requires c.unit > 0 && Inv(c, s) && Next(c, s, s', step) && step.CommitNack?
    ensures Unpicked(s') <= Unpicked(s) + {s.pcs[step.w].cl.id}
  {
    PickedKept(c, s, s', step);
  }

  lemma EffortShrinks(c: JobSystem.Config, s: Sys, s': Sys, step: Step)
    requires c.unit > 0 && Inv(c, s) && JobSystem.Inv(c, Abs(s)) && Next(c, s, s', step)
    requires !step.Enqueue? && !RollsBack(s, step)
    ensures Effort(s') + (if Moves(step) then 1 else 0) <= Effort(s)
  {
    StatementsLeft(c, s, s', step);
    RowsLeft(c, s, s', step);
    TableWork(c, s, s', step);
  }

  lemma TableWork(c: JobSystem.Config, s: Sys, s': Sys, step: Step)
    requires c.unit > 0 && Inv(c, s) && JobSystem.Inv(c, Abs(s)) && Next(c, s, s', step) && !step.Enqueue?
    ensures Work(s'.table) + (if step.CommitReserve? || step.CommitNack? then 1 else 0) <= Work(s.table)
  {
    StepRefines(c, s, s', step);
    JobRuns.WorkShrinks(c, Abs(s), Abs(s'), AbsStep(s, step));
  }

  ghost function Efforts(run: seq<Sys>): seq<nat> {
    seq(|run|, m requires 0 <= m < |run| => Effort(run[m]))
  }

  /** Which steps are statements or commits of workers. */
  function MoveFlags(steps: seq<Step>): seq<bool> {
    seq(|steps|, m requires 0 <= m < |steps| => Moves(steps[m]))
  }

  /** Without new jobs and rollbacks all workers together make a bounded number of steps. */
  lemma EffortBoundsRun(c: JobSystem.Config, run: seq<Sys>, steps: seq<Step>, i: nat, k: nat)
    requires c.unit > 0 && IsRun(c, run, steps) && i <= k < |run|
    requires forall m | i <= m < k :: !steps[m].Enqueue? && !RollsBack(run[m], steps[m])
    ensures Effort(run[k]) + D.CountSet(MoveFlags(steps), i, k) <= Effort(run[i])
  {
    var efforts, flags := Efforts(run), MoveFlags(steps);
    forall m | i <= m < k ensures efforts[m + 1] + (if flags[m] then 1 else 0) <= efforts[m] {
      EffortInRun(c, run, steps, m);
    }
    D.Descent(efforts, flags, i, k);
  }

  lemma EffortInRun(c: JobSystem.Config, run: seq<Sys>, steps: seq<Step>, m: nat)
    requires c.unit > 0 && IsRun(c, run, steps) && m < |steps|
    requires !steps[m].Enqueue? && !RollsBack(run[m], steps[m])
    ensures Effort(run[m + 1]) + (if Moves(steps[m]) then 1 else 0) <= Effort(run[m])
  {
    BothInvs(c, run, steps, m);
    EffortShrinks(c, run[m], run[m + 1], steps[m]);
  }

  lemma BothInvs(c: JobSystem.Config, run: seq<Sys>, steps: seq<Step>, i: nat)
    requires c.unit > 0 && IsRun(c, run, steps) && i < |run|
    ensures Inv(c, run[i]) && JobSystem.Inv(c, Abs(run[i]))
  {
    RunInv(c, run, steps, i);
    PostgresRefinesJobSystem(c, run, steps);
    JobSystem.RunInv(c, AbsRun(run), AbsSteps(run, steps), i);
  }

  // ---------- There is always something to do ----------

  /** Wherever a worker is in an operation, its next statement can be executed; no lock of
      another transaction is in its way. */
  lemma BusyCanMove(c: JobSystem.Config, s: Sys, w: nat) returns (s': Sys, step: Step)
    requires c.unit > 0 && Inv(c, s) && NackersFailed(c, s) && w in s.pcs
    ensures Next(c, s, s', step) && Moves(step) && !step.Select?
  {
    assert PcOk(c, s, s.pcs[w]);
    match s.pcs[w]
    case Selected(id, _, _) =>
      var j := s.table[id];
      step := CommitReserve(w, s.now);
      s' := s.(table := s.table[id := ReservedRow(j, Ticks(s.now, c.unit))],
               pcs := s.pcs[w := Holding(JobSystem.Claim(id, j.typ, j.attempts, s.now))],
               hist := s.hist[id := s.hist[id].(times := s.hist[id].times + [s.now])]);
    case Holding(cl) =>
      HeldIsUnlocked(c, s, w);
      if D.FailedTry(c, cl) {
        step := LockForNack(w);
        s' := s.(pcs := if cl.id in s.table
                        then s.pcs[w := NackLocked(cl, s.table[cl.id].attempts, s.table[cl.id].maxAttempts)]
                        else s.pcs - {w});
      } else {
        step := Ack(w, s.now);
        s' := s.(table := if cl.id in s.table
                          then s.table[cl.id := AckedRow(s.table[cl.id], Ticks(s.now, c.unit))] else s.table,
                 pcs := s.pcs - {w});
      }
    case NackLocked(cl, attempts, maxAttempts) =>
      step := CommitNack(w, s.now);
      var err := c.Try(cl.id, cl.typ, cl.attempts + 1).err;
      var t, retryAt := Ticks(s.now, c.unit), Ticks(s.now + c.Delay(cl.typ, cl.attempts + 1), c.unit);
      s' := s.(table := s.table[cl.id := NackWrite(s.table[cl.id], attempts, maxAttempts, err, t, retryAt)],
               pcs := s.pcs - {w});
  }

  lemma HeldIsUnlocked(c: JobSystem.Config, s: Sys, w: nat)
    requires c.unit > 0 && Inv(c, s) && w in s.pcs && s.pcs[w].Holding?
    ensures s.pcs[w].cl.id !in Locked(s.pcs)
  {
    forall v | v in s.pcs && Locks(s.pcs[v]) ensures IdOf(s.pcs[v]) != IdOf(s.pcs[w]) { }
  }

  lemma IdleCanSelect(c: JobSystem.Config, s: Sys, id: string, w: nat) returns (s1: Sys, s2: Sys, step: Step)
    requires c.unit > 0 && w !in s.pcs
    requires id in s.table && s.table[id].status == Pending && id !in Locked(s.pcs)
    ensures Next(c, s, s1, Tick(s1.now)) && Next(c, s1, s2, step)
    ensures step.Select? && step.w == w && step.queue == s.table[id].queue
  {
    var j := s.table[id];
    D.DueIsDue(s.now, j.scheduledAt, c.unit);
    s1 := s.(now := D.Due(s.now, j.scheduledAt, c.unit));
    var free := EligibleIds(s.table, j.queue, Ticks(s1.now, c.unit)) - Locked(s.pcs);
    assert id in free;
    var best := BestExists(s.table, free);
    step := Select(w, j.queue, best, s1.now);
    s2 := s1.(pcs := s.pcs[w := Selected(best, j.queue, s1.now)]);
  }

  /** While any job is undone, a worker can execute a statement once enough time has passed: one
      that is busy, or else any worker `w` that polls the job's queue. */
  lemma CanProgress(c: JobSystem.Config, s: Sys, id: string, w: nat) returns (s1: Sys, s2: Sys, step: Step)
    requires c.unit > 0 && Sound(c, s)
    requires id in s.table && !Terminal(s.table[id])
    ensures Next(c, s, s1, Tick(s1.now)) && Next(c, s1, s2, step) && Moves(step)
    ensures step.Select? ==> step.w == w && step.queue == s.table[id].queue
  {
    D.DoneUnlessUnderWay(c, Abs(s), id);
    if w !in s.pcs && s.table[id].status == Pending && id !in Locked(s.pcs) {
      s1, s2, step := IdleCanSelect(c, s, id, w);
    } else {
      var v := w;
      if w !in s.pcs {
        if s.table[id].status == Running {
          v := HolderOf(s, id);
        } else {
          v :| v in s.pcs && Locks(s.pcs[v]) && IdOf(s.pcs[v]) == id;
        }
      }
      s1 := s;
      s2, step := BusyCanMove(c, s, v);
    }
  }

  // ---------- Every run can be completed ----------

  ghost predicate IsPath(c: JobSystem.Config, states: seq<Sys>, moves: seq<Step>)
    requires c.unit > 0
  {
    && |states| == |moves| + 1
    && forall i | 0 <= i < |moves| :: Next(c, states[i], states[i + 1], moves[i])
  }

  /** Time passing, and statements of workers; every queue is polled by its own worker. */
  predicate Ordinary(poller: string -> nat, step: Step) {
    (step.Tick? || Moves(step)) && (step.Select? ==> step.w == poller(step.queue))
  }

  /** A continuation from `s`, with nothing but time and workers' own steps, after which all is
      done. */
  ghost predicate Finishes(c: JobSystem.Config, poller: string -> nat, s: Sys, states: seq<Sys>, moves: seq<Step>)
    requires c.unit > 0
  {
    && IsPath(c, states, moves) && states[0] == s
    && (forall i | 0 <= i < |moves| :: Ordinary(poller, moves[i]))
    && D.AllDone(c, states[|moves|].table)
  }

  lemma Prepend(c: JobSystem.Config, poller: string -> nat, s: Sys, s': Sys, step: Step, states: seq<Sys>,
          moves: seq<Step>)
    requires c.unit > 0 && Finishes(c, poller, s', states, moves)
    requires Next(c, s, s', step) && Ordinary(poller, step)
    ensures Finishes(c, poller, s, [s] + states, [step] + moves)
  {
    var all, steps := [s] + states, [step] + moves;
    forall i | 0 <= i < |steps|
      ensures Next(c, all[i], all[i + 1], steps[i]) && Ordinary(poller, steps[i])
    {
      if i > 0 { assert Next(c, states[i - 1], states[i], moves[i - 1]); }
    }
    assert all[|steps|] == states[|moves|];
  }

  /** Waiting and one statement, after which less effort is left. */
  lemma Round(c: JobSystem.Config, poller: string -> nat, s: Sys, id: string) returns (s1: Sys, s2: Sys, step: Step)
    requires c.unit > 0 && Sound(c, s) && id in s.table && !Terminal(s.table[id])
    ensures Next(c, s, s1, Tick(s1.now)) && Next(c, s1, s2, step) && Ordinary(poller, step)
    ensures Sound(c, s2) && Effort(s2) < Effort(s)
  {
    s1, s2, step := CanProgress(c, s, id, poller(s.table[id].queue));
    SoundStep(c, s, s1, Tick(s1.now));
    EffortShrinks(c, s, s1, Tick(s1.now));
    SoundStep(c, s1, s2, step);
    EffortShrinks(c, s1, s2, step);
  }

  lemma NothingUndone(c: JobSystem.Config, s: Sys)
    requires c.unit > 0 && Sound(c, s)
    requires forall id | id in s.table :: Terminal(s.table[id])
    ensures D.AllDone(c, s.table)
  {
    forall id | id in s.table ensures D.Done(c, id, s.table[id]) {
      D.DoneUnlessUnderWay(c, Abs(s), id);
    }
  }

  lemma {:induction false} CanFinishFrom(c: JobSystem.Config, poller: string -> nat, s: Sys)
      returns (states: seq<Sys>, moves: seq<Step>)
    requires c.unit > 0 && Sound(c, s)
    ensures Finishes(c, poller, s, states, moves)
    decreases Effort(s)
  {
    if forall id | id in s.table :: Terminal(s.table[id]) {
      states, moves := [s], [];
      NothingUndone(c, s);
    } else {
      var id :| id in s.table && !Terminal(s.table[id]);
      var s1, s2, step := Round(c, poller, s, id);
      states, moves := CanFinishFrom(c, poller, s2);
      Prepend(c, poller, s1, s2, step, states, moves);
      states, moves := [s1] + states, [step] + moves;
      Prepend(c, poller, s, s1, Tick(s1.now), states, moves);
      states, moves := [s] + states, [Tick(s1.now)] + moves;
    }
  }

  /** However far a run has come, and whatever transactions are open: as long as no outcome was
      lost, it can go on, with nothing but time and the workers' own steps, until every job is
      completed or dead as its outcomes dictate. */
  lemma RunCanFinish(c: JobSystem.Config, run: seq<Sys>, steps: seq<Step>, poller: string -> nat)
      returns (states: seq<Sys>, moves: seq<Step>)
    requires c.unit > 0 && IsRun(c, run, steps)
    requires forall m | 0 <= m < |steps| :: !LosesOutcome(run[m], steps[m])
    ensures Finishes(c, poller, run[|steps|], states, moves)
  {
    RunIsSound(c, run, steps, |steps|);
    states, moves := CanFinishFrom(c, poller, run[|steps|]);
  }
}
