/** Why the system cannot come to rest with work undone: as long as outcomes are delivered, every
    running job has a worker, and there is always something some worker can do next. */
module JobDraining {
  import opened Jobs
  import opened JobSystem
  import JobRuns

  // ---------- Every running job has a worker ----------

  ghost predicate HeldBySome(s: Sys, id: string) {
    exists w :: w in s.held && s.held[w].id == id
  }

  ghost predicate RunningIsHeld(s: Sys) {
    forall id | id in s.table && s.table[id].status == Running :: HeldBySome(s, id)
  }

  lemma RunningStaysHeld(c: Config, s: Sys, s': Sys, step: Step)
    requires c.unit > 0 && Next(c, s, s', step) && !step.Abandon?
    requires RunningIsHeld(s)
    ensures RunningIsHeld(s')
  {
    forall id | id in s'.table && s'.table[id].status == Running
      ensures HeldBySome(s', id)
    {
      if id in s.table && s.table[id].status == Running {
        var v :| v in s.held && s.held[v].id == id;
        assert v in s'.held && s'.held[v].id == id;
      } else if step.Reserve? {
        assert step.w in s'.held && s'.held[step.w].id == id;
      }
    }
  }

  /** In runs in which no outcome gets lost every running job is held by some worker. */
  lemma {:induction false} RunningHasHolder(c: Config, run: seq<Sys>, steps: seq<Step>, i: nat)
    requires c.unit > 0 && IsRun(c, run, steps) && i < |run|
    requires forall m | 0 <= m < i :: !steps[m].Abandon?
    ensures RunningIsHeld(run[i])
  {
    if i > 0 {
      RunningHasHolder(c, run, steps, i - 1);
      RunningStaysHeld(c, run[i - 1], run[i], steps[i - 1]);
    }
  }

  // ---------- A system at rest is done ----------

  /** Every job is completed or dead, as its handler's outcomes dictate. */
  ghost predicate AllDone(c: Config, table: Table) {
    forall id | id in table :: Done(c, id, table[id])
  }

  ghost predicate Done(c: Config, id: string, j: Job) {
    Terminal(j) && (j.status, j.attempts, j.lastError) == JobRuns.Verdict(c, id, j.typ, j.maxAttempts)
  }

  lemma DoneUnlessUnderWay(c: Config, s: Sys, id: string)
    requires c.unit > 0 && Inv(c, s) && id in s.table
    ensures s.table[id].status in {Pending, Running} || Done(c, id, s.table[id])
  {
    assert JobInv(c, id, s.table[id], s.hist[id]);
    if s.table[id].status !in {Pending, Running} {
      JobRuns.ProgressDecides(c, s.table[id]);
    }
  }

  lemma AtRest(c: Config, s: Sys)
    requires c.unit > 0 && Inv(c, s) && RunningIsHeld(s) && s.held == map[]
    requires forall queue :: EligibleIds(s.table, queue, Ticks(s.now, c.unit)) == {}
    requires forall id | id in s.table :: s.table[id].scheduledAt <= Ticks(s.now, c.unit)
    ensures AllDone(c, s.table)
  {
    forall id | id in s.table ensures Done(c, id, s.table[id]) {
      DoneUnlessUnderWay(c, s, id);
      assert id !in EligibleIds(s.table, s.table[id].queue, Ticks(s.now, c.unit));
      assert s.table[id].status == Running ==> HeldBySome(s, id);
    }
  }

  /** When no worker holds a job, no queue has an eligible one, and the clock has passed every
      scheduled instant, all jobs are done. */
  lemma RestMeansDone(c: Config, run: seq<Sys>, steps: seq<Step>, i: nat)
    requires c.unit > 0 && IsRun(c, run, steps) && i < |run|
    requires forall m | 0 <= m < i :: !steps[m].Abandon?
    requires run[i].held == map[]
    requires forall queue :: EligibleIds(run[i].table, queue, Ticks(run[i].now, c.unit)) == {}
    requires forall id | id in run[i].table :: run[i].table[id].scheduledAt <= Ticks(run[i].now, c.unit)
    ensures AllDone(c, run[i].table)
  {
    RunInv(c, run, steps, i);
    RunningHasHolder(c, run, steps, i);
    AtRest(c, run[i]);
  }

  // ---------- There is always something to do ----------

  /** The earliest moment, from `now` on, at which a column shows `t` or more. */
  function Due(now: int, t: int, unit: int): int {
    if unit * t > now then unit * t else now
  }

  lemma DueIsDue(now: int, t: int, unit: int)
    requires unit > 0
    ensures now <= Due(now, t, unit) && t <= Ticks(Due(now, t, unit), unit)
  {
    TicksMonotone(unit * t, Due(now, t, unit), unit);
    JobRuns.QuotientUnique(unit * t, unit, t, 0);
  }

  /** The handler of the try a claim is for failed, or there is none. */
  ghost predicate FailedTry(c: Config, cl: Claim) {
    c.Try(cl.id, cl.typ, cl.attempts + 1).Failure?
  }

  /** A worker that holds a job can always deliver its outcome. */
  lemma HolderCanFinish(c: Config, s: Sys, w: nat) returns (s': Sys, step: Step)
    requires c.unit > 0 && w in s.held && s.held[w].since <= s.now
    ensures Next(c, s, s', step) && step in {Ack(w, s.now), Nack(w, s.now)}
  {
    var cl := s.held[w];
    if !FailedTry(c, cl) {
      step := Ack(w, s.now);
      s' := s.(table := if cl.id in s.table
                        then s.table[cl.id := AckedRow(s.table[cl.id], Ticks(s.now, c.unit))] else s.table,
               held := s.held - {w});
    } else {
      step := Nack(w, s.now);
      s' := s.(table := if cl.id in s.table
                        then s.table[cl.id := NackedBy(c, cl, s.table[cl.id], s.now)] else s.table,
               held := s.held - {w});
    }
  }

  lemma IdleCanClaim(c: Config, s: Sys, id: string, w: nat) returns (s1: Sys, s2: Sys, step: Step)
    requires c.unit > 0 && Inv(c, s) && id in s.table && s.table[id].status == Pending && w !in s.held
    ensures Next(c, s, s1, Tick(s1.now)) && Next(c, s1, s2, step)
    ensures step == Reserve(w, s.table[id].queue, id, s1.now, s1.now)
  {
    var j := s.table[id];
    DueIsDue(s.now, j.scheduledAt, c.unit);
    s1 := s.(now := Due(s.now, j.scheduledAt, c.unit));
    s2 := s1.(table := s.table[id := ReservedRow(j, Ticks(s1.now, c.unit))],
              held := s.held[w := Claim(id, j.typ, j.attempts, s1.now)],
              hist := s.hist[id := s.hist[id].(times := s.hist[id].times + [s1.now])]);
    step := Reserve(w, j.queue, id, s1.now, s1.now);
  }

  /** A worker lets go of a job that has been deleted. */
  ghost predicate LetsGo(s: Sys, step: Step, w: nat) {
    w in s.held && s.held[w].id !in s.table && step in {Ack(w, s.now), Nack(w, s.now)}
  }

  /** While any job is undone, a productive step is possible once enough time has passed: its
      holder finishes it, or any worker `w` that is idle claims it. A worker that is busy can
      finish its own job, and at worst lets go of one that has been deleted. */
  lemma CanProgress(c: Config, s: Sys, id: string, w: nat) returns (s1: Sys, s2: Sys, step: Step)
    requires c.unit > 0 && Inv(c, s) && RunningIsHeld(s)
    requires id in s.table && !Terminal(s.table[id])
    ensures Next(c, s, s1, Tick(s1.now)) && Next(c, s1, s2, step)
    ensures JobRuns.Productive(s1, step) || LetsGo(s1, step, w)
    ensures w !in s.held ==> JobRuns.Productive(s1, step)
  {
    DoneUnlessUnderWay(c, s, id);
    if s.table[id].status == Running {
      var v :| v in s.held && s.held[v].id == id;
      s1 := s;
      s2, step := HolderCanFinish(c, s, v);
    } else if w !in s.held {
      s1, s2, step := IdleCanClaim(c, s, id, w);
    } else {
      s1 := s;
      s2, step := HolderCanFinish(c, s, w);
    }
  }

  // ---------- Bounded effort ----------

  /** How many of the flags from `i` up to `k` are set. */
  function CountSet(flags: seq<bool>, i: nat, k: nat): nat
    requires i <= k <= |flags|
  {
    if i == k then 0 else CountSet(flags, i, k - 1) + if flags[k - 1] then 1 else 0
  }

  /** What shrinks on every flagged step, and never grows, bounds the number of such steps. */
  lemma {:induction false} Descent(efforts: seq<nat>, flags: seq<bool>, i: nat, k: nat)
    requires |efforts| == |flags| + 1 && i <= k <= |flags|
    requires forall m | i <= m < k :: efforts[m + 1] + (if flags[m] then 1 else 0) <= efforts[m]
    ensures efforts[k] + CountSet(flags, i, k) <= efforts[i]
  {
    if i < k {
      Descent(efforts, flags, i, k - 1);
    }
  }

  /** What never grows comes to rest. */
  ghost predicate RestsFrom(f: nat -> nat, n: nat) {
    forall i | i >= n :: f(i) == f(n)
  }

  lemma {:induction false} Descends(f: nat -> nat, i: nat, k: nat)
    requires i <= k && forall m | i <= m < k :: f(m + 1) <= f(m)
    ensures f(k) <= f(i)
    decreases k
  {
    if i < k { Descends(f, i, k - 1); }
  }

  lemma {:induction false} ComesToRest(f: nat -> nat, from: nat) returns (n: nat)
    requires forall m | m >= from :: f(m + 1) <= f(m)
    ensures n >= from && RestsFrom(f, n)
    decreases f(from)
  {
    if RestsFrom(f, from) {
      n := from;
    } else {
      var i :| i >= from && f(i) != f(from);
      Descends(f, from, i);
      n := ComesToRest(f, i);
    }
  }

  lemma {:induction false} Steady<T>(f: nat -> T, n: nat, k: nat)
    requires n <= k && forall i: nat | n <= i < k :: f(i + 1) == f(i)
    ensures f(k) == f(n)
    decreases k
  {
    if n < k { Steady(f, n, k - 1); }
  }

  lemma {:induction false} Rises(f: nat -> int, n: nat, k: nat)
    requires n <= k && forall i: nat | n <= i < k :: f(i + 1) >= f(i)
    ensures f(k) >= f(n)
    decreases k
  {
    if n < k { Rises(f, n, k - 1); }
  }
}
