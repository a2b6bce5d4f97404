/** Runs of the Postgres backend without end: if workers that are busy go on and no queue with a
    free row is passed over for good, every job gets done. */
module PostgresFairness {
  import opened Jobs
  import opened PostgresOrder
  import opened PostgresProtocol
  import opened PostgresDraining
  import JobSystem
  import D = JobDraining

  ghost predicate IsEndlessRun(c: JobSystem.Config, run: nat -> Sys, steps: nat -> Step)
    requires c.unit > 0
  {
    Init(run(0)) && forall i: nat :: Next(c, run(i), run(i + 1), steps(i))
  }

  /** The worker that takes a step. */
  function Actor(step: Step): set<nat> {
    match step
    case Select(w, _, _, _) => {w}
    case CommitReserve(w, _) => {w}
    case Ack(w, _) => {w}
    case LockForNack(w) => {w}
    case CommitNack(w, _) => {w}
    case Stop(w) => {w}
    case _ => {}
  }

  ghost predicate ActsAfter(steps: nat -> Step, w: nat, i: nat) {
    exists k: nat :: k >= i && w in Actor(steps(k))
  }

  ghost predicate SelectedAfter(steps: nat -> Step, queue: string, i: nat) {
    exists k: nat :: k >= i && steps(k).Select? && steps(k).queue == queue
  }

  /** A row of a queue that a Reserve could pick in state `i`. */
  ghost predicate FreeAt(c: JobSystem.Config, run: nat -> Sys, queue: string, id: string, i: nat)
    requires c.unit > 0
  {
    id in EligibleIds(run(i).table, queue, Ticks(run(i).now, c.unit)) - Locked(run(i).pcs)
  }

  ghost predicate FreeFrom(c: JobSystem.Config, run: nat -> Sys, queue: string, id: string, i: nat)
    requires c.unit > 0
  {
    forall k: nat | k >= i :: FreeAt(c, run, queue, id, k)
  }

  ghost predicate ClockPasses(run: nat -> Sys, t: int, i: nat) {
    exists k: nat :: k >= i && run(k).now >= t
  }

  /** Every worker that is in an operation takes a step at some time, a queue that has a free row
      for good is reserved from at some time, and the clock passes every instant. */
  ghost predicate Fair(c: JobSystem.Config, run: nat -> Sys, steps: nat -> Step)
    requires c.unit > 0
  {
    && (forall i: nat, w | w in run(i).pcs :: ActsAfter(steps, w, i))
    && (forall i: nat, queue, id | FreeFrom(c, run, queue, id, i) :: SelectedAfter(steps, queue, i))
    && (forall i: nat, t :: ClockPasses(run, t, i))
  }

  lemma {:induction false} EndlessSound(c: JobSystem.Config, run: nat -> Sys, steps: nat -> Step, i: nat)
    requires c.unit > 0 && IsEndlessRun(c, run, steps)
    requires forall m: nat :: !LosesOutcome(run(m), steps(m))
    ensures Sound(c, run(i))
  {
    if i == 0 {
      var start := [run(0)];
      assert IsRun(c, start, []);
      RunIsSound(c, start, [], 0);
    } else {
      EndlessSound(c, run, steps, i - 1);
      SoundStep(c, run(i - 1), run(i), steps(i - 1));
    }
  }

  // ---------- When no effort is used up any more ----------

  /** A step that is no new job, loses and rolls back nothing, and uses up no effort. */
  ghost predicate Quiet(c: JobSystem.Config, s: Sys, s': Sys, step: Step) {
    && c.unit > 0 && Sound(c, s) && Next(c, s, s', step)
    && !step.Enqueue? && !RollsBack(s, step) && !LosesOutcome(s, step) && Effort(s') == Effort(s)
  }

  ghost predicate Settled(c: JobSystem.Config, run: nat -> Sys, steps: nat -> Step, n: nat) {
    forall i: nat | i >= n :: QuietAt(c, run, steps, i)
  }

  ghost predicate QuietAt(c: JobSystem.Config, run: nat -> Sys, steps: nat -> Step, i: nat) {
    Quiet(c, run(i), run(i + 1), steps(i))
  }

  lemma QuietPcs(c: JobSystem.Config, s: Sys, s': Sys, step: Step)
    requires Quiet(c, s, s', step)
    ensures !Moves(step) && s'.pcs == s.pcs && s'.now >= s.now
    ensures forall w | w in s.pcs :: w !in Actor(step)
  {
    EffortShrinks(c, s, s', step);
  }

  /** A waiting job stays as it is. */
  lemma QuietWaiting(c: JobSystem.Config, s: Sys, s': Sys, step: Step, id: string)
    requires Quiet(c, s, s', step) && id in s.table && s.table[id].status == Pending
    ensures id in s'.table && s'.table[id] == s.table[id]
  {
    QuietPcs(c, s, s', step);
    if step.Delete? {
      StatementsLeft(c, s, s', step);
      RowsLeft(c, s, s', step);
      WorkDelete(s.table, step.id);
      assert JobSystem.JobInv(c, id, Abs(s).table[id], s.hist[id]);
    }
  }

  lemma PcsStay(c: JobSystem.Config, run: nat -> Sys, steps: nat -> Step, n: nat, k: nat)
    requires Settled(c, run, steps, n) && k >= n
    ensures run(k).pcs == run(n).pcs && run(k).now >= run(n).now
  {
    var pcs, now := (i: nat) => run(i).pcs, (i: nat) => run(i).now;
    forall i: nat | n <= i < k ensures pcs(i + 1) == pcs(i) && now(i + 1) >= now(i) {
      assert QuietAt(c, run, steps, i);
      QuietPcs(c, run(i), run(i + 1), steps(i));
    }
    D.Steady(pcs, n, k);
    D.Rises(now, n, k);
  }

  /** Then no worker is in the middle of anything. */
  lemma NobodyIsBusy(c: JobSystem.Config, run: nat -> Sys, steps: nat -> Step, n: nat, w: nat)
    requires c.unit > 0 && Settled(c, run, steps, n) && Fair(c, run, steps)
    ensures w !in run(n).pcs
  {
    if w in run(n).pcs {
      assert ActsAfter(steps, w, n);
      var k: nat :| k >= n && w in Actor(steps(k));
      PcsStay(c, run, steps, n, k);
      assert QuietAt(c, run, steps, k);
      QuietPcs(c, run(k), run(k + 1), steps(k));
    }
  }

  predicate Keeps(table: Table, table': Table, id: string) {
    id in table && table[id].status == Pending ==> id in table' && table'[id] == table[id]
  }

  lemma {:induction false} Kept(tables: nat -> Table, n: nat, k: nat, id: string)
    requires n <= k && id in tables(n) && tables(n)[id].status == Pending
    requires forall i: nat | n <= i < k :: Keeps(tables(i), tables(i + 1), id)
    ensures id in tables(k) && tables(k)[id] == tables(n)[id]
    decreases k
  {
    if n < k {
      Kept(tables, n, k - 1, id);
      assert Keeps(tables(k - 1), tables(k - 1 + 1), id);
    }
  }

  lemma StillWaits(c: JobSystem.Config, run: nat -> Sys, steps: nat -> Step, n: nat, k: nat, id: string)
    requires Settled(c, run, steps, n) && n <= k && id in run(n).table && run(n).table[id].status == Pending
    ensures id in run(k).table && run(k).table[id] == run(n).table[id]
  {
    var tables := (i: nat) => run(i).table;
    forall i: nat | n <= i < k ensures Keeps(tables(i), tables(i + 1), id) {
      assert QuietAt(c, run, steps, i);
      if id in run(i).table && run(i).table[id].status == Pending {
        QuietWaiting(c, run(i), run(i + 1), steps(i), id);
      }
    }
    Kept(tables, n, k, id);
  }

  lemma SettledLater(c: JobSystem.Config, run: nat -> Sys, steps: nat -> Step, n: nat, m: nat)
    requires Settled(c, run, steps, n) && m >= n
    ensures Settled(c, run, steps, m)
  {
    forall i: nat | i >= m ensures QuietAt(c, run, steps, i) {
      assert i >= n;
    }
  }

  /** A waiting job is free for good once it is due. */
  lemma FreeOnceDue(c: JobSystem.Config, run: nat -> Sys, steps: nat -> Step, n: nat, m: nat, id: string)
    requires c.unit > 0 && Settled(c, run, steps, n) && m >= n && run(n).pcs == map[]
    requires id in run(n).table && run(n).table[id].status == Pending
    requires run(m).now >= c.unit * run(n).table[id].scheduledAt
    ensures FreeFrom(c, run, run(n).table[id].queue, id, m)
  {
    var j := run(n).table[id];
    SettledLater(c, run, steps, n, m);
    forall k: nat | k >= m ensures FreeAt(c, run, j.queue, id, k) {
      StillWaits(c, run, steps, n, k, id);
      PcsStay(c, run, steps, n, k);
      PcsStay(c, run, steps, m, k);
      D.DueIsDue(run(k).now, j.scheduledAt, c.unit);
    }
  }

  /** No job is left waiting. */
  lemma NobodyWaits(c: JobSystem.Config, run: nat -> Sys, steps: nat -> Step, n: nat, id: string)
    requires c.unit > 0 && Settled(c, run, steps, n) && Fair(c, run, steps) && run(n).pcs == map[]
    ensures id in run(n).table ==> run(n).table[id].status != Pending
  {
    if id in run(n).table && run(n).table[id].status == Pending {
      var j := run(n).table[id];
      var due := c.unit * j.scheduledAt;
      assert ClockPasses(run, due, n);
      var m: nat :| m >= n && run(m).now >= due;
      FreeOnceDue(c, run, steps, n, m, id);
      assert SelectedAfter(steps, j.queue, m);
      var k: nat :| k >= m && steps(k).Select? && steps(k).queue == j.queue;
      assert QuietAt(c, run, steps, k);
      QuietPcs(c, run(k), run(k + 1), steps(k));
    }
  }

  lemma SettledIsDone(c: JobSystem.Config, run: nat -> Sys, steps: nat -> Step, n: nat)
    requires c.unit > 0 && Settled(c, run, steps, n) && Fair(c, run, steps)
    ensures D.AllDone(c, run(n).table)
  {
    assert QuietAt(c, run, steps, n);
    forall w: nat ensures w !in run(n).pcs {
      NobodyIsBusy(c, run, steps, n, w);
    }
    forall id ensures id in run(n).table ==> run(n).table[id].status != Pending {
      NobodyWaits(c, run, steps, n, id);
    }
    IdleIsDone(c, run(n));
  }

  lemma IdleIsDone(c: JobSystem.Config, s: Sys)
    requires c.unit > 0 && Sound(c, s)
    requires (forall w: nat :: w !in s.pcs) && forall id | id in s.table :: s.table[id].status != Pending
    ensures D.AllDone(c, s.table)
  {
    forall id | id in s.table ensures D.Done(c, id, s.table[id]) {
      D.DoneUnlessUnderWay(c, Abs(s), id);
      if s.table[id].status == Running {
        var w := HolderOf(s, id);
        assert false;
      }
    }
  }

  lemma Settles(c: JobSystem.Config, run: nat -> Sys, steps: nat -> Step, from: nat) returns (n: nat)
    requires c.unit > 0 && IsEndlessRun(c, run, steps)
    requires forall m: nat :: !LosesOutcome(run(m), steps(m))
    requires forall m: nat | m >= from :: !steps(m).Enqueue? && !RollsBack(run(m), steps(m))
    ensures n >= from && Settled(c, run, steps, n)
  {
    var effort := (i: nat) => Effort(run(i));
    forall m: nat | m >= from ensures effort(m + 1) <= effort(m) {
      EndlessSound(c, run, steps, m);
      EffortShrinks(c, run(m), run(m + 1), steps(m));
    }
    n := D.ComesToRest(effort, from);
    forall i: nat | i >= n ensures QuietAt(c, run, steps, i) {
      EndlessSound(c, run, steps, i);
      assert effort(i) == effort(n) && effort(i + 1) == effort(n);
    }
  }

  /** Every fair run in which no outcome gets lost, and in which new jobs and rollbacks cease,
      reaches a state from which on all jobs are completed or dead as their outcomes dictate:
      whatever the interleaving of any number of transactions and of deletes. */
  lemma EverythingGetsDone(c: JobSystem.Config, run: nat -> Sys, steps: nat -> Step, from: nat) returns (n: nat)
    requires c.unit > 0 && IsEndlessRun(c, run, steps) && Fair(c, run, steps)
    requires forall m: nat :: !LosesOutcome(run(m), steps(m))
    requires forall m: nat | m >= from :: !steps(m).Enqueue? && !RollsBack(run(m), steps(m))
    ensures n >= from && forall i: nat | i >= n :: D.AllDone(c, run(i).table)
  {
    n := Settles(c, run, steps, from);
    forall i: nat | i >= n ensures D.AllDone(c, run(i).table) {
      SettledLater(c, run, steps, n, i);
      SettledIsDone(c, run, steps, i);
    }
  }
}
