/** Runs of the Redis backend without end: if workers that are busy go on and queues keep being
    polled, every job gets done. */
module RedisFairness {
  import opened Jobs
  import opened RedisStore
  import opened RedisIndexes
  import opened RedisProtocol
  import opened RedisDraining
  import JobSystem
  import D = JobDraining

  ghost predicate IsEndlessRun(c: JobSystem.Config, run: nat -> Sys, steps: nat -> Step) {
    Init(run(0)) && forall i: nat :: Next(c, run(i), run(i + 1), steps(i))
  }

  /** The worker that takes a step. */
  function Actor(step: Step): set<nat> {
    match step
    case Reserve(w, _, _) => {w}
    case AckFirstTrip(w, _) => {w}
    case AckSecondTrip(w) => {w}
    case NackReads(w) => {w}
    case NackWrites(w, _) => {w}
    case Abandon(w) => {w}
    case _ => {}
  }

  ghost predicate ActsAfter(steps: nat -> Step, w: nat, i: nat) {
    exists k: nat :: k >= i && w in Actor(steps(k))
  }

  /** Some worker polls the queue after state `i`, at a clock that shows `t` or more. */
  ghost predicate PolledAfter(steps: nat -> Step, queue: string, t: int, i: nat) {
    exists k: nat :: k >= i && Polls(steps(k), queue, t)
  }

  predicate Polls(step: Step, queue: string, t: int) {
    step.Reserve? && step.queue == queue && Ticks(step.at, SECOND) >= t
  }

  /** Every worker that is in an operation takes a step at some time, and every queue in which a
      job waits is polled later than any instant. */
  ghost predicate Fair(run: nat -> Sys, steps: nat -> Step) {
    && (forall i: nat, w | w in run(i).pcs :: ActsAfter(steps, w, i))
    && (forall i: nat, id, t | IsPending(run(i).store, id) ::
          PolledAfter(steps, run(i).store.hashes[id].job.queue, t, i))
  }

  lemma {:induction false} EndlessSound(c: JobSystem.Config, run: nat -> Sys, steps: nat -> Step, i: nat)
    requires c.unit == SECOND && IsEndlessRun(c, run, steps)
    requires forall m: nat :: !LosesOutcome(run(m), steps(m))
    ensures Sound(c, run(i))
  {
    if i == 0 {
      var start := [run(0)];
      assert IsRun(c, start, []);
      RunIsSound(c, start, [], 0);
    } else {
      EndlessSound(c, run, steps, i - 1);
      SoundStep(c, run(i - 1), run(i), steps(i - 1));
    }
  }

  /** A step that is no new job and uses up no effort. */
  ghost predicate Quiet(c: JobSystem.Config, s: Sys, s': Sys, step: Step) {
    && c.unit == SECOND && Sound(c, s) && Next(c, s, s', step)
    && !step.Enqueue? && Effort(s') == Effort(s)
  }

  ghost predicate Settled(c: JobSystem.Config, run: nat -> Sys, steps: nat -> Step, n: nat) {
    forall i: nat | i >= n :: QuietAt(c, run, steps, i)
  }

  ghost predicate QuietAt(c: JobSystem.Config, run: nat -> Sys, steps: nat -> Step, i: nat) {
    Quiet(c, run(i), run(i + 1), steps(i))
  }

  lemma QuietPcs(c: JobSystem.Config, s: Sys, s': Sys, step: Step)
    requires Quiet(c, s, s', step)
    ensures !Moves(s, step) && s'.pcs == s.pcs
    ensures forall w | w in s.pcs :: w !in Actor(step)
  {
    EffortShrinks(c, s, s', step);
  }

  /** A waiting job stays as it is. */
  lemma QuietWaiting(c: JobSystem.Config, s: Sys, s': Sys, step: Step, id: string)
    requires Quiet(c, s, s', step) && IsPending(s.store, id)
    ensures id in s'.store.hashes && s'.store.hashes[id] == s.store.hashes[id]
  {
    QuietPcs(c, s, s', step);
    if step.Reserve? {
      ReserveRefines(s.store, step.queue, Ticks(step.at, SECOND), {});
    } else if step.DeleteWrites? {
      var read := s.deletes[step.client];
      assert DeleteOk(s.store, read);
      assert JobSystem.JobInv(c, id, Abs(s).table[id], s.hist[id]);
      if read.id == id { DeleteTakesWork(s.store, read); }
    }
  }

  /** Deleting a waiting job takes work away. */
  lemma DeleteTakesWork(s: Store, read: DeleteRead)
    requires QueuesAgree(s) && DeleteOk(s, read)
    requires IsPending(s, read.id) && Weight(s.hashes[read.id].job) > 0
    ensures Work(TableOf(DeletePipeline(s, read))) < Work(TableOf(s))
  {
    DeleteRefines(s, read);
    WorkDelete(TableOf(s), read.id);
  }

  lemma QuietPoll(c: JobSystem.Config, s: Sys, s': Sys, step: Step, id: string)
    requires Quiet(c, s, s', step) && IsPending(s.store, id)
    ensures !Polls(step, s.store.hashes[id].job.queue, s.store.hashes[id].job.scheduledAt)
  {
    QuietPcs(c, s, s', step);
    if step.Reserve? && step.queue == s.store.hashes[id].job.queue {
      ReserveRefines(s.store, step.queue, Ticks(step.at, SECOND), {});
      assert id !in EligibleIds(TableOf(s.store), step.queue, Ticks(step.at, SECOND));
    }
  }

  lemma PcsStay(c: JobSystem.Config, run: nat -> Sys, steps: nat -> Step, n: nat, k: nat)
    requires Settled(c, run, steps, n) && k >= n
    ensures run(k).pcs == run(n).pcs
  {
    var pcs := (i: nat) => run(i).pcs;
    forall i: nat | n <= i < k ensures pcs(i + 1) == pcs(i) {
      assert QuietAt(c, run, steps, i);
      QuietPcs(c, run(i), run(i + 1), steps(i));
    }
    D.Steady(pcs, n, k);
  }

  /** Then no worker is in the middle of anything. */
  lemma NobodyIsBusy(c: JobSystem.Config, run: nat -> Sys, steps: nat -> Step, n: nat, w: nat)
    requires Settled(c, run, steps, n) && Fair(run, steps)
    ensures w !in run(n).pcs
  {
    if w in run(n).pcs {
      assert ActsAfter(steps, w, n);
      var k: nat :| k >= n && w in Actor(steps(k));
      PcsStay(c, run, steps, n, k);
      assert QuietAt(c, run, steps, k);
      QuietPcs(c, run(k), run(k + 1), steps(k));
    }
  }

  predicate Keeps(s: Store, s': Store, id: string) {
    IsPending(s, id) ==> id in s'.hashes && s'.hashes[id] == s.hashes[id]
  }

  lemma {:induction false} Kept(stores: nat -> Store, n: nat, k: nat, id: string)
    requires n <= k && IsPending(stores(n), id)
    requires forall i: nat | n <= i < k :: Keeps(stores(i), stores(i + 1), id)
    ensures id in stores(k).hashes && stores(k).hashes[id] == stores(n).hashes[id]
    decreases k
  {
    if n < k {
      Kept(stores, n, k - 1, id);
      assert Keeps(stores(k - 1), stores(k - 1 + 1), id);
    }
  }

  lemma StillWaits(c: JobSystem.Config, run: nat -> Sys, steps: nat -> Step, n: nat, k: nat, id: string)
    requires Settled(c, run, steps, n) && n <= k && IsPending(run(n).store, id)
    ensures id in run(k).store.hashes && run(k).store.hashes[id] == run(n).store.hashes[id]
  {
    var stores := (i: nat) => run(i).store;
    forall i: nat | n <= i < k ensures Keeps(stores(i), stores(i + 1), id) {
      assert QuietAt(c, run, steps, i);
      if IsPending(run(i).store, id) {
        QuietWaiting(c, run(i), run(i + 1), steps(i), id);
      }
    }
    Kept(stores, n, k, id);
  }

  /** No job is left waiting, since its queue is polled once it is due. */
  lemma NobodyWaits(c: JobSystem.Config, run: nat -> Sys, steps: nat -> Step, n: nat, id: string)
    requires Settled(c, run, steps, n) && Fair(run, steps)
    ensures !IsPending(run(n).store, id)
  {
    if IsPending(run(n).store, id) {
      var j := run(n).store.hashes[id].job;
      assert PolledAfter(steps, j.queue, j.scheduledAt, n);
      var k: nat :| k >= n && Polls(steps(k), j.queue, j.scheduledAt);
      StillWaits(c, run, steps, n, k, id);
      assert QuietAt(c, run, steps, k);
      QuietPoll(c, run(k), run(k + 1), steps(k), id);
    }
  }

  lemma SettledIsDone(c: JobSystem.Config, run: nat -> Sys, steps: nat -> Step, n: nat)
    requires Settled(c, run, steps, n) && Fair(run, steps)
    ensures D.AllDone(c, TableOf(run(n).store))
  {
    assert QuietAt(c, run, steps, n);
    forall w: nat ensures w !in run(n).pcs {
      NobodyIsBusy(c, run, steps, n, w);
    }
    forall id ensures !IsPending(run(n).store, id) {
      NobodyWaits(c, run, steps, n, id);
    }
    IdleIsDone(c, run(n));
  }

  lemma IdleIsDone(c: JobSystem.Config, s: Sys)
    requires c.unit == SECOND && Sound(c, s)
    requires (forall w: nat :: w !in s.pcs) && forall id :: !IsPending(s.store, id)
    ensures D.AllDone(c, TableOf(s.store))
  {
    forall id | id in TableOf(s.store) ensures D.Done(c, id, TableOf(s.store)[id]) {
      D.DoneUnlessUnderWay(c, Abs(s), id);
      assert !IsPending(s.store, id);
      if TableOf(s.store)[id].status == Running {
        var w := HolderOf(s, id);
        assert false;
      }
    }
  }

  lemma Settles(c: JobSystem.Config, run: nat -> Sys, steps: nat -> Step, from: nat) returns (n: nat)
    requires c.unit == SECOND && IsEndlessRun(c, run, steps)
    requires forall m: nat :: !LosesOutcome(run(m), steps(m))
    requires forall m: nat | m >= from :: !steps(m).Enqueue?
    ensures n >= from && Settled(c, run, steps, n)
  {
    var effort := (i: nat) => Effort(run(i));
    forall m: nat | m >= from ensures effort(m + 1) <= effort(m) {
      EndlessSound(c, run, steps, m);
      EffortShrinks(c, run(m), run(m + 1), steps(m));
    }
    n := D.ComesToRest(effort, from);
    forall i: nat | i >= n ensures QuietAt(c, run, steps, i) {
      EndlessSound(c, run, steps, i);
      assert effort(i) == effort(n) && effort(i + 1) == effort(n);
    }
  }

  /** Every fair run in which no outcome gets lost, and in which new jobs cease to come in,
      reaches a state from which on all jobs are completed or dead as their outcomes dictate:
      whatever the interleaving of any number of workers and of clients that delete jobs. */
  lemma EverythingGetsDone(c: JobSystem.Config, run: nat -> Sys, steps: nat -> Step, from: nat) returns (n: nat)
    requires c.unit == SECOND && IsEndlessRun(c, run, steps) && Fair(run, steps)
    requires forall m: nat :: !LosesOutcome(run(m), steps(m))
    requires forall m: nat | m >= from :: !steps(m).Enqueue?
    ensures n >= from && forall i: nat | i >= n :: D.AllDone(c, TableOf(run(i).store))
  {
    n := Settles(c, run, steps, from);
    forall i: nat | i >= n ensures D.AllDone(c, TableOf(run(i).store)) {
      SettledIsDone(c, run, steps, i);
    }
  }
}
