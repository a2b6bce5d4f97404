/** Where the remnants in a Redis store come from: an Ack that comes too late. */
module RedisRemnants {
  import opened Jobs
  import opened RedisStore
  import opened RedisIndexes
  import opened RedisProtocol
  import opened RedisListing
  import RedisRuns
  import JobSystem

  predicate IsRemnant(s: Store, id: string) {
    id in s.hashes && s.hashes[id].Remnant?
  }

  /** The first trip of an Ack of a job that is no longer there. */
  ghost predicate AcksMissing(s: Sys, step: Step, id: string) {
    && step.AckFirstTrip? && step.w in s.pcs && s.pcs[step.w].Holding? && s.pcs[step.w].cl.id == id
    && id !in s.store.hashes
  }

  ghost predicate Removes(s: Sys, step: Step, id: string) {
    step.DeleteWrites? && step.client in s.deletes && s.deletes[step.client].id == id
  }

  lemma RemnantStep(c: JobSystem.Config, s: Sys, s': Sys, step: Step, id: string)
    requires Inv(s) && Next(c, s, s', step)
    ensures IsRemnant(s'.store, id) <==>
            AcksMissing(s, step, id) || (IsRemnant(s.store, id) && !Removes(s, step, id))
  {
    match step
    case AckFirstTrip(w, _) => assert PcOk(s.store, s.pcs[w]);
    case Reserve(w, queue, at) => ReserveMakesNone(s.store, queue, Ticks(at, SECOND), id);
    case NackWrites(w, at) => NackMakesNone(c, s, s', w, at, id);
    case _ =>
  }

  lemma ReserveMakesNone(s: Store, queue: string, now: int, id: string)
    requires QueuesAgree(s)
    ensures IsRemnant(ReserveScript(s, queue, now).0, id) <==> IsRemnant(s, id)
  {
    ReserveRefines(s, queue, now, {});
  }

  lemma NackMakesNone(c: JobSystem.Config, s: Sys, s': Sys, w: nat, at: int, id: string)
    requires Inv(s) && NackWriteStep(c, s, s', w, at)
    ensures IsRemnant(s'.store, id) <==> IsRemnant(s.store, id)
  {
    var cl := s.pcs[w].cl;
    assert PcOk(s.store, s.pcs[w]);
    var err := c.Try(cl.id, cl.typ, cl.attempts + 1).err;
    var t, retryAt := Ticks(at, SECOND), Ticks(at + c.Delay(cl.typ, cl.attempts + 1), SECOND);
    NackScriptOnHashes(s.store, cl.id, s.pcs[w].read, err, t, retryAt, s'.store);
  }

  /** Step `m` acked the missing job, and nobody has deleted the id since. */
  ghost predicate LeftBy(run: seq<Sys>, steps: seq<Step>, id: string, m: nat, i: nat)
    requires m < i < |run| == |steps| + 1
  {
    AcksMissing(run[m], steps[m], id) && forall k | m < k < i :: !Removes(run[k], steps[k], id)
  }

  ghost predicate Left(run: seq<Sys>, steps: seq<Step>, id: string, i: nat)
    requires i < |run| == |steps| + 1
  {
    exists m: nat :: m < i && LeftBy(run, steps, id, m, i)
  }

  lemma LeftStep(run: seq<Sys>, steps: seq<Step>, id: string, i: nat)
    requires 0 < i < |run| == |steps| + 1
    ensures Left(run, steps, id, i) <==>
            AcksMissing(run[i - 1], steps[i - 1], id)
            || (Left(run, steps, id, i - 1) && !Removes(run[i - 1], steps[i - 1], id))
  {
    if AcksMissing(run[i - 1], steps[i - 1], id) {
      assert LeftBy(run, steps, id, i - 1, i);
    }
    if Left(run, steps, id, i - 1) && !Removes(run[i - 1], steps[i - 1], id) {
      var m: nat :| m < i - 1 && LeftBy(run, steps, id, m, i - 1);
      assert LeftBy(run, steps, id, m, i);
    }
    if Left(run, steps, id, i) && !AcksMissing(run[i - 1], steps[i - 1], id) {
      var m: nat :| m < i && LeftBy(run, steps, id, m, i);
      assert LeftBy(run, steps, id, m, i - 1);
    }
  }

  /** A remnant sits under an id exactly if a worker has acked that job when it was gone, and the
      remnant itself has not been deleted since. */
  lemma {:induction false} RemnantsAreLateAcks(c: JobSystem.Config, run: seq<Sys>, steps: seq<Step>, i: nat, id: string)
    requires c.unit == SECOND && IsRun(c, run, steps) && i < |run|
    ensures IsRemnant(run[i].store, id) <==> Left(run, steps, id, i)
  {
    if i > 0 {
      RemnantsAreLateAcks(c, run, steps, i - 1, id);
      RunInvs(c, run, steps, i - 1);
      RemnantStep(c, run[i - 1], run[i], steps[i - 1], id);
      LeftStep(run, steps, id, i);
    }
  }

  /** A job that was ever enqueued and is gone has been deleted. */
  lemma {:induction false} GoneWasDeleted(c: JobSystem.Config, run: seq<Sys>, steps: seq<Step>, i: nat, id: string)
      returns (k: nat)
    requires c.unit == SECOND && IsRun(c, run, steps) && i < |run|
    requires id in run[i].hist && id !in run[i].store.hashes
    ensures k < i && Removes(run[k], steps[k], id)
  {
    k := i - 1;
    RunInvs(c, run, steps, k);
    if !Removes(run[k], steps[k], id) {
      HashesStay(c, run[k], run[i], steps[k], id);
      k := GoneWasDeleted(c, run, steps, k, id);
    }
  }

  lemma HashesStay(c: JobSystem.Config, s: Sys, s': Sys, step: Step, id: string)
    requires Inv(s) && Next(c, s, s', step) && !Removes(s, step, id)
    requires id in s'.hist && id !in s'.store.hashes
    ensures id in s.hist && id !in s.store.hashes
  {
    match step
    case Reserve(_, queue, at) => ReserveRefines(s.store, queue, Ticks(at, SECOND), {});
    case _ =>
  }

  /** The Ack of a missing job comes after its deletion. */
  lemma LateAckFollowsDelete(c: JobSystem.Config, run: seq<Sys>, steps: seq<Step>, m: nat, id: string) returns (k: nat)
    requires c.unit == SECOND && IsRun(c, run, steps) && m < |steps| && AcksMissing(run[m], steps[m], id)
    ensures k < m && Removes(run[k], steps[k], id)
  {
    RunInvs(c, run, steps, m);
    k := GoneWasDeleted(c, run, steps, m, id);
  }

  /** The listing of everything is the promised one exactly if no late Ack has left a remnant. */
  lemma ListsAllUnlessLateAck(c: JobSystem.Config, run: seq<Sys>, steps: seq<Step>, i: nat)
    requires c.unit == SECOND && IsRun(c, run, steps) && i < |run|
    ensures ListedIds(run[i].store, "", "") == Promised(TableOf(run[i].store), "", "") <==>
            forall id :: !Left(run, steps, id, i)
  {
    forall id ensures IsRemnant(run[i].store, id) <==> Left(run, steps, id, i) {
      RemnantsAreLateAcks(c, run, steps, i, id);
    }
    ListsRemnantsToo(run[i].store);
    if id :| id in run[i].store.hashes && !run[i].store.hashes[id].Full? {
      assert IsRemnant(run[i].store, id);
    }
  }

  /** Late Acks do happen: any fresh job whose first try succeeds can be deleted while its handler
      runs. Its Ack then leaves a remnant, which the listing of everything takes for a job. */
  lemma LateAck(c: JobSystem.Config, job: Job, now: int) returns (run: seq<Sys>, steps: seq<Step>)
    requires c.unit == SECOND && IsFresh(job) && job.scheduledAt <= now
    requires c.Try(job.id, job.typ, 1) == JobSystem.Success
    ensures IsRun(c, run, steps) && |run| == 6
    ensures IsRemnant(run[5].store, job.id) && TableOf(run[5].store) == map[]
    ensures ListedIds(run[5].store, "", "") == {job.id} && Promised(TableOf(run[5].store), "", "") == {}
  {
    run, steps := RedisRuns.NewRun(c, now);
    run, steps := RedisRuns.ThenClaim(c, run, steps, job, 0);
    run, steps := ThenDelete(c, run, steps, job, 0);
    var s := RedisRuns.Last(run);
    var cl := JobSystem.Claim(job.id, job.typ, 0, now);
    assert s.pcs == map[0 := Holding(cl)] && s.store.hashes == map[];
    var (store', queue) := AckFirst(s.store, job.id, Ticks(now, SECOND));
    assert queue.None?;
    var s' := s.(store := store', pcs := s.pcs - {0});
    assert AckFirstStep(c, s, s', 0, now);
    RedisRuns.Extended(c, run, steps, s', AckFirstTrip(0, now));
    run, steps := run + [s'], steps + [AckFirstTrip(0, now)];
    assert run[5] == s' && s'.store.hashes.Keys == {job.id};
  }

  /** A run goes on with the deletion of a job that has just been claimed. */
  lemma ThenDelete(c: JobSystem.Config, run: seq<Sys>, steps: seq<Step>, job: Job, client: nat)
      returns (run': seq<Sys>, steps': seq<Step>)
    requires IsRun(c, run, steps) && IsFull(RedisRuns.Last(run).store, job.id)
    ensures IsRun(c, run', steps') && |run'| == |run| + 2
    ensures var s, s' := RedisRuns.Last(run), RedisRuns.Last(run');
            s'.pcs == s.pcs && s'.now == s.now && s'.store.hashes == s.store.hashes - {job.id}
  {
    var s := RedisRuns.Last(run);
    var read := ReadForDelete(s.store, job.id).value;
    var s1 := s.(deletes := s.deletes[client := read]);
    var s2 := s1.(store := DeletePipeline(s.store, read), deletes := s1.deletes - {client});
    RedisRuns.Extended(c, run, steps, s1, DeleteReads(client, job.id));
    RedisRuns.Extended(c, run + [s1], steps + [DeleteReads(client, job.id)], s2, DeleteWrites(client));
    run' := run + [s1] + [s2];
    steps' := steps + [DeleteReads(client, job.id)] + [DeleteWrites(client)];
  }
}
