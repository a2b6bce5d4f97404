/** How a job left behind by a deletion hides others on the dashboard. */
module HiddenJobs {
  import opened Jobs
  import opened RedisStore
  import opened RedisProtocol
  import opened RedisRuns
  import Dashboard
  import JobSystem

  /** When the first id listed belongs to no job, a walk with one job per page ends at once. */
  lemma FirstGoneHides(gone: string, shown: string, hidden: string, stored: set<string>)
    requires gone !in stored && shown in stored && hidden in stored
    ensures var ids := [gone, shown, hidden];
            && Dashboard.Stored(ids[..Dashboard.Reach(ids, stored, 1)], stored) == [shown]
            && Dashboard.Stored(ids, stored) == [shown, hidden]
            && !Dashboard.NothingHidden(ids, stored, 1)
  {
    var ids := [gone, shown, hidden];
    assert Dashboard.FirstGone(ids, stored) == 0;
    assert ids[..Dashboard.Reach(ids, stored, 1)] == [gone, shown];
    Dashboard.StoredAppend([gone], [shown], stored);
    Dashboard.StoredAppend([gone, shown], [hidden], stored);
    assert ids == [gone, shown] + [hidden] && [gone] + [shown] == [gone, shown];
    assert ids[2] == hidden;
  }

  /** It can come to that: three fresh jobs of one queue are reserved, the first between the two
      trips of its deletion. The running set, which the dashboard lists for the status running,
      then has all three ids. If it is replied with the deleted one first, a walk with one job
      per page never shows the last, although that job is stored and running. */
  lemma StaleDeleteHides(c: JobSystem.Config, gone: Job, shown: Job, hidden: Job, now: int)
      returns (run: seq<Sys>, steps: seq<Step>)
    requires c.unit == SECOND && IsFresh(gone) && IsFresh(shown) && IsFresh(hidden)
    requires gone.queue == shown.queue == hidden.queue
    requires gone.id != shown.id && shown.id != hidden.id && gone.id != hidden.id
    requires gone.scheduledAt <= now && shown.scheduledAt <= now && hidden.scheduledAt <= now
    ensures IsRun(c, run, steps)
    ensures var s, ids := Last(run).store, [gone.id, shown.id, hidden.id];
            && SSet(s, gone.queue, Running) == {gone.id, shown.id, hidden.id}
            && IsFull(s, hidden.id) && s.hashes[hidden.id].job.status == Running
            && Dashboard.Stored(ids, s.hashes.Keys) == [shown.id, hidden.id]
            && Dashboard.Stored(ids[..Dashboard.Reach(ids, s.hashes.Keys, 1)], s.hashes.Keys) == [shown.id]
  {
    run, steps := NewRun(c, now);
    run, steps := ThenStaleDelete(c, run, steps, gone, 0);
    run, steps := ThenClaim(c, run, steps, shown, 1);
    run, steps := ThenClaim(c, run, steps, hidden, 2);
    var s := Last(run).store;
    assert s.hashes.Keys == {shown.id, hidden.id};
    assert SSet(s, gone.queue, Running) == {gone.id, shown.id, hidden.id};
    FirstGoneHides(gone.id, shown.id, hidden.id, s.hashes.Keys);
  }
}
