/** The Redis store refines a plain job table: what each step does to the table behind the
    hashes, and exactly when it leaves the indexes in agreement with that table. */
module RedisIndexes {
  import opened Options
  import opened Jobs
  import opened RedisStore

  // ---------- Reserve ----------

  /** The order in which Redis hands out eligible jobs: scheduled instant, then id. */
  predicate RedisBefore(a: Job, b: Job) {
    a.scheduledAt < b.scheduledAt || (a.scheduledAt == b.scheduledAt && StringLeq(a.id, b.id))
  }

  ghost predicate RedisPick(table: Table, queue: string, now: int, id: string) {
    && id in EligibleIds(table, queue, now)
    && forall other | other in EligibleIds(table, queue, now) :: RedisBefore(table[id], table[other])
  }

  lemma ReadyIsEligible(s: Store, queue: string, now: int, id: string)
    requires QueuesAgree(s)
    ensures id in ZSet(s, queue) && ZSet(s, queue)[id] <= now <==> id in EligibleIds(TableOf(s), queue, now)
  {
    assert QueueAgreesAt(s, queue, id);
  }

  /** The script claims the first eligible job, and comes back empty, changing nothing, only
      when no job is eligible. */
  lemma ReserveChoice(s: Store, queue: string, now: int)
    requires QueuesAgree(s)
    ensures var r := FirstReady(ZSet(s, queue), now);
            && (r.None? <==> EligibleIds(TableOf(s), queue, now) == {})
            && (r.Some? ==> IsPending(s, r.value) && RedisPick(TableOf(s), queue, now, r.value))
  {
    var z, t := ZSet(s, queue), TableOf(s);
    forall id ensures id in z && z[id] <= now <==> id in EligibleIds(t, queue, now) {
      ReadyIsEligible(s, queue, now, id);
    }
    match FirstReady(z, now)
    case None =>
    case Some(id) =>
      assert id in EligibleIds(t, queue, now);
      forall other | other in EligibleIds(t, queue, now) ensures RedisBefore(t[id], t[other]) {
        assert other in z && ZBefore(z, id, other);
        assert QueueAgreesAt(s, queue, id) && QueueAgreesAt(s, queue, other);
      }
  }

  /** Among jobs due in the same second the one whose id comes first in byte order is claimed. */
  lemma ReserveOrder(s: Store, queue: string, now: int, other: string)
    requires QueuesAgree(s) && ReserveScript(s, queue, now).1.Some?
    requires IsPending(s, other) && s.hashes[other].job.queue == queue && s.hashes[other].job.scheduledAt <= now
    ensures var id := ReserveScript(s, queue, now).1.value.id;
            && IsPending(s, id)
            && var a, b := s.hashes[id].job, s.hashes[other].job;
            a.scheduledAt < b.scheduledAt || (a.scheduledAt == b.scheduledAt && BytesBefore(id, other))
  {
    ReserveChoice(s, queue, now);
    var id := FirstReady(ZSet(s, queue), now).value;
    assert QueueAgreesAt(s, queue, id) && QueueAgreesAt(s, queue, other);
    FirstReadyInBytes(ZSet(s, queue), now, other);
  }

  /** What claiming the pending job `id` writes. */
  function Claimed(s: Store, queue: string, id: string, now: int): Store
    requires IsFull(s, id)
  {
    var s1 := ZRem(Put(s, id, Full(ReservedRow(s.hashes[id].job, now))), queue, id);
    SRem(SAdd(s1, queue, Running, id), queue, Pending, id)
  }

  lemma ClaimedAgrees(s: Store, queue: string, id: string, now: int)
    requires QueuesAgree(s) && IsPending(s, id) && s.hashes[id].job.queue == queue
    ensures QueuesAgree(Claimed(s, queue, id, now))
    ensures TableOf(Claimed(s, queue, id, now)) == TableOf(s)[id := ReservedRow(TableOf(s)[id], now)]
  {
    var s' := Claimed(s, queue, id, now);
    assert s'.hashes == s.hashes[id := Full(ReservedRow(s.hashes[id].job, now))];
    forall q, x ensures QueueAgreesAt(s', q, x) {
      assert QueueAgreesAt(s, q, x);
    }
  }

  lemma ClaimedStatuses(s: Store, queue: string, id: string, now: int, half: set<string>)
    requires IsPending(s, id) && s.hashes[id].job.queue == queue
    requires StatusesAgree(s, half) && id !in half
    ensures StatusesAgree(Claimed(s, queue, id, now), half)
  {
    var s' := Claimed(s, queue, id, now);
    forall q, st, x ensures StatusAgreesAt(s', half, q, st, x) {
      assert StatusAgreesAt(s, half, q, st, x);
    }
  }

  /** Reserve as a step on the table. */
  lemma ReserveRefines(s: Store, queue: string, now: int, half: set<string>)
    requires QueuesAgree(s)
    requires forall id | id in half && IsFull(s, id) :: s.hashes[id].job.status == Completed
    ensures var (s', r) := ReserveScript(s, queue, now);
            && QueuesAgree(s')
            && (StatusesAgree(s, half) ==> StatusesAgree(s', half))
            && (r.None? <==> EligibleIds(TableOf(s), queue, now) == {})
            && (r.None? ==> s' == s)
            && (r.Some? ==>
                  && RedisPick(TableOf(s), queue, now, r.value.id)
                  && TableOf(s') == TableOf(s)[r.value.id := ReservedRow(TableOf(s)[r.value.id], now)]
                  && s'.hashes == s.hashes[r.value.id := Full(TableOf(s')[r.value.id])]
                  && r.value == View(Full(TableOf(s')[r.value.id])))
  {
    ReserveChoice(s, queue, now);
    match FirstReady(ZSet(s, queue), now)
    case None =>
    case Some(id) =>
      ClaimedAgrees(s, queue, id, now);
      if StatusesAgree(s, half) { ClaimedStatuses(s, queue, id, now, half); }
      assert ReserveScript(s, queue, now).0 == Claimed(s, queue, id, now);
  }

  // ---------- Enqueue ----------

  lemma EnqueueRefines(s: Store, job: Job, half: set<string>)
    requires QueuesAgree(s) && job.id !in s.hashes && job.status == Pending
    ensures var s' := EnqueuePipeline(s, job);
            && QueuesAgree(s')
            && TableOf(s') == TableOf(s)[job.id := ToRow(job, SECOND).(completedAt := None, failedAt := None)]
            && (StatusesAgree(s, half) && job.id !in half ==> StatusesAgree(s', half))
  {
    var s' := EnqueuePipeline(s, job);
    forall q, x ensures QueueAgreesAt(s', q, x) {
      assert QueueAgreesAt(s, q, x);
    }
    if StatusesAgree(s, half) && job.id !in half {
      forall q, st, x ensures StatusAgreesAt(s', half, q, st, x) {
        assert StatusAgreesAt(s, half, q, st, x);
      }
    }
  }

  // ---------- Ack ----------

  /** The first round trip moves a running job to completed in the table and changes nothing
      when the job is gone; either way the sorted sets stay exact. */
  lemma AckFirstRefines(s: Store, id: string, now: int, half: set<string>)
    requires QueuesAgree(s)
    requires IsFull(s, id) ==> s.hashes[id].job.status == Running
    ensures var (s', q) := AckFirst(s, id, now);
            && QueuesAgree(s')
            && (q.Some? <==> IsFull(s, id))
            && (q.Some? ==> q.value == s.hashes[id].job.queue)
            && TableOf(s') == (if IsFull(s, id) then TableOf(s)[id := AckedRow(TableOf(s)[id], now)] else TableOf(s))
            && (StatusesAgree(s, half) && id !in half ==>
                  StatusesAgree(s', if IsFull(s, id) then half + {id} else half))
  {
    var (s', queue) := AckFirst(s, id, now);
    forall q, x ensures QueueAgreesAt(s', q, x) {
      assert QueueAgreesAt(s, q, x);
    }
    var half' := if IsFull(s, id) then half + {id} else half;
    if StatusesAgree(s, half) && id !in half {
      forall q, st, x ensures StatusAgreesAt(s', half', q, st, x) {
        assert StatusAgreesAt(s, half, q, st, x);
      }
    }
  }

  /** The second round trip leaves table and sorted sets alone. It settles the status sets
      exactly if the job still exists: one deleted in between is left in the completed set. */
  lemma AckSecondSettles(s: Store, queue: string, id: string, half: set<string>)
    requires QueuesAgree(s)
    requires IsFull(s, id) ==> s.hashes[id].job.queue == queue && s.hashes[id].job.status == Completed
    ensures var s' := AckSecond(s, queue, id);
            && QueuesAgree(s') && TableOf(s') == TableOf(s)
            && (StatusesAgree(s, half) && id in half ==> (StatusesAgree(s', half - {id}) <==> IsFull(s, id)))
  {
    var s' := AckSecond(s, queue, id);
    forall q, x ensures QueueAgreesAt(s', q, x) {
      assert QueueAgreesAt(s, q, x);
    }
    if StatusesAgree(s, half) && id in half {
      if IsFull(s, id) {
        forall q, st, x ensures StatusAgreesAt(s', half - {id}, q, st, x) {
          assert StatusAgreesAt(s, half, q, st, x);
        }
      } else {
        assert !StatusAgreesAt(s', half - {id}, queue, Completed, id);
      }
    }
  }

  // ---------- Nack ----------

  /** On values that are still current, the script does to the table what an atomic Nack would,
      and for a missing job it writes nothing. */
  lemma NackScriptRefines(s: Store, id: string, read: NackRead, err: string, now: int, retryAt: int, half: set<string>)
    requires QueuesAgree(s)
    requires IsFull(s, id) ==> ReadForNack(s, id) == Some(read) && s.hashes[id].job.status == Running
    ensures var s' := NackScript(s, id, read, err, now, retryAt);
            && QueuesAgree(s')
            && (!IsFull(s, id) ==> s' == s)
            && (IsFull(s, id) ==> s'.hashes == s.hashes[id := Full(NackedRow(s.hashes[id].job, err, now, retryAt))])
            && TableOf(s') == (if IsFull(s, id)
                              then TableOf(s)[id := NackedRow(TableOf(s)[id], err, now, retryAt)] else TableOf(s))
            && (StatusesAgree(s, half) && id !in half ==> StatusesAgree(s', half))
  {
    var s' := NackScript(s, id, read, err, now, retryAt);
    if IsFull(s, id) {
      NackHashes(s, id, read, err, now, retryAt);
      NackTable(s, id, read, err, now, retryAt);
      NackQueues(s, id, read, err, now, retryAt);
      if StatusesAgree(s, half) && id !in half {
        NackStatuses(s, id, read, err, now, retryAt, half);
      }
    }
  }

  lemma NackHashes(s: Store, id: string, read: NackRead, err: string, now: int, retryAt: int)
    requires ReadForNack(s, id) == Some(read)
    ensures NackScript(s, id, read, err, now, retryAt).hashes
            == s.hashes[id := Full(NackedRow(s.hashes[id].job, err, now, retryAt))]
  {
  }

  lemma NackTable(s: Store, id: string, read: NackRead, err: string, now: int, retryAt: int)
    requires ReadForNack(s, id) == Some(read)
    ensures TableOf(NackScript(s, id, read, err, now, retryAt))
            == TableOf(s)[id := NackedRow(TableOf(s)[id], err, now, retryAt)]
  {
    NackHashes(s, id, read, err, now, retryAt);
  }

  lemma NackQueues(s: Store, id: string, read: NackRead, err: string, now: int, retryAt: int)
    requires QueuesAgree(s) && ReadForNack(s, id) == Some(read) && s.hashes[id].job.status == Running
    ensures QueuesAgree(NackScript(s, id, read, err, now, retryAt))
  {
    var s' := NackScript(s, id, read, err, now, retryAt);
    NackHashes(s, id, read, err, now, retryAt);
    NackSortedSets(s, id, read, err, now, retryAt);
    forall q, x ensures QueueAgreesAt(s', q, x) {
      assert QueueAgreesAt(s, q, x);
    }
  }

  lemma NackSortedSets(s: Store, id: string, read: NackRead, err: string, now: int, retryAt: int)
    requires IsFull(s, id)
    ensures var s' := NackScript(s, id, read, err, now, retryAt);
            forall q :: ZSet(s', q) == if q == read.queue && read.attempts + 1 < read.maxAttempts
                                       then ZSet(s, q)[id := retryAt] else ZSet(s, q)
  {
  }

  lemma NackStatuses(s: Store, id: string, read: NackRead, err: string, now: int, retryAt: int, half: set<string>)
    requires ReadForNack(s, id) == Some(read) && s.hashes[id].job.status == Running
    requires StatusesAgree(s, half) && id !in half
    ensures StatusesAgree(NackScript(s, id, read, err, now, retryAt), half)
  {
    var s' := NackScript(s, id, read, err, now, retryAt);
    forall q, st, x ensures StatusAgreesAt(s', half, q, st, x) {
      assert StatusAgreesAt(s, half, q, st, x);
    }
  }

  // ---------- Delete ----------

  /** The pipeline removes the row and keeps the sorted sets exact, however old the read is. */
  lemma DeleteRefines(s: Store, read: DeleteRead)
    requires QueuesAgree(s)
    requires IsFull(s, read.id) ==> s.hashes[read.id].job.queue == read.queue
    ensures QueuesAgree(DeletePipeline(s, read))
    ensures TableOf(DeletePipeline(s, read)) == TableOf(s) - {read.id}
  {
    var s' := DeletePipeline(s, read);
    forall q, x ensures QueueAgreesAt(s', q, x) {
      assert QueueAgreesAt(s, q, x);
    }
  }

  /** The status sets stay exact if and only if the status read earlier is still the set the
      job is in (or there is no such job any more). */
  lemma DeleteSettles(s: Store, read: DeleteRead, half: set<string>)
    requires StatusesAgree(s, half)
    requires IsFull(s, read.id) ==> s.hashes[read.id].job.queue == read.queue
    ensures StatusesAgree(DeletePipeline(s, read), half) <==>
            (IsFull(s, read.id) ==> IndexStatus(s, half, read.id) == read.status)
  {
    var s' := DeletePipeline(s, read);
    if IsFull(s, read.id) && IndexStatus(s, half, read.id) != read.status {
      var st := IndexStatus(s, half, read.id);
      assert StatusAgreesAt(s, half, read.queue, st, read.id);
      assert !StatusAgreesAt(s', half, read.queue, st, read.id);
    } else {
      forall q, st, x ensures StatusAgreesAt(s', half, q, st, x) {
        assert StatusAgreesAt(s, half, q, st, x);
      }
    }
  }
}
