/** What a Redis listing starts from, against what the backend interface documents: an empty
    queue name means all queues, and an empty status means any status. */
module RedisListing {
  import opened Jobs
  import opened RedisStore
  import opened HashCodec
  import Keys

  /** SMEMBERS, by the name of the key. */
  ghost function MembersOf(s: Store, key: string): set<string> {
    set p, id | p in s.sets && id in s.sets[p] && Keys.StatusKey(p.0, StatusName(p.1)) == key :: id
  }

  /** The ids that ListJobs collects: from a status set if a status is given, else from the
      queue's sorted set if a queue is given, else from all job hashes. */
  ghost function ListedIds(s: Store, queue: string, status: string): set<string> {
    if status != "" then MembersOf(s, Keys.StatusKey(queue, status))
    else if queue != "" then ZSet(s, queue).Keys
    else s.hashes.Keys
  }

  /** The jobs the interface promises. */
  function Promised(t: Table, queue: string, status: string): set<string> {
    set id | id in t && (queue == "" || t[id].queue == queue) && (status == "" || StatusName(t[id].status) == status)
  }

  /** A status set is found by its key alone, so its jobs are those whose own queue and status
      spell that key. */
  lemma MembersBySpelling(s: Store, key: string, id: string)
    requires Agrees(s)
    ensures id in MembersOf(s, key) <==>
            IsFull(s, id) && var j := s.hashes[id].job; Keys.StatusKey(j.queue, StatusName(j.status)) == key
  {
    if id in MembersOf(s, key) {
      var p :| p in s.sets && id in s.sets[p] && Keys.StatusKey(p.0, StatusName(p.1)) == key;
      assert StatusAgreesAt(s, {}, p.0, p.1, id);
    }
    if IsFull(s, id) {
      var j := s.hashes[id].job;
      assert StatusAgreesAt(s, {}, j.queue, j.status, id);
      assert (j.queue, j.status) in s.sets;
    }
  }

  lemma SameQueueSpelling(queue: string, a: string, b: string)
    ensures Keys.StatusKey(queue, a) == Keys.StatusKey(queue, b) <==> a == b
  {
    var prefix := Keys.STATUS_PREFIX + queue + ":";
    assert Keys.StatusKey(queue, a)[|prefix|..] == a;
    assert Keys.StatusKey(queue, b)[|prefix|..] == b;
  }

  /** With a queue and a status, the listing is the promised one if and only if no job of another
      queue is filed under a key spelled the same. */
  lemma ListsQueueAndStatus(s: Store, queue: string, status: string)
    requires Agrees(s) && queue != "" && status != ""
    ensures ListedIds(s, queue, status) == Promised(TableOf(s), queue, status) <==>
            forall id | id in TableOf(s) && TableOf(s)[id].queue != queue ::
              Keys.StatusKey(TableOf(s)[id].queue, StatusName(TableOf(s)[id].status)) != Keys.StatusKey(queue, status)
  {
    var t := TableOf(s);
    forall id
      ensures id in ListedIds(s, queue, status) <==>
              id in t && Keys.StatusKey(t[id].queue, StatusName(t[id].status)) == Keys.StatusKey(queue, status)
    {
      MembersBySpelling(s, Keys.StatusKey(queue, status), id);
    }
    forall id | id in t && t[id].queue == queue
      ensures id in ListedIds(s, queue, status) <==> id in Promised(t, queue, status)
    {
      SameQueueSpelling(queue, StatusName(t[id].status), status);
    }
  }

  /** A status that ends in a colon and the name of a status. */
  ghost predicate Misleading(status: string) {
    exists prefix: string, st: Status :: status == prefix + ":" + StatusName(st)
  }

  /** Only a misleading status makes two queues share a key. */
  lemma SharedKeyMisleads(other: string, st: Status, queue: string, status: string)
    requires Keys.StatusKey(other, StatusName(st)) == Keys.StatusKey(queue, status) && other != queue
    ensures Misleading(status)
  {
    var name := StatusName(st);
    var rest := other + ":" + name;
    assert Keys.StatusKey(other, name) == Keys.STATUS_PREFIX + rest;
    assert Keys.StatusKey(queue, status) == Keys.STATUS_PREFIX + (queue + ":" + status);
    SameRest(rest, queue + ":" + status);
    assert rest == queue + ":" + status;
    assert rest[..|other|] == other && rest[..|queue|] == queue && rest[|queue|] == ':';
    assert |other| < |queue| ==> rest[|queue|] == name[|queue| - |other| - 1];
    StatusNameColonFree(st);
    assert |other| > |queue|;
    var prefix := other[|queue| + 1..];
    assert status == rest[|queue| + 1..];
    assert status == prefix + ":" + name;
  }

  lemma SameRest(a: string, b: string)
    requires Keys.STATUS_PREFIX + a == Keys.STATUS_PREFIX + b
    ensures a == b
  {
    assert (Keys.STATUS_PREFIX + a)[|Keys.STATUS_PREFIX|..] == a;
    assert (Keys.STATUS_PREFIX + b)[|Keys.STATUS_PREFIX|..] == b;
  }

  /** A store with one job in it. */
  function OneJob(job: Job): Store {
    Store(map[job.id := Full(job)],
          if job.status == Pending then map[job.queue := map[job.id := job.scheduledAt]] else map[],
          map[(job.queue, job.status) := {job.id}])
  }

  lemma OneJobAgrees(job: Job)
    ensures Agrees(OneJob(job))
  {
    var s := OneJob(job);
    forall q, id ensures QueueAgreesAt(s, q, id) { }
    forall q, st, id ensures StatusAgreesAt(s, {}, q, st, id) { }
  }

  ghost predicate ListsAsPromised(queue: string, status: string) {
    forall s: Store | Agrees(s) :: ListedIds(s, queue, status) == Promised(TableOf(s), queue, status)
  }

  /** What a caller can rely on: listing by queue and status is right, whatever is stored, if and
      only if the status does not end in a colon and the name of a status. */
  lemma ListingIsReliable(queue: string, status: string)
    requires queue != "" && status != ""
    ensures ListsAsPromised(queue, status) <==> !Misleading(status)
  {
    if prefix, st :| status == prefix + ":" + StatusName(st) {
      var job := NewJob("id", "type", queue + ":" + prefix, "{}", 0).(status := st);
      OneJobAgrees(job);
      ColonReachesOtherQueue(OneJob(job), queue, prefix, st, "id");
      assert ListedIds(OneJob(job), queue, status) != Promised(TableOf(OneJob(job)), queue, status);
    } else {
      forall s: Store | Agrees(s) ensures ListedIds(s, queue, status) == Promised(TableOf(s), queue, status) {
        ListsUnlessMisled(s, queue, status);
      }
    }
  }

  lemma ListsUnlessMisled(s: Store, queue: string, status: string)
    requires Agrees(s) && queue != "" && status != "" && !Misleading(status)
    ensures ListedIds(s, queue, status) == Promised(TableOf(s), queue, status)
  {
    var t := TableOf(s);
    forall id | id in t && t[id].queue != queue
      ensures Keys.StatusKey(t[id].queue, StatusName(t[id].status)) != Keys.StatusKey(queue, status)
    {
      if Keys.StatusKey(t[id].queue, StatusName(t[id].status)) == Keys.StatusKey(queue, status) {
        SharedKeyMisleads(t[id].queue, t[id].status, queue, status);
      }
    }
    ListsQueueAndStatus(s, queue, status);
  }

  /** With a queue and no status, exactly the pending jobs of the queue are listed. */
  lemma ListsPendingOnly(s: Store, queue: string)
    requires Agrees(s) && queue != ""
    ensures ListedIds(s, queue, "") == Promised(TableOf(s), queue, "pending")
    ensures ListedIds(s, queue, "") == Promised(TableOf(s), queue, "") <==>
            forall id | id in TableOf(s) && TableOf(s)[id].queue == queue :: TableOf(s)[id].status == Pending
  {
    var t := TableOf(s);
    forall id ensures id in ListedIds(s, queue, "") <==> id in Promised(t, queue, "pending") {
      assert QueueAgreesAt(s, queue, id);
      if IsFull(s, id) { StatusNamesDiffer(s.hashes[id].job.status, Pending); }
    }
    forall id | id in t && t[id].queue == queue && t[id].status != Pending
      ensures id in Promised(t, queue, "") && id !in Promised(t, queue, "pending")
    {
      StatusNamesDiffer(t[id].status, Pending);
    }
  }

  /** With a status and no queue the key has an empty queue name, under which no valid job is
      filed. The promise is kept only if there is nothing to promise and nothing to list; and
      nothing is listed unless the status is misleading. */
  lemma ListsNothingWithoutQueue(s: Store, status: string)
    requires Agrees(s) && AllValidate(TableOf(s)) && status != ""
    ensures ListedIds(s, "", status) == Promised(TableOf(s), "", status) <==>
            forall id | id in TableOf(s) ::
              && StatusName(TableOf(s)[id].status) != status
              && Keys.StatusKey(TableOf(s)[id].queue, StatusName(TableOf(s)[id].status)) != Keys.StatusKey("", status)
    ensures !Misleading(status) ==> ListedIds(s, "", status) == {}
  {
    var t := TableOf(s);
    forall id
      ensures id in ListedIds(s, "", status) <==>
              id in t && Keys.StatusKey(t[id].queue, StatusName(t[id].status)) == Keys.StatusKey("", status)
      ensures id in ListedIds(s, "", status) ==> StatusName(t[id].status) != status && Misleading(status)
    {
      MembersBySpelling(s, Keys.StatusKey("", status), id);
      if id in ListedIds(s, "", status) {
        SharedKeyMisleads(t[id].queue, t[id].status, "", status);
        NoQueueSpelling(t[id].queue, StatusName(t[id].status), status);
      }
    }
    assert forall id :: id in Promised(t, "", status) <==> id in t && StatusName(t[id].status) == status;
  }

  lemma NoQueueSpelling(queue: string, name: string, status: string)
    requires queue != "" && Keys.StatusKey(queue, name) == Keys.StatusKey("", status)
    ensures name != status
  {
    assert |Keys.StatusKey(queue, name)| == |Keys.STATUS_PREFIX| + |queue| + 1 + |name|;
    assert |Keys.StatusKey("", status)| == |Keys.STATUS_PREFIX| + 1 + |status|;
  }

  /** With neither, every hash is listed: all jobs, and the remnants of acked deleted ones. */
  lemma ListsRemnantsToo(s: Store)
    ensures ListedIds(s, "", "") == Promised(TableOf(s), "", "") <==> forall id | id in s.hashes :: s.hashes[id].Full?
  {
    if id :| id in s.hashes && !s.hashes[id].Full? {
      assert id in ListedIds(s, "", "") && id !in Promised(TableOf(s), "", "");
    }
  }

  /** A status with a colon in it reaches into another queue: the jobs of `queue:prefix` in
      status `st` are listed under `queue` and the status `prefix:st`. */
  lemma ColonReachesOtherQueue(s: Store, queue: string, prefix: string, st: Status, id: string)
    requires Agrees(s)
    requires IsFull(s, id) && s.hashes[id].job.queue == queue + ":" + prefix && s.hashes[id].job.status == st
    ensures id in ListedIds(s, queue, prefix + ":" + StatusName(st))
    ensures queue != "" ==> id !in Promised(TableOf(s), queue, prefix + ":" + StatusName(st))
  {
    Keys.ColonsCollide(queue, prefix, StatusName(st));
    MembersBySpelling(s, Keys.StatusKey(queue, prefix + ":" + StatusName(st)), id);
  }
}
