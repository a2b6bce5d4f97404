/** The Redis side as values: the keyspace, and what each script and each pipeline makes of it.
    Every script and every pipeline is one atomic step. Instants are whole seconds. */
module RedisStore {
  import opened Options
  import opened Jobs

  type DoneStatus = s: Status | s == Completed || s == Dead witness Completed

  /** A job hash. HSET on a key that is not there creates a hash with only the fields it was
      given: acking, or dead-lettering, a job that has been deleted leaves such a remnant. */
  datatype Entry =
    | Full(job: Job)
    | Remnant(status: DoneStatus, completedAt: Option<int>, updatedAt: int)

  /** `hashes` holds the job:* family, `zsets` the queue:* sorted sets (member to score), and
      `sets` the status:queue:*:* sets. A missing key and an empty collection are the same. */
  datatype Store = Store(
    hashes: map<string, Entry>,
    zsets: map<string, map<string, int>>,
    sets: map<(string, Status), set<string>>
  )

  const EMPTY := Store(map[], map[], map[])

  function ZSet(s: Store, queue: string): map<string, int> {
    if queue in s.zsets then s.zsets[queue] else map[]
  }

  function SSet(s: Store, queue: string, status: Status): set<string> {
    if (queue, status) in s.sets then s.sets[(queue, status)] else {}
  }

  // ---------- Commands ----------

  function ZAdd(s: Store, queue: string, id: string, score: int): (r: Store)
  {
    s.(zsets := s.zsets[queue := ZSet(s, queue)[id := score]])
  }

  function ZRem(s: Store, queue: string, id: string): (r: Store)
  {
    s.(zsets := s.zsets[queue := ZSet(s, queue) - {id}])
  }

  function SAdd(s: Store, queue: string, status: Status, id: string): (r: Store)
  {
    s.(sets := s.sets[(queue, status) := SSet(s, queue, status) + {id}])
  }

  function SRem(s: Store, queue: string, status: Status, id: string): (r: Store)
  {
    s.(sets := s.sets[(queue, status) := SSet(s, queue, status) - {id}])
  }

  function Put(s: Store, id: string, e: Entry): (r: Store)
  {
    s.(hashes := s.hashes[id := e])
  }

  function Del(s: Store, id: string): (r: Store)
  {
    s.(hashes := s.hashes - {id})
  }

  /** The byte order in which a sorted set lists members of equal score. */
  predicate StringLeq(a: string, b: string) {
    a == "" || (b != "" && (a[0] < b[0] || (a[0] == b[0] && StringLeq(a[1..], b[1..]))))
  }

  predicate ZBefore(z: map<string, int>, a: string, b: string)
    requires a in z && b in z
  {
    z[a] < z[b] || (z[a] == z[b] && StringLeq(a, b))
  }

  predicate IsFirstReady(z: map<string, int>, now: int, id: string) {
    && id in z && z[id] <= now
    && forall other | other in z && z[other] <= now :: ZBefore(z, id, other)
  }

  predicate NoneReady(z: map<string, int>, now: int) {
    forall id | id in z :: z[id] > now
  }

  lemma {:induction false} StringLeqTotal(a: string, b: string)
    ensures StringLeq(a, b) || StringLeq(b, a)
    ensures StringLeq(a, b) && StringLeq(b, a) ==> a == b
  {
    if a != "" && b != "" {
      StringLeqTotal(a[1..], b[1..]);
      assert a == [a[0]] + a[1..] && b == [b[0]] + b[1..];
    }
  }

  lemma {:induction false} StringLeqTransitive(a: string, b: string, c: string)
    requires StringLeq(a, b) && StringLeq(b, c)
    ensures StringLeq(a, c)
  {
    if a != "" && a[0] == b[0] == c[0] {
      StringLeqTransitive(a[1..], b[1..], c[1..]);
    }
  }

  /** `a` comes first: it is a prefix of `b`, or has the smaller character at the first place where
      they differ. */
  ghost predicate BytesBefore(a: string, b: string) {
    a <= b || exists i :: DiffersAt(a, b, i) && a[i] < b[i]
  }

  predicate DiffersAt(a: string, b: string, i: int) {
    0 <= i < |a| && i < |b| && a[..i] == b[..i] && a[i] != b[i]
  }

  lemma {:induction false} StringLeqIs(a: string, b: string)
    ensures StringLeq(a, b) <==> BytesBefore(a, b)
  {
    if a == "" {
    } else if b == "" || a[0] != b[0] {
      if b != "" {
        assert DiffersAt(a, b, 0);
        assert forall i :: DiffersAt(a, b, i) && i > 0 ==> a[..i][0] == b[..i][0];
      }
    } else {
      StringLeqIs(a[1..], b[1..]);
      assert a == [a[0]] + a[1..] && b == [b[0]] + b[1..];
      forall i | DiffersAt(a[1..], b[1..], i) ensures DiffersAt(a, b, i + 1) {
        assert a[..i + 1] == [a[0]] + a[1..][..i] && b[..i + 1] == [b[0]] + b[1..][..i];
      }
      forall i | DiffersAt(a, b, i) ensures i > 0 && DiffersAt(a[1..], b[1..], i - 1) {
        assert a[1..][..i - 1] == a[..i][1..] && b[1..][..i - 1] == b[..i][1..];
      }
    }
  }

  lemma ZBeforeTransitive(z: map<string, int>, a: string, b: string, c: string)
    requires a in z && b in z && c in z && ZBefore(z, a, b) && ZBefore(z, b, c)
    ensures ZBefore(z, a, c)
  {
    if z[a] == z[b] == z[c] {
      StringLeqTransitive(a, b, c);
    }
  }

  lemma {:induction false} FirstReadyExists(z: map<string, int>, now: int)
    ensures NoneReady(z, now) || exists id :: IsFirstReady(z, now, id)
    decreases |z|
  {
    if x :| x in z && z[x] <= now {
      var rest := z - {x};
      assert rest.Keys == z.Keys - {x};
      assert |rest| < |z|;
      FirstReadyExists(rest, now);
      StringLeqTotal(x, x);
      if NoneReady(rest, now) {
        forall other | other in z && z[other] <= now ensures ZBefore(z, x, other) {
          assert other != x ==> other in rest;
        }
        assert IsFirstReady(z, now, x);
      } else {
        var y :| IsFirstReady(rest, now, y);
        StringLeqTotal(x, y);
        var first := if ZBefore(z, x, y) then x else y;
        forall other | other in z && z[other] <= now ensures ZBefore(z, first, other) {
          if other != x {
            assert other in rest && ZBefore(rest, y, other);
            if first == x { ZBeforeTransitive(z, x, y, other); }
          }
        }
        assert IsFirstReady(z, now, first);
      }
    }
  }

  lemma FirstReadyUnique(z: map<string, int>, now: int, a: string, b: string)
    requires IsFirstReady(z, now, a) && IsFirstReady(z, now, b)
    ensures a == b
  {
    StringLeqTotal(a, b);
  }

  /** ZRANGEBYSCORE key -inf now LIMIT 0 1 */
  ghost function FirstReady(z: map<string, int>, now: int): (r: Option<string>)
    ensures r.None? <==> NoneReady(z, now)
    ensures r.Some? ==> IsFirstReady(z, now, r.value)
  {
    FirstReadyExists(z, now);
    if NoneReady(z, now) then None
    else
      var id :| IsFirstReady(z, now, id);
      Some(id)
  }

  /** It comes before all other ready members by score, and by its bytes among equal scores. */
  lemma FirstReadyInBytes(z: map<string, int>, now: int, id: string)
    requires FirstReady(z, now).Some? && id in z && z[id] <= now
    ensures var first := FirstReady(z, now).value;
            && first in z && z[first] <= now
            && (z[first] < z[id] || (z[first] == z[id] && BytesBefore(first, id)))
  {
    StringLeqIs(FirstReady(z, now).value, id);
  }

  // ---------- What is stored of a job ----------

  /** The twelve fields Enqueue writes. The two optional instants are not among them, so a hash
      that is already there keeps its own. */
  function EnqueuedEntry(s: Store, job: Job): Entry {
    var row := ToRow(job, SECOND);
    if job.id !in s.hashes then Full(row.(completedAt := None, failedAt := None))
    else match s.hashes[job.id]
      case Full(was) => Full(row.(completedAt := was.completedAt, failedAt := was.failedAt))
      case Remnant(_, completedAt, _) => Full(row.(completedAt := completedAt, failedAt := None))
  }

  predicate IsFull(s: Store, id: string) {
    id in s.hashes && s.hashes[id].Full?
  }

  predicate IsPending(s: Store, id: string) {
    IsFull(s, id) && s.hashes[id].job.status == Pending
  }

  /** The plain job table behind the hashes. */
  function TableOf(s: Store): Table {
    map id | id in s.hashes && s.hashes[id].Full? :: s.hashes[id].job
  }

  /** An optional instant is only read back when it is positive. */
  function Positive(t: Option<int>): Option<int> {
    if t.Some? && t.value > 0 then t else None
  }

  /** 0001-01-01 in Unix seconds: the instant of a field that is not there. */
  const ZERO_TIME: int := -62_135_596_800

  /** The job the backend reads from a hash. */
  function View(e: Entry): Job {
    match e
    case Full(j) => j.(completedAt := Positive(j.completedAt), failedAt := Positive(j.failedAt))
    case Remnant(status, completedAt, updatedAt) =>
      Job("", "", "", "", status, 0, 0, 0, ZERO_TIME, ZERO_TIME, updatedAt, Positive(completedAt), None, "")
  }

  // ---------- Pipelines and scripts ----------

  function EnqueuePipeline(s: Store, job: Job): Store {
    var s1 := Put(s, job.id, EnqueuedEntry(s, job));
    var s2 := ZAdd(s1, job.queue, job.id, Ticks(job.scheduledAt, SECOND));
    SAdd(s2, job.queue, job.status, job.id)
  }

  /** Returns the claimed job, or nothing when none is ready or the first ready entry was stale
      (and is now gone). */
  ghost function ReserveScript(s: Store, queue: string, now: int): (r: (Store, Option<Job>)) {
    match FirstReady(ZSet(s, queue), now)
    case None => (s, None)
    case Some(id) =>
      if !IsPending(s, id) then (ZRem(s, queue, id), None)
      else
        var e := Full(ReservedRow(s.hashes[id].job, now));
        var s1 := ZRem(Put(s, id, e), queue, id);
        (SRem(SAdd(s1, queue, Running, id), queue, Pending, id), Some(View(e)))
  }

  /** First round trip of Ack: HGET queue, then HSET, which also writes when nothing is there. */
  function AckFirst(s: Store, id: string, now: int): (r: (Store, Option<string>)) {
    if IsFull(s, id)
    then (Put(s, id, Full(AckedRow(s.hashes[id].job, now))), Some(s.hashes[id].job.queue))
    else (Put(s, id, Remnant(Completed, Some(now), now)), None)
  }

  /** Second round trip of Ack. */
  function AckSecond(s: Store, queue: string, id: string): Store {
    SAdd(SRem(s, queue, Running, id), queue, Completed, id)
  }

  /** What Nack reads in its first round trip. */
  datatype NackRead = NackRead(attempts: int, maxAttempts: int, queue: string)

  /** HGETALL; a missing hash, or one without an attempts field, is an error. */
  function ReadForNack(s: Store, id: string): Option<NackRead> {
    if IsFull(s, id)
    then var j := s.hashes[id].job; Some(NackRead(j.attempts, j.maxAttempts, j.queue))
    else None
  }

  /** The nack script, on the values read earlier. It writes nothing for a hash without an id
      field. */
  function NackScript(s: Store, id: string, read: NackRead, err: string, now: int, retryAt: int): Store {
    if !IsFull(s, id) then s
    else
      var n := NackWrite(s.hashes[id].job, read.attempts, read.maxAttempts, err, now, retryAt);
      var s1 := SRem(Put(s, id, Full(n)), read.queue, Running, id);
      if read.attempts + 1 >= read.maxAttempts
      then SAdd(s1, read.queue, Dead, id)
      else SAdd(ZAdd(s1, read.queue, id, retryAt), read.queue, Pending, id)
  }

  /** The pipeline of MoveToDLQ, for the queue read before it. */
  function DeadPipeline(s: Store, id: string, queue: string, now: int): Store {
    var e :=
      if id !in s.hashes then Remnant(Dead, None, now)
      else match s.hashes[id]
        case Full(j) => Full(DeadRow(j, now))
        case Remnant(_, completedAt, _) => Remnant(Dead, completedAt, now);
    var s1 := ZRem(Put(s, id, e), queue, id);
    SAdd(SRem(SRem(s1, queue, Running, id), queue, Failed, id), queue, Dead, id)
  }

  /** What DeleteJob reads in its first round trip. */
  datatype DeleteRead = DeleteRead(id: string, queue: string, status: Status)

  function ReadForDelete(s: Store, id: string): Option<DeleteRead> {
    if id !in s.hashes then None
    else match s.hashes[id]
      case Full(j) => Some(DeleteRead(id, j.queue, j.status))
      case Remnant(status, _, _) => Some(DeleteRead(id, "", status))
  }

  /** The pipeline of DeleteJob, on the queue and status read earlier. */
  function DeletePipeline(s: Store, read: DeleteRead): Store {
    SRem(ZRem(Del(s, read.id), read.queue, read.id), read.queue, read.status, read.id)
  }

  // ---------- Agreement of the indexes with the table ----------

  /** A queue's sorted set holds exactly its pending jobs, at their scheduled instants. */
  ghost predicate QueuesAgree(s: Store) {
    && (forall q, id :: QueueAgreesAt(s, q, id))
    && (forall id | IsFull(s, id) :: s.hashes[id].job.id == id)
  }

  predicate QueueAgreesAt(s: Store, q: string, id: string) {
    && (id in ZSet(s, q) <==> IsPending(s, id) && s.hashes[id].job.queue == q)
    && (id in ZSet(s, q) && IsPending(s, id) ==> ZSet(s, q)[id] == s.hashes[id].job.scheduledAt)
  }

  /** The status set a job should be in: the one of its status, except that between the two
      round trips of Ack (`half`) it is still among the running ones. */
  function IndexStatus(s: Store, half: set<string>, id: string): Status
    requires IsFull(s, id)
  {
    if id in half then Running else s.hashes[id].job.status
  }

  /** Every job is in exactly the status set it should be in. */
  ghost predicate StatusesAgree(s: Store, half: set<string>) {
    forall q, st, id :: StatusAgreesAt(s, half, q, st, id)
  }

  predicate StatusAgreesAt(s: Store, half: set<string>, q: string, st: Status, id: string) {
    id in SSet(s, q, st) <==> IsFull(s, id) && s.hashes[id].job.queue == q && IndexStatus(s, half, id) == st
  }

  ghost predicate Agrees(s: Store) {
    QueuesAgree(s) && StatusesAgree(s, {})
  }
}
