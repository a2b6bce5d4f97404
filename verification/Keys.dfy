/** The names of the Redis keys, and why no two of them can be confused. */
module Keys {
  import opened Options

  const JOB_PREFIX: string := "job:"
  const QUEUE_PREFIX: string := "queue:"
  const STATUS_PREFIX: string := "status:queue:"

  function JobKey(id: string): string { JOB_PREFIX + id }

  function QueueKey(queue: string): string { QUEUE_PREFIX + queue }

  function StatusKey(queue: string, status: string): string { STATUS_PREFIX + queue + ":" + status }

  /** How the reserve script names a status set, from the sorted set's key. */
  function ScriptStatusKey(sortedSetKey: string, status: string): string {
    "status:" + sortedSetKey + ":" + status
  }

  /** How the reserve script names a job hash, from the prefix it is passed. */
  function ScriptJobKey(prefix: string, id: string): string { prefix + id }

  /** What a key stands for. */
  datatype KeyRef = JobRef(id: string) | QueueRef(queue: string) | StatusRef(queue: string, status: string)

  predicate ColonFree(s: string) {
    forall i | 0 <= i < |s| :: s[i] != ':'
  }

  function LastColon(s: string): Option<nat> {
    if s == "" then None
    else if s[|s| - 1] == ':' then Some(|s| - 1)
    else LastColon(s[..|s| - 1])
  }

  /** Reads a key back: the prefix tells the family, `key[4:]` and `key[6:]` the name, and the
      last colon splits a queue from a status. */
  function DecodeKey(key: string): Option<KeyRef> {
    if JOB_PREFIX <= key then Some(JobRef(key[4..]))
    else if QUEUE_PREFIX <= key then Some(QueueRef(key[6..]))
    else if STATUS_PREFIX <= key then
      var rest := key[13..];
      match LastColon(rest)
      case None => None
      case Some(i) => if i < |rest| then Some(StatusRef(rest[..i], rest[i + 1..])) else None
    else None
  }

  lemma {:induction false} LastColonOf(prefix: string, suffix: string)
    requires ColonFree(suffix)
    ensures LastColon(prefix + ":" + suffix) == Some(|prefix|)
  {
    var s := prefix + ":" + suffix;
    if suffix == "" {
      assert s == prefix + ":";
    } else {
      var init := suffix[..|suffix| - 1];
      assert s[..|s| - 1] == prefix + ":" + init;
      LastColonOf(prefix, init);
      assert s[|s| - 1] == suffix[|suffix| - 1];
    }
  }

  /** Every key the backend builds reads back as what it was built from. Hence the three
      families are disjoint and each builder is injective, even for queue names that contain
      colons, as long as statuses contain none. */
  lemma KeysDecode(id: string, queue: string, status: string)
    ensures DecodeKey(JobKey(id)) == Some(JobRef(id))
    ensures DecodeKey(QueueKey(queue)) == Some(QueueRef(queue))
    ensures ColonFree(status) ==> DecodeKey(StatusKey(queue, status)) == Some(StatusRef(queue, status))
  {
    assert JobKey(id)[4..] == id;
    var q := QueueKey(queue);
    assert q[0] == 'q' && q[6..] == queue;
    var k := StatusKey(queue, status);
    var rest := queue + ":" + status;
    assert k == STATUS_PREFIX + rest;
    assert k[0] == 's' && k[13..] == rest;
    if ColonFree(status) {
      LastColonOf(queue, status);
      assert rest[..|queue|] == queue;
      assert rest[|queue| + 1..] == status;
    }
  }

  /** Colon-free statuses are needed: with a colon in the status, two different (queue, status)
      pairs share one key. */
  lemma ColonsCollide(queue: string, a: string, b: string)
    ensures StatusKey(queue + ":" + a, b) == StatusKey(queue, a + ":" + b)
    ensures queue + ":" + a != queue
  {
    assert |queue + ":" + a| > |queue|;
  }

  /** The Lua scripts and the Go code name the same keys. */
  lemma ScriptsAgree(queue: string, status: string, id: string)
    ensures ScriptStatusKey(QueueKey(queue), status) == StatusKey(queue, status)
    ensures ScriptJobKey(JOB_PREFIX, id) == JobKey(id)
    ensures JobKey(id)[4..] == id && QueueKey(queue)[6..] == queue
    ensures JobKey(id) == "job:" + id && QueueKey(queue) == "queue:" + queue
    ensures StatusKey(queue, status) == "status:queue:" + queue + ":" + status
  {
    assert STATUS_PREFIX == "status:" + QUEUE_PREFIX;
  }

  // ---------- Listing by pattern ----------

  /** `KEYS p*` followed by cutting the prefix off, as the listing code does. */
  function NamesUnder(keys: set<string>, prefix: string): set<string> {
    set key | key in keys && prefix <= key :: key[|prefix|..]
  }

  /** Scanning `queue:*` and `job:*` and slicing finds exactly the names stored under that
      family, never a status key or a name of the other family. */
  lemma ListingByPattern(ids: set<string>, queues: set<string>, statuses: set<(string, string)>)
    ensures var keys := (set id | id in ids :: JobKey(id))
                        + (set q | q in queues :: QueueKey(q))
                        + (set p | p in statuses :: StatusKey(p.0, p.1));
            && NamesUnder(keys, JOB_PREFIX) == ids
            && NamesUnder(keys, QUEUE_PREFIX) == queues
  {
    var keys := (set id | id in ids :: JobKey(id))
                + (set q | q in queues :: QueueKey(q))
                + (set p | p in statuses :: StatusKey(p.0, p.1));
    forall id ensures JobKey(id)[4..] == id && JobKey(id)[0] == 'j' { }
    forall q: string ensures QueueKey(q)[6..] == q && QueueKey(q)[0] == 'q' { }
    forall q, s ensures StatusKey(q, s)[0] == 's' { }
    forall id | id in ids ensures id in NamesUnder(keys, JOB_PREFIX) {
      assert JobKey(id) in keys;
    }
    forall q | q in queues ensures q in NamesUnder(keys, QUEUE_PREFIX) {
      assert QueueKey(q) in keys;
    }
  }
}
