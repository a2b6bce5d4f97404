/** The order in which Postgres hands out jobs, and what Redis makes of it. */
module PostgresOrder {
  import opened Jobs

  /** ORDER BY priority DESC, scheduled_at ASC: `a` may come before `b`. */
  predicate Better(a: Job, b: Job) {
    a.priority > b.priority || (a.priority == b.priority && a.scheduledAt <= b.scheduledAt)
  }

  /** LIMIT 1 of the eligible rows that are not locked: any row that ties for first. */
  ghost predicate PgPick(table: Table, locked: set<string>, queue: string, t: int, id: string) {
    && id in EligibleIds(table, queue, t) - locked
    && forall other | other in EligibleIds(table, queue, t) - locked :: Better(table[id], table[other])
  }

  ghost predicate IsBest(table: Table, ids: set<string>, id: string)
    requires ids <= table.Keys
  {
    id in ids && forall other | other in ids :: Better(table[id], table[other])
  }

  lemma {:induction false} BestExists(table: Table, ids: set<string>) returns (best: string)
    requires ids <= table.Keys && ids != {}
    ensures IsBest(table, ids, best)
  {
    var x :| x in ids;
    var rest := ids - {x};
    if rest == {} {
      assert ids == {x};
      best := x;
    } else {
      var y := BestExists(table, rest);
      best := if Better(table[x], table[y]) then x else y;
      forall other | other in ids ensures Better(table[best], table[other]) {
        assert other == x || other in rest;
      }
    }
  }

  // ---------- Draining ----------

  /** `picks` is what repeated Reserve calls at a fixed instant claim, until none is left. */
  ghost predicate PgDrain(table: Table, queue: string, t: int, picks: seq<string>)
    decreases |picks|
  {
    if picks == [] then EligibleIds(table, queue, t) == {}
    else
      && PgPick(table, {}, queue, t, picks[0])
      && PgDrain(table[picks[0] := ReservedRow(table[picks[0]], t)], queue, t, picks[1..])
  }

  /** Distinct rows, each at least as good as all later ones. */
  ghost predicate InPgOrder(table: Table, picks: seq<string>) {
    && (forall id | id in picks :: id in table)
    && (forall i, k | 0 <= i < k < |picks| :: picks[i] != picks[k] && Better(table[picks[i]], table[picks[k]]))
  }

  lemma FirstInPgOrder(table: Table, first: string, rest: seq<string>)
    requires InPgOrder(table, rest) && first in table && first !in rest
    requires forall id | id in rest :: Better(table[first], table[id])
    ensures InPgOrder(table, [first] + rest)
  {
    var picks := [first] + rest;
    forall i, k | 0 <= i < k < |picks|
      ensures picks[i] != picks[k] && Better(table[picks[i]], table[picks[k]])
    {
      assert picks[k] == rest[k - 1] && picks[k] in rest;
      if i > 0 { assert picks[i] == rest[i - 1]; }
    }
  }

  lemma PrependPgPick(table: Table, table': Table, queue: string, t: int, picks: seq<string>)
    requires picks != [] && PgPick(table, {}, queue, t, picks[0])
    requires table' == table[picks[0] := ReservedRow(table[picks[0]], t)]
    requires forall id :: id in picks[1..] <==> id in EligibleIds(table', queue, t)
    requires InPgOrder(table', picks[1..])
    ensures forall id :: id in picks <==> id in EligibleIds(table, queue, t)
    ensures InPgOrder(table, picks)
  {
    var first, rest := picks[0], picks[1..];
    assert EligibleIds(table', queue, t) == EligibleIds(table, queue, t) - {first};
    assert InPgOrder(table, rest);
    FirstInPgOrder(table, first, rest);
    assert picks == [first] + rest;
  }

  /** Draining a queue claims exactly the eligible jobs, each once, by priority descending and
      then by scheduled instant. */
  lemma PgDrainSorted(table: Table, queue: string, t: int, picks: seq<string>)
    requires PgDrain(table, queue, t, picks)
    ensures forall id :: id in picks <==>
                         id in table && table[id].queue == queue && table[id].status == Pending
                         && table[id].scheduledAt <= t
    ensures InPgOrder(table, picks)
    ensures forall i, k | 0 <= i < k < |picks| ::
              var a, b := table[picks[i]], table[picks[k]];
              a.priority > b.priority || (a.priority == b.priority && a.scheduledAt <= b.scheduledAt)
  {
    PgDrainInOrder(table, queue, t, picks);
    assert forall id :: id in picks <==> id in EligibleIds(table, queue, t);
  }

  lemma {:induction false} PgDrainInOrder(table: Table, queue: string, t: int, picks: seq<string>)
    requires PgDrain(table, queue, t, picks)
    ensures forall id :: id in picks <==> id in EligibleIds(table, queue, t)
    ensures InPgOrder(table, picks)
    decreases |picks|
  {
    if picks != [] {
      var table' := table[picks[0] := ReservedRow(table[picks[0]], t)];
      PgDrainInOrder(table', queue, t, picks[1..]);
      PrependPgPick(table, table', queue, t, picks);
    }
  }

  /** There is a drain of every queue at every instant. */
  lemma {:induction false} PgDrainExists(table: Table, queue: string, t: int) returns (picks: seq<string>)
    ensures PgDrain(table, queue, t, picks)
    decreases |EligibleIds(table, queue, t)|
  {
    var eligible := EligibleIds(table, queue, t);
    if eligible == {} {
      picks := [];
    } else {
      var best := BestExists(table, eligible);
      var table' := table[best := ReservedRow(table[best], t)];
      assert EligibleIds(table', queue, t) == eligible - {best};
      var rest := PgDrainExists(table', queue, t);
      picks := [best] + rest;
      assert picks[1..] == rest;
    }
  }

  /** No duplicates and the same elements: the drain is a permutation of the eligible jobs. */
  lemma PgDrainCounts(table: Table, queue: string, t: int, picks: seq<string>)
    requires PgDrain(table, queue, t, picks)
    ensures multiset(picks) == multiset(EligibleIds(table, queue, t))
  {
    PgDrainSorted(table, queue, t, picks);
    DistinctMultiset(picks);
    forall id ensures multiset(picks)[id] == multiset(EligibleIds(table, queue, t))[id] {
      assert id in picks <==> id in multiset(picks);
    }
  }

  lemma {:induction false} DistinctMultiset(picks: seq<string>)
    requires forall i, k | 0 <= i < k < |picks| :: picks[i] != picks[k]
    ensures forall id :: multiset(picks)[id] <= 1
  {
    if picks != [] {
      DistinctMultiset(picks[1..]);
      assert picks == [picks[0]] + picks[1..];
      assert picks[0] !in multiset(picks[1..]);
    }
  }
}

/** Redis and Postgres side by side. */
module CrossBackend {
  import opened Options
  import opened Jobs
  import opened RedisStore
  import opened RedisIndexes
  import opened PostgresOrder

  /** The script hands out the row that is first by (scheduled_at, id). It is one Postgres could
      hand out exactly when no eligible job has a higher priority: Redis ignores priorities. */
  lemma RedisPickIsPgPick(s: Store, queue: string, now: int, id: string)
    requires QueuesAgree(s) && RedisPick(TableOf(s), queue, now, id)
    ensures var t, r := TableOf(s), ReserveScript(s, queue, now).1;
            && r.Some? && r.value.id == id
            && (PgPick(t, {}, queue, now, id) <==>
                forall other | other in EligibleIds(t, queue, now) :: t[other].priority <= t[id].priority)
  {
    ReserveRefines(s, queue, now, {});
    var first := ReserveScript(s, queue, now).1.value.id;
    assert IsFull(s, first) && IsFull(s, id);
    StringLeqTotal(first, id);
  }

  /** Such a job can be there: of two fresh jobs that are due, Redis hands out the earlier one,
      and Postgres would not if the later one has a higher priority. */
  lemma PrioritiesIgnored(a: Job, b: Job, now: int)
    requires IsFresh(a) && IsFresh(b) && a.id != b.id && a.queue == b.queue
    requires RedisBefore(ToRow(a, SECOND), ToRow(b, SECOND)) && a.priority < b.priority
    requires b.scheduledAt <= now && a.scheduledAt <= now
    ensures var s := EnqueuePipeline(EnqueuePipeline(EMPTY, a), b);
            var r := ReserveScript(s, a.queue, Ticks(now, SECOND)).1;
            && Agrees(s) && r.Some? && r.value.id == a.id
            && !PgPick(TableOf(s), {}, a.queue, Ticks(now, SECOND), a.id)
  {
    var t, s1 := Ticks(now, SECOND), EnqueuePipeline(EMPTY, a);
    var s := EnqueuePipeline(s1, b);
    forall q, id ensures QueueAgreesAt(EMPTY, q, id) { }
    forall q, st, id ensures StatusAgreesAt(EMPTY, {}, q, st, id) { }
    EnqueueRefines(EMPTY, a, {});
    EnqueueRefines(s1, b, {});
    TwoRows(a, b, TableOf(s));
    TicksMonotone(a.scheduledAt, now, SECOND);
    TicksMonotone(b.scheduledAt, now, SECOND);
    StringLeqTotal(a.id, a.id);
    assert RedisPick(TableOf(s), a.queue, t, a.id);
    RedisPickIsPgPick(s, a.queue, t, a.id);
    assert b.id in EligibleIds(TableOf(s), a.queue, t);
  }

  lemma TwoRows(a: Job, b: Job, t: Table)
    requires IsFresh(a) && IsFresh(b) && a.id != b.id
    requires t == TableOf(EMPTY)[a.id := ToRow(a, SECOND).(completedAt := None, failedAt := None)]
                                [b.id := ToRow(b, SECOND).(completedAt := None, failedAt := None)]
    ensures t == map[a.id := ToRow(a, SECOND), b.id := ToRow(b, SECOND)]
  {
    assert ToRow(a, SECOND).(completedAt := None, failedAt := None) == ToRow(a, SECOND);
    assert ToRow(b, SECOND).(completedAt := None, failedAt := None) == ToRow(b, SECOND);
  }

  /** With equal priorities in the queue, every Redis choice is a Postgres choice. */
  lemma EqualPrioritiesAgree(s: Store, queue: string, now: int, priority: int)
    requires QueuesAgree(s)
    requires forall id | id in EligibleIds(TableOf(s), queue, now) :: TableOf(s)[id].priority == priority
    ensures var r := ReserveScript(s, queue, now).1;
            if r.None? then EligibleIds(TableOf(s), queue, now) == {}
            else PgPick(TableOf(s), {}, queue, now, r.value.id)
  {
    ReserveRefines(s, queue, now, {});
    if ReserveScript(s, queue, now).1.Some? {
      RedisPickIsPgPick(s, queue, now, ReserveScript(s, queue, now).1.value.id);
    }
  }
}
