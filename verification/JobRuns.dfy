/** What holds over whole runs of the job protocol, whatever the interleaving. */
module JobRuns {
  import opened Options
  import opened Jobs
  import opened JobSystem

  // ---------- Exclusive claims and the number of tries ----------

  /** In every reachable state no job is held by two workers, and a held job that still exists
      is running at exactly the try its holder reserved. */
  lemma OneHolder(c: Config, run: seq<Sys>, steps: seq<Step>, i: nat, w1: nat, w2: nat)
    requires c.unit > 0 && IsRun(c, run, steps) && i < |run|
    requires w1 in run[i].held && w2 in run[i].held
    ensures w1 != w2 ==> run[i].held[w1].id != run[i].held[w2].id
    ensures var cl := run[i].held[w1];
            cl.id in run[i].table ==>
              run[i].table[cl.id].status == Running && run[i].table[cl.id].attempts == cl.attempts
  {
    RunInv(c, run, steps, i);
    var cl := run[i].held[w1];
    assert cl.id in run[i].table ==> Claims(cl, run[i].table[cl.id], run[i].hist[cl.id]);
  }

  /** A job has been reserved once per counted attempt, and once more while it runs or after it
      completed; only a dead job has used up its attempts. No job, deleted or not, is ever
      reserved more than max_attempts times. */
  lemma ReservationCounts(c: Config, run: seq<Sys>, steps: seq<Step>, i: nat, id: string)
    requires c.unit > 0 && IsRun(c, run, steps) && i < |run|
    requires id in run[i].hist
    ensures |run[i].hist[id].times| <= run[i].hist[id].maxAttempts
    ensures id in run[i].table ==>
              var j := run[i].table[id];
              && run[i].hist[id].maxAttempts == j.maxAttempts
              && |run[i].hist[id].times| == j.attempts + (if j.status == Running || j.status == Completed then 1 else 0)
              && (j.status == Dead <==> j.attempts == j.maxAttempts)
              && (j.status != Dead <==> j.attempts < j.maxAttempts)
  {
    RunInv(c, run, steps, i);
    assert HistInv(c, run[i].hist[id]);
    if id in run[i].table {
      assert JobInv(c, id, run[i].table[id], run[i].hist[id]);
    }
  }

  // ---------- What a try leaves behind ----------

  /** A job whose type has a handler is completed if that succeeds, and backed off if it fails.
      One without is sent back at once. */
  ghost predicate Delivered(c: Config, was: Job, row: Job, id: string, typ: string, n: int, at: int, unit: int)
    requires unit > 0
  {
    if typ !in c.handlers
    then FailedInto(was, row, "no handler registered for job type \"" + typ + "\"", 0, at, unit)
    else match c.handler(id, n)
      case Success =>
        row == was.(status := Completed, completedAt := Some(Ticks(at, unit)), updatedAt := Ticks(at, unit))
      case Failure(err) => FailedInto(was, row, err, c.nextDelay(n), at, unit)
  }

  /** The worker and the instant of an Ack or Nack. */
  predicate Delivers(step: Step, w: nat, at: int) {
    step == Ack(w, at) || step == Nack(w, at)
  }

  /** In every run an outcome is delivered to the row as the try it counts calls for. In particular
      a retry of a job without a handler is due at the instant of its Nack. */
  lemma DeliveredInRun(c: Config, run: seq<Sys>, steps: seq<Step>, i: nat, w: nat, at: int)
    requires c.unit > 0 && IsRun(c, run, steps) && i < |steps| && Delivers(steps[i], w, at)
    ensures w in run[i].held
    ensures var id := run[i].held[w].id;
            id in run[i].table ==>
              && id in run[i + 1].table
              && var was := run[i].table[id];
              Delivered(c, was, run[i + 1].table[id], id, was.typ, was.attempts + 1, at, c.unit)
  {
    RunInv(c, run, steps, i);
    assert Next(c, run[i], run[i + 1], steps[i]);
    var cl := run[i].held[w];
    if cl.id in run[i].table {
      assert Claims(cl, run[i].table[cl.id], run[i].hist[cl.id]);
      DeliveredInStep(c, run[i], run[i + 1], steps[i], w, at);
    }
  }

  lemma DeliveredInStep(c: Config, s: Sys, s': Sys, step: Step, w: nat, at: int)
    requires c.unit > 0 && Next(c, s, s', step) && Delivers(step, w, at) && s.held[w].id in s.table
    ensures var cl := s.held[w];
            && cl.id in s'.table
            && Delivered(c, s.table[cl.id], s'.table[cl.id], cl.id, cl.typ, cl.attempts + 1, at, c.unit)
  {
  }

  // ---------- The spacing of retries ----------

  /** NextDelay(1) + ... + NextDelay(n), for a job type with a handler. */
  function TotalDelay(c: Config, typ: string, n: nat): int {
    if n == 0 then 0 else TotalDelay(c, typ, n - 1) + c.Delay(typ, n)
  }

  /** Reservation n+1 of a job comes at least the sum of the first n delays after the first
      one, up to less than one column unit per retry. */
  lemma RetrySpacing(c: Config, run: seq<Sys>, steps: seq<Step>, i: nat, id: string, n: nat)
    requires c.unit > 0 && IsRun(c, run, steps) && i < |run|
    requires id in run[i].hist && n < |run[i].hist[id].times|
    ensures var h := run[i].hist[id];
            h.times[n] - h.times[0] >= TotalDelay(c, h.typ, n) - n * (c.unit - 1)
  {
    RunInv(c, run, steps, i);
    assert HistInv(c, run[i].hist[id]);
    SpacingSum(c, run[i].hist[id], n);
  }

  lemma {:induction false} SpacingSum(c: Config, h: History, n: nat)
    requires c.unit > 0 && Spaced(c, h) && n < |h.times|
    ensures h.times[n] - h.times[0] >= TotalDelay(c, h.typ, n) - n * (c.unit - 1)
  {
    if n > 0 {
      SpacingSum(c, h, n - 1);
      var due := h.times[n - 1] + c.Delay(h.typ, n);
      TickGap(due, h.times[n], c.unit);
      assert n * (c.unit - 1) == (n - 1) * (c.unit - 1) + (c.unit - 1);
    }
  }

  lemma TickGap(due: int, t: int, unit: int)
    requires unit > 0 && Ticks(due, unit) <= Ticks(t, unit)
    ensures t >= due - (unit - 1)
  {
    TicksTight(due, unit);
    TicksTight(t, unit);
    Scale(unit, Ticks(due, unit), Ticks(t, unit));
  }

  lemma Scale(unit: int, a: int, b: int)
    requires unit > 0 && a <= b
    ensures unit * a <= unit * b
  {
  }

  /** When every delay is a whole number of column units, the whole run loses less than one
      unit: no delay is lost if instants are read at the precision of the column. */
  lemma WholeUnitSpacing(c: Config, run: seq<Sys>, steps: seq<Step>, i: nat, id: string, n: nat)
    requires c.unit > 0 && IsRun(c, run, steps) && i < |run|
    requires id in run[i].hist && n < |run[i].hist[id].times|
    requires forall k | 1 <= k <= n :: c.nextDelay(k) % c.unit == 0
    ensures var h := run[i].hist[id];
            && c.unit * Ticks(h.times[n], c.unit) - c.unit * Ticks(h.times[0], c.unit) >= TotalDelay(c, h.typ, n)
            && h.times[n] - h.times[0] >= TotalDelay(c, h.typ, n) - (c.unit - 1)
  {
    RunInv(c, run, steps, i);
    var h := run[i].hist[id];
    assert HistInv(c, h);
    WholeUnitSum(c, h, n);
    TicksTight(h.times[n], c.unit);
    TicksTight(h.times[0], c.unit);
  }

  lemma {:induction false} WholeUnitSum(c: Config, h: History, n: nat)
    requires c.unit > 0 && Spaced(c, h) && n < |h.times|
    requires forall k | 1 <= k <= n :: c.nextDelay(k) % c.unit == 0
    ensures c.unit * Ticks(h.times[n], c.unit) - c.unit * Ticks(h.times[0], c.unit) >= TotalDelay(c, h.typ, n)
  {
    if n > 0 {
      WholeUnitSum(c, h, n - 1);
      var d := c.Delay(h.typ, n);
      assert d % c.unit == 0;
      TicksShift(h.times[n - 1], d, c.unit);
      Scale(c.unit, Ticks(h.times[n - 1] + d, c.unit), Ticks(h.times[n], c.unit));
    }
  }

  lemma TicksShift(t: int, d: int, unit: int)
    requires unit > 0 && d % unit == 0
    ensures unit * Ticks(t + d, unit) == unit * Ticks(t, unit) + d
  {
    var q, k := t / unit, d / unit;
    assert t + d == unit * (q + k) + t % unit;
    QuotientUnique(t + d, unit, q + k, t % unit);
  }

  lemma QuotientUnique(x: int, unit: int, q: int, r: int)
    requires unit > 0 && 0 <= r < unit && x == unit * q + r
    ensures x / unit == q
  {
    var p := x / unit;
    assert unit * (p - q) == r - x % unit;
    if p > q { Scale(unit, 1, p - q); }
    if p < q { Scale(unit, p - q, -1); }
  }

  // ---------- The final state is a function of the outcomes ----------

  /** The first try between `k` and `last` that succeeds. */
  function FirstSuccess(c: Config, id: string, typ: string, k: int, last: int): Option<int>
    decreases last - k
  {
    if k > last then None
    else if c.Try(id, typ, k) == Success then Some(k)
    else FirstSuccess(c, id, typ, k + 1, last)
  }

  /** Status, attempts and last_error of a job once it is done, told from its handler's
      outcomes alone. */
  function Verdict(c: Config, id: string, typ: string, maxAttempts: int): (Status, int, string) {
    match FirstSuccess(c, id, typ, 1, maxAttempts)
    case Some(k) => (Completed, k - 1, ErrorOf(c.Try(id, typ, k - 1), k - 1))
    case None => (Dead, maxAttempts, ErrorOf(c.Try(id, typ, maxAttempts), maxAttempts))
  }

  /** The error recorded after try `n`; there is none before the first. */
  function ErrorOf(o: Outcome, n: int): string {
    if n >= 1 && o.Failure? then o.err else ""
  }

  lemma {:induction false} FirstSuccessIs(c: Config, id: string, typ: string, k: int, n: int, last: int)
    requires 1 <= k <= n + 1 && n <= last
    requires AllFailed(c, id, typ, n)
    requires n < last ==> c.Try(id, typ, n + 1) == Success
    ensures FirstSuccess(c, id, typ, k, last) == if n < last then Some(n + 1) else None
    decreases n - k
  {
    if k <= n {
      FirstSuccessIs(c, id, typ, k + 1, n, last);
    }
  }

  lemma ProgressDecides(c: Config, j: Job)
    requires Progress(c, j) && Terminal(j)
    ensures (j.status, j.attempts, j.lastError) == Verdict(c, j.id, j.typ, j.maxAttempts)
  {
    FirstSuccessIs(c, j.id, j.typ, 1, j.attempts, j.maxAttempts);
  }

  /** Whatever other jobs and workers do: when a job is done, its status, attempt count and
      last error are the ones its handler's outcomes dictate. */
  lemma OutcomesDecide(c: Config, run: seq<Sys>, steps: seq<Step>, i: nat, id: string)
    requires c.unit > 0 && IsRun(c, run, steps) && i < |run|
    requires id in run[i].table && Terminal(run[i].table[id])
    ensures var j := run[i].table[id];
            (j.status, j.attempts, j.lastError) == Verdict(c, id, j.typ, j.maxAttempts)
  {
    RunInv(c, run, steps, i);
    assert JobInv(c, id, run[i].table[id], run[i].hist[id]);
    ProgressDecides(c, run[i].table[id]);
  }

  /** One step leaves a done job as it is, unless it deletes it; a used id never comes back. */
  lemma DoneIsStable(c: Config, s: Sys, s': Sys, step: Step, id: string)
    requires c.unit > 0 && Inv(c, s) && Next(c, s, s', step) && id in s.hist
    ensures id in s'.hist
    ensures id !in s.table ==> id !in s'.table
    ensures id in s.table && Terminal(s.table[id]) ==>
              (id in s'.table && s'.table[id] == s.table[id]) || (step == Delete(id) && id !in s'.table)
  {
    match step
    case Ack(w, _) => HeldIsRunning(c, s, w);
    case Nack(w, _) => HeldIsRunning(c, s, w);
    case _ =>
  }

  lemma HeldIsRunning(c: Config, s: Sys, w: nat)
    requires c.unit > 0 && Inv(c, s) && w in s.held
    ensures s.held[w].id in s.table ==> s.table[s.held[w].id].status == Running
  {
    var own := s.held[w].id;
    assert own in s.table ==> Claims(s.held[w], s.table[own], s.hist[own]);
  }

  /** Completed and dead are never left, except by deletion, which is for good. */
  lemma {:induction false} DoneForGood(c: Config, run: seq<Sys>, steps: seq<Step>, i: nat, k: nat, id: string)
    requires c.unit > 0 && IsRun(c, run, steps) && i <= k < |run|
    requires id in run[i].table && Terminal(run[i].table[id])
    ensures id in run[k].hist
    ensures id in run[k].table ==> run[k].table[id] == run[i].table[id]
  {
    if i == k {
      RunInv(c, run, steps, i);
    } else {
      DoneForGood(c, run, steps, i, k - 1, id);
      RunInv(c, run, steps, k - 1);
      DoneIsStable(c, run[k - 1], run[k], steps[k - 1], id);
    }
  }

  // ---------- Outstanding work only shrinks ----------

  /** A claim, or an outcome delivered for a row that still exists. */
  ghost predicate Productive(s: Sys, step: Step) {
    match step
    case Reserve(_, _, _, _, _) => true
    case Ack(w, _) => w in s.held && s.held[w].id in s.table
    case Nack(w, _) => w in s.held && s.held[w].id in s.table
    case _ => false
  }

  lemma WorkShrinks(c: Config, s: Sys, s': Sys, step: Step)
    requires c.unit > 0 && Inv(c, s) && Next(c, s, s', step) && !step.Enqueue?
    ensures Work(s'.table) + (if Productive(s, step) then 1 else 0) <= Work(s.table)
  {
    match step
    case Reserve(_, _, id, _, _) =>
      assert JobInv(c, id, s.table[id], s.hist[id]);
      WorkUpdate(s.table, id, s'.table[id]);
    case Ack(w, _) =>
      FinishShrinks(c, s, s', s.held[w]);
    case Nack(w, _) =>
      FinishShrinks(c, s, s', s.held[w]);
    case Delete(id) =>
      WorkDelete(s.table, id);
    case _ =>
  }

  lemma FinishShrinks(c: Config, s: Sys, s': Sys, cl: Claim)
    requires c.unit > 0 && Inv(c, s)
    requires exists w :: w in s.held && s.held[w] == cl
    requires cl.id !in s.table ==> s'.table == s.table
    requires cl.id in s.table ==>
               && cl.id in s'.table
               && s'.table == s.table[cl.id := s'.table[cl.id]]
               && ((exists t :: s'.table[cl.id] == AckedRow(s.table[cl.id], t))
                   || (exists e, t, r :: s'.table[cl.id] == NackedRow(s.table[cl.id], e, t, r)))
    ensures Work(s'.table) + (if cl.id in s.table then 1 else 0) <= Work(s.table)
  {
    if cl.id in s.table {
      assert Claims(cl, s.table[cl.id], s.hist[cl.id]);
      assert JobInv(c, cl.id, s.table[cl.id], s.hist[cl.id]);
      WorkUpdate(s.table, cl.id, s'.table[cl.id]);
    }
  }

  /** The number of productive steps from state `i` up to state `k`. */
  ghost function ProductiveSteps(run: seq<Sys>, steps: seq<Step>, i: nat, k: nat): nat
    requires i <= k < |run| && |run| == |steps| + 1
  {
    if i == k then 0
    else ProductiveSteps(run, steps, i, k - 1) + if Productive(run[k - 1], steps[k - 1]) then 1 else 0
  }

  /** Without new jobs the system winds down: claims and delivered outcomes together are
      bounded by the work outstanding at the start, in any interleaving. */
  lemma {:induction false} WorkBoundsRun(c: Config, run: seq<Sys>, steps: seq<Step>, i: nat, k: nat)
    requires c.unit > 0 && IsRun(c, run, steps) && i <= k < |run|
    requires forall m | i <= m < k :: !steps[m].Enqueue?
    ensures Work(run[k].table) + ProductiveSteps(run, steps, i, k) <= Work(run[i].table)
  {
    if i < k {
      WorkBoundsRun(c, run, steps, i, k - 1);
      RunInv(c, run, steps, k - 1);
      WorkShrinks(c, run[k - 1], run[k], steps[k - 1]);
    }
  }
}
