/** Decimal integers as strconv prints and parses them. */
module Decimal {
  import opened Options

  const MIN_INT64: int := -0x8000_0000_0000_0000
  const MAX_INT64: int := 0x7fff_ffff_ffff_ffff

  predicate IsInt64(n: int) {
    MIN_INT64 <= n <= MAX_INT64
  }

  function Digit(d: int): char
    requires 0 <= d < 10
  {
    "0123456789"[d]
  }

  predicate IsDigit(c: char) {
    '0' <= c <= '9'
  }

  function DigitValue(c: char): int
    requires IsDigit(c)
  {
    c as int - '0' as int
  }

  function FormatNat(n: nat): string {
    if n < 10 then [Digit(n)] else FormatNat(n / 10) + [Digit(n % 10)]
  }

  function FormatInt(n: int): string {
    if n < 0 then "-" + FormatNat(-n) else FormatNat(n)
  }

  /** The value of a string of one or more digits. */
  function ParseDigits(s: string): Option<nat> {
    if s == "" || !IsDigit(s[|s| - 1]) then None
    else
      var d := DigitValue(s[|s| - 1]);
      if |s| == 1 then Some(d)
      else match ParseDigits(s[..|s| - 1])
        case None => None
        case Some(n) => Some(10 * n + d)
  }

  /** An optional sign, digits, and a value that fits 64 bits; anything else is an error. */
  function ParseInt(s: string): Option<int> {
    if s == "" then None
    else
      var negative := s[0] == '-';
      match ParseDigits(if s[0] == '-' || s[0] == '+' then s[1..] else s)
      case None => None
      case Some(n) =>
        var m: int := n;
        var v := if negative then -m else m;
        if IsInt64(v) then Some(v) else None
  }

  lemma DigitsRoundTrip(d: int)
    requires 0 <= d < 10
    ensures IsDigit(Digit(d)) && DigitValue(Digit(d)) == d
  {
  }

  lemma {:induction false} NatRoundTrip(n: nat)
    ensures FormatNat(n) != "" && IsDigit(FormatNat(n)[0])
    ensures ParseDigits(FormatNat(n)) == Some(n)
  {
    DigitsRoundTrip(n % 10);
    if n >= 10 {
      NatRoundTrip(n / 10);
      assert FormatNat(n)[..|FormatNat(n)| - 1] == FormatNat(n / 10);
    }
  }

  /** Every 64-bit integer, negative ones and the smallest included, survives printing and
      parsing; no other integer does. */
  lemma IntRoundTrip(n: int)
    ensures ParseInt(FormatInt(n)) ==
            if -9_223_372_036_854_775_808 <= n <= 9_223_372_036_854_775_807 then Some(n) else None
  {
    NatRoundTrip(if n < 0 then -n else n);
    if n < 0 {
      assert FormatInt(n)[1..] == FormatNat(-n);
    }
  }

  /** Numbers are printed as digits without a leading zero, negative ones with a minus sign. */
  lemma {:induction false} NatIsCanonical(n: nat)
    ensures forall i | 0 <= i < |FormatNat(n)| :: IsDigit(FormatNat(n)[i])
    ensures FormatNat(n) != "" && (FormatNat(n)[0] == '0' ==> FormatNat(n) == "0" && n == 0)
  {
    DigitsRoundTrip(n % 10);
    if n >= 10 {
      NatIsCanonical(n / 10);
    } else {
      assert n > 0 ==> Digit(n) != '0';
    }
  }

  lemma IntIsCanonical(n: int)
    ensures n < 0 ==> FormatInt(n) == "-" + FormatInt(-n)
    ensures n >= 0 ==>
              && (forall i | 0 <= i < |FormatInt(n)| :: IsDigit(FormatInt(n)[i]))
              && (FormatInt(n)[0] == '0' ==> FormatInt(n) == "0" && n == 0)
  {
    NatIsCanonical(if n < 0 then -n else n);
  }

  /** Digits are all it takes, in any number. */
  lemma {:induction false} DigitsParse(s: string)
    ensures ParseDigits(s).Some? <==> s != "" && forall i | 0 <= i < |s| :: IsDigit(s[i])
  {
    if s != "" && |s| > 1 {
      var init := s[..|s| - 1];
      DigitsParse(init);
      assert forall i | 0 <= i < |s| - 1 :: init[i] == s[i];
    }
  }

  /** Anything but digits behind an optional sign is an error. */
  lemma GarbageFails(s: string, i: nat)
    requires i < |s| && !IsDigit(s[i]) && (i == 0 ==> s[0] != '-' && s[0] != '+')
    ensures ParseInt(s) == None
  {
    var digits := if s[0] == '-' || s[0] == '+' then s[1..] else s;
    DigitsParse(digits);
    assert digits == s || (i > 0 && digits[i - 1] == s[i]);
  }

  /** A plus sign and leading zeros change nothing. */
  lemma {:induction false} LeadingZero(s: string)
    requires s != ""
    ensures ParseDigits("0" + s) == ParseDigits(s)
  {
    if |s| > 1 {
      LeadingZero(s[..|s| - 1]);
      assert ("0" + s)[..|s|] == "0" + s[..|s| - 1];
    } else {
      assert ("0" + s)[..1] == "0";
      assert ParseDigits("0") == Some(0);
    }
  }

  lemma PlusSign(s: string)
    requires s != "" && s[0] != '-' && s[0] != '+'
    ensures ParseInt("+" + s) == ParseInt(s)
  {
    assert ("+" + s)[1..] == s;
  }
}

/** The job hash as strings, and the replies of the scripts. */
module HashCodec {
  import opened Options
  import opened Jobs
  import opened Decimal
  import opened RedisStore
  import opened QueueStats
  import Keys

  function StatusName(s: Status): string {
    match s
    case Pending => "pending"
    case Running => "running"
    case Completed => "completed"
    case Failed => "failed"
    case Dead => "dead"
  }

  /** The typed store files status sets under (queue, status); the keys it stands for are as
      distinct as those pairs are. */
  lemma StatusKeysDistinct(q1: string, st1: Status, q2: string, st2: Status)
    ensures Keys.StatusKey(q1, StatusName(st1)) == Keys.StatusKey(q2, StatusName(st2)) <==> q1 == q2 && st1 == st2
  {
    StatusNamesDiffer(st1, st2);
    StatusNameColonFree(st1);
    StatusNameColonFree(st2);
    Keys.KeysDecode("", q1, StatusName(st1));
    Keys.KeysDecode("", q2, StatusName(st2));
  }

  lemma StatusNameColonFree(st: Status)
    ensures Keys.ColonFree(StatusName(st))
  {
    match st
    case Pending =>
    case Running =>
    case Completed =>
    case Failed =>
    case Dead =>
  }

  lemma StatusNamesDiffer(st1: Status, st2: Status)
    ensures StatusName(st1) == StatusName(st2) ==> st1 == st2
  {
    StatusSignature(st1);
    StatusSignature(st2);
  }

  lemma StatusSignature(st: Status)
    ensures (|StatusName(st)|, StatusName(st)[0]) ==
            match st
            case Pending => (7, 'p')
            case Running => (7, 'r')
            case Completed => (9, 'c')
            case Failed => (6, 'f')
            case Dead => (4, 'd')
  {
  }

  datatype FieldName =
    | Id | Type | QueueName | Payload | StatusField | Priority | Attempts | MaxAttempts
    | ScheduledAt | CreatedAt | UpdatedAt | LastError | CompletedAt | FailedAt

  function NameOf(f: FieldName): string {
    match f
    case Id => "id"
    case Type => "type"
    case QueueName => "queue"
    case Payload => "payload"
    case StatusField => "status"
    case Priority => "priority"
    case Attempts => "attempts"
    case MaxAttempts => "max_attempts"
    case ScheduledAt => "scheduled_at"
    case CreatedAt => "created_at"
    case UpdatedAt => "updated_at"
    case LastError => "last_error"
    case CompletedAt => "completed_at"
    case FailedAt => "failed_at"
  }

  lemma Names()
    ensures NameOf(Id) == "id" && NameOf(Type) == "type" && NameOf(QueueName) == "queue" && NameOf(Payload) == "payload"
    ensures NameOf(StatusField) == "status" && NameOf(Priority) == "priority" && NameOf(Attempts) == "attempts"
    ensures NameOf(MaxAttempts) == "max_attempts" && NameOf(ScheduledAt) == "scheduled_at"
    ensures NameOf(CreatedAt) == "created_at" && NameOf(UpdatedAt) == "updated_at" && NameOf(LastError) == "last_error"
    ensures NameOf(CompletedAt) == "completed_at" && NameOf(FailedAt) == "failed_at"
    ensures StatusName(Pending) == "pending" && StatusName(Running) == "running"
    ensures StatusName(Completed) == "completed" && StatusName(Failed) == "failed" && StatusName(Dead) == "dead"
  {
  }

  type Hash = map<FieldName, string>

  /** The fields Enqueue passes to HSET, from a job whose instants are in nanoseconds. */
  function EnqueueField(j: Job, f: FieldName): Option<string> {
    match f
    case Id => Some(j.id)
    case Type => Some(j.typ)
    case QueueName => Some(j.queue)
    case Payload => Some(j.payload)
    case StatusField => Some(StatusName(j.status))
    case Priority => Some(FormatInt(j.priority))
    case Attempts => Some(FormatInt(j.attempts))
    case MaxAttempts => Some(FormatInt(j.maxAttempts))
    case ScheduledAt => Some(FormatInt(Ticks(j.scheduledAt, SECOND)))
    case CreatedAt => Some(FormatInt(Ticks(j.createdAt, SECOND)))
    case UpdatedAt => Some(FormatInt(Ticks(j.updatedAt, SECOND)))
    case LastError => Some(j.lastError)
    case CompletedAt => None
    case FailedAt => None
  }

  function EnqueueFields(j: Job): Hash {
    map f: FieldName | EnqueueField(j, f).Some? :: EnqueueField(j, f).value
  }

  function FormatOption(t: Option<int>): Option<string> {
    if t.Some? then Some(FormatInt(t.value)) else None
  }

  /** The fields of a stored entry; its instants are whole seconds. */
  function EntryField(e: Entry, f: FieldName): Option<string> {
    match e
    case Full(j) =>
      (match f
       case Id => Some(j.id)
       case Type => Some(j.typ)
       case QueueName => Some(j.queue)
       case Payload => Some(j.payload)
       case StatusField => Some(StatusName(j.status))
       case Priority => Some(FormatInt(j.priority))
       case Attempts => Some(FormatInt(j.attempts))
       case MaxAttempts => Some(FormatInt(j.maxAttempts))
       case ScheduledAt => Some(FormatInt(j.scheduledAt))
       case CreatedAt => Some(FormatInt(j.createdAt))
       case UpdatedAt => Some(FormatInt(j.updatedAt))
       case LastError => Some(j.lastError)
       case CompletedAt => FormatOption(j.completedAt)
       case FailedAt => FormatOption(j.failedAt))
    case Remnant(status, completedAt, updatedAt) =>
      match f
      case StatusField => Some(StatusName(status))
      case UpdatedAt => Some(FormatInt(updatedAt))
      case CompletedAt => FormatOption(completedAt)
      case _ => None
  }

  function EntryFields(e: Entry): Hash {
    map f: FieldName | EntryField(e, f).Some? :: EntryField(e, f).value
  }

  /** A job as parsed: its status is whatever string was stored. */
  datatype ParsedJob = ParsedJob(status: string, rest: Job)

  function Parsed(j: Job): ParsedJob {
    ParsedJob(StatusName(j.status), j.(status := Pending))
  }

  function Field(h: Hash, f: FieldName): string {
    if f in h then h[f] else ""
  }

  /** A number field; unreadable ones leave the default in place. */
  function IntField(h: Hash, f: FieldName, default: int): int {
    match ParseInt(Field(h, f))
    case Some(v) => v
    case None => default
  }

  function OptionalInstant(h: Hash, f: FieldName): Option<int> {
    match ParseInt(Field(h, f))
    case Some(v) => if v > 0 then Some(v) else None
    case None => None
  }

  function ParseJobFromMap(h: Hash): ParsedJob {
    ParsedJob(
      Field(h, StatusField),
      Job(Field(h, Id), Field(h, Type), Field(h, QueueName), Field(h, Payload), Pending,
          IntField(h, Priority, 0), IntField(h, Attempts, 0), IntField(h, MaxAttempts, 0),
          IntField(h, ScheduledAt, ZERO_TIME), IntField(h, CreatedAt, ZERO_TIME), IntField(h, UpdatedAt, ZERO_TIME),
          OptionalInstant(h, CompletedAt), OptionalInstant(h, FailedAt),
          Field(h, LastError)))
  }

  predicate OptionInt64(t: Option<int>) {
    t.Some? ==> IsInt64(t.value)
  }

  /** All numbers of an entry are 64-bit integers, as they are in Go. */
  predicate FitsInt64(e: Entry) {
    match e
    case Full(j) =>
      && IsInt64(j.priority) && IsInt64(j.attempts) && IsInt64(j.maxAttempts)
      && IsInt64(j.scheduledAt) && IsInt64(j.createdAt) && IsInt64(j.updatedAt)
      && OptionInt64(j.completedAt) && OptionInt64(j.failedAt)
    case Remnant(_, completedAt, updatedAt) => OptionInt64(completedAt) && IsInt64(updatedAt)
  }

  lemma IntFieldRoundTrip(h: Hash, f: FieldName, v: int, default: int)
    requires IsInt64(v) && Field(h, f) == FormatInt(v)
    ensures IntField(h, f, default) == v
  {
    IntRoundTrip(v);
  }

  lemma NoIntField(h: Hash, f: FieldName, default: int)
    requires f !in h
    ensures IntField(h, f, default) == default && OptionalInstant(h, f) == None
  {
  }

  lemma OptionRoundTrip(h: Hash, f: FieldName, t: Option<int>)
    requires OptionInt64(t)
    requires Field(h, f) == if t.Some? then FormatInt(t.value) else ""
    ensures OptionalInstant(h, f) == Positive(t)
  {
    if t.Some? { IntRoundTrip(t.value); }
  }

  lemma FullNumbers(j: Job)
    requires FitsInt64(Full(j))
    ensures var h := EntryFields(Full(j));
            && IntField(h, Priority, 0) == j.priority
            && IntField(h, Attempts, 0) == j.attempts
            && IntField(h, MaxAttempts, 0) == j.maxAttempts
  {
    var h := EntryFields(Full(j));
    IntFieldRoundTrip(h, Priority, j.priority, 0);
    IntFieldRoundTrip(h, Attempts, j.attempts, 0);
    IntFieldRoundTrip(h, MaxAttempts, j.maxAttempts, 0);
  }

  lemma FullInstants(j: Job)
    requires FitsInt64(Full(j))
    ensures var h := EntryFields(Full(j));
            && IntField(h, ScheduledAt, ZERO_TIME) == j.scheduledAt
            && IntField(h, CreatedAt, ZERO_TIME) == j.createdAt
            && IntField(h, UpdatedAt, ZERO_TIME) == j.updatedAt
            && OptionalInstant(h, CompletedAt) == Positive(j.completedAt)
            && OptionalInstant(h, FailedAt) == Positive(j.failedAt)
  {
    var h := EntryFields(Full(j));
    IntFieldRoundTrip(h, ScheduledAt, j.scheduledAt, ZERO_TIME);
    IntFieldRoundTrip(h, CreatedAt, j.createdAt, ZERO_TIME);
    IntFieldRoundTrip(h, UpdatedAt, j.updatedAt, ZERO_TIME);
    OptionRoundTrip(h, CompletedAt, j.completedAt);
    OptionRoundTrip(h, FailedAt, j.failedAt);
  }

  /** What the backend parses out of a hash it has written is the job, with optional instants
      that are not positive dropped. */
  lemma FullRoundTrip(j: Job)
    requires FitsInt64(Full(j))
    ensures ParseJobFromMap(EntryFields(Full(j))) == Parsed(View(Full(j)))
  {
    FullStrings(j);
    FullNumbers(j);
    FullInstants(j);
    Assemble(EntryFields(Full(j)), View(Full(j)));
  }

  lemma FullStrings(j: Job)
    ensures var h := EntryFields(Full(j));
            && Field(h, StatusField) == StatusName(j.status)
            && Field(h, Id) == j.id && Field(h, Type) == j.typ && Field(h, QueueName) == j.queue
            && Field(h, Payload) == j.payload && Field(h, LastError) == j.lastError
  {
  }

  /** A parsed job is the sum of its fields. */
  lemma Assemble(h: Hash, j: Job)
    requires Field(h, StatusField) == StatusName(j.status)
    requires Field(h, Id) == j.id && Field(h, Type) == j.typ && Field(h, QueueName) == j.queue
    requires Field(h, Payload) == j.payload && Field(h, LastError) == j.lastError
    requires IntField(h, Priority, 0) == j.priority
    requires IntField(h, Attempts, 0) == j.attempts
    requires IntField(h, MaxAttempts, 0) == j.maxAttempts
    requires IntField(h, ScheduledAt, ZERO_TIME) == j.scheduledAt
    requires IntField(h, CreatedAt, ZERO_TIME) == j.createdAt
    requires IntField(h, UpdatedAt, ZERO_TIME) == j.updatedAt
    requires OptionalInstant(h, CompletedAt) == j.completedAt
    requires OptionalInstant(h, FailedAt) == j.failedAt
    ensures ParseJobFromMap(h) == Parsed(j)
  {
  }

  /** A remnant parses as a job of which only the status and two instants are known. */
  lemma RemnantRoundTrip(e: Entry)
    requires e.Remnant? && FitsInt64(e)
    ensures ParseJobFromMap(EntryFields(e)) == Parsed(View(e))
  {
    var h := EntryFields(e);
    NoIntField(h, Priority, 0);
    NoIntField(h, Attempts, 0);
    NoIntField(h, MaxAttempts, 0);
    NoIntField(h, ScheduledAt, ZERO_TIME);
    NoIntField(h, CreatedAt, ZERO_TIME);
    NoIntField(h, FailedAt, ZERO_TIME);
    IntFieldRoundTrip(h, UpdatedAt, e.updatedAt, ZERO_TIME);
    OptionRoundTrip(h, CompletedAt, e.completedAt);
    RemnantStrings(e);
    Assemble(h, View(e));
  }

  lemma RemnantStrings(e: Entry)
    requires e.Remnant?
    ensures var h := EntryFields(e);
            && Field(h, StatusField) == StatusName(e.status)
            && Field(h, Id) == Field(h, Type) == Field(h, QueueName) == Field(h, Payload) == Field(h, LastError) == ""
  {
  }

  /** The fields stored under an id; a missing hash has none. */
  function FieldsAt(s: Store, id: string): Hash {
    if id in s.hashes then EntryFields(s.hashes[id]) else map[]
  }

  /** HSET of a few fields, given as the value of each field that is written. */
  function Write(h: Hash, value: FieldName -> Option<string>): Hash {
    map f: FieldName | value(f).Some? || f in h :: if value(f).Some? then value(f).value else h[f]
  }

  function AckFields(now: int): FieldName -> Option<string> {
    (f: FieldName) => match f
         case StatusField => Some("completed")
         case CompletedAt => Some(FormatInt(now))
         case UpdatedAt => Some(FormatInt(now))
         case _ => None
  }

  function DeadFields(now: int): FieldName -> Option<string> {
    (f: FieldName) => match f
         case StatusField => Some("dead")
         case UpdatedAt => Some(FormatInt(now))
         case _ => None
  }

  function ReserveFields(now: int): FieldName -> Option<string> {
    (f: FieldName) => match f
         case StatusField => Some("running")
         case UpdatedAt => Some(FormatInt(now))
         case _ => None
  }

  /** Attempts, error and instants, then a status, and for a retry the new scheduled instant. */
  function NackFields(read: NackRead, err: string, now: int, retryAt: int): FieldName -> Option<string> {
    var dies := read.attempts + 1 >= read.maxAttempts;
    (f: FieldName) => match f
         case Attempts => Some(FormatInt(read.attempts + 1))
         case LastError => Some(err)
         case FailedAt => Some(FormatInt(now))
         case UpdatedAt => Some(FormatInt(now))
         case StatusField => Some(if dies then "dead" else "pending")
         case ScheduledAt => if dies then None else Some(FormatInt(retryAt))
         case _ => None
  }

  function StoredField(s: Store, id: string, f: FieldName): Option<string> {
    if id in s.hashes then EntryField(s.hashes[id], f) else None
  }

  /** A step that, field by field, puts `value` over what was stored under `id`. */
  lemma WriteIs(s': Store, s: Store, id: string, value: FieldName -> Option<string>)
    requires forall f: FieldName :: StoredField(s', id, f) == if value(f).Some? then value(f) else StoredField(s, id, f)
    ensures FieldsAt(s', id) == Write(FieldsAt(s, id), value)
  {
    forall f: FieldName
      ensures (f in FieldsAt(s', id) <==> StoredField(s', id, f).Some?)
      ensures f in FieldsAt(s', id) ==> FieldsAt(s', id)[f] == StoredField(s', id, f).value
      ensures (f in FieldsAt(s, id) <==> StoredField(s, id, f).Some?)
      ensures f in FieldsAt(s, id) ==> FieldsAt(s, id)[f] == StoredField(s, id, f).value
    {
    }
  }

  /** The first trip of Ack is an HSET of three fields, whether a hash is there or not. */
  lemma AckWritesFields(s: Store, id: string, now: int)
    ensures FieldsAt(AckFirst(s, id, now).0, id) == Write(FieldsAt(s, id), AckFields(now))
  {
    var s', value := AckFirst(s, id, now).0, AckFields(now);
    forall f: FieldName
      ensures StoredField(s', id, f) == if value(f).Some? then value(f) else StoredField(s, id, f)
    {
    }
    WriteIs(s', s, id, value);
  }

  /** So is MoveToDLQ's, of two fields. */
  lemma DeadWritesFields(s: Store, id: string, queue: string, now: int)
    ensures FieldsAt(DeadPipeline(s, id, queue, now), id) == Write(FieldsAt(s, id), DeadFields(now))
  {
    var s', value := DeadPipeline(s, id, queue, now), DeadFields(now);
    forall f: FieldName
      ensures StoredField(s', id, f) == if value(f).Some? then value(f) else StoredField(s, id, f)
    {
    }
    WriteIs(s', s, id, value);
  }

  /** The nack script rewrites the fields of a stored job, from the values read earlier. */
  lemma NackWritesFields(s: Store, id: string, read: NackRead, err: string, now: int, retryAt: int)
    requires IsFull(s, id)
    ensures FieldsAt(NackScript(s, id, read, err, now, retryAt), id)
            == Write(FieldsAt(s, id), NackFields(read, err, now, retryAt))
  {
    var s' := NackScript(s, id, read, err, now, retryAt);
    var n := NackWrite(s.hashes[id].job, read.attempts, read.maxAttempts, err, now, retryAt);
    assert s'.hashes == s.hashes[id := Full(n)];
    NackedFields(s, s', id, read, err, now, retryAt);
  }

  lemma NackedFields(s: Store, s': Store, id: string, read: NackRead, err: string, now: int, retryAt: int)
    requires IsFull(s, id) && id in s'.hashes
    requires s'.hashes[id] == Full(NackWrite(s.hashes[id].job, read.attempts, read.maxAttempts, err, now, retryAt))
    ensures FieldsAt(s', id) == Write(FieldsAt(s, id), NackFields(read, err, now, retryAt))
  {
    var value := NackFields(read, err, now, retryAt);
    forall f: FieldName
      ensures StoredField(s', id, f) == if value(f).Some? then value(f) else StoredField(s, id, f)
    {
      NackWriteField(s.hashes[id].job, read, err, now, retryAt, f);
    }
    WriteIs(s', s, id, value);
  }

  lemma NackWriteField(j: Job, read: NackRead, err: string, now: int, retryAt: int, f: FieldName)
    ensures var value := NackFields(read, err, now, retryAt)(f);
            EntryField(Full(NackWrite(j, read.attempts, read.maxAttempts, err, now, retryAt)), f)
            == if value.Some? then value else EntryField(Full(j), f)
  {
  }

  /** The reserve script writes status and updated_at of the job it claims. */
  lemma ReserveWritesFields(s: Store, queue: string, now: int)
    ensures var (s', r) := ReserveScript(s, queue, now);
            r.Some? ==>
              var id := FirstReady(ZSet(s, queue), now).value;
              FieldsAt(s', id) == Write(FieldsAt(s, id), ReserveFields(now))
  {
    var (s', r) := ReserveScript(s, queue, now);
    if r.Some? {
      var id := FirstReady(ZSet(s, queue), now).value;
      assert s'.hashes == s.hashes[id := Full(ReservedRow(s.hashes[id].job, now))];
      ReservedFields(s, s', id, now);
    }
  }

  lemma ReservedFields(s: Store, s': Store, id: string, now: int)
    requires IsFull(s, id) && s'.hashes == s.hashes[id := Full(ReservedRow(s.hashes[id].job, now))]
    ensures FieldsAt(s', id) == Write(FieldsAt(s, id), ReserveFields(now))
  {
    var value := ReserveFields(now);
    forall f: FieldName
      ensures StoredField(s', id, f) == if value(f).Some? then value(f) else StoredField(s, id, f)
    {
    }
    WriteIs(s', s, id, value);
  }

  /** Enqueue is an HSET of its twelve fields; under a fresh id they are all there is. */
  lemma EnqueueWritesFields(s: Store, job: Job)
    ensures var fields := FieldsAt(EnqueuePipeline(s, job), job.id);
            && fields == Write(FieldsAt(s, job.id), (f: FieldName) => EnqueueField(job, f))
            && (job.id !in s.hashes ==> fields == EnqueueFields(job))
  {
    var s', value := EnqueuePipeline(s, job), (f: FieldName) => EnqueueField(job, f);
    assert s'.hashes == s.hashes[job.id := EnqueuedEntry(s, job)];
    forall f: FieldName
      ensures StoredField(s', job.id, f) == if value(f).Some? then value(f) else StoredField(s, job.id, f)
    {
    }
    WriteIs(s', s, job.id, value);
  }

  lemma SameFields(job: Job, row: Job)
    requires row == ToRow(job, SECOND).(completedAt := None, failedAt := None)
    ensures EntryFields(Full(row)) == EnqueueFields(job)
  {
    forall f: FieldName ensures EntryField(Full(row), f) == EnqueueField(job, f) { }
  }

  /** A job survives the hash: parsing the fields of a freshly enqueued job gives it back with
      its instants floored to whole seconds and no completion or failure instant. */
  lemma HashRoundTrip(job: Job)
    requires FitsInt64(Full(ToRow(job, SECOND).(completedAt := None, failedAt := None)))
    ensures ParseJobFromMap(EnqueueFields(job)) == Parsed(ToRow(job, SECOND).(completedAt := None, failedAt := None))
  {
    var row := ToRow(job, SECOND).(completedAt := None, failedAt := None);
    FullRoundTrip(row);
    SameFields(job, row);
  }

  // ---------- Replies ----------

  /** What a script or command replies with. */
  datatype Reply = Str(s: string) | Int(n: int) | Nil

  /** A name's length and first letter already tell it from the others. */
  function Signature(f: FieldName): (int, char) {
    match f
    case Id => (2, 'i')
    case Type => (4, 't')
    case QueueName => (5, 'q')
    case Payload => (7, 'p')
    case StatusField => (6, 's')
    case Priority => (8, 'p')
    case Attempts => (8, 'a')
    case MaxAttempts => (12, 'm')
    case ScheduledAt => (12, 's')
    case CreatedAt => (10, 'c')
    case UpdatedAt => (10, 'u')
    case LastError => (10, 'l')
    case CompletedAt => (12, 'c')
    case FailedAt => (9, 'f')
  }

  lemma NamesDiffer(f: FieldName, g: FieldName)
    ensures NameOf(f) == NameOf(g) ==> f == g
  {
    SignatureOf(f);
    SignatureOf(g);
  }

  lemma SignatureOf(f: FieldName)
    ensures |NameOf(f)| == Signature(f).0 && NameOf(f)[0] == Signature(f).1
  {
  }

  lemma NamesAllDiffer()
    ensures forall f, g :: NameOf(f) == NameOf(g) ==> f == g
  {
    forall f, g ensures NameOf(f) == NameOf(g) ==> f == g {
      NamesDiffer(f, g);
    }
  }

  /** The hash as Redis keeps it, with its fields under their names. */
  function Named(h: Hash): map<string, string> {
    NamesAllDiffer();
    map f | f in h :: NameOf(f) := h[f]
  }

  /** The job fields among the string pairs of a reply. */
  function HashOf(data: map<string, string>): Hash {
    map f: FieldName | NameOf(f) in data :: data[NameOf(f)]
  }

  lemma HashOfNamed(h: Hash)
    ensures HashOf(Named(h)) == h
  {
    NamesAllDiffer();
    forall f: FieldName ensures f in HashOf(Named(h)) <==> f in h { }
  }

  /** `data` after the first `n` pairs of a flat reply: pairs that are not two strings are
      skipped, later pairs win. */
  function Collected(fields: seq<Reply>, n: nat): map<string, string>
    requires 2 * n <= |fields|
  {
    if n == 0 then map[]
    else
      var before := Collected(fields, n - 1);
      var key, value := fields[2 * n - 2], fields[2 * n - 1];
      if key.Str? && value.Str? then before[key.s := value.s] else before
  }

  /** HGETALL: the fields of a hash in some order, names and values alternating. */
  ghost predicate Flattens(fields: seq<Reply>, data: map<string, string>) {
    && |fields| % 2 == 0
    && (forall i | 0 <= i < |fields| / 2 :: PairOf(fields, i, data))
    && (forall key | key in data :: exists i :: 0 <= i < |fields| / 2 && fields[2 * i] == Str(key))
  }

  predicate PairOf(fields: seq<Reply>, i: nat, data: map<string, string>)
    requires 2 * i + 1 < |fields|
  {
    fields[2 * i].Str? && fields[2 * i].s in data && fields[2 * i + 1] == Str(data[fields[2 * i].s])
  }

  lemma {:induction false} CollectedSoFar(fields: seq<Reply>, data: map<string, string>, n: nat)
    requires 2 * n <= |fields| && forall i | 0 <= i < n :: PairOf(fields, i, data)
    ensures forall key | key in Collected(fields, n) :: key in data && Collected(fields, n)[key] == data[key]
    ensures forall i | 0 <= i < n :: fields[2 * i].Str? && fields[2 * i].s in Collected(fields, n)
  {
    if n > 0 {
      CollectedSoFar(fields, data, n - 1);
      assert PairOf(fields, n - 1, data);
    }
  }

  /** In whatever order a hash is flattened, collecting the pairs gives it back. */
  lemma FlattenRoundTrip(fields: seq<Reply>, data: map<string, string>)
    requires Flattens(fields, data)
    ensures Collected(fields, |fields| / 2) == data
  {
    CollectedSoFar(fields, data, |fields| / 2);
    forall key | key in data ensures key in Collected(fields, |fields| / 2) {
      var i :| 0 <= i < |fields| / 2 && fields[2 * i] == Str(key);
    }
  }

  /** What a flat reply stands for; an odd number of fields is an error. */
  function ParseReply(fields: seq<Reply>): Option<ParsedJob> {
    if |fields| % 2 != 0 then None else Some(ParseJobFromMap(HashOf(Collected(fields, |fields| / 2))))
  }

  /** Reading back, in any order, the reply for an entry the backend wrote. */
  lemma ReplyRoundTrip(fields: seq<Reply>, e: Entry)
    requires Flattens(fields, Named(EntryFields(e))) && FitsInt64(e)
    ensures ParseReply(fields) == Some(Parsed(View(e)))
  {
    FlattenRoundTrip(fields, Named(EntryFields(e)));
    HashOfNamed(EntryFields(e));
    if e.Full? { FullRoundTrip(e.job); } else { RemnantRoundTrip(e); }
  }

  /** A pair that is not two strings is skipped; of pairs with one name the last counts. */
  lemma LastPair(fields: seq<Reply>, n: nat, key: Reply, value: Reply)
    requires |fields| == 2 * n
    ensures Collected(fields + [key, value], n + 1) ==
            if key.Str? && value.Str? then Collected(fields, n)[key.s := value.s] else Collected(fields, n)
  {
    SamePairs(fields, fields + [key, value], n);
  }

  lemma {:induction false} SamePairs(a: seq<Reply>, b: seq<Reply>, n: nat)
    requires 2 * n <= |a| && a <= b
    ensures Collected(a, n) == Collected(b, n)
  {
    if n > 0 { SamePairs(a, b, n - 1); }
  }

  /** A number or instant that cannot be read counts as missing. */
  lemma GarbageIsMissing(h: Hash, f: FieldName, default: int)
    requires f in h && ParseInt(h[f]) == None
    ensures IntField(h, f, default) == IntField(h - {f}, f, default) == default
    ensures OptionalInstant(h, f) == OptionalInstant(h - {f}, f) == None
  {
  }

  /** The loop over the flat reply. */
  method CollectPairs(fields: seq<Reply>) returns (data: map<string, string>)
    requires |fields| % 2 == 0
    ensures data == Collected(fields, |fields| / 2)
  {
    data := map[];
    var i := 0;
    ghost var n := 0;
    while i < |fields|
      invariant i == 2 * n && 0 <= i <= |fields|
      invariant data == Collected(fields, n)
    {
      if fields[i].Str? && fields[i + 1].Str? {
        data := data[fields[i].s := fields[i + 1].s];
      }
      i, n := i + 2, n + 1;
    }
  }

  method ParseJobFromHash(fields: seq<Reply>) returns (r: Option<ParsedJob>)
    ensures r == ParseReply(fields)
    ensures r.Some? <==> |fields| % 2 == 0
    ensures forall e | FitsInt64(e) && Flattens(fields, Named(EntryFields(e))) :: r == Some(Parsed(View(e)))
  {
    if |fields| % 2 != 0 {
      return None;
    }
    var data := CollectPairs(fields);
    r := Some(ParseJobFromMap(HashOf(data)));
    forall e | FitsInt64(e) && Flattens(fields, Named(EntryFields(e))) ensures r == Some(Parsed(View(e))) {
      ReplyRoundTrip(fields, e);
    }
  }

  // ---------- Queue statistics ----------

  /** The table the statistics script fills, slot by slot. */
  function StatsReply(q: Queue): seq<Reply> {
    [ Str("name"), Str(q.name),
      Str("size"), Int(q.size),
      Str("processing_count"), Int(q.processingCount),
      Str("completed_count"), Int(q.completedCount),
      Str("failed_count"), Int(q.failedCount),
      Str("dead_count"), Int(q.deadCount) ]
  }

  /** One pair of the reply; a value of the wrong type, or an unknown name, changes nothing but
      that a `name` without a string is set to the empty string. */
  function WithPair(q: Queue, key: Reply, value: Reply): Queue {
    if !key.Str? then q
    else if key.s == "name" then q.(name := if value.Str? then value.s else "")
    else if !value.Int? then q
    else if key.s == "size" then q.(size := value.n)
    else if key.s == "processing_count" then q.(processingCount := value.n)
    else if key.s == "completed_count" then q.(completedCount := value.n)
    else if key.s == "failed_count" then q.(failedCount := value.n)
    else if key.s == "dead_count" then q.(deadCount := value.n)
    else q
  }

  function WithPairs(q: Queue, fields: seq<Reply>): Queue
    decreases |fields|
  {
    if |fields| < 2 then q else WithPairs(WithPair(q, fields[0], fields[1]), fields[2..])
  }

  /** The other pairs a reply could have: nothing but a name that is no string leaves a trace. */
  lemma OddPairs(q: Queue, key: Reply, value: Reply)
    ensures !key.Str? ==> WithPair(q, key, value) == q
    ensures key == Str("name") && !value.Str? ==> WithPair(q, key, value) == q.(name := "")
    ensures key != Str("name") && !value.Int? ==> WithPair(q, key, value) == q
    ensures key.Str?
            && key.s !in {"name", "size", "processing_count", "completed_count", "failed_count", "dead_count"} ==>
              WithPair(q, key, value) == q
  {
  }

  lemma {:induction false} StatsRoundTrip(q: Queue)
    ensures WithPairs(Queue("", 0, 0, 0, 0, 0), StatsReply(q)) == q
  {
    var r := StatsReply(q);
    assert "size"[0] != "name"[0] && |"processing_count"| == 16 && |"completed_count"| == 15;
    assert |"failed_count"| == 12 && |"dead_count"| == 10 && |"size"| == 4 && |"name"| == 4;
    var q0 := Queue("", 0, 0, 0, 0, 0);
    var q1 := WithPair(q0, r[0], r[1]);
    var q2 := WithPair(q1, r[2], r[3]);
    var q3 := WithPair(q2, r[4], r[5]);
    var q4 := WithPair(q3, r[6], r[7]);
    var q5 := WithPair(q4, r[8], r[9]);
    var q6 := WithPair(q5, r[10], r[11]);
    assert r[2..][2..] == r[4..] && r[4..][2..] == r[6..] && r[6..][2..] == r[8..];
    assert r[8..][2..] == r[10..] && r[10..][2..] == [];
    assert WithPairs(q6, []) == q6;
    assert WithPairs(q5, r[10..]) == q6;
    assert WithPairs(q4, r[8..]) == q6;
    assert WithPairs(q3, r[6..]) == q6;
    assert WithPairs(q2, r[4..]) == q6;
    assert WithPairs(q1, r[2..]) == q6;
  }

  /** The parser recovers exactly what the script put in. */
  method ParseQueueStats(fields: seq<Reply>) returns (q: Queue)
    ensures forall sent | fields == StatsReply(sent) :: q == sent
    ensures q == WithPairs(Queue("", 0, 0, 0, 0, 0), fields)
  {
    q := Queue("", 0, 0, 0, 0, 0);
    var i := 0;
    while i < |fields| - 1
      invariant 0 <= i <= |fields|
      invariant WithPairs(q, fields[i..]) == WithPairs(Queue("", 0, 0, 0, 0, 0), fields)
    {
      assert fields[i..][2..] == fields[i + 2..];
      q := WithPair(q, fields[i], fields[i + 1]);
      i := i + 2;
    }
    forall sent | fields == StatsReply(sent) ensures q == sent {
      StatsRoundTrip(sent);
    }
  }
}
