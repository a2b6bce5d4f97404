/** Listing with limit and offset on Redis, and paging through it on the dashboard. Go's 64-bit
    integers wrap around, and slicing with a bad bound panics. */
module Dashboard {
  import opened Options
  import opened Decimal

  function Wrap64(n: int): int {
    (n + 0x8000_0000_0000_0000) % 0x1_0000_0000_0000_0000 - 0x8000_0000_0000_0000
  }

  datatype Slice = Panic | Ids(ids: seq<string>)

  /** The pagination of ListJobs, on the ids it has collected. */
  function Window(ids: seq<string>, limit: int, offset: int): Slice
    requires offset >= 0
  {
    if offset >= |ids| then Ids([])
    else
      var sum := Wrap64(offset + limit);
      var end := if limit <= 0 || sum > |ids| then |ids| else sum;
      if end < offset then Panic else Ids(ids[offset..end])
  }

  /** Listing panics exactly when offset plus limit overflows inside the list. */
  lemma WindowPanics(ids: seq<string>, limit: int, offset: int)
    requires IsInt64(limit) && 0 <= offset <= MAX_INT64 && |ids| <= MAX_INT64
    ensures Window(ids, limit, offset) == Panic <==> offset < |ids| && limit > 0 && offset + limit > MAX_INT64
  {
  }

  /** The jobs that still exist; ids of others are skipped. */
  function Stored(ids: seq<string>, stored: set<string>): seq<string> {
    if ids == [] then []
    else (if ids[0] in stored then [ids[0]] else []) + Stored(ids[1..], stored)
  }

  lemma {:induction false} StoredAll(ids: seq<string>, stored: set<string>)
    ensures |Stored(ids, stored)| <= |ids|
    ensures |Stored(ids, stored)| == |ids| <==> forall id | id in ids :: id in stored
    ensures (forall id | id in ids :: id in stored) ==> Stored(ids, stored) == ids
  {
    if ids != [] {
      StoredAll(ids[1..], stored);
      assert ids == [ids[0]] + ids[1..];
    }
  }

  lemma {:induction false} StoredAppend(a: seq<string>, b: seq<string>, stored: set<string>)
    ensures Stored(a + b, stored) == Stored(a, stored) + Stored(b, stored)
  {
    if a == [] {
      assert a + b == b;
    } else {
      StoredAppend(a[1..], b, stored);
      assert (a + b)[1..] == a[1..] + b;
      Associative(if a[0] in stored then [a[0]] else [], Stored(a[1..], stored), Stored(b, stored));
    }
  }

  lemma Associative(x: seq<string>, y: seq<string>, z: seq<string>)
    ensures x + (y + z) == (x + y) + z
  {
  }

  datatype Page = Page(jobs: seq<string>, limit: int, offset: int, prevOffset: int, nextOffset: int, hasNext: bool)

  const DEFAULT_LIMIT := 50

  /** The limit and offset a request asks for: unreadable or useless values are ignored. */
  method ReadParams(rawLimit: string, rawOffset: string) returns (limit: int, offset: int)
    ensures 1 <= limit <= MAX_INT64 && 0 <= offset <= MAX_INT64
    ensures forall n | 1 <= n <= MAX_INT64 && rawLimit == FormatInt(n) :: limit == n
    ensures forall n | 0 <= n <= MAX_INT64 && rawOffset == FormatInt(n) :: offset == n
    ensures ParseInt(rawLimit).Some? && ParseInt(rawLimit).value > 0 ==> limit == ParseInt(rawLimit).value
    ensures ParseInt(rawLimit).None? || ParseInt(rawLimit).value <= 0 ==> limit == 50
    ensures ParseInt(rawOffset).Some? && ParseInt(rawOffset).value >= 0 ==> offset == ParseInt(rawOffset).value
    ensures ParseInt(rawOffset).None? || ParseInt(rawOffset).value < 0 ==> offset == 0
  {
    limit := DEFAULT_LIMIT;
    var parsed := ParseInt(rawLimit);
    if parsed.Some? && parsed.value > 0 {
      limit := parsed.value;
    }
    offset := 0;
    var parsedOffset := ParseInt(rawOffset);
    if parsedOffset.Some? && parsedOffset.value >= 0 {
      offset := parsedOffset.value;
    }
    ParsedIsInt64(rawLimit);
    ParsedIsInt64(rawOffset);
    forall n: int | IsInt64(n) ensures ParseInt(FormatInt(n)) == Some(n) {
      IntRoundTrip(n);
    }
  }

  lemma ParsedIsInt64(s: string)
    ensures ParseInt(s).Some? ==> IsInt64(ParseInt(s).value)
  {
  }

  function Min(a: int, b: int): int {
    if a < b then a else b
  }

  /** The ids that a page at `offset` asks for: one more than it will show. */
  function Asked(ids: seq<string>, limit: int, offset: int): seq<string>
    requires limit >= 1 && offset >= 0
  {
    if offset >= |ids| then [] else ids[offset..Min(offset + limit + 1, |ids|)]
  }

  lemma WindowIsAsked(ids: seq<string>, limit: int, offset: int)
    requires 1 <= limit <= MAX_INT64 && 0 <= offset <= MAX_INT64 && |ids| <= MAX_INT64
    ensures var w := Window(ids, Wrap64(limit + 1), offset);
            if offset < |ids| && limit < MAX_INT64 <= offset + limit then w == Panic
            else w == Ids(Asked(ids, limit, offset))
  {
  }

  /** A page announces a next one exactly when further ids remain and no job it asked for is
      gone; then it shows its whole window, and otherwise whatever still exists of it. */
  ghost predicate PageShows(p: Page, ids: seq<string>, stored: set<string>, limit: int, offset: int)
    requires limit >= 1 && offset >= 0
  {
    && p.limit == limit && p.offset == offset
    && p.prevOffset == (if offset >= limit then offset - limit else 0)
    && (offset + limit <= MAX_INT64 ==> p.nextOffset == offset + limit)
    && (p.hasNext <==> offset + limit < |ids| && forall id | id in Asked(ids, limit, offset) :: id in stored)
    && p.jobs == if p.hasNext then ids[offset..offset + limit] else Stored(Asked(ids, limit, offset), stored)
  }

  /** Fetches jobs one by one, skipping those that no longer exist. */
  method Fetch(ids: seq<string>, stored: set<string>) returns (jobs: seq<string>)
    ensures jobs == Stored(ids, stored)
  {
    jobs := [];
    var i := 0;
    while i < |ids|
      invariant 0 <= i <= |ids|
      invariant jobs == Stored(ids[..i], stored)
    {
      assert ids[..i + 1] == ids[..i] + [ids[i]];
      StoredAppend(ids[..i], [ids[i]], stored);
      if ids[i] in stored {
        jobs := jobs + [ids[i]];
      }
      i := i + 1;
    }
    assert ids[..i] == ids;
  }

  /** A positive limit cuts out that many ids, or what is left; any other limit takes all. */
  lemma WindowIs(ids: seq<string>, limit: int, offset: int)
    requires 0 <= offset
    ensures offset >= |ids| ==> Window(ids, limit, offset) == Ids([])
    ensures offset < |ids| && limit <= 0 ==> Window(ids, limit, offset) == Ids(ids[offset..])
    ensures offset < |ids| && limit >= 1 && offset + limit <= MAX_INT64 ==>
              Window(ids, limit, offset) == Ids(ids[offset..Min(offset + limit, |ids|)])
    ensures offset < |ids| <= MAX_INT64 && limit <= MAX_INT64 < offset + limit ==>
              Window(ids, limit, offset) == Panic
  {
    if offset < |ids| {
      assert ids[offset..|ids|] == ids[offset..];
    }
  }

  /** ListJobs from the ids it has collected: cuts out the window and fetches its jobs. Nothing
      is returned when the slice bounds panic. */
  method ListJobs(ids: seq<string>, stored: set<string>, limit: int, offset: int) returns (jobs: Option<seq<string>>)
    requires 0 <= offset
    ensures jobs == match Window(ids, limit, offset) case Panic => None case Ids(w) => Some(Stored(w, stored))
    ensures offset >= |ids| ==> jobs == Some([])
    ensures offset < |ids| && limit <= 0 ==> jobs == Some(Stored(ids[offset..], stored))
    ensures offset < |ids| && limit >= 1 && offset + limit <= MAX_INT64 ==>
              jobs == Some(Stored(ids[offset..Min(offset + limit, |ids|)], stored))
    ensures offset < |ids| <= MAX_INT64 && limit <= MAX_INT64 < offset + limit ==> jobs == None
  {
    var window := Window(ids, limit, offset);
    WindowIs(ids, limit, offset);
    if window.Panic? {
      return None;
    }
    var fetched := Fetch(window.ids, stored);
    jobs := Some(fetched);
  }

  /** At most `limit` ids from `offset` on. */
  function Cut(ids: seq<string>, limit: int, offset: int): seq<string>
    requires limit >= 1 && offset >= 0
  {
    if offset < |ids| then ids[offset..Min(offset + limit, |ids|)] else []
  }

  method ListCut(ids: seq<string>, stored: set<string>, limit: int, offset: int) returns (jobs: Option<seq<string>>)
    requires 1 <= limit && 0 <= offset
    ensures offset + limit <= MAX_INT64 ==> jobs == Some(Stored(Cut(ids, limit, offset), stored))
  {
    jobs := ListJobs(ids, stored, limit, offset);
  }

  /** The HTTP listing: at most as many jobs as asked for, from the offset asked for on; fifty from
      the start unless the request says otherwise. */
  method HandleListJobs(ids: seq<string>, stored: set<string>, rawLimit: string, rawOffset: string)
      returns (jobs: Option<seq<string>>)
    ensures var limit, offset := Reads(rawLimit, 1, 50), Reads(rawOffset, 0, 0);
            offset + limit <= MAX_INT64 ==> jobs == Some(Stored(Cut(ids, limit, offset), stored))
  {
    var limit, offset := ReadParams(rawLimit, rawOffset);
    jobs := ListCut(ids, stored, limit, offset);
  }

  /** The number a parameter stands for, if it is one that is large enough. */
  function Reads(raw: string, least: int, default: int): (n: int)
    ensures least <= default ==> least <= n
  {
    match ParseInt(raw)
    case Some(n) => if n >= least then n else default
    case None => default
  }

  /** The listing behind a page, which asks for one job more than it will show. */
  method ListForPage(ids: seq<string>, stored: set<string>, limit: int, offset: int) returns (jobs: Option<seq<string>>)
    requires 1 <= limit <= MAX_INT64 && 0 <= offset <= MAX_INT64 && |ids| <= MAX_INT64
    ensures jobs == if offset < |ids| && limit < MAX_INT64 <= offset + limit then None
                    else Some(Stored(Asked(ids, limit, offset), stored))
  {
    WindowIsAsked(ids, limit, offset);
    jobs := ListJobs(ids, stored, Wrap64(limit + 1), offset);
  }

  /** One page of the dashboard. */
  method ShowPage(ids: seq<string>, stored: set<string>, limit: int, offset: int) returns (page: Option<Page>)
    requires 1 <= limit <= MAX_INT64 && 0 <= offset <= MAX_INT64 && |ids| <= MAX_INT64
    ensures page.None? <==> offset < |ids| && limit < MAX_INT64 <= offset + limit
    ensures page.Some? ==> PageShows(page.value, ids, stored, limit, offset)
  {
    var listed := ListForPage(ids, stored, limit, offset);
    if listed.None? {
      return None;
    }
    var jobs := listed.value;
    StoredAll(Asked(ids, limit, offset), stored);
    var hasNext := |jobs| > limit;
    if hasNext {
      jobs := jobs[..limit];
      assert jobs == ids[offset..offset + limit];
    }
    var prevOffset := offset - limit;
    if prevOffset < 0 {
      prevOffset := 0;
    }
    var nextOffset := NextOffset(limit, offset);
    page := Some(Page(jobs, limit, offset, prevOffset, nextOffset, hasNext));
  }

  method NextOffset(limit: int, offset: int) returns (next: int)
    requires 1 <= limit <= MAX_INT64 && 0 <= offset <= MAX_INT64
    ensures next == if offset + limit <= MAX_INT64 then offset + limit else offset + limit - 0x1_0000_0000_0000_0000
  {
    next := Wrap64(offset + limit);
  }

  // ---------- Walking through the pages ----------

  /** The first id whose job is gone, if there is one. */
  function FirstGone(ids: seq<string>, stored: set<string>): (i: nat)
    ensures i <= |ids| && (i < |ids| ==> ids[i] !in stored)
    ensures forall k | 0 <= k < i :: ids[k] in stored
  {
    if ids == [] || ids[0] !in stored then 0
    else
      assert forall k | 0 < k < |ids| :: ids[k] == ids[1..][k - 1];
      1 + FirstGone(ids[1..], stored)
  }

  /** The last index that the first page to ask for index `i` asks for. */
  function LastAsked(i: nat, limit: int): int
    requires limit >= 1
  {
    (if i == 0 then 0 else (i - 1) / limit) * limit + limit
  }

  /** How much of the listing a walk gets to see: it ends at the first page that asks for an id
      whose job is gone. */
  function Reach(ids: seq<string>, stored: set<string>, limit: int): (n: int)
    requires limit >= 1
    ensures 0 <= n <= |ids|
  {
    var i := FirstGone(ids, stored);
    if i < |ids| then
      PageStart(i, limit);
      Min(LastAsked(i, limit) + 1, |ids|)
    else |ids|
  }

  /** No stored job comes after the page at which the walk ends. */
  ghost predicate NothingHidden(ids: seq<string>, stored: set<string>, limit: int)
    requires limit >= 1
  {
    var i := FirstGone(ids, stored);
    i < |ids| ==> forall k | LastAsked(i, limit) < k < |ids| :: ids[k] !in stored
  }

  /** Index `i` is asked for by the page that ends at `LastAsked(i, limit)`. */
  lemma PageStart(i: nat, limit: int)
    requires limit >= 1
    ensures i <= LastAsked(i, limit)
    ensures i > 0 ==> LastAsked(i, limit) - limit < i
    ensures i == 0 ==> LastAsked(i, limit) == limit
  {
    if i > 0 {
      var q := (i - 1) / limit;
      assert i - 1 == q * limit + (i - 1) % limit;
    }
  }

  /** The page at offset `n * limit` is the first that asks for any index after its first one. */
  lemma OnPage(n: nat, i: nat, limit: int)
    requires limit >= 1 && (n * limit < i || n == 0) && i <= n * limit + limit
    ensures LastAsked(i, limit) == n * limit + limit
  {
    if i > 0 {
      var q, r := (i - 1) / limit, (i - 1) % limit;
      assert i - 1 == q * limit + r;
      if q > n { Times(n + 1, q, limit); }
      if q < n { Times(q + 1, n, limit); }
    }
  }

  lemma Times(a: int, b: int, limit: int)
    requires limit >= 1 && a <= b
    ensures a * limit <= b * limit
  {
  }

  lemma BeyondPage(n: nat, i: nat, limit: int)
    requires limit >= 1 && (n * limit < i || n == 0)
    ensures LastAsked(i, limit) >= n * limit + limit
  {
    if i > 0 {
      var q := (i - 1) / limit;
      assert i - 1 == q * limit + (i - 1) % limit;
      if q < n { Times(q + 1, n, limit); }
      Times(n, q, limit);
    }
  }

  lemma {:induction false} StoredNone(ids: seq<string>, stored: set<string>)
    ensures Stored(ids, stored) == [] <==> forall k | 0 <= k < |ids| :: ids[k] !in stored
  {
    if ids != [] {
      StoredNone(ids[1..], stored);
      assert forall k | 0 < k < |ids| :: ids[k] == ids[1..][k - 1];
    }
  }

  /** The page at which the walk stops, because it reaches the end of the listing or asks for an
      id whose job is gone. */
  lemma LastPage(ids: seq<string>, stored: set<string>, limit: int, n: nat)
    requires limit >= 1 && n * limit <= |ids|
    requires n > 0 ==> n * limit < FirstGone(ids, stored)
    requires n * limit + limit >= |ids| || exists id :: id in Asked(ids, limit, n * limit) && id !in stored
    ensures Reach(ids, stored, limit) == Min(n * limit + limit + 1, |ids|)
  {
    var i, offset := FirstGone(ids, stored), n * limit;
    if offset + limit < |ids| {
      GoneOnPage(ids, stored, limit, offset);
      OnPage(n, i, limit);
    } else if i < |ids| {
      BeyondPage(n, i, limit);
    }
  }

  lemma GoneOnPage(ids: seq<string>, stored: set<string>, limit: int, offset: int)
    requires limit >= 1 && 0 <= offset && offset + limit < |ids|
    requires exists id :: id in Asked(ids, limit, offset) && id !in stored
    ensures FirstGone(ids, stored) <= offset + limit
  {
    var asked := Asked(ids, limit, offset);
    var k :| 0 <= k < |asked| && asked[k] !in stored;
    assert ids[offset + k] == asked[k];
  }

  /** What a walk shows is all there is to show exactly if nothing is hidden behind its end. */
  lemma WalkIsComplete(ids: seq<string>, stored: set<string>, limit: int)
    requires limit >= 1
    ensures Stored(ids[..Reach(ids, stored, limit)], stored) == Stored(ids, stored)
            <==> NothingHidden(ids, stored, limit)
  {
    var n := Reach(ids, stored, limit);
    assert ids == ids[..n] + ids[n..];
    StoredAppend(ids[..n], ids[n..], stored);
    StoredNone(ids[n..], stored);
    assert forall k | n <= k < |ids| :: ids[k] == ids[n..][k - n];
    assert forall k | 0 <= k < |ids| - n :: ids[n..][k] == ids[n + k];
  }

  /** A page with a next one shows its window, all of which is stored, and so is the id after it. */
  lemma PageBeforeLast(ids: seq<string>, stored: set<string>, limit: int, offset: int, p: Page)
    requires limit >= 1 && 0 <= offset <= |ids| && PageShows(p, ids, stored, limit, offset) && p.hasNext
    requires offset > 0 ==> offset < FirstGone(ids, stored)
    ensures offset + limit < FirstGone(ids, stored)
    ensures ids[..offset] + p.jobs == ids[..offset + limit]
  {
    NoneGoneOnPage(ids, stored, limit, offset);
    assert ids[..offset] + ids[offset..offset + limit] == ids[..offset + limit];
  }

  lemma PageAtEnd(ids: seq<string>, stored: set<string>, limit: int, n: nat, offset: int, p: Page)
    requires limit >= 1 && offset == n * limit <= |ids|
    requires PageShows(p, ids, stored, limit, offset) && !p.hasNext
    requires n > 0 ==> offset < FirstGone(ids, stored)
    ensures ids[..offset] + p.jobs == Stored(ids[..Reach(ids, stored, limit)], stored)
  {
    LastPage(ids, stored, limit, n);
    EndOfWalk(ids, stored, limit, offset);
  }

  lemma NoneGoneOnPage(ids: seq<string>, stored: set<string>, limit: int, offset: int)
    requires limit >= 1 && 0 <= offset && offset + limit < |ids|
    requires offset > 0 ==> offset < FirstGone(ids, stored)
    requires forall id | id in Asked(ids, limit, offset) :: id in stored
    ensures offset + limit < FirstGone(ids, stored)
  {
    var asked := Asked(ids, limit, offset);
    forall k | offset <= k <= offset + limit ensures ids[k] in stored {
      assert ids[k] == asked[k - offset];
    }
  }

  lemma EndOfWalk(ids: seq<string>, stored: set<string>, limit: int, offset: int)
    requires limit >= 1 && 0 <= offset <= |ids|
    requires offset > 0 ==> offset < FirstGone(ids, stored)
    ensures ids[..offset] + Stored(Asked(ids, limit, offset), stored)
            == Stored(ids[..Min(offset + limit + 1, |ids|)], stored)
  {
    var asked, end := Asked(ids, limit, offset), Min(offset + limit + 1, |ids|);
    assert ids[..end] == ids[..offset] + asked;
    StoredAppend(ids[..offset], asked, stored);
    StoredAll(ids[..offset], stored);
  }

  /** A walk that is about to ask for page `n`, having shown all ids before it. */
  ghost predicate OnTheWay(ids: seq<string>, stored: set<string>, limit: int, n: nat, offset: int, shown: seq<string>) {
    && 0 <= offset <= |ids| && offset == n * limit
    && shown == ids[..offset]
    && (n > 0 ==> offset < FirstGone(ids, stored) && limit < |ids|)
  }

  /** One page of a walk. */
  method WalkOn(ids: seq<string>, stored: set<string>, limit: int, ghost n: nat, offset: int, sofar: seq<string>)
      returns (shown: seq<string>, more: bool, next: int)
    requires 1 <= limit <= MAX_INT64 && |ids| <= 0x4000_0000_0000_0000
    requires OnTheWay(ids, stored, limit, n, offset, sofar)
    ensures more ==> OnTheWay(ids, stored, limit, n + 1, next, shown) && offset < next
    ensures !more ==> shown == Stored(ids[..Reach(ids, stored, limit)], stored)
  {
    assert n == 0 ==> offset == 0;
    var page := ShowPage(ids, stored, limit, offset);
    var p := page.value;
    shown, more, next := sofar + p.jobs, p.hasNext, p.nextOffset;
    if more {
      PageBeforeLast(ids, stored, limit, offset, p);
      assert (n + 1) * limit == offset + limit;
    } else {
      PageAtEnd(ids, stored, limit, n, offset, p);
    }
  }

  /** Walking from the first page along NextOffset while HasNext holds comes to an end, for every
      limit. It shows, once each and in order, the stored jobs of the listing up to the first
      page that asks for an id whose job is gone; that is all of them if and only if none comes
      later. In particular a listing without such ids is shown in full. */
  method Walk(ids: seq<string>, stored: set<string>, limit: int) returns (shown: seq<string>)
    requires 1 <= limit <= MAX_INT64 && |ids| <= 0x4000_0000_0000_0000
    ensures shown == Stored(ids[..Reach(ids, stored, limit)], stored)
    ensures shown == Stored(ids, stored) <==> NothingHidden(ids, stored, limit)
    ensures (forall id | id in ids :: id in stored) ==> shown == ids
  {
    shown := [];
    var offset := 0;
    var more := true;
    ghost var n := 0;
    while more
      invariant more ==> OnTheWay(ids, stored, limit, n, offset, shown)
      invariant !more ==> shown == Stored(ids[..Reach(ids, stored, limit)], stored)
      decreases more, |ids| - offset
    {
      shown, more, offset := WalkOn(ids, stored, limit, n, offset, shown);
      n := n + 1;
    }
    WalkIsComplete(ids, stored, limit);
    WalkWithoutGone(ids, stored, limit);
  }

  lemma WalkWithoutGone(ids: seq<string>, stored: set<string>, limit: int)
    requires limit >= 1
    ensures (forall id | id in ids :: id in stored) ==> Stored(ids[..Reach(ids, stored, limit)], stored) == ids
  {
    if forall id | id in ids :: id in stored {
      StoredAll(ids, stored);
      assert ids[..|ids|] == ids;
    }
  }
}
