/** Walking a Stalker portal's paged list, several pages at a time or one after the other
    (crates/iptv/src/stalker_client.rs:618-790, 1122-1143). */
module StalkerWalk {
  import opened Wrappers
  import Text

  const WALK_CONCURRENCY := 6
  const MAX_WALK_PAGES := 2000
  const DEFAULT_PAGE_SIZE := 14

  /** One element of a page's `data` array, and the stream parsed from it. */
  datatype Raw = Object(id: string, chId: string, body: string) | NotAnObject
  datatype Item = Item(id: string, body: string)

  datatype Answer = Page(rows: seq<Raw>, total: Option<nat>, pageSize: nat) | Failed
  type Portal = nat -> Answer
  datatype WalkError = RequestFailed | Cancelled

  function ParseRow(raw: Raw): Option<Item> {
    match raw
    case NotAnObject => None
    case Object(id, chId, body) =>
      var key := if id == "" then chId else id;
      if key == "" then None else Some(Item(key, body))
  }

  function ParseRows(rows: seq<Raw>): (items: seq<Item>)
    ensures |items| <= |rows|
  {
    if rows == [] then []
    else
      var front := ParseRows(rows[..|rows| - 1]);
      match ParseRow(rows[|rows| - 1])
      case Some(item) => front + [item]
      case None => front
  }

  /** A row's id is its `id`, or its `ch_id` where that is empty; a row without either is left out. */
  lemma RowParses(row: Raw)
    ensures row.NotAnObject? ==> ParseRows([row]) == []
    ensures row.Object? && row.id != "" ==> ParseRows([row]) == [Item(row.id, row.body)]
    ensures row.Object? && row.id == "" && row.chId != "" ==> ParseRows([row]) == [Item(row.chId, row.body)]
    ensures row.Object? && row.id == "" && row.chId == "" ==> ParseRows([row]) == []
  {
    assert [row][..0] == [];
  }

  lemma {:induction false} ParseConcat(a: seq<Raw>, b: seq<Raw>)
    ensures ParseRows(a + b) == ParseRows(a) + ParseRows(b)
  {
    if b == [] {
      assert a + b == a;
    } else {
      var front := b[..|b| - 1];
      ParseConcat(a, front);
      assert (a + b)[..|a + b| - 1] == a + front;
    }
  }

  ghost predicate AllParse(rows: seq<Raw>) { forall r <- rows :: ParseRow(r).Some? }

  lemma {:induction false} AllParsed(rows: seq<Raw>)
    ensures |ParseRows(rows)| == |rows| <==> AllParse(rows)
  {
    if rows != [] {
      var front, last := rows[..|rows| - 1], rows[|rows| - 1];
      AllParsed(front);
      assert rows == front + [last];
      assert AllParse(rows) <==> AllParse(front) && ParseRow(last).Some?;
    }
  }

  /** What one page contributes: nothing when it failed. */
  function Items(portal: Portal, page: nat): seq<Item> {
    match portal(page)
    case Page(rows, _, _) => ParseRows(rows)
    case Failed => []
  }

  /** The successful pages from one to another, in page order. */
  function Collected(portal: Portal, first: nat, last: int): seq<Item>
    decreases last - first
  {
    if last < first then [] else Collected(portal, first, last - 1) + (if last >= 0 then Items(portal, last) else [])
  }

  /** A page that fails leaves a gap, and what lies on either side is kept. */
  lemma {:induction false} FailedPageIsAGap(portal: Portal, first: nat, last: int, page: nat)
    requires first <= page <= last && portal(page).Failed?
    ensures Collected(portal, first, last) == Collected(portal, first, page - 1) + Collected(portal, page + 1, last)
    decreases last - page
  {
    hide ParseRows;
    if page < last {
      FailedPageIsAGap(portal, first, last - 1, page);
    }
  }

  /** One of the polls numbered from `first` up to but not including `next` says so. */
  ghost predicate CancelledWithin(cancelled: nat -> bool, first: nat, next: nat) {
    exists k :: first <= k < next && cancelled(k)
  }

  lemma NoPoll(cancelled: nat -> bool, first: nat)
    ensures !CancelledWithin(cancelled, first, first)
  {
  }

  lemma OnePoll(cancelled: nat -> bool, first: nat, next: nat, end: nat)
    requires !CancelledWithin(cancelled, first, next) && first <= next < end
    ensures if cancelled(next) then CancelledWithin(cancelled, first, end) else !CancelledWithin(cancelled, first, next + 1)
  {
  }

  // ---------------------------------------------------------------------------------------------
  // The concurrent walk

  datatype Event = Spawned(page: nat) | Joined(page: nat)

  function SpawnedPages(trace: seq<Event>): seq<nat> {
    if trace == [] then []
    else
      var front, last := SpawnedPages(trace[..|trace| - 1]), trace[|trace| - 1];
      if last.Spawned? then front + [last.page] else front
  }

  /** The pages requested and not yet answered. */
  function InFlight(trace: seq<Event>): set<nat> {
    if trace == [] then {}
    else
      var front, last := InFlight(trace[..|trace| - 1]), trace[|trace| - 1];
      if last.Spawned? then front + {last.page} else front - {last.page}
  }

  /** At every moment at most six requests are out, each answer is to one of them, and none is made twice. */
  ghost predicate WellScheduled(trace: seq<Event>) {
    forall n :: 0 <= n < |trace| ==> Allowed(trace[..n], trace[n])
  }

  ghost predicate Allowed(before: seq<Event>, e: Event) {
    match e
    case Spawned(p) => |InFlight(before)| < 6 && p !in SpawnedPages(before)
    case Joined(p) => p in InFlight(before)
  }

  /** An answer is awaited only with six requests out, or once all pages have been requested. */
  ghost predicate Eager(trace: seq<Event>, total: nat) {
    forall n :: 0 <= n < |trace| && trace[n].Joined? ==> MayWait(trace[..n], total)
  }

  ghost predicate MayWait(before: seq<Event>, total: nat) { |InFlight(before)| == 6 || |SpawnedPages(before)| == total }

  lemma EagerGrows(trace: seq<Event>, e: Event, total: nat)
    requires Eager(trace, total) && (e.Joined? ==> MayWait(trace, total))
    ensures Eager(trace + [e], total)
  {
    hide MayWait;
    var after := trace + [e];
    forall n | 0 <= n < |after| && after[n].Joined? ensures MayWait(after[..n], total) {
      if n < |trace| {
        assert after[..n] == trace[..n] && after[n] == trace[n];
      } else {
        assert after[..n] == trace;
      }
    }
  }

  function Range(first: nat, next: int): (r: seq<nat>)
    ensures |r| == (if first <= next then next - first else 0)
    ensures forall i :: 0 <= i < |r| ==> r[i] == first + i
  {
    if next <= first then [] else Range(first, next - 1) + [next - 1]
  }

  lemma TraceGrows(trace: seq<Event>, e: Event)
    ensures SpawnedPages(trace + [e]) == if e.Spawned? then SpawnedPages(trace) + [e.page] else SpawnedPages(trace)
    ensures InFlight(trace + [e]) == if e.Spawned? then InFlight(trace) + {e.page} else InFlight(trace) - {e.page}
    ensures WellScheduled(trace) && Allowed(trace, e) ==> WellScheduled(trace + [e])
  {
    var after := trace + [e];
    assert after[..|after| - 1] == trace;
    if WellScheduled(trace) && Allowed(trace, e) {
      forall n | 0 <= n < |after| ensures Allowed(after[..n], after[n]) {
        if n < |trace| {
          assert after[..n] == trace[..n];
        }
      }
    }
  }

  /** What the walk has when pages below `next` were spawned and `inflight` of them are out. */
  ghost predicate Walking(portal: Portal, first: nat, last: nat, next: nat, inflight: set<nat>,
        pages: map<nat, seq<Item>>, trace: seq<Event>) {
    && first <= next <= last + 1
    && (forall p <- inflight :: first <= p < next)
    && (forall p :: p in pages <==> first <= p < next && p !in inflight && portal(p).Page?)
    && (forall p <- pages :: pages[p] == Items(portal, p))
    && SpawnedPages(trace) == Range(first, next)
    && InFlight(trace) == inflight
    && WellScheduled(trace)
  }

  lemma SpawnStep(portal: Portal, first: nat, last: nat, next: nat, inflight: set<nat>,
        pages: map<nat, seq<Item>>, trace: seq<Event>)
    requires Walking(portal, first, last, next, inflight, pages, trace) && next <= last && |inflight| < WALK_CONCURRENCY
    ensures Walking(portal, first, last, next + 1, inflight + {next}, pages, trace + [Spawned(next)])
    ensures |inflight + {next}| == |inflight| + 1 && next !in inflight
  {
    hide SpawnedPages, InFlight, WellScheduled, Items, ParseRows;
    TraceGrows(trace, Spawned(next));
    assert next !in SpawnedPages(trace);
  }

  function Stored(portal: Portal, pages: map<nat, seq<Item>>, page: nat): map<nat, seq<Item>> {
    if portal(page).Page? then pages[page := ParseRows(portal(page).rows)] else pages
  }

  lemma JoinStep(portal: Portal, first: nat, last: nat, next: nat, inflight: set<nat>, pages: map<nat, seq<Item>>,
        trace: seq<Event>, page: nat)
    requires Walking(portal, first, last, next, inflight, pages, trace) && page in inflight
    ensures next !in inflight
    ensures Walking(portal, first, last, next, inflight - {page}, Stored(portal, pages, page), trace + [Joined(page)])
  {
    hide SpawnedPages, InFlight, WellScheduled, ParseRows;
    TraceGrows(trace, Joined(page));
  }

  /** `into_values().flatten()` of a map ordered by page. */
  function InPageOrder(pages: map<nat, seq<Item>>, first: nat, last: int): seq<Item>
    decreases last - first
  {
    if last < first then []
    else InPageOrder(pages, first, last - 1) + (if last in pages then pages[last] else [])
  }

  lemma {:induction false} OrderedPagesAreCollected(portal: Portal, first: nat, last: int, pages: map<nat, seq<Item>>)
    requires forall p :: first <= p <= last ==> (p in pages <==> portal(p).Page?)
    requires forall p <- pages :: pages[p] == Items(portal, p)
    ensures InPageOrder(pages, first, last) == Collected(portal, first, last)
    decreases last - first
  {
    if last >= first {
      OrderedPagesAreCollected(portal, first, last - 1, pages);
    }
  }

  /** `parallel_walk_tail`, for every order in which the requests complete. `cancelled(k)` is what
      the k-th poll of the cancellation flag says. */
  method ParallelWalkTail(portal: Portal, first: nat, last: nat, cancelled: nat -> bool)
    returns (r: Result<seq<Item>, WalkError>, trace: seq<Event>)
    requires first <= last
    ensures WellScheduled(trace) && Eager(trace, last + 1 - first)
    ensures r == if CancelledWithin(cancelled, 0, last + 1 - first) then Err(Cancelled) else Ok(Collected(portal, first, last))
    ensures r.Ok? ==> SpawnedPages(trace) == Range(first, last + 1) && InFlight(trace) == {}
    ensures r.Err? ==> exists next :: first <= next <= last + 1 && SpawnedPages(trace) == Range(first, next)
  {
    hide WellScheduled, Eager, SpawnedPages, InFlight, Walking, Busy, Collected, InPageOrder, Range, Stored, CancelledWithin;
    var pages: map<nat, seq<Item>>, polls: nat := map[], 0;
    var inflight: set<nat>, next: nat;
    inflight, next, trace := SpawnInitial(portal, first, last);
    NoPoll(cancelled, 0);
    while inflight != {}
      invariant Walking(portal, first, last, next, inflight, pages, trace) && Busy(first, last, next, inflight, polls)
      invariant !CancelledWithin(cancelled, 0, polls) && Eager(trace, last + 1 - first)
      decreases last + 1 - next, inflight
    {
      var page :| page in inflight;
      Round(portal, first, last, next, inflight, pages, trace, polls, page);
      RoundIsEager(portal, first, last, next, inflight, pages, trace, polls, page);
      OnePoll(cancelled, 0, polls, last + 1 - first);
      inflight, trace := inflight - {page}, trace + [Joined(page)];
      if cancelled(polls) {
        return Err(Cancelled), trace;
      }
      polls := polls + 1;
      pages := Stored(portal, pages, page);
      if next <= last {
        inflight, trace := inflight + {next}, trace + [Spawned(next)];
        next := next + 1;
      }
    }
    WalkDone(portal, first, last, next, pages, trace, polls);
    r := Ok(InPageOrder(pages, first, last));
  }

  /** The first requests, as many as the limit and the range allow. */
  method SpawnInitial(portal: Portal, first: nat, last: nat) returns (inflight: set<nat>, next: nat, trace: seq<Event>)
    requires first <= last
    ensures Walking(portal, first, last, next, inflight, map[], trace) && Busy(first, last, next, inflight, 0)
    ensures Eager(trace, last + 1 - first)
  {
    hide Walking, Eager;
    assert Eager([], last + 1 - first) by { NothingJoined(last + 1 - first); }
    inflight, next, trace := {}, first, [];
    NothingYet(portal, first, last);
    var initial := if last - first + 1 < WALK_CONCURRENCY then last - first + 1 else WALK_CONCURRENCY;
    for i := 0 to initial
      invariant |inflight| == i && next == first + i
      invariant Walking(portal, first, last, next, inflight, map[], trace) && Eager(trace, last + 1 - first)
    {
      EagerGrows(trace, Spawned(next), last + 1 - first);
      SpawnStep(portal, first, last, next, inflight, map[], trace);
      inflight, trace := inflight + {next}, trace + [Spawned(next)];
      next := next + 1;
    }
  }

  /** Slots are refilled while pages remain, and each answer is followed by one poll. */
  ghost predicate Busy(first: nat, last: nat, next: nat, inflight: set<nat>, polls: nat) {
    && first <= next <= last + 1 && |inflight| <= WALK_CONCURRENCY
    && (|inflight| == WALK_CONCURRENCY || next == last + 1)
    && polls + |inflight| == next - first
  }

  /** One turn of the loop: an answer arrives, and the next page is requested if there is one. */
  lemma Round(portal: Portal, first: nat, last: nat, next: nat, inflight: set<nat>, pages: map<nat, seq<Item>>,
        trace: seq<Event>, polls: nat, page: nat)
    requires Walking(portal, first, last, next, inflight, pages, trace) && Busy(first, last, next, inflight, polls)
    requires page in inflight
    ensures polls < last + 1 - first && next <= last + 1
    ensures var less, more, joined := inflight - {page}, Stored(portal, pages, page), trace + [Joined(page)];
      && WellScheduled(joined) && SpawnedPages(joined) == Range(first, next) && first <= next
      && (if next <= last
          then Walking(portal, first, last, next + 1, less + {next}, more, joined + [Spawned(next)])
            && Busy(first, last, next + 1, less + {next}, polls + 1)
          else Walking(portal, first, last, next, less, more, joined) && Busy(first, last, next, less, polls + 1))
  {
    hide Walking;
    var less, more, joined := inflight - {page}, Stored(portal, pages, page), trace + [Joined(page)];
    assert |less| == |inflight| - 1;
    JoinStep(portal, first, last, next, inflight, pages, trace, page);
    StillScheduled(portal, first, last, next, less, more, joined);
    if next <= last {
      SpawnStep(portal, first, last, next, less, more, joined);
    }
  }

  lemma NothingJoined(total: nat)
    ensures Eager([], total)
  {
  }

  lemma RoundIsEager(portal: Portal, first: nat, last: nat, next: nat, inflight: set<nat>, pages: map<nat, seq<Item>>,
        trace: seq<Event>, polls: nat, page: nat)
    requires Walking(portal, first, last, next, inflight, pages, trace) && Busy(first, last, next, inflight, polls)
    requires Eager(trace, last + 1 - first)
    ensures Eager(trace + [Joined(page)], last + 1 - first)
    ensures next <= last ==> Eager(trace + [Joined(page)] + [Spawned(next)], last + 1 - first)
  {
    hide Eager, WellScheduled, SpawnedPages, InFlight;
    EagerGrows(trace, Joined(page), last + 1 - first);
    EagerGrows(trace + [Joined(page)], Spawned(next), last + 1 - first);
  }

  lemma StillScheduled(portal: Portal, first: nat, last: nat, next: nat, inflight: set<nat>,
        pages: map<nat, seq<Item>>, trace: seq<Event>)
    requires Walking(portal, first, last, next, inflight, pages, trace)
    ensures WellScheduled(trace) && SpawnedPages(trace) == Range(first, next) && first <= next <= last + 1
  {
  }

  lemma WalkDone(portal: Portal, first: nat, last: nat, next: nat, pages: map<nat, seq<Item>>, trace: seq<Event>,
        polls: nat)
    requires Walking(portal, first, last, next, {}, pages, trace) && Busy(first, last, next, {}, polls)
    ensures polls == last + 1 - first
    ensures InPageOrder(pages, first, last) == Collected(portal, first, last)
    ensures WellScheduled(trace) && SpawnedPages(trace) == Range(first, last + 1) && InFlight(trace) == {}
  {
    hide WellScheduled, SpawnedPages, InFlight, Range, Collected, InPageOrder, Items;
    OrderedPagesAreCollected(portal, first, last, pages);
  }

  lemma NothingYet(portal: Portal, first: nat, last: nat)
    requires first <= last
    ensures Walking(portal, first, last, first, {}, map[], [])
  {
  }

  // ---------------------------------------------------------------------------------------------
  // The serial walk

  function Max1(n: nat): nat { if n > 1 then n else 1 }

  /** The last page the serial walk asks for: the first that fails or comes up short. */
  function StopPage(portal: Portal, page: nat, size: nat): (stop: nat)
    requires page <= MAX_WALK_PAGES
    ensures page <= stop <= 2000
    ensures stop < 2000 ==> portal(stop).Failed? || |Items(portal, stop)| < Max1(size)
    ensures forall p :: page <= p < stop ==> portal(p).Page? && |Items(portal, p)| >= Max1(size)
    decreases MAX_WALK_PAGES - page
  {
    if portal(page).Failed? || |Items(portal, page)| < Max1(size) || page == MAX_WALK_PAGES then page
    else StopPage(portal, page + 1, size)
  }

  /** `sequential_walk_tail`; here `cancelled` tells what the poll before each page says. */
  method SequentialWalkTail(portal: Portal, size: nat, seed: seq<Item>,
        cancelled: nat -> bool) returns (r: Result<seq<Item>, WalkError>)
    ensures var stop := StopPage(portal, 2, size);
      r == if CancelledWithin(cancelled, 2, stop + 1) then Err(Cancelled) else Ok(seed + Collected(portal, 2, stop))
  {
    hide ParseRows, Collected, CancelledWithin, StopPage;
    NoPoll(cancelled, 2);
    var all, page := seed, 2;
    ghost var stop := StopPage(portal, 2, size);
    NoneCollected(portal);
    while page <= MAX_WALK_PAGES
      invariant 2 <= page && (page <= stop || page == stop + 1 == MAX_WALK_PAGES + 1)
      invariant all == seed + Collected(portal, 2, page - 1)
      invariant !CancelledWithin(cancelled, 2, page)
    {
      OnePoll(cancelled, 2, page, stop + 1);
      if cancelled(page) {
        return Err(Cancelled);
      }
      OneMore(portal, page, seed);
      if portal(page).Failed? {
        assert page == stop && all == seed + Collected(portal, 2, stop) && !CancelledWithin(cancelled, 2, stop + 1);
        break;
      }
      var items := ParseRows(portal(page).rows);
      all := all + items;
      page := page + 1;
      if |items| < Max1(size) {
        assert page == stop + 1;
        break;
      }
    }
    assert all == seed + Collected(portal, 2, stop) && !CancelledWithin(cancelled, 2, stop + 1);
    r := Ok(all);
  }

  lemma NoneCollected(portal: Portal)
    ensures Collected(portal, 2, 1) == []
  {
  }

  lemma OneMore(portal: Portal, page: nat, seed: seq<Item>)
    requires page >= 2
    ensures seed + Collected(portal, 2, page) == seed + Collected(portal, 2, page - 1) + Items(portal, page)
    ensures portal(page).Failed? ==> seed + Collected(portal, 2, page) == seed + Collected(portal, 2, page - 1)
  {
  }

  // ---------------------------------------------------------------------------------------------
  // The whole list

  function RowsIn(pages: nat, size: nat): nat { pages * size }

  function CeilDiv(a: nat, b: nat): (q: nat)
    requires b > 0
    ensures a <= RowsIn(q, b) && (q > 0 ==> RowsIn(q - 1, b) < a)
  {
    var q := (a + b - 1) / b;
    assert q * b <= a + b - 1 < q * b + b;
    q
  }

  function LastPage(total: nat, size: nat): (last: nat)
    requires size > 0
    ensures 1 <= last <= 2000
  {
    var pages := Max1(CeilDiv(total, size));
    if pages < MAX_WALK_PAGES then pages else MAX_WALK_PAGES
  }

  /** `max_page_items` narrowed to 32 bits, and the fallback when that leaves nothing. */
  function PageSize(reported: nat): (size: nat)
    ensures size > 0
  {
    if reported % 0x1_0000_0000 > 0 then reported % 0x1_0000_0000 else DEFAULT_PAGE_SIZE
  }

  /** The reported size counts if its low 32 bits are not all zero; otherwise a page has 14 rows. */
  lemma PageSizeIs(high: nat, low: nat)
    requires low < 0x1_0000_0000
    ensures PageSize(high * 0x1_0000_0000 + low) == if low == 0 then 14 else low
  {
  }

  /** What `fetch_ordered_list` returns when nothing cancels it. */
  function Listed(portal: Portal): Result<seq<Item>, WalkError> {
    match portal(1)
    case Failed => Err(RequestFailed)
    case Page(rows, total, reported) =>
      var items, size := ParseRows(rows), PageSize(reported);
      if items == [] then Ok([])
      else
        match total
        case None => Ok(items + Collected(portal, 2, StopPage(portal, 2, size)))
        case Some(n) => Ok(items + Collected(portal, 2, LastPage(n, size)))
  }

  method FetchOrderedList(portal: Portal, cancelled: nat -> bool) returns (r: Result<seq<Item>, WalkError>)
    ensures r == Listed(portal) || (r == Err(Cancelled) && exists k :: cancelled(k))
    ensures portal(1).Failed? ==> r == Err(RequestFailed)
  {
    hide ParseRows;
    var first := portal(1);
    if first.Failed? {
      return Err(RequestFailed);
    }
    var items := ParseRows(first.rows);
    if items == [] {
      return Ok(items);
    }
    var size := PageSize(first.pageSize);
    if first.total.None? {
      r := SequentialWalkTail(portal, size, items, cancelled);
      return;
    }
    var last := LastPage(first.total.value, size);
    if last <= 1 {
      assert items + Collected(portal, 2, last) == items;
      return Ok(items);
    }
    var tail, _ := ParallelWalkTail(portal, 2, last, cancelled);
    match tail
    case Ok(more) => r := Ok(items + more);
    case Err(e) => r := Err(e);
  }

  // ---------------------------------------------------------------------------------------------
  // A portal serving one fixed list

  /** The first n pages' worth of rows. */
  function FirstPages(rows: seq<Raw>, size: nat, n: nat): seq<Raw> { rows[..Text.Least(RowsIn(n, size), |rows|)] }

  function PageRows(rows: seq<Raw>, size: nat, page: nat): seq<Raw>
    requires page >= 1
  {
    rows[Text.Least((page - 1) * size, |rows|)..Text.Least(page * size, |rows|)]
  }

  ghost predicate Serves(portal: Portal, rows: seq<Raw>, size: nat, total: Option<nat>) {
    forall page: nat :: page >= 1 ==>
      var a := portal(page);
      a.Page? && a.rows == PageRows(rows, size, page) && a.total == total && PageSize(a.pageSize) == size
  }

  lemma NextPage(rows: seq<Raw>, size: nat, page: nat)
    requires page >= 1
    ensures FirstPages(rows, size, page) == FirstPages(rows, size, page - 1) + PageRows(rows, size, page)
  {
    assert (page - 1) * size + size == page * size;
  }

  lemma {:induction false} CollectedPages(portal: Portal, rows: seq<Raw>, size: nat, total: Option<nat>, last: nat)
    requires Serves(portal, rows, size, total) && last >= 1
    ensures ParseRows(PageRows(rows, size, 1)) + Collected(portal, 2, last) == ParseRows(FirstPages(rows, size, last))
  {
    hide ParseRows, PageRows, FirstPages;
    NextPage(rows, size, last);
    ParseConcat(FirstPages(rows, size, last - 1), PageRows(rows, size, last));
    if last == 1 {
      NoPages(rows, size);
    } else {
      CollectedPages(portal, rows, size, total, last - 1);
      assert Items(portal, last) == ParseRows(PageRows(rows, size, last));
      Regroup(ParseRows(PageRows(rows, size, 1)), Collected(portal, 2, last - 1), Items(portal, last));
    }
  }

  lemma NoPages(rows: seq<Raw>, size: nat)
    ensures FirstPages(rows, size, 0) == [] && ParseRows(FirstPages(rows, size, 0)) == []
  {
  }

  lemma Regroup(a: seq<Item>, b: seq<Item>, c: seq<Item>)
    ensures a + (b + c) == a + b + c
  {
  }

  /** A walk sized by the reported total returns what the first 2000 pages hold, rows without an id
      left out, unless the first page parses to nothing: then it returns nothing. */
  lemma SizedWalkReturns(portal: Portal, rows: seq<Raw>, size: nat)
    requires size > 0 && Serves(portal, rows, size, Some(|rows|))
    ensures Listed(portal) == Ok(if ParseRows(PageRows(rows, size, 1)) == [] then [] else ParseRows(FirstPages(rows, size, 2000)))
  {
    hide ParseRows, PageRows;
    var last := LastPage(|rows|, size);
    CollectedPages(portal, rows, size, Some(|rows|), last);
    SamePages(rows, size, last);
  }

  lemma SamePages(rows: seq<Raw>, size: nat, last: nat)
    requires size > 0 && last == LastPage(|rows|, size)
    ensures FirstPages(rows, size, last) == FirstPages(rows, size, 2000)
  {
    hide RowsIn, CeilDiv;
    if last < 2000 {
      MorePages(size, CeilDiv(|rows|, size), last);
      MorePages(size, last, 2000);
    }
  }

  /** A walk without a total stops at its first short page after the first one. */
  lemma UnsizedWalkReturns(portal: Portal, rows: seq<Raw>, size: nat)
    requires size > 0 && Serves(portal, rows, size, None)
    ensures Listed(portal) == Ok(if ParseRows(PageRows(rows, size, 1)) == [] then []
                                 else ParseRows(FirstPages(rows, size, StopPage(portal, 2, size))))
  {
    hide ParseRows, PageRows, FirstPages;
    CollectedPages(portal, rows, size, None, StopPage(portal, 2, size));
  }

  /** A page that comes up short while a row with an id lies behind it. */
  ghost predicate HidesRows(rows: seq<Raw>, size: nat, page: nat)
    requires page >= 1
  {
    |ParseRows(PageRows(rows, size, page))| < size && !NoneFrom(rows, RowsIn(page, size))
  }

  ghost predicate FirstPageParses(rows: seq<Raw>, size: nat) { ParseRows(PageRows(rows, size, 1)) != [] }

  ghost predicate NothingHidden(rows: seq<Raw>, size: nat) {
    forall page :: 2 <= page < 2000 ==> !HidesRows(rows, size, page)
  }

  /** Without a total the whole list is returned exactly when it has no row with an id at all, or
      its first page has one, no later page comes up short before another row with an id, and none
      lies behind the page limit. */
  lemma UnsizedWalkCompleteIff(portal: Portal, rows: seq<Raw>, size: nat)
    requires size > 0 && Serves(portal, rows, size, None)
    ensures Listed(portal) == Ok(ParseRows(rows))
      <==> (NoneFrom(rows, 0)
            || (FirstPageParses(rows, size) && NothingHidden(rows, size) && NoneFrom(rows, RowsIn(2000, size))))
  {
    hide ParseRows, PageRows, Listed, NoneFrom, Serves, StopPage, RowsIn, NothingHidden;
    UnsizedWalkReturns(portal, rows, size);
    NoneParses(rows);
    if FirstPageParses(rows, size) {
      CompleteIff(rows, RowsIn(StopPage(portal, 2, size), size));
      StopsBehindAll(portal, rows, size);
      SomeOnFirstPage(rows, size);
    }
  }

  /** With the total reported only the first page and the limit matter. */
  lemma SizedWalkCompleteIff(portal: Portal, rows: seq<Raw>, size: nat)
    requires size > 0 && Serves(portal, rows, size, Some(|rows|))
    ensures Listed(portal) == Ok(ParseRows(rows))
      <==> NoneFrom(rows, 0) || (FirstPageParses(rows, size) && NoneFrom(rows, RowsIn(2000, size)))
  {
    hide ParseRows, PageRows, Listed, NoneFrom, Serves, RowsIn;
    SizedWalkReturns(portal, rows, size);
    NoneParses(rows);
    if FirstPageParses(rows, size) {
      CompleteIff(rows, RowsIn(2000, size));
      SomeOnFirstPage(rows, size);
    }
  }

  lemma SomeOnFirstPage(rows: seq<Raw>, size: nat)
    requires FirstPageParses(rows, size)
    ensures !NoneFrom(rows, 0)
  {
    hide ParseRows;
    var page := PageRows(rows, size, 1);
    NoneParses(page);
    assert forall i :: 0 <= i < |page| ==> page[i] == rows[i];
  }

  lemma StopsBehindAll(portal: Portal, rows: seq<Raw>, size: nat)
    requires size > 0 && Serves(portal, rows, size, None)
    ensures NoneFrom(rows, RowsIn(StopPage(portal, 2, size), size))
      <==> NothingHidden(rows, size) && NoneFrom(rows, RowsIn(2000, size))
  {
    hide ParseRows, PageRows, RowsIn, NoneFrom, Serves, StopPage, Items;
    var stop := StopPage(portal, 2, size);
    ServedItems(portal, rows, size, stop);
    if NoneFrom(rows, RowsIn(stop, size)) {
      NoneLater(rows, size, stop, 2000);
      forall page | 2 <= page < 2000 ensures !HidesRows(rows, size, page) {
        if page >= stop {
          NoneLater(rows, size, stop, page);
        } else {
          ServedItems(portal, rows, size, page);
        }
      }
    } else if stop < 2000 {
      assert HidesRows(rows, size, stop);
    }
  }

  lemma ServedItems(portal: Portal, rows: seq<Raw>, size: nat, page: nat)
    requires Serves(portal, rows, size, None) && page >= 1
    ensures portal(page).Page? && Items(portal, page) == ParseRows(PageRows(rows, size, page))
  {
  }

  lemma NoneLater(rows: seq<Raw>, size: nat, m: nat, n: nat)
    requires m <= n && NoneFrom(rows, RowsIn(m, size))
    ensures NoneFrom(rows, RowsIn(n, size))
  {
    hide RowsIn;
    MorePages(size, m, n);
  }

  /** Two lists of one-row pages: the serial walk misses the last row of the first, and either walk
      that of the second. */
  lemma RowsAreMissed(serial: Portal, either: Portal, total: Option<nat>)
    requires Serves(serial, [Object("a", "", ""), NotAnObject, Object("b", "", "")], 1, None)
    requires Serves(either, [NotAnObject, Object("b", "", "")], 1, total) && (total == None || total == Some(2))
    ensures Listed(serial) != Ok(ParseRows([Object("a", "", ""), NotAnObject, Object("b", "", "")]))
    ensures Listed(either) != Ok(ParseRows([NotAnObject, Object("b", "", "")]))
  {
    hide Listed, Serves, ParseRows;
    var rows, late := [Object("a", "", ""), NotAnObject, Object("b", "", "")], [NotAnObject, Object("b", "", "")];
    UnsizedWalkCompleteIff(serial, rows, 1);
    assert ParseRow(rows[2]).Some? && ParseRow(rows[0]).Some?;
    assert PageRows(rows, 1, 2) == [NotAnObject] && PageRows(late, 1, 1) == [NotAnObject];
    NoneParses([NotAnObject]);
    assert HidesRows(rows, 1, 2);
    assert ParseRow(late[1]).Some? && !FirstPageParses(late, 1);
    if total == None {
      UnsizedWalkCompleteIff(either, late, 1);
    } else {
      SizedWalkCompleteIff(either, late, 1);
    }
  }

  ghost predicate NoneFrom(rows: seq<Raw>, n: nat) {
    forall i :: n <= i < |rows| ==> ParseRow(rows[i]).None?
  }

  lemma CompleteIff(rows: seq<Raw>, n: nat)
    ensures ParseRows(rows[..Text.Least(n, |rows|)]) == ParseRows(rows) <==> NoneFrom(rows, n)
  {
    hide ParseRows, NoneFrom;
    var k := Text.Least(n, |rows|);
    ParseConcat(rows[..k], rows[k..]);
    assert rows[..k] + rows[k..] == rows;
    NoneParses(rows[k..]);
    NoneInTail(rows, n, k);
    SameIffNothingMore(ParseRows(rows[..k]), ParseRows(rows[k..]));
  }

  lemma SameIffNothingMore(a: seq<Item>, b: seq<Item>)
    ensures a == a + b <==> b == []
  {
    assert |a + b| == |a| + |b|;
    if b == [] {
      assert a + b == a;
    }
  }

  lemma NoneInTail(rows: seq<Raw>, n: nat, k: nat)
    requires k == Text.Least(n, |rows|)
    ensures NoneFrom(rows, n) <==> NoneFrom(rows[k..], 0)
  {
    var tail := rows[k..];
    if NoneFrom(tail, 0) {
      forall i | n <= i < |rows| ensures ParseRow(rows[i]).None? {
        assert rows[i] == tail[i - k];
      }
    }
    if NoneFrom(rows, n) {
      forall i | 0 <= i < |tail| ensures ParseRow(tail[i]).None? {
        assert tail[i] == rows[k + i];
      }
    }
  }

  lemma {:induction false} NoneParses(rows: seq<Raw>)
    ensures ParseRows(rows) == [] <==> NoneFrom(rows, 0)
  {
    if rows != [] {
      var front, last := rows[..|rows| - 1], rows[|rows| - 1];
      NoneParses(front);
      if NoneFrom(front, 0) && ParseRow(last).None? {
        forall i | 0 <= i < |rows| ensures ParseRow(rows[i]).None? {
          assert i < |front| ==> rows[i] == front[i];
        }
      }
      if NoneFrom(rows, 0) {
        assert ParseRow(rows[|rows| - 1]).None?;
        assert forall i :: 0 <= i < |front| ==> front[i] == rows[i];
      }
    }
  }

  /** When every row has an id, both walks return the list up to the page limit: all of it, exactly
      when it fits in 2000 pages. */
  lemma WalksAgree(sized: Portal, unsized: Portal, rows: seq<Raw>, size: nat)
    requires size > 0 && AllParse(rows)
    requires Serves(sized, rows, size, Some(|rows|)) && Serves(unsized, rows, size, None)
    ensures Listed(sized) == Listed(unsized) == Ok(ParseRows(FirstPages(rows, size, 2000)))
    ensures Listed(sized) == Ok(ParseRows(rows)) <==> |rows| <= 2000 * size
  {
    hide ParseRows, PageRows, Listed, Serves;
    SizedWalkReturns(sized, rows, size);
    UnsizedWalkReturns(unsized, rows, size);
    FullPagesGoOn(unsized, rows, size);
    FirstPageEmptyIff(rows, size);
    AllOrLimit(rows, 2000 * size);
  }

  lemma AllOrLimit(rows: seq<Raw>, n: nat)
    requires AllParse(rows)
    ensures ParseRows(rows[..Text.Least(n, |rows|)]) == ParseRows(rows) <==> |rows| <= n
  {
    hide ParseRows, NoneFrom, AllParse;
    CompleteIff(rows, n);
    SomeAfter(rows, n);
  }

  lemma SomeAfter(rows: seq<Raw>, n: nat)
    requires AllParse(rows)
    ensures NoneFrom(rows, n) <==> |rows| <= n
  {
    if |rows| > n {
      assert ParseRow(rows[n]).Some?;
    }
  }

  lemma FullPagesGoOn(portal: Portal, rows: seq<Raw>, size: nat)
    requires size > 0 && AllParse(rows) && Serves(portal, rows, size, None)
    ensures FirstPages(rows, size, StopPage(portal, 2, size)) == FirstPages(rows, size, 2000)
  {
    hide ParseRows, RowsIn, PageRows, StopPage, Serves, AllParse, FirstPages;
    var stop := StopPage(portal, 2, size);
    PageParses(rows, size, stop);
    ServedItems(portal, rows, size, stop);
    if stop < 2000 {
      ShortPageIsLast(rows, size, stop);
      MorePages(size, stop, 2000);
      WholeList(rows, size, stop);
      WholeList(rows, size, 2000);
    }
  }

  lemma PageParses(rows: seq<Raw>, size: nat, page: nat)
    requires AllParse(rows) && page >= 1
    ensures |ParseRows(PageRows(rows, size, page))| == |PageRows(rows, size, page)|
  {
    hide ParseRows;
    AllParsed(PageRows(rows, size, page));
  }

  lemma WholeList(rows: seq<Raw>, size: nat, n: nat)
    requires |rows| <= RowsIn(n, size)
    ensures FirstPages(rows, size, n) == rows
  {
  }

  lemma ShortPageIsLast(rows: seq<Raw>, size: nat, page: nat)
    requires page >= 1 && |PageRows(rows, size, page)| < size
    ensures |rows| <= RowsIn(page, size)
  {
    assert (page - 1) * size + size == page * size;
  }

  lemma MorePages(size: nat, m: nat, n: nat)
    requires m <= n
    ensures RowsIn(m, size) <= RowsIn(n, size)
  {
  }

  lemma FirstPageEmptyIff(rows: seq<Raw>, size: nat)
    requires size > 0 && AllParse(rows)
    ensures ParseRows(PageRows(rows, size, 1)) == [] <==> rows == []
    ensures rows == [] ==> ParseRows(FirstPages(rows, size, 2000)) == []
  {
    AllParsed(PageRows(rows, size, 1));
  }
}
