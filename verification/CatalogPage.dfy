/** The catalogue's page requests, its search and its export
    (crates/iptv/src/catalog_db.rs:290-523, 596-662). */
module CatalogPage {
  import opened Wrappers
  import opened Catalog
  import opened CatalogQuery
  import opened Listings
  import Text

  /** A request whose texts are trimmed; `streamIds` is there when the request has the key at all. */
  datatype Request = Request(streamIds: Option<seq<string>>, category: string, q: string, sort: string, page: int, size: int)

  datatype Response =
    | ShelfMiss
    | Answer(categories: seq<Record>, streams: seq<Record>, hits: seq<string>, page: nat, size: nat, hasMore: bool, total: nat, category: string)

  function PageNumber(req: Request): (p: nat)
    ensures p >= 1
  {
    if req.page < 1 then 1 else req.page
  }

  function AskedSize(req: Request): (n: nat)
    ensures n >= 1
  {
    if req.size < 1 then 48 else req.size
  }

  /** The ids asked for: trimmed, blank ones left out. */
  function WantedIds(ids: seq<string>): seq<string> {
    if ids == [] then []
    else
      var front, last := WantedIds(ids[..|ids| - 1]), Text.Trim(ids[|ids| - 1]);
      if last == "" then front else front + [last]
  }

  /** `streams_by_ids_ordered`: in the order asked for, unknown ids left out. */
  function ByIds(t: Table, ids: seq<string>): seq<Record> {
    if ids == [] then []
    else
      var front, last := ByIds(t, ids[..|ids| - 1]), ids[|ids| - 1];
      if last in t then front + [t[last].record] else front
  }

  function FirstCategoryId(categories: seq<Record>): string {
    if categories == [] then ""
    else if CategoryId(categories[0]) != "" then CategoryId(categories[0])
    else FirstCategoryId(categories[1..])
  }

  function Listed(categories: seq<Record>, hits: set<string>): seq<Record> {
    if categories == [] then []
    else
      var front, last := Listed(categories[..|categories| - 1], hits), categories[|categories| - 1];
      if CategoryId(last) != "" && CategoryId(last) in hits then front + [last] else front
  }

  /** The categories of the rows a query hits; rows without a category name none. */
  function HitSet(like: (string, string) -> bool, t: Table, q: string): set<string> {
    set id | id in t && Hits(like, q, t[id]) && t[id].category != "" :: t[id].category
  }

  /** The records of a table in playlist order. */
  ghost predicate InOrder(t: Table, records: seq<Record>) { exists ids :: ListedBy(t, ids, records) }

  ghost predicate ListedBy(t: Table, ids: seq<string>, records: seq<Record>) {
    Ordering(t, Playlist, ids) && records == RecordsOf(t, ids)
  }

  predicate ForFavourites(req: Request) { req.streamIds.Some? || Reserved(req.category) }

  function FavouriteSize(req: Request, ids: seq<string>): nat {
    var n := if AskedSize(req) < |ids| then |ids| else AskedSize(req);
    if n > 256 then 256 else n
  }

  function PageSize(req: Request): (n: nat)
    ensures 1 <= n <= 128
  {
    if AskedSize(req) > 128 then 128 else AskedSize(req)
  }

  function Favourites(shelf: Shelf, req: Request, categories: seq<Record>): Response {
    var ids := if req.streamIds.Some? then WantedIds(req.streamIds.value) else [];
    if ids == [] then Answer(categories, [], [], PageNumber(req), AskedSize(req), false, 0, "")
    else
      var streams := ByIds(shelf.streams, ids);
      Answer(categories, streams, [], PageNumber(req), FavouriteSize(req, ids), false, |streams|, "")
  }

  function Category(req: Request, categories: seq<Record>): string {
    if req.q == "" && req.category == "" then FirstCategoryId(categories) else req.category
  }

  /** What a page request may answer. */
  ghost predicate IsAnswer(like: (string, string) -> bool, shelf: Shelf, req: Request, resp: Response) {
    exists categories ::
      InOrder(shelf.categories, categories)
      && (if ForFavourites(req) then resp == Favourites(shelf, req, categories) else IsListing(like, shelf, req, categories, resp))
  }

  ghost predicate IsListing(like: (string, string) -> bool, shelf: Shelf, req: Request, categories: seq<Record>,
        resp: Response) {
    && resp.Answer? && resp.page == PageNumber(req) && resp.size == PageSize(req)
    && resp.category == Category(req, categories)
    && (if req.q == "" then resp.hits == [] && resp.categories == categories
        else Sorted(resp.hits, HitSet(like, shelf.streams, req.q)) && resp.categories == Listed(categories, HitSet(like, shelf.streams, req.q)))
    && resp.hasMore == HasMore(resp.page, resp.size, |resp.streams|, resp.total)
    && exists ids :: PageHas(like, shelf, req, resp, ids)
  }

  ghost predicate PageHas(like: (string, string) -> bool, shelf: Shelf, req: Request, resp: Response, ids: seq<string>)
    requires resp.Answer?
  {
    && resp.page >= 1
    && IsPage(like, shelf.streams, Filter(resp.category, req.q), SortOf(req.sort), resp.page, resp.size, ids, resp.total)
    && (forall id <- ids :: id in shelf.streams) && resp.streams == RecordsOf(shelf.streams, ids)
  }

  /** The categories of a shelf, by position. */
  method LoadCategories(shelf: Shelf) returns (categories: seq<Record>)
    ensures InOrder(shelf.categories, categories)
  {
    categories := AllRecords(shelf.categories);
  }

  method AllRecords(t: Table) returns (records: seq<Record>)
    ensures InOrder(t, records)
  {
    hide Le;
    var ids := OrderRows(t, Playlist);
    records := RecordsOf(t, ids);
    assert ListedBy(t, ids, records);
  }

  /** `query_hit_category_ids`: the distinct categories of the rows hit, ascending. */
  method HitCategories(like: (string, string) -> bool, t: Table, q: string) returns (hits: seq<string>)
    ensures Sorted(hits, HitSet(like, t, q))
  {
    hide Hits, Sorted;
    hits := ToSorted(HitSet(like, t, q));
  }

  method Page(like: (string, string) -> bool, shelves: map<ShelfKey, Shelf>, key: ShelfKey,
        req: Request) returns (resp: Response)
    ensures key !in shelves <==> resp == ShelfMiss
    ensures key in shelves ==> IsAnswer(like, shelves[key], req, resp)
  {
    hide InOrder, IsPage, Sorted, Listed, WantedIds, ByIds, FirstCategoryId, HitSet;
    if key !in shelves {
      return ShelfMiss;
    }
    var shelf := shelves[key];
    var categories := LoadCategories(shelf);
    if ForFavourites(req) {
      resp := Favourites(shelf, req, categories);
      return;
    }
    var category, page, size := Category(req, categories), PageNumber(req), PageSize(req);
    var hits: seq<string>, shown := [], categories;
    if req.q != "" {
      hits := HitCategories(like, shelf.streams, req.q);
      shown := Listed(categories, HitSet(like, shelf.streams, req.q));
    }
    var total, ids := QueryPage(like, shelf.streams, Filter(category, req.q), SortOf(req.sort), page, size);
    var streams := RecordsOf(shelf.streams, ids);
    resp := Answer(shown, streams, hits, page, size, HasMore(page, size, |streams|, total), total, category);
    assert PageHas(like, shelf, req, resp, ids);
    assert IsListing(like, shelf, req, categories, resp);
  }

  // ---------------------------------------------------------------------------------------------
  // A request's pages

  /** The streams of the pages 1 to n put after each other. */
  function StreamsOf(pages: nat -> Response, n: nat): seq<Record> {
    if n == 0 then [] else StreamsOf(pages, n - 1) + (if pages(n).Answer? then pages(n).streams else [])
  }

  ghost predicate AreAnswers(like: (string, string) -> bool, shelf: Shelf, req: Request, pages: nat -> Response, n: nat) {
    forall k :: 1 <= k <= n ==> IsAnswer(like, shelf, req.(page := k), pages(k))
  }

  /** How the text of a request orders the rows: folded names ascending or descending, equal ones by
      position, or by position alone. */
  ghost predicate Stand(t: Table, sort: string, all: seq<string>) {
    && (forall id <- all :: id in t)
    && forall i, j :: 0 <= i < j < |all| ==>
      var a, b := t[all[i]], t[all[j]];
      var x, y := Text.LowerAscii(a.name), Text.LowerAscii(b.name);
      if sort == "nameAsc" then Text.LexLe(x, y) && (x == y ==> a.sort < b.sort)
      else if sort == "nameDesc" then Text.LexLe(y, x) && (x == y ==> a.sort < b.sort)
      else a.sort < b.sort
  }

  /** Asking for page after page of a category or a search lists each matching stream exactly once,
      in the order asked for, and `has_more` is true exactly on the pages before the last. */
  lemma RequestPagesListEachOnce(like: (string, string) -> bool, shelf: Shelf, req: Request,
        categories: seq<Record>, pages: nat -> Response, n: nat)
    returns (all: seq<string>)
    requires UniqueSorts(shelf.categories) && UniqueSorts(shelf.streams) && !ForFavourites(req)
    requires InOrder(shelf.categories, categories) && AreAnswers(like, shelf, req, pages, n)
    requires n * PageSize(req) >= Total(like, Filter(Category(req, categories), req.q), shelf.streams)
    ensures Ordering(Matching(like, Filter(Category(req, categories), req.q), shelf.streams), SortOf(req.sort), all)
    ensures (forall id <- all :: id in shelf.streams) && StreamsOf(pages, n) == RecordsOf(shelf.streams, all)
    ensures forall k :: 1 <= k <= n ==> pages(k).Answer? && pages(k).total == |all| && (pages(k).hasMore <==> k * PageSize(req) < |all|)
    ensures Stand(shelf.streams, req.sort, all)
  {
    hide Matching, Ordering, IsAnswer, InOrder, PageSize, AreAnswers, IsPart, Category, ForFavourites;
    var f := Filter(Category(req, categories), req.q);
    var size := PageSize(req);
    all := SomeOrdering(Matching(like, f, shelf.streams), SortOf(req.sort));
    OrderingLength(Matching(like, f, shelf.streams), SortOf(req.sort), all);
    ListedRows(like, f, shelf.streams, SortOf(req.sort), all);
    RowsStand(like, f, shelf.streams, req.sort, all);
    forall k: nat | 1 <= k <= n
      ensures IsPart(shelf, size, all, k, pages(k))
      ensures pages(k).Answer? && pages(k).total == |all| && (pages(k).hasMore <==> k * size < |all|)
    {
      OneAnswer(like, shelf, req, pages, n, k);
      AnswerIsPart(like, shelf, req, categories, all, k, pages(k));
      PartSays(shelf, size, all, k, pages(k));
    }
    PartsJoin(shelf, size, all, pages, n);
    assert all[..Text.Least(n * size, |all|)] == all;
  }

  lemma PartSays(shelf: Shelf, size: nat, all: seq<string>, k: nat, resp: Response)
    requires k >= 1 && IsPart(shelf, size, all, k, resp)
    ensures resp.Answer? && resp.total == |all| && (resp.hasMore <==> k * size < |all|)
  {
  }

  lemma OneAnswer(like: (string, string) -> bool, shelf: Shelf, req: Request, pages: nat -> Response, n: nat, k: nat)
    requires AreAnswers(like, shelf, req, pages, n) && 1 <= k <= n
    ensures IsAnswer(like, shelf, req.(page := k), pages(k))
  {
    hide IsAnswer;
  }

  /** One answer holds its part of the listing. */
  ghost predicate IsPart(shelf: Shelf, size: nat, all: seq<string>, k: nat, resp: Response)
    requires k >= 1
  {
    && (forall id <- all :: id in shelf.streams)
    && (forall id <- Slice(all, k, size) :: id in shelf.streams)
    && resp.Answer? && resp.streams == RecordsOf(shelf.streams, Slice(all, k, size))
    && resp.total == |all| && (resp.hasMore <==> k * size < |all|)
  }

  lemma RowsStand(like: (string, string) -> bool, f: Filter, t: Table, sort: string, all: seq<string>)
    requires UniqueSorts(t) && Ordering(Matching(like, f, t), SortOf(sort), all)
    ensures Stand(t, sort, all)
  {
    hide Text.LexLe, Text.LowerAscii, Hits;
    ListedRows(like, f, t, SortOf(sort), all);
    forall i, j | 0 <= i < j < |all|
      ensures var a, b := t[all[i]], t[all[j]];
        var x, y := Text.LowerAscii(a.name), Text.LowerAscii(b.name);
        if sort == "nameAsc" then Text.LexLe(x, y) && (x == y ==> a.sort < b.sort)
        else if sort == "nameDesc" then Text.LexLe(y, x) && (x == y ==> a.sort < b.sort)
        else a.sort < b.sort
    {
      Text.LexTotal(Text.LowerAscii(t[all[i]].name), Text.LowerAscii(t[all[j]].name));
      assert all[i] in t && all[j] in t && t[all[i]].sort != t[all[j]].sort;
    }
  }

  lemma ListedRows(like: (string, string) -> bool, f: Filter, t: Table, sort: Sort, all: seq<string>)
    requires Ordering(Matching(like, f, t), sort, all)
    ensures forall id <- all :: id in t
  {
    hide Le, Matches;
  }

  lemma AnswerIsPart(like: (string, string) -> bool, shelf: Shelf, req: Request, categories: seq<Record>,
        all: seq<string>, k: nat, resp: Response)
    requires UniqueSorts(shelf.categories) && UniqueSorts(shelf.streams) && !ForFavourites(req) && k >= 1
    requires InOrder(shelf.categories, categories) && IsAnswer(like, shelf, req.(page := k), resp)
    requires Ordering(Matching(like, Filter(Category(req, categories), req.q), shelf.streams), SortOf(req.sort), all)
    ensures IsPart(shelf, PageSize(req), all, k, resp)
  {
    hide Matching, Ordering, InOrder, IsPage, Slice, Sorted, Listed, HitSet, FirstCategoryId, UniqueSorts;
    var asked := req.(page := k);
    var found :| InOrder(shelf.categories, found) && IsListing(like, shelf, asked, found, resp);
    OneOrder(shelf.categories, found, categories);
    var ids :| PageHas(like, shelf, asked, resp, ids);
    var f := Filter(Category(req, categories), req.q);
    PageIsSlice(like, shelf.streams, f, SortOf(req.sort), k, PageSize(req), ids, resp.total, all);
    HasMoreIff(all, k, PageSize(req));
    ListedRows(like, f, shelf.streams, SortOf(req.sort), all);
    assert ids == Slice(all, k, PageSize(req)) && resp.streams == RecordsOf(shelf.streams, ids);
    assert resp.total == |all|;
    assert resp.size == PageSize(req) && resp.page == k;
    assert resp.hasMore == HasMore(k, PageSize(req), |ids|, |all|);
  }

  lemma OneOrder(t: Table, a: seq<Record>, b: seq<Record>)
    requires UniqueSorts(t) && InOrder(t, a) && InOrder(t, b)
    ensures a == b
  {
    hide Le;
    var x :| ListedBy(t, x, a);
    var y :| ListedBy(t, y, b);
    OrderingIsUnique(t, Playlist, x, y);
  }

  lemma {:induction false} PartsJoin(shelf: Shelf, size: nat, all: seq<string>, pages: nat -> Response, n: nat)
    requires forall k: nat :: 1 <= k <= n ==> IsPart(shelf, size, all, k, pages(k))
    requires forall id <- all :: id in shelf.streams
    ensures (forall id <- all[..Text.Least(n * size, |all|)] :: id in shelf.streams)
    ensures StreamsOf(pages, n) == RecordsOf(shelf.streams, all[..Text.Least(n * size, |all|)])
  {
    hide Slice;
    if n > 0 {
      PartsJoin(shelf, size, all, pages, n - 1);
      assert IsPart(shelf, size, all, n, pages(n));
      SliceJoins(all, n, size);
    } else {
      assert all[..Text.Least(0 * size, |all|)] == [];
    }
  }

  lemma SliceJoins(all: seq<string>, n: nat, size: nat)
    requires n >= 1
    ensures all[..Text.Least((n - 1) * size, |all|)] + Slice(all, n, size) == all[..Text.Least(n * size, |all|)]
  {
    SliceBounds(n, size);
    OneMorePage(all, (n - 1) * size, n * size);
  }
}
