/** What search and export conserve (crates/iptv/src/catalog_db.rs:217-244, 366-368, 490-563, 625-662). */
module CatalogSearch {
  import opened Wrappers
  import opened Catalog
  import opened CatalogQuery
  import opened CatalogPage
  import opened Listings
  import opened Sums

  // ---------------------------------------------------------------------------------------------
  // Counting hits by category

  /** The total that the page of one category shows: a reserved id is taken for favourites. */
  function PageTotal(like: (string, string) -> bool, t: Table, q: string, category: string): nat {
    if Reserved(category) then 0 else Total(like, Filter(category, q), t)
  }

  /** It is the total that a search request for the category is answered with, whatever its page. */
  lemma PageTotalIsShown(like: (string, string) -> bool, shelf: Shelf, req: Request, resp: Response)
    requires req.streamIds.None? && req.q != "" && IsAnswer(like, shelf, req, resp)
    ensures resp.Answer? && resp.total == PageTotal(like, shelf.streams, req.q, req.category)
  {
    hide Total, Sorted, Ordering, Le, Slice, Listed, HitSet;
  }

  /** The rows hit, and those of some categories among them. */
  function HitRows(like: (string, string) -> bool, t: Table,
        q: string): set<string> { set id | id in t && Hits(like, q, t[id]) }

  function InCategories(t: Table, rows: set<string>,
        cs: set<string>): set<string> { set id | id in rows && id in t && t[id].category in cs }

  ghost function CountIn(t: Table, rows: set<string>): string -> int { c => |InCategories(t, rows, {c})| }

  /** The categories' counts add up to the rows that have one of them. */
  lemma {:induction false} CountsAddUp(t: Table, rows: set<string>, cs: set<string>)
    ensures SumBy(cs, CountIn(t, rows)) == |InCategories(t, rows, cs)|
    decreases cs
  {
    hide InCategories;
    if cs == {} {
      NoCategory(t, rows);
    } else {
      var c :| c in cs;
      CountsAddUp(t, rows, cs - {c});
      SumTakeOut(cs, CountIn(t, rows), c);
      OneMoreCategory(t, rows, cs, c);
    }
  }

  lemma NoCategory(t: Table, rows: set<string>)
    ensures InCategories(t, rows, {}) == {}
  {
  }

  lemma OneMoreCategory(t: Table, rows: set<string>, cs: set<string>, c: string)
    requires c in cs
    ensures |InCategories(t, rows, cs)| == |InCategories(t, rows, {c})| + |InCategories(t, rows, cs - {c})|
  {
    var one, others := InCategories(t, rows, {c}), InCategories(t, rows, cs - {c});
    assert one !! others && InCategories(t, rows, cs) == one + others;
  }

  lemma TotalsAreCounts(like: (string, string) -> bool, t: Table, q: string, category: string)
    ensures Total(like, Filter("", q), t) == |HitRows(like, t, q)|
    ensures Total(like, Filter(category, q), t)
         == if Unrestricted(category) then |HitRows(like, t, q)| else |InCategories(t, HitRows(like, t, q), {category})|
  {
    hide Hits;
    var all, one := Matching(like, Filter("", q), t), Matching(like, Filter(category, q), t);
    assert all.Keys == HitRows(like, t, q) && |all| == |all.Keys|;
    assert |one| == |one.Keys|;
    if Unrestricted(category) {
      assert one.Keys == HitRows(like, t, q);
    } else {
      assert one.Keys == InCategories(t, HitRows(like, t, q), {category});
    }
  }

  function Ordinary(cs: set<string>): set<string> { set c | c in cs && !Unrestricted(c) }

  ghost function PageTotals(like: (string, string) -> bool, t: Table,
        q: string): string -> int { c => PageTotal(like, t, q, c) }

  /** What the pages of the listed hit categories show together: each row under an ordinary category
      once, and everything once more when `all` is among them. */
  lemma PagedTotals(like: (string, string) -> bool, t: Table, q: string)
    ensures var hits, rows := HitSet(like, t, q), HitRows(like, t, q);
      SumBy(hits, PageTotals(like, t, q)) == |InCategories(t, rows, Ordinary(hits))| + if "all" in hits then |rows| else 0
  {
    hide HitSet, HitRows, InCategories, Total;
    var hits, rows := HitSet(like, t, q), HitRows(like, t, q);
    var ordinary := Ordinary(hits);
    var w := PageTotals(like, t, q);
    SumOfOrdinary(hits, ordinary, w);
    forall c | c in ordinary ensures w(c) == CountIn(t, rows)(c) {
      TotalsAreCounts(like, t, q, c);
    }
    SumCong(ordinary, w, CountIn(t, rows));
    CountsAddUp(t, rows, ordinary);
    assert "all"[0] == 'a' && !Reserved("all");
    TotalsAreCounts(like, t, q, "all");
    assert "" !in hits by { NoBlankHit(like, t, q); }
    OthersAreZero(like, t, q, hits);
    RestOfSum(hits, ordinary, w, |rows|);
  }

  lemma NoBlankHit(like: (string, string) -> bool, t: Table, q: string)
    ensures "" !in HitSet(like, t, q)
  {
  }

  lemma OthersAreZero(like: (string, string) -> bool, t: Table, q: string, hits: set<string>)
    requires "" !in hits
    ensures forall c <- hits :: c !in Ordinary(hits) && c != "all" ==> PageTotals(like, t, q)(c) == 0
  {
  }

  lemma SumOfOrdinary(hits: set<string>, ordinary: set<string>, w: string -> int)
    requires ordinary <= hits
    ensures SumBy(hits, w) == SumBy(ordinary, w) + SumBy(hits - ordinary, w)
    decreases ordinary
  {
    if ordinary == {} {
      assert hits - ordinary == hits;
    } else {
      var c :| c in ordinary;
      SumOfOrdinary(hits - {c}, ordinary - {c}, w);
      SumTakeOut(hits, w, c);
      SumTakeOut(ordinary, w, c);
      assert hits - {c} - (ordinary - {c}) == hits - ordinary;
    }
  }

  lemma RestOfSum(hits: set<string>, ordinary: set<string>, w: string -> int, n: nat)
    requires forall c <- hits :: c !in ordinary && c != "all" ==> w(c) == 0
    requires "all" !in ordinary && w("all") == n
    ensures SumBy(hits - ordinary, w) == if "all" in hits then n else 0
  {
    var rest := hits - ordinary;
    SumZero(rest - {"all"}, w);
    if "all" in hits {
      SumTakeOut(rest, w, "all");
    } else {
      assert rest - {"all"} == rest;
    }
  }

  /** The totals paged per listed category add up to the search's total exactly when: with `all`
      among the hits, no ordinary category is; without it, every row hit has an ordinary category. */
  lemma SearchConservesIff(like: (string, string) -> bool, t: Table, q: string)
    ensures var hits, rows := HitSet(like, t, q), HitRows(like, t, q);
      SumBy(hits, PageTotals(like, t, q)) == Total(like, Filter("", q), t)
      <==> if "all" in hits then Ordinary(hits) == {} else forall id <- rows :: !Unrestricted(t[id].category)
  {
    hide Hits, Total;
    var hits, rows := HitSet(like, t, q), HitRows(like, t, q);
    PagedTotals(like, t, q);
    TotalsAreCounts(like, t, q, "");
    if "all" in hits {
      OrdinaryHitsCount(like, t, q);
    } else {
      AllOrdinary(like, t, q);
    }
  }

  function ShownTotal(resp: Response): nat { if resp.Answer? then resp.total else 0 }

  /** One answer for each category, whatever page and order each was asked for. */
  ghost predicate Pages(like: (string, string) -> bool, shelf: Shelf, q: string, cs: set<string>,
        reqs: string -> Request, pages: string -> Response) {
    forall c <- cs :: reqs(c).streamIds.None? && reqs(c).q == q && reqs(c).category == c && IsAnswer(like, shelf, reqs(c), pages(c))
  }

  /** So of the answers themselves: the totals shown with the listed hit categories add up to the
      one shown with the search exactly under that condition, whichever pages are asked for. */
  lemma ShownTotalsAddUpIff(like: (string, string) -> bool, shelf: Shelf, q: string, search: Request, found: Response,
        reqs: string -> Request, pages: string -> Response)
    requires q != "" && search.streamIds.None? && search.q == q && search.category == "" && IsAnswer(like, shelf, search, found)
    requires Pages(like, shelf, q, HitSet(like, shelf.streams, q), reqs, pages)
    ensures var t := shelf.streams; var hits := HitSet(like, t, q);
      SumBy(hits, c => ShownTotal(pages(c))) == ShownTotal(found)
      <==> if "all" in hits then Ordinary(hits) == {} else forall id <- HitRows(like, t, q) :: !Unrestricted(t[id].category)
  {
    hide IsAnswer, Hits, Total;
    var t := shelf.streams;
    var hits := HitSet(like, t, q);
    PageTotalIsShown(like, shelf, search, found);
    assert PageTotal(like, t, q, "") == Total(like, Filter("", q), t);
    forall c | c in hits ensures ShownTotal(pages(c)) == PageTotals(like, t, q)(c) {
      PageTotalIsShown(like, shelf, reqs(c), pages(c));
    }
    SumCong(hits, (c: string) => ShownTotal(pages(c)), PageTotals(like, t, q));
    SearchConservesIff(like, t, q);
    assert SumBy(hits, (c: string) => ShownTotal(pages(c))) == SumBy(hits, PageTotals(like, t, q));
  }

  /** For example: one row of a category called `all` beside one of another is counted twice. */
  lemma CategoryCalledAll(like: (string, string) -> bool)
    requires like("x", "x")
    ensures var t := map["1" := Row("all", "x", 0, map[]), "2" := Row("news", "x", 1, map[])];
      SumBy(HitSet(like, t, "x"), PageTotals(like, t, "x")) != Total(like, Filter("", "x"), t)
  {
    var t: Table := map["1" := Row("all", "x", 0, map[]), "2" := Row("news", "x", 1, map[])];
    hide PageTotals, Total, SumBy;
    assert t["1"].category in HitSet(like, t, "x") && t["2"].category in HitSet(like, t, "x");
    assert "news" in Ordinary(HitSet(like, t, "x")) by { assert "news"[0] == 'n'; }
    SearchConservesIff(like, t, "x");
  }

  lemma OrdinaryHitsCount(like: (string, string) -> bool, t: Table, q: string)
    ensures var hits := HitSet(like, t, q);
      |InCategories(t, HitRows(like, t, q), Ordinary(hits))| == 0 <==> Ordinary(hits) == {}
  {
    hide Hits;
    var hits, rows := HitSet(like, t, q), HitRows(like, t, q);
    if c :| c in Ordinary(hits) {
      var id :| id in t && Hits(like, q, t[id]) && t[id].category == c;
      assert id in InCategories(t, rows, Ordinary(hits));
    } else {
      assert InCategories(t, rows, Ordinary(hits)) == {};
    }
  }

  lemma AllOrdinary(like: (string, string) -> bool, t: Table, q: string)
    ensures var hits, rows := HitSet(like, t, q), HitRows(like, t, q);
      |InCategories(t, rows, Ordinary(hits))| == |rows| <==> forall id <- rows :: !Unrestricted(t[id].category)
  {
    hide Hits;
    var hits, rows := HitSet(like, t, q), HitRows(like, t, q);
    var part := InCategories(t, rows, Ordinary(hits));
    assert part <= rows;
    if |part| == |rows| {
      SubsetOfSameSize(part, rows);
    }
    if forall id <- rows :: !Unrestricted(t[id].category) {
      forall id | id in rows ensures id in part {
        assert t[id].category in hits;
      }
      assert part == rows;
    }
  }

  lemma {:induction false} SubsetOfSameSize(a: set<string>, b: set<string>)
    requires a <= b && |a| == |b|
    ensures a == b
  {
    assert |b - a| == |b| - |a|;
  }

  /** For a query that hits ordinary categories only, nothing is lost and nothing shown twice, and
      the listed categories are exactly those with a row hit. */
  lemma OrdinarySearchConserves(like: (string, string) -> bool, t: Table, q: string)
    requires forall id <- HitRows(like, t, q) :: !Unrestricted(t[id].category)
    ensures SumBy(HitSet(like, t, q), PageTotals(like, t, q)) == Total(like, Filter("", q), t)
    ensures forall c :: c in HitSet(like, t, q) <==> !Unrestricted(c) && Total(like, Filter(c, q), t) > 0
  {
    hide Hits, Total;
    var hits, rows := HitSet(like, t, q), HitRows(like, t, q);
    assert "all" !in hits;
    SearchConservesIff(like, t, q);
    forall c ensures c in hits <==> !Unrestricted(c) && Total(like, Filter(c, q), t) > 0 {
      HitHasRows(like, t, q, c);
    }
  }

  lemma HitHasRows(like: (string, string) -> bool, t: Table, q: string, c: string)
    ensures !Unrestricted(c) ==> (c in HitSet(like, t, q) <==> Total(like, Filter(c, q), t) > 0)
    ensures (forall id <- HitRows(like, t, q) :: !Unrestricted(t[id].category)) && c in HitSet(like, t, q) ==> !Unrestricted(c)
  {
    hide Hits, Total;
    TotalsAreCounts(like, t, q, c);
    var part := InCategories(t, HitRows(like, t, q), {c});
    if c in HitSet(like, t, q) {
      var id :| id in t && Hits(like, q, t[id]) && t[id].category == c;
      assert id in HitRows(like, t, q) && id in part;
    } else {
      assert !Unrestricted(c) ==> part == {};
    }
  }

  /** A reserved category is listed as a hit, and its page is empty. */
  lemma ReservedHitPagesEmpty(like: (string, string) -> bool, shelf: Shelf, req: Request, resp: Response)
    requires Reserved(req.category) && req.streamIds.None? && IsAnswer(like, shelf, req, resp)
    ensures resp.Answer? && resp.streams == [] && resp.total == 0 && !resp.hasMore
  {
  }

  // ---------------------------------------------------------------------------------------------
  // Export and replacement

  /** Two tables with the same ids, categories, names and records, in the same playlist order. */
  ghost predicate SameShape(t: Table, u: Table) {
    && t.Keys == u.Keys
    && (forall id <- t :: t[id].category == u[id].category && t[id].name == u[id].name && t[id].record == u[id].record)
    && (forall x, y | x in t && y in t :: t[x].sort <= t[y].sort <==> u[x].sort <= u[y].sort)
  }

  lemma SameShapeSameOrder(t: Table, u: Table, sort: Sort, ids: seq<string>)
    requires SameShape(t, u)
    ensures Ordering(t, sort, ids) <==> Ordering(u, sort, ids)
  {
    forall x, y | x in t && y in t ensures Le(sort, t[x], t[y]) <==> Le(sort, u[x], u[y]) {
      SameLe(t, u, sort, x, y);
    }
    hide Le;
  }

  lemma SameLe(t: Table, u: Table, sort: Sort, x: string, y: string)
    requires SameShape(t, u) && x in t && y in t
    ensures Le(sort, t[x], t[y]) <==> Le(sort, u[x], u[y])
  {
  }

  lemma SameShapeSameRecords(t: Table, u: Table, ids: seq<string>)
    requires SameShape(t, u) && forall id <- ids :: id in t
    ensures RecordsOf(t, ids) == RecordsOf(u, ids)
  {
    forall i | 0 <= i < |ids| ensures t[ids[i]].record == u[ids[i]].record {
      assert ids[i] in ids;
    }
  }

  lemma SameShapeMatches(like: (string, string) -> bool, f: Filter, t: Table, u: Table)
    requires SameShape(t, u)
    ensures SameShape(Matching(like, f, t), Matching(like, f, u)) && Total(like, f, t) == Total(like, f, u)
  {
    var a, b := Matching(like, f, t), Matching(like, f, u);
    assert a.Keys == b.Keys && |a| == |a.Keys| && |b| == |b.Keys|;
  }

  lemma SameShapeSamePage(like: (string, string) -> bool, t: Table, u: Table, f: Filter, sort: Sort, page: nat,
        size: nat, ids: seq<string>, total: nat)
    requires page >= 1 && SameShape(t, u) && IsPage(like, t, f, sort, page, size, ids, total)
    ensures IsPage(like, u, f, sort, page, size, ids, total)
  {
    hide Slice, Ordering, Matches, SameShape;
    SameShapeMatches(like, f, t, u);
    var all :| Ordering(Matching(like, f, t), sort, all) && ids == Slice(all, page, size);
    SameShapeSameOrder(Matching(like, f, t), Matching(like, f, u), sort, all);
  }

  lemma {:induction false} SameShapeByIds(t: Table, u: Table, ids: seq<string>)
    requires SameShape(t, u)
    ensures ByIds(t, ids) == ByIds(u, ids)
  {
    if ids != [] {
      SameShapeByIds(t, u, ids[..|ids| - 1]);
    }
  }

  /** Shelves of the same shape answer every request alike. */
  lemma SameShapeSameAnswer(like: (string, string) -> bool, a: Shelf, b: Shelf, req: Request, resp: Response)
    requires SameShape(a.categories, b.categories) && SameShape(a.streams, b.streams) && IsAnswer(like, a, req, resp)
    ensures IsAnswer(like, b, req, resp)
  {
    hide SameShape, InOrder, IsListing;
    var categories :| InOrder(a.categories, categories)
      && (if ForFavourites(req) then resp == Favourites(a, req, categories) else IsListing(like, a, req, categories, resp));
    SameShapeInOrder(a.categories, b.categories, categories);
    if ForFavourites(req) {
      SameShapeByIds(a.streams, b.streams, if req.streamIds.Some? then WantedIds(req.streamIds.value) else []);
    } else {
      SameListing(like, a, b, req, categories, resp);
    }
  }

  lemma SameShapeInOrder(t: Table, u: Table, records: seq<Record>)
    requires SameShape(t, u) && InOrder(t, records)
    ensures InOrder(u, records)
  {
    hide SameShape, Le;
    var ids :| ListedBy(t, ids, records);
    SameShapeSameOrder(t, u, Playlist, ids);
    SameShapeSameRecords(t, u, ids);
    assert ListedBy(u, ids, records);
  }

  lemma SameListing(like: (string, string) -> bool, a: Shelf, b: Shelf, req: Request, categories: seq<Record>,
        resp: Response)
    requires SameShape(a.streams, b.streams) && IsListing(like, a, req, categories, resp)
    ensures IsListing(like, b, req, categories, resp)
  {
    hide IsPage, Sorted, HitSet, Listed;
    var ids :| PageHas(like, a, req, resp, ids);
    SameShapeSamePage(like, a.streams, b.streams, Filter(resp.category, req.q), SortOf(req.sort), resp.page, resp.size, ids, resp.total);
    SameShapeSameRecords(a.streams, b.streams, ids);
    assert PageHas(like, b, req, resp, ids);
    SameHits(like, a.streams, b.streams, req.q);
  }

  lemma SameHits(like: (string, string) -> bool, t: Table, u: Table, q: string)
    requires SameShape(t, u)
    ensures HitSet(like, t, q) == HitSet(like, u, q)
  {
    forall c ensures c in HitSet(like, t, q) <==> c in HitSet(like, u, q) {
      if c in HitSet(like, t, q) {
        var id :| id in t && Hits(like, q, t[id]) && t[id].category == c;
        assert Hits(like, q, u[id]) && u[id].category == c;
      }
      if c in HitSet(like, u, q) {
        var id :| id in u && Hits(like, q, u[id]) && u[id].category == c;
        assert Hits(like, q, t[id]) && t[id].category == c;
      }
    }
  }

  /** An export: the categories and the streams in playlist order. */
  ghost predicate IsExport(shelf: Shelf, categories: seq<Record>, streams: seq<Record>) {
    InOrder(shelf.categories, categories) && InOrder(shelf.streams, streams)
  }

  method ExportShelf(shelves: map<ShelfKey, Shelf>, key: ShelfKey) returns (r: Option<(seq<Record>, seq<Record>)>)
    ensures r.Some? <==> key in shelves
    ensures r.Some? ==> IsExport(shelves[key], r.value.0, r.value.1)
  {
    hide InOrder;
    if key !in shelves {
      return None;
    }
    var categories := LoadCategories(shelves[key]);
    var streams := AllRecords(shelves[key].streams);
    r := Some((categories, streams));
  }

  /** A shelf just replaced exports what was put in, less the records without an id, the last of
      each id standing at its own place. */
  lemma ExportIsKept(categories: seq<Record>, streams: seq<Record>, outCategories: seq<Record>, outStreams: seq<Record>)
    requires IsExport(Shelf(TableOf(CategoryReader(), categories), TableOf(StreamReader(), streams)), outCategories, outStreams)
    ensures outCategories == Kept(CategoryReader(), categories) && outStreams == Kept(StreamReader(), streams)
  {
    hide TableOf, Kept, Le;
    var shelf := Shelf(TableOf(CategoryReader(), categories), TableOf(StreamReader(), streams));
    var c :| ListedBy(shelf.categories, c, outCategories);
    var s :| ListedBy(shelf.streams, s, outStreams);
    ListedIsKept(CategoryReader(), categories, c);
    ListedIsKept(StreamReader(), streams, s);
  }

  lemma ListedIsKept(rd: Reader, records: seq<Record>, ids: seq<string>)
    requires KeepsSort(rd) && Ordering(TableOf(rd, records), Playlist, ids)
    ensures RecordsOf(TableOf(rd, records), ids) == Kept(rd, records)
  {
    hide TableOf, Kept, Le;
    TableLists(rd, records);
    SortsAreUnique(rd, records);
    OrderingIsUnique(TableOf(rd, records), Playlist, ids, Ids(rd, Kept(rd, records)));
  }

  /** What a reader takes from a record does not depend on the record's place. */
  ghost predicate ReadsRecord(rd: Reader) {
    forall r, m, n :: rd.row(r, m).category == rd.row(r, n).category && rd.row(r, m).name == rd.row(r, n).name
  }

  lemma KeptIsDistinct(rd: Reader, records: seq<Record>)
    ensures Distinct(rd, Kept(rd, records))
    ensures forall i :: 0 <= i < |Kept(rd, records)| ==> IsLast(rd, Kept(rd, records), i)
  {
    var at, kept := LastPositions(rd, records, 0), Kept(rd, records);
    LastPositionsAre(rd, records, 0);
    hide LastPositions;
    forall i, j | 0 <= i < j < |kept| ensures rd.id(kept[i]) != "" && rd.id(kept[i]) != rd.id(kept[j]) {
      assert at[i] in at && at[j] in at && at[i] < at[j] && IsLast(rd, records, at[i]);
    }
    forall i | 0 <= i < |kept| ensures rd.id(kept[i]) != "" {
      assert at[i] in at && IsLast(rd, records, at[i]);
    }
  }

  lemma KeptHasSameShape(rd: Reader, records: seq<Record>)
    requires KeepsSort(rd) && ReadsRecord(rd)
    ensures SameShape(TableOf(rd, records), TableOf(rd, Kept(rd, records)))
  {
    hide TableOf, LastPositions, Kept;
    var t, u := TableOf(rd, records), TableOf(rd, Kept(rd, records));
    forall id ensures id in t <==> id in u
              ensures id in t ==> t[id].category == u[id].category && t[id].name == u[id].name && t[id].record == u[id].record
    {
      KeptRow(rd, records, id);
    }
    forall x, y | x in t && y in t ensures t[x].sort <= t[y].sort <==> u[x].sort <= u[y].sort {
      KeptRow(rd, records, x);
      KeptRow(rd, records, y);
      var i :| MovedTo(rd, records, x, i);
      var j :| MovedTo(rd, records, y, j);
      KeptOrder(rd, records, x, y, i, j);
    }
  }

  /** A row went from its place in the list to its place i among the kept records. */
  ghost predicate MovedTo(rd: Reader, records: seq<Record>, id: string, i: nat) {
    var t, u, at := TableOf(rd, records), TableOf(rd, Kept(rd, records)), LastPositions(rd, records, 0);
    && id in t && id in u && i < |at| && t[id].sort == at[i] && u[id].sort == i
    && t[id].category == u[id].category && t[id].name == u[id].name && t[id].record == u[id].record
  }

  lemma KeptRow(rd: Reader, records: seq<Record>, id: string)
    requires KeepsSort(rd) && ReadsRecord(rd)
    ensures id in TableOf(rd, records) ==> exists i :: MovedTo(rd, records, id, i)
    ensures id in TableOf(rd, Kept(rd, records)) ==> id in TableOf(rd, records)
  {
    hide TableOf, LastPositions;
    var kept, at := Kept(rd, records), LastPositions(rd, records, 0);
    LastPositionsAre(rd, records, 0);
    TableHasLast(rd, records, id);
    TableHasLast(rd, kept, id);
    if id in TableOf(rd, records) {
      var p :| 0 <= p < |records| && IsLast(rd, records, p) && rd.id(records[p]) == id && TableOf(rd, records)[id] == rd.row(records[p], p);
      var i :| 0 <= i < |at| && at[i] == p;
      KeptIsDistinct(rd, records);
      LastHasRow(rd, kept, i);
      assert kept[i] == records[p] && MovedTo(rd, records, id, i);
    }
    if id in TableOf(rd, kept) {
      var i :| 0 <= i < |kept| && rd.id(kept[i]) == id;
      assert at[i] in at && kept[i] == records[at[i]];
    }
  }

  lemma KeptOrder(rd: Reader, records: seq<Record>, x: string, y: string, i: nat, j: nat)
    requires MovedTo(rd, records, x, i) && MovedTo(rd, records, y, j)
    ensures var t, u := TableOf(rd, records), TableOf(rd, Kept(rd, records));
      t[x].sort <= t[y].sort <==> u[x].sort <= u[y].sort
  {
    hide TableOf, LastPositions, Kept;
    var at := LastPositions(rd, records, 0);
    LastPositionsAre(rd, records, 0);
    assert i < j ==> at[i] < at[j];
    assert j < i ==> at[j] < at[i];
  }

  /** Replacing any shelf that a replacement made with its own export is accepted and changes no
      answer to any request. */
  lemma ReplaceByExportChangesNothing(like: (string, string) -> bool, shelf: Shelf, categories: seq<Record>,
        streams: seq<Record>, req: Request, resp: Response)
    requires IsMade(shelf) && IsExport(shelf, categories, streams)
    ensures Distinct(CategoryReader(), categories)
    ensures IsAnswer(like, shelf, req, resp)
        <==> IsAnswer(like, Shelf(TableOf(CategoryReader(), categories), TableOf(StreamReader(), streams)), req, resp)
  {
    hide TableOf, IsExport, Kept, IsAnswer, SameShape;
    var madeCategories, madeStreams :| MadeFrom(shelf, madeCategories, madeStreams);
    var after := Shelf(TableOf(CategoryReader(), categories), TableOf(StreamReader(), streams));
    ExportIsKept(madeCategories, madeStreams, categories, streams);
    KeptIsDistinct(CategoryReader(), madeCategories);
    KeptHasSameShape(CategoryReader(), madeCategories);
    KeptHasSameShape(StreamReader(), madeStreams);
    SameShapeBack(shelf.categories, after.categories);
    SameShapeBack(shelf.streams, after.streams);
    if IsAnswer(like, shelf, req, resp) {
      SameShapeSameAnswer(like, shelf, after, req, resp);
    }
    if IsAnswer(like, after, req, resp) {
      SameShapeSameAnswer(like, after, shelf, req, resp);
    }
  }

  lemma SameShapeBack(t: Table, u: Table)
    requires SameShape(t, u)
    ensures SameShape(u, t)
  {
  }
}
