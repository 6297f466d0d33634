/** What the answer to a page request says, with the request's rules written out
    (crates/iptv/src/catalog_db.rs:290-523, 596-623). */
module CatalogAnswer {
  import opened Wrappers
  import opened Catalog
  import opened CatalogQuery
  import opened CatalogPage
  import opened Listings
  import Text

  // ---------------------------------------------------------------------------------------------
  // Favourites: streams by their ids

  function Trimmed(ids: seq<string>): seq<string> { seq(|ids|, i requires 0 <= i < |ids| => Text.Trim(ids[i])) }

  lemma {:induction false} WantedArePicked(ids: seq<string>)
    ensures Picks(WantedIds(ids), Trimmed(ids), id => id != "")
  {
    hide Picks;
    var keep := (id: string) => id != "";
    if ids == [] {
      PicksNothing(keep);
      assert Trimmed(ids) == [];
    } else {
      WantedArePicked(ids[..|ids| - 1]);
      assert Trimmed(ids)[..|ids| - 1] == Trimmed(ids[..|ids| - 1]);
      OneMorePick(WantedIds(ids[..|ids| - 1]), Trimmed(ids), keep);
    }
  }

  lemma {:induction false} FoundArePicked(t: Table, ids: seq<string>) returns (found: seq<string>)
    ensures Picks(found, ids, id => id in t) && (forall id <- found :: id in t)
    ensures ByIds(t, ids) == RecordsOf(t, found)
  {
    hide Picks;
    var keep := (id: string) => id in t;
    if ids == [] {
      PicksNothing(keep);
      found := [];
    } else {
      var before := FoundArePicked(t, ids[..|ids| - 1]);
      OneMorePick(before, ids, keep);
      found := if keep(ids[|ids| - 1]) then before + [ids[|ids| - 1]] else before;
    }
  }

  /** A request with ids, or for a category whose id starts with two underscores, is answered by the
      streams of the ids asked for: those that are not blank and stored, in the order of the request. */
  lemma FavouritesAnswer(like: (string, string) -> bool, shelf: Shelf, req: Request, resp: Response)
    returns (wanted: seq<string>, found: seq<string>)
    requires IsAnswer(like, shelf, req, resp) && (req.streamIds.Some? || "__" <= req.category)
    ensures Picks(wanted, Trimmed(if req.streamIds.Some? then req.streamIds.value else []), id => id != "")
    ensures Picks(found, wanted, id => id in shelf.streams) && forall id <- found :: id in shelf.streams
    ensures resp.Answer? && resp.streams == RecordsOf(shelf.streams, found) && resp.total == |found|
    ensures InOrder(shelf.categories, resp.categories) && resp.hits == [] && resp.category == "" && !resp.hasMore
    ensures resp.page == if req.page >= 1 then req.page else 1
    ensures var asked := if req.size >= 1 then req.size else 48;
      && (wanted == [] ==> resp.size == asked)
      && (wanted != [] && asked <= 256 && |wanted| <= 256 ==> resp.size >= asked && resp.size >= |wanted| && resp.size in [asked, |wanted|])
      && (wanted != [] && (asked > 256 || |wanted| > 256) ==> resp.size == 256)
  {
    hide Picks, InOrder, WantedIds, ByIds;
    var ids := if req.streamIds.Some? then req.streamIds.value else [];
    WantedArePicked(ids);
    NoIds();
    wanted := WantedIds(ids);
    found := FoundArePicked(shelf.streams, wanted);
    NoneFound(shelf.streams);
  }

  lemma NoIds()
    ensures WantedIds([]) == []
  {
  }

  lemma NoneFound(t: Table)
    ensures ByIds(t, []) == []
  {
  }

  // ---------------------------------------------------------------------------------------------
  // Listings: a category or a search

  lemma {:induction false} ListedArePicked(categories: seq<Record>, hits: set<string>)
    ensures Picks(Listed(categories, hits), categories, c => CategoryId(c) != "" && CategoryId(c) in hits)
  {
    hide Picks, CategoryId;
    var keep := (c: Record) => CategoryId(c) != "" && CategoryId(c) in hits;
    if categories == [] {
      PicksNothing(keep);
    } else {
      ListedArePicked(categories[..|categories| - 1], hits);
      OneMorePick(Listed(categories[..|categories| - 1], hits), categories, keep);
    }
  }

  /** The id of the first category that has one. */
  ghost predicate FirstId(categories: seq<Record>, id: string) {
    if id == "" then forall c <- categories :: CategoryId(c) == ""
    else exists i :: 0 <= i < |categories| && CategoryId(categories[i]) == id && forall j :: 0 <= j < i ==> CategoryId(categories[j]) == ""
  }

  lemma {:induction false} FirstIdIsFound(categories: seq<Record>)
    ensures FirstId(categories, FirstCategoryId(categories))
  {
    hide CategoryId;
    if categories != [] && CategoryId(categories[0]) == "" {
      var rest, id := categories[1..], FirstCategoryId(categories);
      FirstIdIsFound(rest);
      if id != "" {
        var i :| 0 <= i < |rest| && CategoryId(rest[i]) == id && forall j :: 0 <= j < i ==> CategoryId(rest[j]) == "";
        assert CategoryId(categories[i + 1]) == id;
        forall j | 0 <= j < i + 1 ensures CategoryId(categories[j]) == "" {
          assert j > 0 ==> categories[j] == rest[j - 1];
        }
      }
    }
  }

  /** The row's name or its category is like the query, or there is no query. */
  predicate IsHit(like: (string, string) -> bool, q: string, row: Row) { q == "" || like(q, row.name) || like(q, row.category) }

  /** The empty category, `all` and those starting with two underscores are every row's. */
  predicate IsOf(category: string, row: Row) { category in ["", "all"] || "__" <= category || row.category == category }

  /** Without ids and for any other category: 48 streams a page unless asked otherwise and never more
      than 128; the first category with an id unless one is asked for or something is searched; with
      a query, the categories of the rows hit, ascending, and only these are listed. */
  lemma ListingAnswer(like: (string, string) -> bool, shelf: Shelf, req: Request, resp: Response)
    returns (categories: seq<Record>)
    requires IsAnswer(like, shelf, req, resp) && req.streamIds.None? && !("__" <= req.category)
    ensures resp.Answer? && InOrder(shelf.categories, categories)
    ensures resp.page == if req.page >= 1 then req.page else 1
    ensures (req.size < 1 ==> resp.size == 48) && (1 <= req.size <= 128 ==> resp.size == req.size) && (req.size > 128 ==> resp.size == 128)
    ensures if req.category == "" && req.q == "" then FirstId(categories, resp.category) else resp.category == req.category
    ensures req.q == "" ==> resp.hits == [] && resp.categories == categories
    ensures req.q != "" ==>
      && (forall c :: c in resp.hits <==> c != "" && exists id :: id in shelf.streams && IsHit(like, req.q, shelf.streams[id]) && shelf.streams[id].category == c)
      && (forall i, j :: 0 <= i < j < |resp.hits| ==> resp.hits[i] != resp.hits[j] && Text.LexLe(resp.hits[i], resp.hits[j]))
      && Picks(resp.categories, categories, c => CategoryId(c) != "" && CategoryId(c) in resp.hits)
  {
    hide InOrder, Listed, HitSet, CategoryId, FirstCategoryId, PageHas, Picks, FirstId, Text.LexLe, HasMore;
    categories :| InOrder(shelf.categories, categories) && IsListing(like, shelf, req, categories, resp);
    FirstIdIsFound(categories);
    if req.q != "" {
      var hits := HitSet(like, shelf.streams, req.q);
      ListedArePicked(categories, hits);
      SameCondition(resp.categories, categories, hits, resp.hits);
      HitsAre(like, shelf.streams, req.q);
    }
  }

  lemma SameCondition(items: seq<Record>, all: seq<Record>, s: set<string>, l: seq<string>)
    requires Picks(items, all, c => CategoryId(c) != "" && CategoryId(c) in s) && forall id :: id in l <==> id in s
    ensures Picks(items, all, c => CategoryId(c) != "" && CategoryId(c) in l)
  {
    hide CategoryId, PickedAt;
    var at :| PickedAt(items, all, at) && forall i :: 0 <= i < |all| ==> (i in at <==> CategoryId(all[i]) != "" && CategoryId(all[i]) in s);
  }

  lemma HitsAre(like: (string, string) -> bool, t: Table, q: string)
    ensures forall c :: c in HitSet(like, t, q) <==> c != "" && exists id :: id in t && IsHit(like, q, t[id]) && t[id].category == c
  {
  }

  /** The records of the rows listed from one position on, as many as there are up to a number. */
  ghost predicate PartFrom(t: Table, all: seq<string>, from: nat, size: nat, streams: seq<Record>) {
    && (forall id <- all :: id in t)
    && |streams| == (if from >= |all| then 0 else if from + size >= |all| then |all| - from else size)
    && forall i :: 0 <= i < |streams| ==> streams[i] == t[all[from + i]].record
  }

  /** The rows of an answer: `all` lists the ids of the rows of its category that the query hits, as the
      request's text orders them; the page is its part. */
  lemma ListingRows(like: (string, string) -> bool, shelf: Shelf, req: Request, resp: Response) returns (all: seq<string>)
    requires UniqueSorts(shelf.streams) && IsAnswer(like, shelf, req, resp) && req.streamIds.None? && !("__" <= req.category)
    ensures resp.Answer? && resp.page >= 1
    ensures forall id :: id in all <==> id in shelf.streams && IsHit(like, req.q, shelf.streams[id]) && IsOf(resp.category, shelf.streams[id])
    ensures Stand(shelf.streams, req.sort, all)
    ensures resp.total == |all| && (resp.hasMore <==> resp.page * resp.size < |all|)
    ensures PartFrom(shelf.streams, all, (resp.page - 1) * resp.size, resp.size, resp.streams)
  {
    hide InOrder, Listed, HitSet, CategoryId, FirstCategoryId, Sorted, HasMore, Ordering, IsPage, Matching, Slice, Category;
    var categories :| InOrder(shelf.categories, categories) && IsListing(like, shelf, req, categories, resp);
    var ids :| PageHas(like, shelf, req, resp, ids);
    var f := Filter(resp.category, req.q);
    all := SomeOrdering(Matching(like, f, shelf.streams), SortOf(req.sort));
    PageIsSlice(like, shelf.streams, f, SortOf(req.sort), resp.page, resp.size, ids, resp.total, all);
    RowsStand(like, f, shelf.streams, req.sort, all);
    HasMoreIff(all, resp.page, resp.size);
    MatchingRows(like, f, shelf.streams, SortOf(req.sort), all);
    PageRows(shelf.streams, all, resp.page, resp.size, resp.streams);
  }

  lemma MatchingRows(like: (string, string) -> bool, f: Filter, t: Table, sort: Sort, all: seq<string>)
    requires Ordering(Matching(like, f, t), sort, all)
    ensures forall id :: id in all <==> id in t && IsHit(like, f.q, t[id]) && IsOf(f.category, t[id])
  {
    hide Le;
  }

  lemma PageRows(t: Table, all: seq<string>, page: nat, size: nat, streams: seq<Record>)
    requires page >= 1 && (forall id <- all :: id in t) && (forall id <- Slice(all, page, size) :: id in t)
    requires streams == RecordsOf(t, Slice(all, page, size))
    ensures PartFrom(t, all, (page - 1) * size, size, streams)
  {
    SliceBounds(page, size);
  }
}
