/** Reading the catalogue: ordered answers, pages, exports
    (crates/iptv/src/catalog_db.rs:251-288, 373-484, 525-662). */
module CatalogQuery {
  import opened Catalog
  import Text

  // ---------------------------------------------------------------------------------------------
  // ORDER BY

  datatype Sort = Playlist | NameAsc | NameDesc

  function SortOf(text: string): Sort {
    if text == "nameAsc" then NameAsc else if text == "nameDesc" then NameDesc else Playlist
  }

  /** The order of two rows; names compare as SQLite's NOCASE does. */
  predicate Le(sort: Sort, a: Row, b: Row) {
    var x, y := Text.LowerAscii(a.name), Text.LowerAscii(b.name);
    match sort
    case Playlist => a.sort <= b.sort
    case NameAsc => if x != y then Text.LexLe(x, y) else a.sort <= b.sort
    case NameDesc => if x != y then Text.LexLe(y, x) else a.sort <= b.sort
  }

  lemma LeIsTotalOrder(sort: Sort, a: Row, b: Row, c: Row)
    ensures Le(sort, a, b) || Le(sort, b, a)
    ensures Le(sort, a, b) && Le(sort, b, a) ==> a.sort == b.sort
    ensures Le(sort, a, b) && Le(sort, b, c) ==> Le(sort, a, c)
  {
    hide Text.LexLe, Text.LowerAscii;
    var x, y, z := Text.LowerAscii(a.name), Text.LowerAscii(b.name), Text.LowerAscii(c.name);
    Text.LexTotal(x, y);
    Text.LexTotal(y, z);
    Text.LexTotal(x, z);
    if Text.LexLe(x, y) && Text.LexLe(y, z) {
      Text.LexTransitive(x, y, z);
    }
    if Text.LexLe(z, y) && Text.LexLe(y, x) {
      Text.LexTransitive(z, y, x);
    }
  }

  /** A listing of all ids of a table, each once, that the order allows. */
  ghost predicate Ordering(t: Table, sort: Sort, ids: seq<string>) {
    && (forall id :: id in ids <==> id in t)
    && (forall i, j :: 0 <= i < j < |ids| ==> ids[i] != ids[j] && Le(sort, t[ids[i]], t[ids[j]]))
  }

  /** With unique positions the order leaves one listing, whatever the database does with ties. */
  lemma {:induction false} OrderingIsUnique(t: Table, sort: Sort, a: seq<string>, b: seq<string>)
    requires UniqueSorts(t) && Ordering(t, sort, a) && Ordering(t, sort, b)
    ensures a == b
    decreases |a|
  {
    hide Le;
    OrderingLength(t, sort, a);
    OrderingLength(t, sort, b);
    if a != [] {
      SameFirst(t, sort, a, b);
      WithoutFirst(t, sort, a);
      WithoutFirst(t, sort, b);
      OrderingIsUnique(t - {a[0]}, sort, a[1..], b[1..]);
      assert a == [a[0]] + a[1..] && b == [b[0]] + b[1..];
    }
  }

  lemma SameFirst(t: Table, sort: Sort, a: seq<string>, b: seq<string>)
    requires UniqueSorts(t) && Ordering(t, sort, a) && Ordering(t, sort, b) && a != [] && b != []
    ensures a[0] == b[0]
  {
    hide Le;
    assert a[0] in a && b[0] in b;
    if a[0] != b[0] {
      var i :| 0 <= i < |b| && b[i] == a[0];
      var j :| 0 <= j < |a| && a[j] == b[0];
      assert Le(sort, t[a[0]], t[a[j]]) && Le(sort, t[b[0]], t[b[i]]);
      LeIsTotalOrder(sort, t[a[0]], t[b[0]], t[a[0]]);
    }
  }

  lemma WithoutFirst(t: Table, sort: Sort, ids: seq<string>)
    requires Ordering(t, sort, ids) && ids != []
    ensures Ordering(t - {ids[0]}, sort, ids[1..])
  {
    hide Le;
    var rest := ids[1..];
    forall id ensures id in rest <==> id in t - {ids[0]} {
      if id in t - {ids[0]} {
        var i :| 0 <= i < |ids| && ids[i] == id;
        assert rest[i - 1] == id;
      }
      if id in rest {
        var i :| 0 <= i < |rest| && rest[i] == id;
        assert ids[i + 1] == id;
      }
    }
  }

  /** What `ORDER BY` delivers; any other correct way of sorting would do as well. */
  method OrderRows(t: Table, sort: Sort) returns (ids: seq<string>)
    ensures Ordering(t, sort, ids)
  {
    hide Ordered, Le;
    ids := [];
    var left := t.Keys;
    NothingOrdered(t, sort);
    while left != {}
      invariant left <= t.Keys && Ordered(t, sort, ids, left)
      decreases left
    {
      var first := FirstOf(t, sort, left);
      OneOrdered(t, sort, ids, left, first);
      ids := ids + [first];
      left := left - {first};
    }
    AllOrdered(t, sort, ids);
  }

  /** So far: the ids taken out are listed in order, and none left precedes them. */
  ghost predicate Ordered(t: Table, sort: Sort, ids: seq<string>, left: set<string>) {
    (forall id :: id in ids <==> id in t.Keys - left) && InChain(t, sort, ids) && NoneBefore(t, sort, ids, left)
  }

  ghost predicate InChain(t: Table, sort: Sort, ids: seq<string>) {
    forall i, j :: 0 <= i < j < |ids| ==> ids[i] != ids[j] && ids[i] in t && ids[j] in t && Le(sort, t[ids[i]], t[ids[j]])
  }

  ghost predicate NoneBefore(t: Table, sort: Sort, ids: seq<string>, left: set<string>) {
    forall x, y | x in ids && y in left && x in t && y in t :: Le(sort, t[x], t[y])
  }

  lemma NothingOrdered(t: Table, sort: Sort)
    ensures Ordered(t, sort, [], t.Keys)
  {
  }

  lemma OneOrdered(t: Table, sort: Sort, ids: seq<string>, left: set<string>, first: string)
    requires left <= t.Keys && Ordered(t, sort, ids, left) && first in left && forall y <- left :: Le(sort, t[first], t[y])
    ensures Ordered(t, sort, ids + [first], left - {first})
  {
    hide Le, InChain, NoneBefore;
    OneMoreInChain(t, sort, ids, left, first);
    StillNoneBefore(t, sort, ids, left, first);
  }

  lemma OneMoreInChain(t: Table, sort: Sort, ids: seq<string>, left: set<string>, first: string)
    requires InChain(t, sort, ids) && NoneBefore(t, sort, ids, left) && first in left && left <= t.Keys
    requires forall id :: id in ids <==> id in t.Keys - left
    ensures InChain(t, sort, ids + [first])
  {
    hide Le;
    assert first !in ids;
    forall i | 0 <= i < |ids| ensures ids[i] != first && ids[i] in t && Le(sort, t[ids[i]], t[first]) {
      assert ids[i] in ids;
    }
    ChainEnd(t, sort, ids, first);
  }

  lemma ChainEnd(t: Table, sort: Sort, ids: seq<string>, last: string)
    requires InChain(t, sort, ids) && last in t
    requires forall i :: 0 <= i < |ids| ==> ids[i] != last && ids[i] in t && Le(sort, t[ids[i]], t[last])
    ensures InChain(t, sort, ids + [last])
  {
    hide Le;
  }

  lemma StillNoneBefore(t: Table, sort: Sort, ids: seq<string>, left: set<string>, first: string)
    requires NoneBefore(t, sort, ids, left) && first in left && left <= t.Keys && forall y <- left :: Le(sort, t[first], t[y])
    ensures NoneBefore(t, sort, ids + [first], left - {first})
  {
    hide Le;
    forall x, y | x in ids + [first] && y in left - {first} && x in t && y in t ensures Le(sort, t[x], t[y]) {
      assert x in ids || x == first;
    }
  }

  lemma AllOrdered(t: Table, sort: Sort, ids: seq<string>)
    requires Ordered(t, sort, ids, {})
    ensures Ordering(t, sort, ids)
  {
    hide Le;
  }

  method FirstOf(t: Table, sort: Sort, ids: set<string>) returns (first: string)
    requires ids != {} && ids <= t.Keys
    ensures first in ids && forall y <- ids :: Le(sort, t[first], t[y])
  {
    hide Le;
    first :| first in ids;
    var left := ids - {first};
    LeIsTotalOrder(sort, t[first], t[first], t[first]);
    while left != {}
      invariant left <= ids && first in ids && first !in left
      invariant forall y <- ids - left :: Le(sort, t[first], t[y])
      decreases left
    {
      var y :| y in left;
      left := left - {y};
      LeIsTotalOrder(sort, t[first], t[y], t[y]);
      if !Le(sort, t[first], t[y]) {
        forall z <- ids - left ensures Le(sort, t[y], t[z]) {
          LeIsTotalOrder(sort, t[y], t[first], t[z]);
          LeIsTotalOrder(sort, t[y], t[y], t[y]);
        }
        first := y;
      }
    }
  }

  function RecordsOf(t: Table, ids: seq<string>): (rs: seq<Record>)
    requires forall id <- ids :: id in t
    ensures |rs| == |ids| && forall i :: 0 <= i < |ids| ==> rs[i] == t[ids[i]].record
  {
    seq(|ids|, i requires 0 <= i < |ids| => assert ids[i] in ids; t[ids[i]].record)
  }

  // ---------------------------------------------------------------------------------------------
  // Exporting a shelf

  /** The positions of the records that are the last with their id, in order. */
  function LastPositions(rd: Reader, records: seq<Record>, from: nat): seq<nat>
    requires from <= |records|
    decreases |records| - from
  {
    if from == |records| then []
    else (if IsLast(rd, records, from) then [from] else []) + LastPositions(rd, records, from + 1)
  }

  ghost predicate Ascending(at: seq<nat>) { forall j, k :: 0 <= j < k < |at| ==> at[j] < at[k] }

  lemma {:induction false} LastPositionsAre(rd: Reader, records: seq<Record>, from: nat)
    requires from <= |records|
    ensures forall i :: i in LastPositions(rd, records, from) <==> from <= i < |records| && IsLast(rd, records, i)
    ensures Ascending(LastPositions(rd, records, from))
    decreases |records| - from
  {
    hide IsLast;
    if from < |records| {
      LastPositionsAre(rd, records, from + 1);
      var rest, all := LastPositions(rd, records, from + 1), LastPositions(rd, records, from);
      forall j, k | 0 <= j < k < |all| ensures all[j] < all[k] {
        if IsLast(rd, records, from) && j == 0 {
          assert rest[k - 1] in rest;
        }
      }
    }
  }

  /** The list without the records that have no id, and without those that a later one replaces. */
  function Kept(rd: Reader, records: seq<Record>): (kept: seq<Record>)
  {
    LastPositionsAre(rd, records, 0);
    var at := LastPositions(rd, records, 0);
    seq(|at|, i requires 0 <= i < |at| => assert at[i] in at; records[at[i]])
  }

  function Ids(rd: Reader, records: seq<Record>): seq<string> { seq(|records|, i requires 0 <= i < |records| => rd.id(records[i])) }

  /** In playlist order a table lists exactly the kept records. */
  lemma TableLists(rd: Reader, records: seq<Record>)
    requires KeepsSort(rd)
    ensures Ordering(TableOf(rd, records), Playlist, Ids(rd, Kept(rd, records)))
    ensures RecordsOf(TableOf(rd, records), Ids(rd, Kept(rd, records))) == Kept(rd, records)
  {
    hide TableOf, LastPositions;
    var t, at, kept := TableOf(rd, records), LastPositions(rd, records, 0), Kept(rd, records);
    var ids := Ids(rd, kept);
    LastPositionsAre(rd, records, 0);
    forall i | 0 <= i < |ids| ensures at[i] < |records| && ids[i] in t && t[ids[i]] == rd.row(records[at[i]], at[i]) {
      assert at[i] in at;
      LastHasRow(rd, records, at[i]);
    }
    forall id | id in t ensures id in ids {
      TableHasLast(rd, records, id);
      var p :| 0 <= p < |records| && IsLast(rd, records, p) && rd.id(records[p]) == id;
      var i :| 0 <= i < |at| && at[i] == p;
      assert ids[i] == id;
    }
    forall i, j | 0 <= i < j < |ids| ensures ids[i] != ids[j] && Le(Playlist, t[ids[i]], t[ids[j]]) {
      assert at[i] in at && at[j] in at && IsLast(rd, records, at[i]);
    }
  }

  lemma LastHasRow(rd: Reader, records: seq<Record>, p: nat)
    requires p < |records| && IsLast(rd, records, p)
    ensures rd.id(records[p]) in TableOf(rd, records) && TableOf(rd, records)[rd.id(records[p])] == rd.row(records[p], p)
  {
    hide TableOf;
    var id := rd.id(records[p]);
    TableHasLast(rd, records, id);
    var i :| 0 <= i < |records| && IsLast(rd, records, i) && rd.id(records[i]) == id && TableOf(rd, records)[id] == rd.row(records[i], i);
    assert i == p;
  }

  // ---------------------------------------------------------------------------------------------
  // Queries

  /** Which rows a query is for. An ordinary category restricts it; the empty one, `all` and the
      ids reserved for favourites do not. */
  datatype Filter = Filter(category: string, q: string)

  predicate Reserved(category: string) { "__" <= category }

  predicate Unrestricted(category: string) { category == "" || category == "all" || Reserved(category) }

  /** `lower(name) LIKE '%q%' OR lower(category_id) LIKE '%q%'`; `like` is the database's operator. */
  predicate Hits(like: (string, string) -> bool, q: string, row: Row) {
    q == "" || like(q, row.name) || like(q, row.category)
  }

  predicate Matches(like: (string, string) -> bool, f: Filter, row: Row) {
    (Unrestricted(f.category) || row.category == f.category) && Hits(like, f.q, row)
  }

  function Matching(like: (string, string) -> bool, f: Filter, t: Table): Table {
    map id | id in t && Matches(like, f, t[id]) :: t[id]
  }

  function Total(like: (string, string) -> bool, f: Filter, t: Table): nat { |Matching(like, f, t)| }

  /** `LIMIT size OFFSET (page - 1) * size`. */
  function Slice(ids: seq<string>, page: nat, size: nat): (part: seq<string>)
    requires page >= 1
    ensures |part| <= size
  {
    var from, to := (page - 1) * size, page * size;
    SliceBounds(page, size);
    ids[Text.Least(from, |ids|)..Text.Least(to, |ids|)]
  }

  lemma SliceBounds(page: nat, size: nat)
    requires page >= 1
    ensures 0 <= (page - 1) * size && (page - 1) * size + size == page * size
  {
  }

  /** One page of a query, as the database answers it. */
  ghost predicate IsPage(like: (string, string) -> bool, t: Table, f: Filter, sort: Sort, page: nat, size: nat,
        ids: seq<string>, total: nat)
    requires page >= 1
  {
    && total == Total(like, f, t)
    && exists all :: Ordering(Matching(like, f, t), sort, all) && ids == Slice(all, page, size)
  }

  method QueryPage(like: (string, string) -> bool, t: Table, f: Filter, sort: Sort, page: nat,
        size: nat) returns (total: nat, ids: seq<string>)
    requires page >= 1
    ensures IsPage(like, t, f, sort, page, size, ids, total)
    ensures forall id <- ids :: id in t
  {
    hide Ordering, Matches, Slice;
    var found := Matching(like, f, t);
    total := |found|;
    var all := OrderRows(found, sort);
    ids := Slice(all, page, size);
    SliceIsListed(found, sort, all, page, size);
  }

  lemma SliceIsListed(t: Table, sort: Sort, all: seq<string>, page: nat, size: nat)
    requires page >= 1 && Ordering(t, sort, all)
    ensures forall id <- Slice(all, page, size) :: id in t
  {
    hide Le;
    var part := Slice(all, page, size);
    forall id | id in part ensures id in all {
    }
  }

  /** All pages are parts of the one listing of what matches. */
  lemma PageIsSlice(like: (string, string) -> bool, t: Table, f: Filter, sort: Sort, page: nat, size: nat,
        ids: seq<string>, total: nat, all: seq<string>)
    requires page >= 1 && UniqueSorts(t) && IsPage(like, t, f, sort, page, size, ids, total) && Ordering(Matching(like, f, t), sort, all)
    ensures ids == Slice(all, page, size) && |all| == total
  {
    hide Ordering, Matches, Slice;
    var other :| Ordering(Matching(like, f, t), sort, other) && ids == Slice(other, page, size);
    OrderingIsUnique(Matching(like, f, t), sort, other, all);
    OrderingLength(Matching(like, f, t), sort, all);
  }

  lemma {:induction false} OrderingLength(t: Table, sort: Sort, ids: seq<string>)
    requires Ordering(t, sort, ids)
    ensures |ids| == |t|
    decreases |ids|
  {
    hide Le;
    if ids == [] {
      assert t.Keys == {};
    } else {
      assert ids[0] in ids;
      WithoutFirst(t, sort, ids);
      OrderingLength(t - {ids[0]}, sort, ids[1..]);
    }
  }

  /** The pages 1 to n put after each other. */
  function Pages(pages: nat -> seq<string>, n: nat): seq<string> {
    if n == 0 then [] else Pages(pages, n - 1) + pages(n)
  }

  lemma {:induction false} SlicesJoin(pages: nat -> seq<string>, all: seq<string>, size: nat, n: nat)
    requires forall k :: 1 <= k <= n ==> pages(k) == Slice(all, k, size)
    ensures Pages(pages, n) == all[..Text.Least(n * size, |all|)]
  {
    if n > 0 {
      SlicesJoin(pages, all, size, n - 1);
      SliceBounds(n, size);
      OneMorePage(all, (n - 1) * size, n * size);
    }
  }

  lemma OneMorePage(all: seq<string>, from: nat, to: nat)
    requires from <= to
    ensures all[..Text.Least(from, |all|)] + all[Text.Least(from, |all|)..Text.Least(to, |all|)] == all[..Text.Least(to, |all|)]
  {
  }

  /** For any category, query and sort: whatever the database does with ties, the pages up to the
      last list every matching stream exactly once, in order, and `has_more` is true exactly before
      the end. */
  lemma PagesListEachOnce(like: (string, string) -> bool, t: Table, f: Filter, sort: Sort, size: nat,
        pages: nat -> seq<string>, n: nat)
    requires UniqueSorts(t) && size > 0 && n * size >= Total(like, f, t)
    requires forall k :: 1 <= k <= n ==> IsPage(like, t, f, sort, k, size, pages(k), Total(like, f, t))
    ensures Ordering(Matching(like, f, t), sort, Pages(pages, n))
    ensures forall k :: 1 <= k <= n ==> (HasMore(k, size, |pages(k)|, Total(like, f, t)) <==> k * size < Total(like, f, t))
  {
    hide Ordering, Matches, Slice, IsPage;
    var found := Matching(like, f, t);
    var all := SomeOrdering(found, sort);
    OrderingLength(found, sort, all);
    forall k | 1 <= k <= n
      ensures pages(k) == Slice(all, k, size)
      ensures HasMore(k, size, |pages(k)|, Total(like, f, t)) <==> k * size < Total(like, f, t)
    {
      PageIsSlice(like, t, f, sort, k, size, pages(k), Total(like, f, t), all);
      HasMoreIff(all, k, size);
    }
    SlicesJoin(pages, all, size, n);
    assert all[..|all|] == all;
  }

  predicate HasMore(page: nat, size: nat, got: nat, total: nat)
    requires page >= 1
  {
    (page - 1) * size + got < total
  }

  lemma HasMoreIff(all: seq<string>, page: nat, size: nat)
    requires page >= 1
    ensures HasMore(page, size, |Slice(all, page, size)|, |all|) <==> page * size < |all|
  {
    SliceBounds(page, size);
  }

  /** Every table has an ordering. */
  lemma SomeOrdering(t: Table, sort: Sort) returns (ids: seq<string>)
    ensures Ordering(t, sort, ids)
  {
    hide Ordered, Le;
    ids := [];
    var left := t.Keys;
    NothingOrdered(t, sort);
    while left != {}
      invariant left <= t.Keys && Ordered(t, sort, ids, left)
      decreases left
    {
      var first := LeastRow(t, sort, left);
      OneOrdered(t, sort, ids, left, first);
      ids := ids + [first];
      left := left - {first};
    }
    AllOrdered(t, sort, ids);
  }

  lemma {:induction false} LeastRow(t: Table, sort: Sort, ids: set<string>) returns (first: string)
    requires ids != {} && ids <= t.Keys
    ensures first in ids && forall y <- ids :: Le(sort, t[first], t[y])
    decreases ids
  {
    hide Le;
    var x :| x in ids;
    LeIsTotalOrder(sort, t[x], t[x], t[x]);
    if ids == {x} {
      first := x;
    } else {
      var y := LeastRow(t, sort, ids - {x});
      LeIsTotalOrder(sort, t[x], t[y], t[y]);
      first := if Le(sort, t[x], t[y]) then x else y;
      forall z | z in ids ensures Le(sort, t[first], t[z]) {
        if z != x {
          LeIsTotalOrder(sort, t[x], t[y], t[z]);
        }
      }
    }
  }
}
