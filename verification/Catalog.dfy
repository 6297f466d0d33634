/** The catalogue tables: replacing a shelf and reading it back
    (crates/iptv/src/catalog_db.rs:111-288, 596-662). */
module Catalog {
  import opened Wrappers
  import Text

  /** A JSON field: a string, or anything else. */
  datatype Json = Str(s: string) | Other(text: string)
  type Record = map<string, Json>

  /** `get(k1).or_else(get(k2))…`: the first key that is present, whatever it holds. */
  function FirstPresent(r: Record, keys: seq<string>): Option<Json> {
    if keys == [] then None else if keys[0] in r then Some(r[keys[0]]) else FirstPresent(r, keys[1..])
  }

  function TextAt(r: Record, keys: seq<string>, default: string): string {
    match FirstPresent(r, keys)
    case Some(Str(s)) => s
    case _ => default
  }

  function StreamId(s: Record): string { Text.Trim(TextAt(s, ["id", "stream_id", "series_id", "cmd"], "")) }

  function CategoryOf(s: Record): string { Text.Trim(TextAt(s, ["categoryId", "category_id"], "all")) }

  function StreamName(s: Record): string { TextAt(s, ["name", "title"], "") }

  function CategoryId(c: Record): string { Text.Trim(TextAt(c, ["id", "category_id"], "")) }

  function CategoryName(c: Record): string { TextAt(c, ["name", "category_name"], "") }

  /** A field that is there counts, whatever it holds; one that is no text gives the default. */
  function TextIn(field: Json, default: string): string { if field.Str? then field.s else default }

  /** Which fields a stream's id and category are read from: the first that is there. */
  lemma StreamFields(s: Record)
    ensures "id" in s ==> StreamId(s) == Text.Trim(TextIn(s["id"], ""))
    ensures "id" !in s && "stream_id" in s ==> StreamId(s) == Text.Trim(TextIn(s["stream_id"], ""))
    ensures "id" !in s && "stream_id" !in s && "series_id" in s ==> StreamId(s) == Text.Trim(TextIn(s["series_id"], ""))
    ensures s.Keys !! {"id", "stream_id", "series_id"} && "cmd" in s ==> StreamId(s) == Text.Trim(TextIn(s["cmd"], ""))
    ensures s.Keys !! {"id", "stream_id", "series_id", "cmd"} ==> StreamId(s) == ""
    ensures "categoryId" in s ==> CategoryOf(s) == Text.Trim(TextIn(s["categoryId"], "all"))
    ensures "categoryId" !in s && "category_id" in s ==> CategoryOf(s) == Text.Trim(TextIn(s["category_id"], "all"))
    ensures "categoryId" !in s && "category_id" !in s ==> CategoryOf(s) == "all"
  {
    hide Text.Trim, TextAt;
    assert ["id", "stream_id", "series_id", "cmd"] == ["id"] + ["stream_id", "series_id", "cmd"];
    assert ["stream_id", "series_id", "cmd"] == ["stream_id"] + ["series_id", "cmd"];
    assert ["series_id", "cmd"] == ["series_id"] + ["cmd"] && ["cmd"] == ["cmd"] + [];
    assert ["categoryId", "category_id"] == ["categoryId"] + ["category_id"] && ["category_id"] == ["category_id"] + [];
    NextField(s, "id", ["stream_id", "series_id", "cmd"], "");
    NextField(s, "stream_id", ["series_id", "cmd"], "");
    NextField(s, "series_id", ["cmd"], "");
    NextField(s, "cmd", [], "");
    NextField(s, "categoryId", ["category_id"], "all");
    NextField(s, "category_id", [], "all");
    Text.TrimmedIsFixed("all");
    NothingToTrim();
  }

  lemma NextField(r: Record, key: string, rest: seq<string>, default: string)
    ensures TextAt(r, [key] + rest, default) == if key in r then TextIn(r[key], default) else TextAt(r, rest, default)
    ensures TextAt(r, [], default) == default
  {
    assert ([key] + rest)[1..] == rest;
  }

  lemma NothingToTrim()
    ensures Text.Trim("") == ""
  {
  }

  /** Which fields the name, and a category's id and name, are read from. */
  lemma NameFields(r: Record)
    ensures "name" in r ==> StreamName(r) == TextIn(r["name"], "") == CategoryName(r)
    ensures "name" !in r && "title" in r ==> StreamName(r) == TextIn(r["title"], "")
    ensures "name" !in r && "title" !in r ==> StreamName(r) == ""
    ensures "name" !in r && "category_name" in r ==> CategoryName(r) == TextIn(r["category_name"], "")
    ensures "name" !in r && "category_name" !in r ==> CategoryName(r) == ""
    ensures "id" in r ==> CategoryId(r) == Text.Trim(TextIn(r["id"], ""))
    ensures "id" !in r && "category_id" in r ==> CategoryId(r) == Text.Trim(TextIn(r["category_id"], ""))
    ensures "id" !in r && "category_id" !in r ==> CategoryId(r) == ""
  {
    hide Text.Trim, TextAt;
    NothingToTrim();
    assert ["name", "title"] == ["name"] + ["title"] && ["title"] == ["title"] + [];
    assert ["name", "category_name"] == ["name"] + ["category_name"] && ["category_name"] == ["category_name"] + [];
    assert ["id", "category_id"] == ["id"] + ["category_id"] && ["category_id"] == ["category_id"] + [];
    NextField(r, "name", ["title"], "");
    NextField(r, "title", [], "");
    NextField(r, "name", ["category_name"], "");
    NextField(r, "category_name", [], "");
    NextField(r, "id", ["category_id"], "");
    NextField(r, "category_id", [], "");
  }

  /** A table row; `sort` is the position in the list it came from. */
  datatype Row = Row(category: string, name: string, sort: nat, record: Record)
  type Table = map<string, Row>

  /** What one portal and section has: its categories and its streams, each by id. */
  datatype Shelf = Shelf(categories: Table, streams: Table)
  datatype ShelfKey = ShelfKey(portal: string, section: string)
  datatype DbError = Duplicate(id: string)

  /** How a list becomes a table: its records' ids and rows. */
  datatype Reader = Reader(id: Record -> string, row: (Record, nat) -> Row)

  function StreamReader(): Reader { Reader((s: Record) => StreamId(s), (s: Record,
        i: nat) => Row(CategoryOf(s), StreamName(s), i, s)) }

  function CategoryReader(): Reader { Reader((c: Record) => CategoryId(c), (c: Record,
        i: nat) => Row("", CategoryName(c), i, c)) }

  /** `INSERT OR REPLACE` of each record with an id. */
  function TableOf(rd: Reader, records: seq<Record>): Table {
    if records == [] then map[]
    else
      var front, n := TableOf(rd, records[..|records| - 1]), |records| - 1;
      var id := rd.id(records[n]);
      if id == "" then front else front[id := rd.row(records[n], n)]
  }

  ghost predicate Distinct(rd: Reader, records: seq<Record>) {
    forall i, j :: 0 <= i < j < |records| && rd.id(records[i]) != "" ==> rd.id(records[i]) != rd.id(records[j])
  }

  /** The last record with its id, and with one. */
  predicate IsLast(rd: Reader, records: seq<Record>, i: nat)
    requires i < |records|
  {
    rd.id(records[i]) != "" && forall j :: i < j < |records| ==> rd.id(records[j]) != rd.id(records[i])
  }

  /** An id has the row of the last record that carries it, with that record's position. */
  lemma {:induction false} TableHasLast(rd: Reader, records: seq<Record>, id: string)
    ensures id in TableOf(rd, records) <==> id != "" && exists i :: 0 <= i < |records| && rd.id(records[i]) == id
    ensures id in TableOf(rd, records) ==>
      exists i :: 0 <= i < |records| && IsLast(rd, records, i) && rd.id(records[i]) == id && TableOf(rd, records)[id] == rd.row(records[i], i)
  {
    hide IsLast;
    if records != [] {
      var front, n := records[..|records| - 1], |records| - 1;
      TableHasLast(rd, front, id);
      assert forall i :: 0 <= i < |front| ==> records[i] == front[i];
      if rd.id(records[n]) == id && id != "" {
        EndIsLast(rd, records);
      } else if id in TableOf(rd, front) {
        var i :| 0 <= i < |front| && IsLast(rd, front, i) && rd.id(front[i]) == id && TableOf(rd, front)[id] == rd.row(front[i], i);
        StillLast(rd, records, i);
      }
    }
  }

  lemma EndIsLast(rd: Reader, records: seq<Record>)
    requires records != [] && rd.id(records[|records| - 1]) != ""
    ensures IsLast(rd, records, |records| - 1)
  {
  }

  lemma StillLast(rd: Reader, records: seq<Record>, i: nat)
    requires i < |records| - 1 && IsLast(rd, records[..|records| - 1], i) && rd.id(records[|records| - 1]) != rd.id(records[i])
    ensures IsLast(rd, records, i)
  {
    var front := records[..|records| - 1];
    forall j | i < j < |records| ensures rd.id(records[j]) != rd.id(records[i]) {
      assert j < |front| ==> records[j] == front[j];
    }
  }

  /** Every row knows its position, and no two rows have the same. */
  ghost predicate UniqueSorts(t: Table) {
    forall x, y | x in t && y in t && t[x].sort == t[y].sort :: x == y
  }

  ghost predicate KeepsSort(rd: Reader) { forall r, n :: rd.row(r, n).sort == n && rd.row(r, n).record == r }

  lemma SortsAreUnique(rd: Reader, records: seq<Record>)
    requires KeepsSort(rd)
    ensures UniqueSorts(TableOf(rd, records))
  {
    var t := TableOf(rd, records);
    forall x, y | x in t && y in t && t[x].sort == t[y].sort ensures x == y {
      TableHasLast(rd, records, x);
      TableHasLast(rd, records, y);
    }
  }

  // ---------------------------------------------------------------------------------------------
  // Replacing a shelf

  /** A shelf as one replacement leaves it. */
  ghost predicate MadeFrom(shelf: Shelf, categories: seq<Record>, streams: seq<Record>) {
    Distinct(CategoryReader(), categories) && shelf == Shelf(TableOf(CategoryReader(), categories), TableOf(StreamReader(), streams))
  }

  ghost predicate IsMade(shelf: Shelf) { exists categories, streams :: MadeFrom(shelf, categories, streams) }

  /** In its tables the positions are unique: what paging rests on. */
  lemma MadeHasUniqueSorts(shelf: Shelf)
    requires IsMade(shelf)
    ensures UniqueSorts(shelf.categories) && UniqueSorts(shelf.streams)
  {
    hide TableOf, Distinct, UniqueSorts;
    var categories, streams :| MadeFrom(shelf, categories, streams);
    SortsAreUnique(CategoryReader(), categories);
    SortsAreUnique(StreamReader(), streams);
  }

  lemma ReplacementIsMade(shelf: Shelf, categories: seq<Record>, streams: seq<Record>)
    requires MadeFrom(shelf, categories, streams)
    ensures IsMade(shelf)
  {
  }

  class CatalogDb {
    var shelves: map<ShelfKey, Shelf>

    /** Every shelf is one that a replacement made. */
    ghost predicate Valid()
      reads this
    {
      forall key <- shelves :: IsMade(shelves[key])
    }

    constructor ()
      ensures Valid() && shelves == map[]
    {
      shelves := map[];
    }

    /** `replace_shelf`: one transaction, rolled back on the first error. */
    method ReplaceShelf(key: ShelfKey, categories: seq<Record>, streams: seq<Record>) returns (r: Result<(), DbError>)
      requires Valid()
      modifies this
      ensures Valid()
      ensures r.Ok? <==> Distinct(CategoryReader(), categories)
      ensures shelves == if r.Ok? then old(shelves)[key := Shelf(TableOf(CategoryReader(), categories), TableOf(StreamReader(), streams))]
                         else old(shelves)
    {
      hide TableOf, Distinct, IsMade;
      var inserted := InsertCategories(categories);
      if inserted.Err? {
        return Err(inserted.error);
      }
      var rows := InsertStreams(streams);
      assert IsMade(Shelf(inserted.value, rows)) by { ReplacementIsMade(Shelf(inserted.value, rows), categories, streams); }
      shelves := shelves[key := Shelf(inserted.value, rows)];
      r := Ok(());
    }
  }

  /** Plain `INSERT`s: the first repeated key is an error. */
  method InsertCategories(categories: seq<Record>) returns (r: Result<Table, DbError>)
    ensures r.Ok? <==> Distinct(CategoryReader(), categories)
    ensures r.Ok? ==> r.value == TableOf(CategoryReader(), categories)
  {
    hide TableOf, Distinct, CategoryId, CategoryName;
    var rd := CategoryReader();
    var t: Table := map[];
    NoRows(rd);
    for i := 0 to |categories|
      invariant t == TableOf(rd, categories[..i]) && Distinct(rd, categories[..i])
    {
      NextRow(rd, categories, i);
      NextDistinct(rd, categories, i);
      var id := CategoryId(categories[i]);
      if id == "" {
        continue;
      }
      if id in t {
        return Err(Duplicate(id));
      }
      t := t[id := Row("", CategoryName(categories[i]), i, categories[i])];
    }
    assert categories[..|categories|] == categories;
    r := Ok(t);
  }

  method InsertStreams(streams: seq<Record>) returns (t: Table)
    ensures t == TableOf(StreamReader(), streams)
  {
    hide TableOf, StreamId, CategoryOf, StreamName;
    t := map[];
    NoRows(StreamReader());
    for i := 0 to |streams|
      invariant t == TableOf(StreamReader(), streams[..i])
    {
      NextRow(StreamReader(), streams, i);
      var id := StreamId(streams[i]);
      if id == "" {
        continue;
      }
      t := t[id := Row(CategoryOf(streams[i]), StreamName(streams[i]), i, streams[i])];
    }
    assert streams[..|streams|] == streams;
  }

  lemma NoRows(rd: Reader)
    ensures TableOf(rd, []) == map[] && Distinct(rd, [])
  {
  }

  lemma NextRow(rd: Reader, records: seq<Record>, i: nat)
    requires i < |records|
    ensures TableOf(rd, records[..i + 1]) ==
            if rd.id(records[i]) == "" then TableOf(rd, records[..i])
            else TableOf(rd, records[..i])[rd.id(records[i]) := rd.row(records[i], i)]
  {
    assert records[..i + 1][..i] == records[..i];
  }

  /** Whether the next record's id is new shows in the table so far. */
  lemma NextDistinct(rd: Reader, records: seq<Record>, i: nat)
    requires i < |records| && Distinct(rd, records[..i])
    ensures if rd.id(records[i]) != "" && rd.id(records[i]) in TableOf(rd, records[..i]) then !Distinct(rd, records)
            else Distinct(rd, records[..i + 1])
  {
    hide TableOf;
    var before, id := records[..i], rd.id(records[i]);
    TableHasLast(rd, before, id);
    if id != "" && id in TableOf(rd, before) {
      var j :| 0 <= j < |before| && rd.id(before[j]) == id;
      assert rd.id(records[j]) == id;
    } else {
      forall j, k | 0 <= j < k < i + 1 && rd.id(records[j]) != "" ensures rd.id(records[j]) != rd.id(records[k]) {
        assert before[j] == records[j];
        if k < i {
          assert before[k] == records[k];
        }
      }
    }
  }
}
