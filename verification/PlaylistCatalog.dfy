/** Categories for streams: completing a portal's list, and making one from playlist groups
    (crates/iptv/src/xtream.rs:185-226, crates/iptv/src/m3u_client.rs:245-285). */
module PlaylistCatalog {
  import opened Wrappers
  import opened Listings
  import Catalog
  import M3u
  import Text

  datatype Category = Category(id: string, name: string)
  datatype Stream = Stream(id: string, name: string, icon: string, category: string, container: string, epgId: string, kind: string)

  const UNCATEGORIZED_ID := "__uncategorized__"
  const UNCATEGORIZED := Category(UNCATEGORIZED_ID, "Uncategorized")

  function Ids(cs: seq<Category>): set<string> { set c | c in cs :: c.id }

  /** The ids that count as known: not the empty one, not the reserved one. */
  function Known(api: seq<Category>): set<string> { set c | c in api && c.id != "" && c.id != UNCATEGORIZED_ID :: c.id }

  function Orphans(api: seq<Category>, streams: seq<Stream>): set<string> {
    set s | s in streams && s.category != "" && s.category !in Known(api) :: s.category
  }

  predicate HasEmpty(streams: seq<Stream>) { exists s :: s in streams && s.category == "" }

  function Named(ids: seq<string>, single: bool): (cs: seq<Category>)
    ensures |cs| == |ids| && forall i :: 0 <= i < |ids| ==> cs[i].id == ids[i]
  {
    seq(|ids|, i requires 0 <= i < |ids| => Category(ids[i], if single then "Channels" else "Group " + ids[i]))
  }

  /** The list completed: missing groups in ascending order, and the bucket for streams without one. */
  ghost predicate IsCompleted(api: seq<Category>, streams: seq<Stream>, out: seq<Category>) {
    exists listed :: Sorted(listed, Orphans(api, streams)) && out == Completed(api, streams, listed)
  }

  function Completed(api: seq<Category>, streams: seq<Stream>, listed: seq<string>): seq<Category> {
    api + Named(listed, api == [] && |listed| == 1) + (if HasEmpty(streams) then [UNCATEGORIZED] else [])
  }

  /** `merge_orphan_categories`. */
  method MergeOrphanCategories(api: seq<Category>, streams: seq<Stream>) returns (out: seq<Category>)
    ensures IsCompleted(api, streams, out)
  {
    hide Sorted, Named, Known, Orphans, HasEmpty;
    var orphans, hasEmpty := FindOrphans(Known(api), api, streams);
    var listed := ToSorted(orphans);
    SortedLength(listed, orphans);
    if orphans == {} && !hasEmpty {
      assert Completed(api, streams, listed) == api by { NothingAdded(api, streams, listed); }
      return api;
    }
    var single := api == [] && |orphans| == 1;
    out := api;
    for i := 0 to |listed|
      invariant out == api + Named(listed, single)[..i]
    {
      out := out + [Category(listed[i], if single then "Channels" else "Group " + listed[i])];
      NextNamed(api, listed, single, i);
    }
    assert Named(listed, single)[..|listed|] == Named(listed, single);
    if hasEmpty {
      out := out + [UNCATEGORIZED];
    } else {
      assert out + [] == out;
    }
    assert out == Completed(api, streams, listed);
  }

  lemma NothingAdded(api: seq<Category>, streams: seq<Stream>, listed: seq<string>)
    requires listed == [] && !HasEmpty(streams)
    ensures Completed(api, streams, listed) == api
  {
  }

  lemma NextNamed(api: seq<Category>, listed: seq<string>, single: bool, i: nat)
    requires i < |listed|
    ensures api + Named(listed, single)[..i] + [Category(listed[i], if single then "Channels" else "Group " + listed[i])]
         == api + Named(listed, single)[..i + 1]
  {
  }

  /** The loop over the streams. */
  method FindOrphans(known: set<string>, ghost api: seq<Category>,
        streams: seq<Stream>) returns (orphans: set<string>, hasEmpty: bool)
    requires known == Known(api)
    ensures orphans == Orphans(api, streams) && hasEmpty == HasEmpty(streams)
  {
    hide Known;
    orphans, hasEmpty := {}, false;
    for i := 0 to |streams|
      invariant hasEmpty <==> exists j :: 0 <= j < i && streams[j].category == ""
      invariant forall x :: x in orphans <==> x != "" && x !in known && exists j :: 0 <= j < i && streams[j].category == x
    {
      if streams[i].category == "" {
        hasEmpty := true;
      } else if streams[i].category !in known {
        orphans := orphans + {streams[i].category};
      }
    }
    SameOrphans(api, streams, orphans, hasEmpty);
  }

  lemma SameOrphans(api: seq<Category>, streams: seq<Stream>, orphans: set<string>, hasEmpty: bool)
    requires hasEmpty <==> exists j :: 0 <= j < |streams| && streams[j].category == ""
    requires forall x :: x in orphans <==> x != "" && x !in Known(api) && exists j :: 0 <= j < |streams| && streams[j].category == x
    ensures orphans == Orphans(api, streams) && hasEmpty == HasEmpty(streams)
  {
    hide Known;
    forall x ensures x in orphans <==> x in Orphans(api, streams) {
      if x in Orphans(api, streams) {
        var s :| s in streams && s.category == x;
        var j :| 0 <= j < |streams| && streams[j] == s;
        assert streams[j].category == x;
      }
      if x in orphans {
        var j :| 0 <= j < |streams| && streams[j].category == x;
        assert streams[j] in streams;
      }
    }
    if HasEmpty(streams) {
      var s :| s in streams && s.category == "";
      var j :| 0 <= j < |streams| && streams[j] == s;
      assert streams[j].category == "";
    }
    if hasEmpty {
      var j :| 0 <= j < |streams| && streams[j].category == "";
      assert streams[j] in streams;
    }
  }

  /** What is added, written out: a category for each group that no given one names, ascending, and
      at the end one for the streams without a group. */
  lemma CompletedIs(api: seq<Category>, streams: seq<Stream>, out: seq<Category>) returns (listed: seq<string>)
    requires IsCompleted(api, streams, out)
    ensures forall i, j :: 0 <= i < j < |listed| ==> listed[i] != listed[j] && Text.LexLe(listed[i], listed[j])
    ensures forall x :: x in listed <==>
      && x != "" && (exists s :: s in streams && s.category == x)
      && (x == "__uncategorized__" || forall c <- api :: c.id != x)
    ensures |api| + |listed| <= |out| && api == out[..|api|]
    ensures forall i :: 0 <= i < |listed| ==>
      out[|api| + i] == Category(listed[i], if api == [] && |listed| == 1 then "Channels" else "Group " + listed[i])
    ensures out[|api| + |listed|..]
      == if exists s :: s in streams && s.category == "" then [Category("__uncategorized__", "Uncategorized")] else []
  {
    hide Text.LexLe;
    listed :| Sorted(listed, Orphans(api, streams)) && out == Completed(api, streams, listed);
    forall x ensures x in Known(api) <==> x != "" && x != "__uncategorized__" && exists c :: c in api && c.id == x {
    }
  }

  ghost predicate Distinct(cs: seq<Category>) { forall i, j :: 0 <= i < j < |cs| ==> cs[i].id != cs[j].id }

  predicate UsesReserved(streams: seq<Stream>) { exists s :: s in streams && s.category == UNCATEGORIZED_ID }

  /** The completed list starts with the given one and has a category for every stream. */
  lemma CompletedCovers(api: seq<Category>, streams: seq<Stream>, out: seq<Category>)
    requires IsCompleted(api, streams, out)
    ensures api <= out
    ensures Ids(out) == Ids(api) + Orphans(api, streams) + (if HasEmpty(streams) then {UNCATEGORIZED_ID} else {})
    ensures forall s <- streams :: (if s.category == "" then UNCATEGORIZED_ID else s.category) in Ids(out)
  {
    var listed :| Sorted(listed, Orphans(api, streams)) && out == Completed(api, streams, listed);
    CompletedIds(api, streams, listed);
    hide Sorted;
    forall s | s in streams ensures (if s.category == "" then UNCATEGORIZED_ID else s.category) in Ids(out) {
      if s.category != "" && s.category !in Orphans(api, streams) {
        assert s.category in Known(api);
        KnownIsId(api, s.category);
      }
    }
  }

  lemma KnownIsId(api: seq<Category>, id: string)
    requires id in Known(api)
    ensures id in Ids(api)
  {
  }

  lemma CompletedIds(api: seq<Category>, streams: seq<Stream>, listed: seq<string>)
    requires Sorted(listed, Orphans(api, streams))
    ensures Ids(Completed(api, streams, listed)) == Ids(api) + Orphans(api, streams) + (if HasEmpty(streams) then {UNCATEGORIZED_ID} else {})
  {
    var named := Named(listed, api == [] && |listed| == 1);
    assert Ids(named) == Orphans(api, streams) by {
      forall x ensures x in Ids(named) <==> x in Orphans(api, streams) {
        if x in Ids(named) {
          var c :| c in named && c.id == x;
        }
        if x in Orphans(api, streams) {
          var i :| 0 <= i < |listed| && listed[i] == x;
          assert named[i] in named;
        }
      }
    }
    IdsConcat(api, named);
    IdsConcat(api + named, if HasEmpty(streams) then [UNCATEGORIZED] else []);
    assert Ids([UNCATEGORIZED]) == {UNCATEGORIZED_ID} by { OneId(UNCATEGORIZED); }
  }

  lemma OneId(c: Category)
    ensures Ids([c]) == {c.id}
  {
    assert c in [c];
  }

  lemma IdsConcat(a: seq<Category>, b: seq<Category>)
    ensures Ids(a + b) == Ids(a) + Ids(b)
  {
  }

  /** Lists of distinct ids, put together. */
  lemma DistinctConcat(a: seq<Category>, b: seq<Category>)
    requires Distinct(a) && Distinct(b)
    ensures Distinct(a + b) <==> Ids(a) * Ids(b) == {}
  {
    if x :| x in Ids(a) * Ids(b) {
      var c, d :| c in a && c.id == x && d in b && d.id == x;
      var i :| 0 <= i < |a| && a[i] == c;
      var j :| 0 <= j < |b| && b[j] == d;
      assert (a + b)[i].id == (a + b)[|a| + j].id;
    } else {
      forall i, j | 0 <= i < |a| && 0 <= j < |b| ensures a[i].id != b[j].id {
        assert a[i].id in Ids(a) && b[j].id in Ids(b) && a[i].id !in Ids(a) * Ids(b);
      }
    }
  }

  /** From distinct ids the result has distinct ids exactly when the reserved id is not asked for
      twice: by the given list, by streams that use it as a category, or by streams without one. */
  lemma CompletedIsDistinctIff(api: seq<Category>, streams: seq<Stream>, out: seq<Category>)
    requires IsCompleted(api, streams, out) && Distinct(api)
    ensures Distinct(out) <==>
            && !(UsesReserved(streams) && UNCATEGORIZED_ID in Ids(api))
            && !(HasEmpty(streams) && (UsesReserved(streams) || UNCATEGORIZED_ID in Ids(api)))
  {
    var listed :| Sorted(listed, Orphans(api, streams)) && out == Completed(api, streams, listed);
    var named := Named(listed, api == [] && |listed| == 1);
    var last := if HasEmpty(streams) then [UNCATEGORIZED] else [];
    assert Distinct(named);
    IdsOfNamed(api, streams, listed);
    hide Sorted, Orphans, HasEmpty, UsesReserved, Named, Ids, Distinct;
    SharedIds(api, streams);
    DistinctTogether(api, named);
    IdsConcat(api, named);
    LastIds(streams);
    assert Distinct(last) by { ShortIsDistinct(last); }
    DistinctTogether(api + named, last);
    assert out == api + named + last;
    ReservedTwice(Ids(api), Orphans(api, streams), Ids(last), UsesReserved(streams), HasEmpty(streams));
  }

  lemma ReservedTwice(given: set<string>, added: set<string>, last: set<string>, used: bool, empty: bool)
    requires given * added == (if used && UNCATEGORIZED_ID in given then {UNCATEGORIZED_ID} else {}) && (UNCATEGORIZED_ID in added <==> used)
    requires last == if empty then {UNCATEGORIZED_ID} else {}
    ensures given * added == {} && (given + added) * last == {} <==>
            !(used && UNCATEGORIZED_ID in given) && !(empty && (used || UNCATEGORIZED_ID in given))
  {
    assert used && UNCATEGORIZED_ID in given ==> UNCATEGORIZED_ID in given * added;
    assert empty && (used || UNCATEGORIZED_ID in given) ==> UNCATEGORIZED_ID in (given + added) * last;
  }

  lemma ShortIsDistinct(cs: seq<Category>)
    requires |cs| <= 1
    ensures Distinct(cs)
  {
  }

  lemma LastIds(streams: seq<Stream>)
    ensures Ids(if HasEmpty(streams) then [UNCATEGORIZED] else []) == if HasEmpty(streams) then {UNCATEGORIZED_ID} else {}
  {
    OneId(UNCATEGORIZED);
  }

  lemma DistinctTogether(a: seq<Category>, b: seq<Category>)
    requires Distinct(b)
    ensures Distinct(a + b) <==> Distinct(a) && Ids(a) * Ids(b) == {}
  {
    if Distinct(a) {
      DistinctConcat(a, b);
    } else {
      var i, j :| 0 <= i < j < |a| && a[i].id == a[j].id;
      assert (a + b)[i] == a[i] && (a + b)[j] == a[j];
    }
  }

  lemma IdsOfNamed(api: seq<Category>, streams: seq<Stream>, listed: seq<string>)
    requires Sorted(listed, Orphans(api, streams))
    ensures Ids(Named(listed, api == [] && |listed| == 1)) == Orphans(api, streams)
  {
    var named := Named(listed, api == [] && |listed| == 1);
    forall x ensures x in Ids(named) <==> x in Orphans(api, streams) {
      if x in Orphans(api, streams) {
        var i :| 0 <= i < |listed| && listed[i] == x;
        assert named[i] in named;
      }
    }
  }

  /** An added id can only meet the given ones at the reserved id. */
  lemma SharedIds(api: seq<Category>, streams: seq<Stream>)
    ensures Ids(api) * Orphans(api, streams) == if UsesReserved(streams) && UNCATEGORIZED_ID in Ids(api) then {UNCATEGORIZED_ID} else {}
    ensures UNCATEGORIZED_ID in Orphans(api, streams) <==> UsesReserved(streams)
  {
    forall x | x in Ids(api) * Orphans(api, streams) ensures x == UNCATEGORIZED_ID {
      var c :| c in api && c.id == x;
      assert x != UNCATEGORIZED_ID ==> x in Known(api);
    }
    assert UNCATEGORIZED_ID !in Known(api);
  }

  /** Completing twice changes nothing exactly when every stream has a category and none the reserved one. */
  lemma CompletingTwiceIff(api: seq<Category>, streams: seq<Stream>, once: seq<Category>, twice: seq<Category>)
    requires IsCompleted(api, streams, once) && IsCompleted(once, streams, twice)
    ensures twice == once <==> !HasEmpty(streams) && !UsesReserved(streams)
  {
    hide Sorted;
    CompletedCovers(api, streams, once);
    OrphansLeft(api, streams, once);
    var listed :| Sorted(listed, Orphans(once, streams)) && twice == Completed(once, streams, listed);
    SortedLength(listed, Orphans(once, streams));
    assert |twice| == |once| + |listed| + if HasEmpty(streams) then 1 else 0;
    if !HasEmpty(streams) && !UsesReserved(streams) {
      assert listed == [] && twice == once;
    }
  }

  /** For example: a single stream without a category gets the bucket twice. */
  lemma BucketTwice(stream: Stream, once: seq<Category>, twice: seq<Category>)
    requires stream.category == "" && IsCompleted([], [stream], once) && IsCompleted(once, [stream], twice)
    ensures once == [UNCATEGORIZED] && twice == [UNCATEGORIZED, UNCATEGORIZED]
  {
    hide Sorted;
    assert stream in [stream];
    assert Orphans([], [stream]) == {} == Orphans(once, [stream]);
    var first :| Sorted(first, {}) && once == Completed([], [stream], first);
    var second :| Sorted(second, {}) && twice == Completed(once, [stream], second);
    SortedLength(first, {});
    SortedLength(second, {});
  }

  lemma OrphansLeft(api: seq<Category>, streams: seq<Stream>, once: seq<Category>)
    requires forall s <- streams :: (if s.category == "" then UNCATEGORIZED_ID else s.category) in Ids(once)
    ensures Orphans(once, streams) == if UsesReserved(streams) then {UNCATEGORIZED_ID} else {}
  {
    forall x | x in Orphans(once, streams) ensures x == UNCATEGORIZED_ID {
      var s :| s in streams && s.category == x && x != "";
      assert x in Ids(once);
      var c :| c in once && c.id == x;
      assert x != UNCATEGORIZED_ID ==> x in Known(once);
    }
    SharedIds(once, streams);
  }

  /** The JSON object a category is stored as. */
  function CategoryRecord(c: Category): Catalog.Record { map["id" := Catalog.Str(c.id), "name" := Catalog.Str(c.name)] }

  function CategoryRecords(cs: seq<Category>): (rs: seq<Catalog.Record>)
    ensures |rs| == |cs| && forall i :: 0 <= i < |cs| ==> rs[i] == CategoryRecord(cs[i])
  {
    seq(|cs|, i requires 0 <= i < |cs| => CategoryRecord(cs[i]))
  }

  lemma RecordId(c: Category)
    requires Text.Trimmed(c.id)
    ensures Catalog.CategoryId(CategoryRecord(c)) == c.id && Catalog.CategoryName(CategoryRecord(c)) == c.name
  {
    Catalog.NameFields(CategoryRecord(c));
    hide Text.Trim;
    Text.TrimmedIsFixed(c.id);
    var keys := ["id", "category_id"];
    assert Catalog.FirstPresent(CategoryRecord(c), keys) == Some(Catalog.Str(c.id));
  }

  lemma DistinctIsAccepted(cs: seq<Category>)
    requires Distinct(cs) && forall c <- cs :: Text.Trimmed(c.id)
    ensures Catalog.Distinct(Catalog.CategoryReader(), CategoryRecords(cs))
  {
    hide Text.Trimmed, Catalog.CategoryId;
    var rs := CategoryRecords(cs);
    forall i | 0 <= i < |cs| ensures Catalog.CategoryId(rs[i]) == cs[i].id {
      assert cs[i] in cs;
      RecordId(cs[i]);
    }
  }

  /** From trimmed and distinct ids that leave the reserved one alone, the completed list is one that
      replacing a shelf accepts. */
  lemma CompletedIsAccepted(api: seq<Category>, streams: seq<Stream>, out: seq<Category>)
    requires IsCompleted(api, streams, out) && Distinct(api) && UNCATEGORIZED_ID !in Ids(api) && !UsesReserved(streams)
    requires forall c <- api :: Text.Trimmed(c.id)
    requires forall s <- streams :: Text.Trimmed(s.category)
    ensures Distinct(out) && Catalog.Distinct(Catalog.CategoryReader(), CategoryRecords(out))
  {
    hide Text.Trimmed, IsCompleted;
    CompletedIsDistinctIff(api, streams, out);
    CompletedCovers(api, streams, out);
    assert Text.Trimmed(UNCATEGORIZED_ID) by { ReservedIsTrimmed(); }
    forall c | c in out ensures Text.Trimmed(c.id) {
      assert c.id in Ids(out);
      if c.id in Ids(api) {
        var d :| d in api && d.id == c.id;
      } else if c.id in Orphans(api, streams) {
        var s :| s in streams && s.category == c.id;
      }
    }
    DistinctIsAccepted(out);
  }

  lemma ReservedIsTrimmed()
    ensures Text.Trimmed(UNCATEGORIZED_ID)
  {
    assert UNCATEGORIZED_ID[0] == '_' && UNCATEGORIZED_ID[|UNCATEGORIZED_ID| - 1] == '_';
  }

  // ---------------------------------------------------------------------------------------------
  // From a playlist's channels

  function GroupName(ch: M3u.Channel): string { if Text.Trim(ch.group) == "" then "Uncategorized" else Text.Trim(ch.group) }

  function GroupId(ch: M3u.Channel): string { "g:" + Text.LowerAscii(GroupName(ch)) }

  function Kind(ch: M3u.Channel): string {
    match ch.entryType
    case None => "live"
    case Some(t) =>
      var lower := Text.LowerAscii(t);
      if lower == "video" || lower == "movie" then "vod" else if lower == "series" then "series" else "live"
  }

  function StreamOf(ch: M3u.Channel, i: nat): Stream {
    Stream(ch.url, if ch.name == "" then "Channel " + Text.Decimal(i + 1) else ch.name, ch.logo, GroupId(ch),
      if Kind(ch) == "live" then "ts" else "mp4", ch.tvgId, Kind(ch))
  }

  /** The group a channel is in: without one it is in "Uncategorized", and the id does not tell case. */
  lemma GroupIs(ch: M3u.Channel)
    ensures Text.Trim(ch.group) != "" ==> GroupName(ch) == Text.Trim(ch.group) && GroupId(ch) == "g:" + Text.LowerAscii(Text.Trim(ch.group))
    ensures Text.Trim(ch.group) == "" ==> GroupName(ch) == "Uncategorized" && GroupId(ch) == "g:uncategorized"
  {
    hide Text.Trim, Text.LowerAscii;
    LowerUncategorized();
    assert "g:uncategorized" == "g:" + "uncategorized";
  }

  lemma LowerUncategorized()
    ensures Text.LowerAscii("Uncategorized") == "uncategorized"
  {
    hide Text.LowerAscii;
    var lower := Text.LowerAscii("Uncategorized");
    assert lower[0] == 'u' && lower[1..] == "ncategorized";
  }

  /** What becomes of a channel: films and series by its type, in any case, and everything else is live. */
  lemma StreamIs(ch: M3u.Channel, i: nat)
    ensures var s, t := StreamOf(ch, i), if ch.entryType.Some? then Text.LowerAscii(ch.entryType.value) else "";
      && s.id == ch.url && s.icon == ch.logo && s.epgId == ch.tvgId && s.category == GroupId(ch)
      && s.name == (if ch.name != "" then ch.name else "Channel " + Text.Decimal(i + 1))
      && (t in ["video", "movie"] ==> s.kind == "vod" && s.container == "mp4")
      && (t == "series" ==> s.kind == "series" && s.container == "mp4")
      && (t !in ["video", "movie", "series"] ==> s.kind == "live" && s.container == "ts")
  {
    hide Text.LowerAscii, Text.Decimal, GroupId;
    assert "vod"[0] == 'v' && "series"[0] == 's' && "live"[0] == 'l';
  }

  /** A group is called the way its first channel writes it. */
  lemma {:induction false} FirstNames(channels: seq<M3u.Channel>, id: string)
    ensures if FirstGroup(channels, id).None? then forall ch <- channels :: GroupId(ch) != id
      else exists i :: FirstOfGroup(channels, id, i) && FirstGroup(channels, id) == Some(GroupName(channels[i]))
  {
    hide GroupId, GroupName;
    if channels != [] {
      var front, last := channels[..|channels| - 1], channels[|channels| - 1];
      assert channels == front + [last];
      FirstNames(front, id);
      if FirstGroup(front, id).Some? {
        var i :| FirstOfGroup(front, id, i) && FirstGroup(front, id) == Some(GroupName(front[i]));
        assert FirstOfGroup(channels, id, i);
      } else if GroupId(last) == id {
        forall j | 0 <= j < |front| ensures GroupId(channels[j]) != id {
          assert front[j] in front;
        }
        assert FirstOfGroup(channels, id, |front|);
      }
    }
  }

  ghost predicate FirstOfGroup(channels: seq<M3u.Channel>, id: string, i: int) {
    0 <= i < |channels| && GroupId(channels[i]) == id && forall j :: 0 <= j < i ==> GroupId(channels[j]) != id
  }

  /** The name of a group: the way its first channel writes it. */
  function FirstGroup(channels: seq<M3u.Channel>, id: string): Option<string> {
    if channels == [] then None
    else if FirstGroup(channels[..|channels| - 1], id).Some? then FirstGroup(channels[..|channels| - 1], id)
    else if GroupId(channels[|channels| - 1]) == id then Some(GroupName(channels[|channels| - 1]))
    else None
  }

  ghost predicate IsGrouped(channels: seq<M3u.Channel>, groups: map<string, string>) {
    forall id :: (if id in groups then Some(groups[id]) else None) == FirstGroup(channels, id)
  }

  ghost predicate AreStreams(channels: seq<M3u.Channel>, streams: seq<Stream>) {
    |streams| == |channels| && forall i :: 0 <= i < |channels| ==> streams[i] == StreamOf(channels[i], i)
  }

  /** The groups as categories, in the order of their ids. */
  ghost predicate AreCategories(channels: seq<M3u.Channel>, cats: seq<Category>) {
    exists listed: seq<string> ::
      Sorted(listed, set ch | ch in channels :: GroupId(ch))
      && |cats| == |listed| && forall i :: 0 <= i < |listed| ==> cats[i].id == listed[i] && Some(cats[i].name) == FirstGroup(channels, listed[i])
  }

  /** `channels_to_catalog`: every stream has its group among the categories, so completing the list
      has nothing to add. */
  method ChannelsToCatalog(channels: seq<M3u.Channel>) returns (cats: seq<Category>, streams: seq<Stream>)
    ensures AreStreams(channels, streams) && AreCategories(channels, cats)
    ensures Distinct(cats) && Catalog.Distinct(Catalog.CategoryReader(), CategoryRecords(cats))
    ensures forall s <- streams :: s.category in Ids(cats)
  {
    hide StreamOf, GroupId, GroupName, FirstGroup, AreCategories, IsGrouped;
    var groups: map<string, string> := map[];
    streams := [];
    NoChannels();
    for i := 0 to |channels|
      invariant IsGrouped(channels[..i], groups)
      invariant |streams| == i && forall j :: 0 <= j < i ==> streams[j] == StreamOf(channels[j], j)
    {
      var id := GroupId(channels[i]);
      NextGroup(channels, i, groups);
      if id !in groups {
        groups := groups[id := GroupName(channels[i])];
      }
      streams := streams + [StreamOf(channels[i], i)];
    }
    assert channels[..|channels|] == channels;
    var listed := ToSorted(groups.Keys);
    var plain := GroupCategories(listed, groups);
    PlainCategories(channels, groups, listed, plain);
    cats := MergeOrphanCategories(plain, streams);
    NothingMissing(channels, streams, plain, cats);
  }

  function GroupCategories(listed: seq<string>, groups: map<string, string>): (cs: seq<Category>)
    ensures |cs| == |listed| && forall i :: 0 <= i < |listed| && listed[i] in groups ==> cs[i] == Category(listed[i], groups[listed[i]])
  {
    seq(|listed|, i requires 0 <= i < |listed| => Category(listed[i], if listed[i] in groups then groups[listed[i]] else ""))
  }

  lemma NoChannels()
    ensures IsGrouped([], map[])
  {
  }

  lemma NextGroup(channels: seq<M3u.Channel>, i: nat, groups: map<string, string>)
    requires i < |channels| && IsGrouped(channels[..i], groups)
    ensures var id := GroupId(channels[i]);
      IsGrouped(channels[..i + 1], if id in groups then groups else groups[id := GroupName(channels[i])])
  {
    hide GroupId, GroupName;
    assert channels[..i + 1][..i] == channels[..i];
    var id := GroupId(channels[i]);
    var after := if id in groups then groups else groups[id := GroupName(channels[i])];
    forall x ensures (if x in after then Some(after[x]) else None) == FirstGroup(channels[..i + 1], x) {
      assert (if x in groups then Some(groups[x]) else None) == FirstGroup(channels[..i], x);
    }
  }

  lemma {:induction false} GroupsAreIds(channels: seq<M3u.Channel>, id: string)
    ensures FirstGroup(channels, id).Some? <==> exists ch :: ch in channels && GroupId(ch) == id
  {
    hide GroupId, GroupName;
    if channels != [] {
      var front, last := channels[..|channels| - 1], channels[|channels| - 1];
      GroupsAreIds(front, id);
      assert channels == front + [last];
    }
  }

  lemma PlainCategories(channels: seq<M3u.Channel>, groups: map<string, string>, listed: seq<string>,
        plain: seq<Category>)
    requires IsGrouped(channels, groups) && Sorted(listed, groups.Keys) && plain == GroupCategories(listed, groups)
    ensures AreCategories(channels, plain) && Distinct(plain) && Ids(plain) == groups.Keys
    ensures forall id :: id in groups <==> exists ch :: ch in channels && GroupId(ch) == id
  {
    hide GroupId, GroupName, FirstGroup;
    forall id ensures id in groups <==> exists ch :: ch in channels && GroupId(ch) == id {
      GroupsAreIds(channels, id);
      assert (if id in groups then Some(groups[id]) else None) == FirstGroup(channels, id);
    }
    assert groups.Keys == set ch | ch in channels :: GroupId(ch);
    forall i | 0 <= i < |listed| ensures plain[i].id == listed[i] && Some(plain[i].name) == FirstGroup(channels, listed[i]) {
      assert listed[i] in groups;
      assert (if listed[i] in groups then Some(groups[listed[i]]) else None) == FirstGroup(channels, listed[i]);
    }
    IdsAreListed(plain, listed, groups.Keys);
  }

  lemma IdsAreListed(plain: seq<Category>, listed: seq<string>, ids: set<string>)
    requires |plain| == |listed| && Sorted(listed, ids) && forall i :: 0 <= i < |listed| ==> plain[i].id == listed[i]
    ensures Ids(plain) == ids
  {
    forall x ensures x in Ids(plain) <==> x in ids {
      if x in ids {
        var i :| 0 <= i < |listed| && listed[i] == x;
        assert plain[i] in plain;
      }
      if x in Ids(plain) {
        var c :| c in plain && c.id == x;
        var i :| 0 <= i < |plain| && plain[i] == c;
        assert listed[i] in listed;
      }
    }
  }

  /** A group's id is neither empty nor reserved, and trimmed. */
  lemma GroupIdIsPlain(ch: M3u.Channel)
    ensures GroupId(ch) != "" && GroupId(ch) != UNCATEGORIZED_ID && Text.Trimmed(GroupId(ch))
  {
    hide Text.Trim, Text.LowerAscii;
    var name := GroupName(ch);
    Text.TrimIsTrimmed(ch.group);
    var lower := Text.LowerAscii(name);
    assert "Uncategorized"[12] == 'd';
    assert name != "" && !Text.IsSpace(name[|name| - 1]);
    assert lower[|lower| - 1] == Text.ToLowerAscii(name[|name| - 1]);
    LowerIsVisible(name[|name| - 1]);
    var id := GroupId(ch);
    assert id[0] == 'g' && id[|id| - 1] == lower[|lower| - 1] && UNCATEGORIZED_ID[0] == '_';
  }

  lemma LowerIsVisible(c: char)
    requires !Text.IsSpace(c)
    ensures !Text.IsSpace(Text.ToLowerAscii(c))
  {
  }

  /** For a playlist the completion is the identity. */
  lemma NothingMissing(channels: seq<M3u.Channel>, streams: seq<Stream>, plain: seq<Category>, cats: seq<Category>)
    requires AreStreams(channels, streams) && IsCompleted(plain, streams, cats)
    requires Distinct(plain) && forall id :: id in Ids(plain) <==> exists ch :: ch in channels && GroupId(ch) == id
    ensures cats == plain
    ensures Catalog.Distinct(Catalog.CategoryReader(), CategoryRecords(cats))
    ensures forall s <- streams :: s.category in Ids(cats)
  {
    hide GroupId, IsCompleted, Text.Trimmed, Catalog.Distinct, CategoryRecords;
    forall s | s in streams ensures s.category in Ids(plain) && s.category != "" && s.category != UNCATEGORIZED_ID {
      var i :| 0 <= i < |streams| && streams[i] == s;
      assert channels[i] in channels && s.category == GroupId(channels[i]);
      GroupIdIsPlain(channels[i]);
    }
    AllKnown(plain, streams, cats);
    forall c | c in plain ensures Text.Trimmed(c.id) {
      assert c.id in Ids(plain);
      var ch :| ch in channels && GroupId(ch) == c.id;
      GroupIdIsPlain(ch);
    }
    DistinctIsAccepted(plain);
  }

  lemma AllKnown(api: seq<Category>, streams: seq<Stream>, out: seq<Category>)
    requires IsCompleted(api, streams, out)
    requires forall s <- streams :: s.category in Ids(api) && s.category != "" && s.category != UNCATEGORIZED_ID
    ensures out == api
  {
    hide Sorted;
    var listed :| Sorted(listed, Orphans(api, streams)) && out == Completed(api, streams, listed);
    assert Orphans(api, streams) == {};
    SortedLength(listed, Orphans(api, streams));
    NothingAdded(api, streams, listed);
  }
}
