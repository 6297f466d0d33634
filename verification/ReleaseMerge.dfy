/** Turning one upload into manifest entries, and merging them into the manifest of the latest
    installers (scripts/upload_release_to_r2.py:430-462, 525-565, 579-605, 681-815). */
module ReleaseMerge {
  import opened Wrappers
  import opened ReleaseManifest
  import Text

  const ANDROID_TV := "android_tv"

  // ---------------------------------------------------------------------------------------------
  // One upload

  function OfPlatform(nm: Naming, files: seq<string>, p: string): seq<string> {
    if files == [] then []
    else
      var front, last := OfPlatform(nm, files[..|files| - 1], p), files[|files| - 1];
      if nm.platform(last) == Some(p) then front + [last] else front
  }

  function PlatformsOf(nm: Naming, files: seq<string>): set<string> {
    set f | f in files && nm.platform(f).Some? :: nm.platform(f).value
  }

  function UploadArches(nm: Naming, names: seq<string>, version: string, published: string): map<string, Arch> {
    Arches(nm, names, published, map[], ArchSet(nm, names), Clean(version))
  }

  function UploadEntry(nm: Naming, names: seq<string>, version: string, published: string): Entry {
    var arches := UploadArches(nm, names, version, published);
    Entry(Newest(nm, VersionList(nm, arches)).GetOr(version), published, arches, map[])
  }

  /** `platforms_from_filenames`: platforms none of whose files has a version are left out. */
  function Incoming(nm: Naming, files: seq<string>, version: string, published: string): map<string, Entry> {
    map p | p in PlatformsOf(nm, files) && UploadArches(nm, OfPlatform(nm, files, p), version, published) != map[]
      :: UploadEntry(nm, OfPlatform(nm, files, p), version, published)
  }

  method PlatformsFromFilenames(nm: Naming, files: seq<string>, version: string,
        published: string) returns (out: map<string, Entry>)
    ensures out == Incoming(nm, files, version, published)
  {
    hide UploadEntry, ArchSet, PlatformsOf, Built, Clean, Grouped;
    var grouped := GroupByPlatform(nm, files);
    out := map[];
    var left := grouped.Keys;
    assert Built(nm, grouped, {}, version, published, out) by { NothingBuilt(nm, grouped, version, published); }
    assert grouped.Keys - left == {};
    while left != {}
      invariant left <= grouped.Keys
      invariant Built(nm, grouped, grouped.Keys - left, version, published, out)
      decreases left
    {
      var p :| p in left;
      OneBuilt(nm, grouped, grouped.Keys - left, version, published, out, p);
      assert grouped.Keys - (left - {p}) == grouped.Keys - left + {p};
      left := left - {p};
      var arches := BuildArches(nm, grouped[p], published, map[], ArchSet(nm, grouped[p]), Clean(version));
      if arches != map[] {
        out := out[p := UploadEntry(nm, grouped[p], version, published)];
      }
    }
    assert grouped.Keys - left == grouped.Keys;
    AllBuilt(nm, files, grouped, version, published, out);
  }

  ghost predicate Built(nm: Naming, grouped: map<string, seq<string>>, done: set<string>, version: string,
        published: string, out: map<string, Entry>) {
    forall p :: (p in out <==> p in done && p in grouped && UploadArches(nm, grouped[p], version, published) != map[])
             && (p in out ==> out[p] == UploadEntry(nm, grouped[p], version, published))
  }

  lemma NothingBuilt(nm: Naming, grouped: map<string, seq<string>>, version: string, published: string)
    ensures Built(nm, grouped, {}, version, published, map[])
  {
  }

  lemma OneBuilt(nm: Naming, grouped: map<string, seq<string>>, done: set<string>, version: string,
        published: string, out: map<string, Entry>, p: string)
    requires Built(nm, grouped, done, version, published, out) && p in grouped && p !in done
    ensures Built(nm, grouped, done + {p}, version, published,
              if UploadArches(nm, grouped[p], version, published) != map[] then out[p := UploadEntry(nm, grouped[p], version, published)] else out)
  {
    hide UploadArches, UploadEntry;
  }

  lemma AllBuilt(nm: Naming, files: seq<string>, grouped: map<string, seq<string>>, version: string,
        published: string, out: map<string, Entry>)
    requires Grouped(nm, files, grouped) && Built(nm, grouped, grouped.Keys, version, published, out)
    ensures out == Incoming(nm, files, version, published)
  {
    hide UploadArches, UploadEntry, PlatformsOf;
  }

  ghost predicate Grouped(nm: Naming, files: seq<string>, grouped: map<string, seq<string>>) {
    && grouped.Keys == PlatformsOf(nm, files)
    && (forall p <- grouped :: grouped[p] == OfPlatform(nm, files, p))
  }

  method GroupByPlatform(nm: Naming, files: seq<string>) returns (grouped: map<string, seq<string>>)
    ensures Grouped(nm, files, grouped)
  {
    hide Grouped;
    grouped := map[];
    assert Grouped(nm, files[..0], grouped) by { NoGroups(nm); }
    for i := 0 to |files|
      invariant Grouped(nm, files[..i], grouped)
    {
      NextFile(nm, files, i, grouped);
      var platform := nm.platform(files[i]);
      if platform.None? {
        continue;
      }
      var before := if platform.value in grouped then grouped[platform.value] else [];
      grouped := grouped[platform.value := before + [files[i]]];
    }
    assert files[..|files|] == files;
  }

  lemma NoGroups(nm: Naming)
    ensures Grouped(nm, [], map[])
  {
  }

  lemma {:induction false} NoneOfPlatform(nm: Naming, files: seq<string>, p: string)
    requires p !in PlatformsOf(nm, files)
    ensures OfPlatform(nm, files, p) == []
  {
    if files != [] {
      assert files == files[..|files| - 1] + [files[|files| - 1]];
      NoneOfPlatform(nm, files[..|files| - 1], p);
    }
  }

  lemma NextFile(nm: Naming, files: seq<string>, i: nat, grouped: map<string, seq<string>>)
    requires i < |files| && Grouped(nm, files[..i], grouped)
    ensures var platform := nm.platform(files[i]);
      if platform.None? then Grouped(nm, files[..i + 1], grouped)
      else Grouped(nm, files[..i + 1], grouped[platform.value := (if platform.value in grouped then grouped[platform.value] else []) + [files[i]]])
  {
    assert files[..i + 1][..i] == files[..i];
    assert files[..i + 1] == files[..i] + [files[i]];
    var platform := nm.platform(files[i]);
    if platform.Some? && platform.value !in grouped {
      NoneOfPlatform(nm, files[..i], platform.value);
    }
  }

  /** A release whose version is plain text and whose file names say something. */
  ghost predicate PlainUpload(files: seq<string>, version: string) {
    Clean(version) == Some(version) && forall f <- files :: !Blank(f)
  }

  /** Each uploaded platform gets an entry: an architecture for every file of the platform, with the
      last file of that architecture and the version in its name or else the release's. */
  lemma UploadIsWritten(nm: Naming, files: seq<string>, version: string, published: string)
    requires nm.Sound() && PlainUpload(files, version)
    ensures var incoming := Incoming(nm, files, version, published);
      && incoming.Keys == PlatformsOf(nm, files)
      && (forall p <- incoming :: Written(nm, p, incoming[p]) && FromUpload(nm, p, incoming[p], files, version, published))
  {
    hide Written, FromUpload, UploadArches, Blank, Clean;
    forall p | p in PlatformsOf(nm, files)
      ensures UploadArches(nm, OfPlatform(nm, files, p), version, published) != map[]
      ensures Written(nm, p, UploadEntry(nm, OfPlatform(nm, files, p), version, published))
      ensures FromUpload(nm, p, UploadEntry(nm, OfPlatform(nm, files, p), version, published), files, version, published)
    {
      EntryIsWritten(nm, files, p, version, published);
    }
  }

  ghost predicate FromUpload(nm: Naming, p: string, e: Entry, files: seq<string>, version: string, published: string) {
    && e.published == published && e.codes == map[]
    && (forall f <- files :: nm.platform(f) == Some(p) ==> nm.arch(f) in e.arches)
    && forall a <- e.arches :: exists i :: LastUploaded(nm, files, p, a, i) && e.arches[a] == Uploaded(nm, files[i], version, published)
  }

  function Uploaded(nm: Naming, file: string, version: string, published: string): Arch {
    Arch(nm.version(file).GetOr(version), file, published)
  }

  /** File i is the last of its platform and architecture. */
  ghost predicate LastUploaded(nm: Naming, files: seq<string>, p: string, a: string, i: int) {
    && 0 <= i < |files| && nm.platform(files[i]) == Some(p) && nm.arch(files[i]) == a
    && forall j :: i < j < |files| ==> !(nm.platform(files[j]) == Some(p) && nm.arch(files[j]) == a)
  }

  lemma {:induction false} LastFileWins(nm: Naming, files: seq<string>, p: string, version: string, published: string,
        replaced: set<string>, a: string)
    requires PlainUpload(files, version)
    ensures var out := Arches(nm, OfPlatform(nm, files, p), published, map[], replaced, Clean(version));
      if a in out then exists i :: LastUploaded(nm, files, p, a, i) && out[a] == Uploaded(nm, files[i], version, published)
      else forall f <- files :: nm.platform(f) == Some(p) ==> nm.arch(f) != a
  {
    hide Blank, Clean, Arches;
    if files == [] {
      NoNames(nm, published, map[], replaced, Clean(version));
    } else {
      var front, last := files[..|files| - 1], files[|files| - 1];
      LastFileWins(nm, front, p, version, published, replaced, a);
      assert files == front + [last];
      OneMoreUploaded(nm, OfPlatform(nm, front, p), last, version, published, replaced);
      var out := Arches(nm, OfPlatform(nm, files, p), published, map[], replaced, Clean(version));
      if nm.platform(last) == Some(p) && nm.arch(last) == a {
        assert LastUploaded(nm, files, p, a, |front|);
      } else if a in out {
        var i :| LastUploaded(nm, front, p, a, i) && out[a] == Uploaded(nm, front[i], version, published);
        StillLastUploaded(nm, files, p, a, i);
      }
    }
  }

  lemma OneMoreUploaded(nm: Naming, names: seq<string>, last: string, version: string, published: string, replaced: set<string>)
    requires Clean(version) == Some(version) && !Blank(last)
    ensures Arches(nm, names + [last], published, map[], replaced, Clean(version))
         == Arches(nm, names, published, map[], replaced, Clean(version))[nm.arch(last) := Uploaded(nm, last, version, published)]
  {
    hide Blank, Clean;
    assert (names + [last])[..|names|] == names;
  }

  lemma StillLastUploaded(nm: Naming, files: seq<string>, p: string, a: string, i: int)
    requires files != [] && LastUploaded(nm, files[..|files| - 1], p, a, i)
    requires !(nm.platform(files[|files| - 1]) == Some(p) && nm.arch(files[|files| - 1]) == a)
    ensures LastUploaded(nm, files, p, a, i) && files[..|files| - 1][i] == files[i]
  {
    var front := files[..|files| - 1];
    forall j | i < j < |files| ensures !(nm.platform(files[j]) == Some(p) && nm.arch(files[j]) == a) {
      assert j < |front| ==> files[j] == front[j];
    }
  }

  lemma EntryIsWritten(nm: Naming, files: seq<string>, p: string, version: string, published: string)
    requires nm.Sound() && PlainUpload(files, version) && p in PlatformsOf(nm, files)
    ensures UploadArches(nm, OfPlatform(nm, files, p), version, published) != map[]
    ensures Written(nm, p, UploadEntry(nm, OfPlatform(nm, files, p), version, published))
    ensures FromUpload(nm, p, UploadEntry(nm, OfPlatform(nm, files, p), version, published), files, version, published)
  {
    hide Arches, OfPlatform, Blank, Clean, Newest, VersionList;
    var names := OfPlatform(nm, files, p);
    var replaced, arches := ArchSet(nm, names), UploadArches(nm, names, version, published);
    forall f | f in files && nm.platform(f) == Some(p) ensures nm.arch(f) in arches {
      LastFileWins(nm, files, p, version, published, replaced, nm.arch(f));
    }
    forall a | a in arches
      ensures WrittenArch(nm, p, a, arches[a])
      ensures exists i :: LastUploaded(nm, files, p, a, i) && arches[a] == Uploaded(nm, files[i], version, published)
    {
      LastFileWins(nm, files, p, version, published, replaced, a);
    }
    var f :| f in files && nm.platform(f) == Some(p);
    SomeVersion(nm, arches, nm.arch(f));
  }

  lemma SomeVersion(nm: Naming, arches: map<string, Arch>, a: string)
    requires nm.Sound() && a in arches
    ensures VersionList(nm, arches) != [] && Newest(nm, VersionList(nm, arches)).Some?
  {
    VersionsAreListed(nm, arches, arches[a].version);
    NewestIsGreatest(nm, VersionList(nm, arches));
  }

  // ---------------------------------------------------------------------------------------------
  // Downloader codes

  function FirstOf(nm: Naming, names: seq<string>, a: string): Option<string> {
    if names == [] then None else if nm.arch(names[0]) == a then Some(names[0]) else FirstOf(nm, names[1..], a)
  }

  /** The code an architecture has after a merge: a fresh one, or the old one while its file stays. */
  function CodeFor(nm: Naming, priorCodes: map<string, string>, priorNames: seq<string>,
        incomingCodes: map<string, string>,
                   incomingNames: seq<string>, mergedNames: seq<string>, a: string): Option<string> {
    var before := ByArch(nm, priorNames);
    if a in incomingCodes then Some(incomingCodes[a])
    else if a in ArchSet(nm, incomingNames) then None
    else if a in before && before[a] != "" && FirstOf(nm, mergedNames, a) == Some(before[a]) && a in priorCodes then Some(priorCodes[a])
    else None
  }

  function Codes(nm: Naming, priorCodes: map<string, string>, priorNames: seq<string>, incomingCodes: map<string, string>,
                 incomingNames: seq<string>, mergedNames: seq<string>): map<string, string> {
    map a | a in ArchSet(nm, mergedNames) && CodeFor(nm, priorCodes, priorNames, incomingCodes, incomingNames, mergedNames, a).Some?
      :: CodeFor(nm, priorCodes, priorNames, incomingCodes, incomingNames, mergedNames, a).value
  }

  method MergeDownloaderCodes(nm: Naming, priorCodes: map<string, string>, priorNames: seq<string>,
        incomingCodes: map<string, string>,
                              incomingNames: seq<string>, mergedNames: seq<string>) returns (out: map<string, string>)
    ensures out == Codes(nm, priorCodes, priorNames, incomingCodes, incomingNames, mergedNames)
  {
    hide ByArch, FirstOf, ArchSet, CodesSoFar;
    var priorByArch, replaced, left := ByArch(nm, priorNames), ArchSet(nm, incomingNames), ArchSet(nm, mergedNames);
    ghost var all := left;
    ghost var code := (a: string) => CodeFor(nm, priorCodes, priorNames, incomingCodes, incomingNames, mergedNames, a);
    out := map[];
    NoCodes(code, all);
    while left != {}
      invariant left <= all && CodesSoFar(code, all, left, out)
      decreases left
    {
      var a :| a in left;
      OneMoreCode(code, all, left, out, a);
      left := left - {a};
      if a in incomingCodes {
        out := out[a := incomingCodes[a]];
        continue;
      }
      if a in replaced {
        continue;
      }
      var merged := FirstOf(nm, mergedNames, a);
      if a in priorByArch && priorByArch[a] != "" && merged == Some(priorByArch[a]) && a in priorCodes {
        out := out[a := priorCodes[a]];
      }
    }
    AllCodes(nm, priorCodes, priorNames, incomingCodes, incomingNames, mergedNames, code, out);
  }

  ghost predicate CodesSoFar(code: string -> Option<string>, all: set<string>, left: set<string>,
        out: map<string, string>) {
    forall a :: (if a in out then Some(out[a]) else None) == if a in all - left then code(a) else None
  }

  lemma NoCodes(code: string -> Option<string>, all: set<string>)
    ensures CodesSoFar(code, all, all, map[])
  {
  }

  lemma OneMoreCode(code: string -> Option<string>, all: set<string>, left: set<string>, out: map<string, string>,
        a: string)
    requires CodesSoFar(code, all, left, out) && a in left && left <= all
    ensures CodesSoFar(code, all, left - {a}, if code(a).Some? then out[a := code(a).value] else out)
  {
    forall b ensures var after := if code(a).Some? then out[a := code(a).value] else out;
      (if b in after then Some(after[b]) else None) == if b in all - (left - {a}) then code(b) else None
    {
      assert (if b in out then Some(out[b]) else None) == if b in all - left then code(b) else None;
    }
  }

  lemma AllCodes(nm: Naming, priorCodes: map<string, string>, priorNames: seq<string>, incomingCodes: map<string, string>,
                 incomingNames: seq<string>, mergedNames: seq<string>, code: string -> Option<string>, out: map<string, string>)
    requires CodesSoFar(code, ArchSet(nm, mergedNames), {}, out)
    requires forall a :: code(a) == CodeFor(nm, priorCodes, priorNames, incomingCodes, incomingNames, mergedNames, a)
    ensures out == Codes(nm, priorCodes, priorNames, incomingCodes, incomingNames, mergedNames)
  {
    hide ArchSet, CodeFor;
    forall a ensures (if a in out then Some(out[a]) else None) == if a in ArchSet(nm, mergedNames) then code(a) else None {
    }
  }

  // ---------------------------------------------------------------------------------------------
  // Merging one platform

  function ArchesOf(prior: Option<Entry>): map<string, Arch> { if prior.Some? then prior.value.arches else map[] }

  function CodesOf(prior: Option<Entry>): map<string, string> { if prior.Some? then prior.value.codes else map[] }

  function MergedNamesOf(nm: Naming, prior: Option<Entry>, inc: Entry): seq<string> {
    MergedNames(nm, Assets(nm, ArchesOf(prior)), Assets(nm, inc.arches))
  }

  function MergedArches(nm: Naming, prior: Option<Entry>, inc: Entry): map<string, Arch> {
    Arches(nm, MergedNamesOf(nm, prior, inc), inc.published, ArchesOf(prior), ArchSet(nm, Assets(nm, inc.arches)), Clean(inc.version))
  }

  function OneOf(o: Option<string>): seq<string> { if o.Some? then [o.value] else [] }

  function MergedEntry(nm: Naming, prior: Option<Entry>, inc: Entry): Entry {
    var arches := MergedArches(nm, prior, inc);
    var version := Newest(nm, VersionList(nm, arches) + OneOf(Clean(inc.version)));
    var codes := Codes(nm, CodesOf(prior), Assets(nm, ArchesOf(prior)), inc.codes, Assets(nm, inc.arches), MergedNamesOf(nm, prior, inc));
    Entry(version.GetOr(""), inc.published, arches, codes)
  }

  /** What the merge leaves for a platform of this upload; an entry without files changes nothing. */
  function MergedPlatform(nm: Naming, prior: Option<Entry>, inc: Entry): Option<Entry> {
    if inc.arches == map[] || MergedArches(nm, prior, inc) == map[] then prior else Some(MergedEntry(nm, prior, inc))
  }

  /** The file an architecture has after the merge. */
  function FileOf(prior: Option<Entry>, inc: Entry, a: string): string {
    if a in inc.arches then inc.arches[a].filename else if a in ArchesOf(prior) then ArchesOf(prior)[a].filename else ""
  }

  ghost predicate BothWritten(nm: Naming, p: string, prior: Option<Entry>, inc: Entry) {
    (prior.Some? ==> Written(nm, p, prior.value)) && Written(nm, p, inc)
  }

  /** The files of a written entry, listed and looked up again by architecture. */
  lemma AssetsByArch(nm: Naming, p: string, arches: map<string, Arch>)
    requires nm.Sound() && forall a <- arches :: WrittenArch(nm, p, a, arches[a])
    ensures ByArch(nm, Assets(nm, arches)) == Filenames(arches)
    ensures ArchSet(nm, Assets(nm, arches)) == arches.Keys
  {
    hide ByArch, ValuesAt, Blank, Clean;
    var keys := nm.listing(arches.Keys);
    assert Lists(keys, arches.Keys);
    ByArchOfListing(nm, keys, Filenames(arches));
    assert Filenames(arches) == map k | k in keys :: Filenames(arches)[k];
    forall a ensures a in ArchSet(nm, Assets(nm, arches)) <==> a in arches {
      AssetOfArch(nm, p, arches, a);
    }
  }

  lemma AssetOfArch(nm: Naming, p: string, arches: map<string, Arch>, a: string)
    requires nm.Sound() && forall b <- arches :: WrittenArch(nm, p, b, arches[b])
    ensures a in ArchSet(nm, Assets(nm, arches)) <==> a in arches
  {
    hide Assets, Blank, Clean;
    if a in arches {
      AssetsAreFilenames(nm, arches, arches[a].filename);
      assert nm.arch(arches[a].filename) == a;
    }
    if a in ArchSet(nm, Assets(nm, arches)) {
      var n :| n in Assets(nm, arches) && nm.arch(n) == a;
      AssetsAreFilenames(nm, arches, n);
    }
  }

  /** The merged list has one name an architecture: the incoming one where there is one. */
  lemma MergedNamesAre(nm: Naming, p: string, prior: Option<Entry>, inc: Entry)
    requires nm.Sound() && BothWritten(nm, p, prior, inc)
    ensures var names := MergedNamesOf(nm, prior, inc);
      && (forall n <- names :: n == FileOf(prior, inc, nm.arch(n)) && nm.arch(n) in ArchesOf(prior).Keys + inc.arches.Keys)
      && (forall a <- ArchesOf(prior).Keys + inc.arches.Keys :: FileOf(prior, inc, a) in names && nm.arch(FileOf(prior, inc, a)) == a)
  {
    hide ByArch, ValuesAt, Assets, Blank, Clean, Newest;
    var existing, incoming := Assets(nm, ArchesOf(prior)), Assets(nm, inc.arches);
    var chosen := ByArch(nm, existing + incoming);
    AssetsByArch(nm, p, ArchesOf(prior));
    AssetsByArch(nm, p, inc.arches);
    ByArchConcat(nm, existing, incoming);
    assert chosen == Filenames(ArchesOf(prior)) + Filenames(inc.arches);
    ChosenAre(nm, p, prior, inc, chosen);
    ListedChosen(nm, prior, inc, chosen, MergedNamesOf(nm, prior, inc));
  }

  lemma ChosenAre(nm: Naming, p: string, prior: Option<Entry>, inc: Entry, chosen: map<string, string>)
    requires BothWritten(nm, p, prior, inc) && chosen == Filenames(ArchesOf(prior)) + Filenames(inc.arches)
    ensures chosen.Keys == ArchesOf(prior).Keys + inc.arches.Keys
    ensures forall a <- chosen :: chosen[a] == FileOf(prior, inc, a) && nm.arch(chosen[a]) == a
  {
    hide Blank, Clean, Newest;
  }

  lemma ListedChosen(nm: Naming, prior: Option<Entry>, inc: Entry, chosen: map<string, string>, names: seq<string>)
    requires nm.Sound() && chosen.Keys == ArchesOf(prior).Keys + inc.arches.Keys && names == ValuesAt(nm.listing(chosen.Keys), chosen)
    requires forall a <- chosen :: chosen[a] == FileOf(prior, inc, a) && nm.arch(chosen[a]) == a
    ensures forall n <- names :: n == FileOf(prior, inc, nm.arch(n)) && nm.arch(n) in chosen
    ensures forall a <- chosen :: FileOf(prior, inc, a) in names && nm.arch(FileOf(prior, inc, a)) == a
  {
    hide ValuesAt, FileOf, ArchesOf;
    assert Lists(nm.listing(chosen.Keys), chosen.Keys);
    forall n | n in names ensures n == FileOf(prior, inc, nm.arch(n)) && nm.arch(n) in chosen {
      ListedValues(nm.listing(chosen.Keys), chosen, n);
    }
    forall a | a in chosen ensures FileOf(prior, inc, a) in names {
      ListedValues(nm.listing(chosen.Keys), chosen, chosen[a]);
    }
  }

  /** The merged architectures: incoming files with the upload's date, the others with their own
      file and date; the version is the one in the file name, and else the upload's. */
  lemma MergedArchesAre(nm: Naming, p: string, prior: Option<Entry>, inc: Entry, a: string)
    requires nm.Sound() && BothWritten(nm, p, prior, inc) && Clean(inc.version) == Some(inc.version)
    ensures a in MergedArches(nm, prior, inc) <==> a in ArchesOf(prior) || a in inc.arches
    ensures a in MergedArches(nm, prior, inc) ==>
      MergedArches(nm, prior, inc)[a] == Arch(
        nm.version(FileOf(prior, inc, a)).GetOr(inc.version),
        FileOf(prior, inc, a),
        if a in inc.arches then inc.published else ArchesOf(prior)[a].published)
  {
    hide Arches, MergedNamesOf, Assets, ArchSet, BothWritten, Blank, Clean, FileOf, Given;
    var names := MergedNamesOf(nm, prior, inc);
    var replaced := ArchSet(nm, Assets(nm, inc.arches));
    MergedNamesAre(nm, p, prior, inc);
    LastNameWins(nm, names, inc.published, ArchesOf(prior), replaced, Clean(inc.version), a);
    if a in ArchesOf(prior) || a in inc.arches {
      FileIsNamed(nm, p, prior, inc, a);
    }
    if a in MergedArches(nm, prior, inc) {
      var i :| Wins(nm, names, Clean(inc.version), a, i)
            && MergedArches(nm, prior, inc)[a] == Given(nm, names, i, inc.published, ArchesOf(prior), replaced, Clean(inc.version));
      assert names[i] in names;
      MergedArchIs(nm, p, prior, inc, names, i, a);
    }
  }

  lemma MergedArchIs(nm: Naming, p: string, prior: Option<Entry>, inc: Entry, names: seq<string>, i: nat, a: string)
    requires nm.Sound() && BothWritten(nm, p, prior, inc) && Clean(inc.version) == Some(inc.version)
    requires i < |names| && nm.arch(names[i]) == a && names[i] == FileOf(prior, inc, a)
    ensures Given(nm, names, i, inc.published, ArchesOf(prior), ArchSet(nm, Assets(nm, inc.arches)), Clean(inc.version)) ==
      Arch(nm.version(FileOf(prior, inc, a)).GetOr(inc.version), FileOf(prior, inc, a),
           if a in inc.arches || a !in ArchesOf(prior) then inc.published else ArchesOf(prior)[a].published)
  {
    hide Assets, ArchSet, Blank, Clean, FileOf, Newest;
    AssetsByArch(nm, p, inc.arches);
  }

  lemma FileIsNamed(nm: Naming, p: string, prior: Option<Entry>, inc: Entry, a: string)
    requires BothWritten(nm, p, prior, inc) && (a in ArchesOf(prior) || a in inc.arches)
    ensures !Blank(FileOf(prior, inc, a)) && nm.platform(FileOf(prior, inc, a)) == Some(p) && nm.arch(FileOf(prior, inc, a)) == a
  {
    hide Blank, Clean, Newest;
  }

  lemma {:induction false} FirstOfArch(nm: Naming, names: seq<string>, a: string)
    ensures (exists n :: n in names && nm.arch(n) == a) <==> FirstOf(nm, names, a).Some?
    ensures FirstOf(nm, names, a).Some? ==> FirstOf(nm, names, a).value in names && nm.arch(FirstOf(nm, names, a).value) == a
  {
    if names != [] {
      assert names == [names[0]] + names[1..];
      FirstOfArch(nm, names[1..], a);
    }
  }

  /** A Downloader code comes with this upload, or it was there before and the architecture was not
      uploaded: then its file is the one it was set for. Nothing else drops a code. */
  lemma CodesFollowFiles(nm: Naming, p: string, prior: Option<Entry>, inc: Entry, a: string)
    requires nm.Sound() && BothWritten(nm, p, prior, inc)
    ensures var codes := MergedEntry(nm, prior, inc).codes;
      && (a in codes <==> a in inc.codes || (a !in inc.arches && a in CodesOf(prior)))
      && (a in codes ==> codes[a] == if a in inc.codes then inc.codes[a] else CodesOf(prior)[a])
    ensures a in MergedEntry(nm, prior, inc).codes && a !in inc.codes ==>
      a in ArchesOf(prior) && FileOf(prior, inc, a) == ArchesOf(prior)[a].filename
  {
    hide MergedNamesOf, Assets, ArchSet, ByArch, Blank, Clean, MergedArches, Newest, CodeFor, VersionList, FileOf;
    var names := MergedNamesOf(nm, prior, inc);
    MergedNamesAre(nm, p, prior, inc);
    NamedArches(nm, names, a);
    CodeIs(nm, p, prior, inc, names, a);
    PriorFile(prior, inc, a);
    if a in ArchesOf(prior) || a in inc.arches {
      FileIsNamed(nm, p, prior, inc, a);
    }
  }

  lemma CodeIs(nm: Naming, p: string, prior: Option<Entry>, inc: Entry, names: seq<string>, a: string)
    requires nm.Sound() && BothWritten(nm, p, prior, inc)
    requires forall n <- names :: n == FileOf(prior, inc, nm.arch(n)) && nm.arch(n) in ArchesOf(prior).Keys + inc.arches.Keys
    requires forall b <- ArchesOf(prior).Keys + inc.arches.Keys :: FileOf(prior, inc, b) in names && nm.arch(FileOf(prior, inc, b)) == b
    ensures a in ArchesOf(prior).Keys + inc.arches.Keys ==>
      CodeFor(nm, CodesOf(prior), Assets(nm, ArchesOf(prior)), inc.codes, Assets(nm, inc.arches), names, a) ==
      if a in inc.codes then Some(inc.codes[a]) else if a !in inc.arches && a in CodesOf(prior) then Some(CodesOf(prior)[a]) else None
  {
    hide Assets, ArchSet, ByArch, FirstOf, Blank, Clean, FileOf, Newest, VersionList;
    AssetsByArch(nm, p, ArchesOf(prior));
    AssetsByArch(nm, p, inc.arches);
    FirstOfArch(nm, names, a);
    if a in ArchesOf(prior).Keys + inc.arches.Keys {
      FileIsNamed(nm, p, prior, inc, a);
      NamedFile(FileOf(prior, inc, a));
      PriorFile(prior, inc, a);
      assert FirstOf(nm, names, a) == Some(FileOf(prior, inc, a));
    }
  }

  lemma NamedArches(nm: Naming, names: seq<string>, a: string)
    ensures a in ArchSet(nm, names) <==> exists n :: n in names && nm.arch(n) == a
  {
  }

  lemma NamedFile(name: string)
    requires !Blank(name)
    ensures name != ""
  {
  }

  lemma PriorFile(prior: Option<Entry>, inc: Entry, a: string)
    ensures a !in inc.arches && a in ArchesOf(prior) ==> FileOf(prior, inc, a) == ArchesOf(prior)[a].filename
  {
  }

  lemma WrittenVersionIsClean(nm: Naming, p: string, e: Entry)
    requires nm.Sound() && Written(nm, p, e)
    ensures Clean(e.version) == Some(e.version)
    ensures exists a :: a in e.arches && e.arches[a].version == e.version
  {
    hide Clean, Blank, VersionList;
    NewestOfList(nm, e.arches, e.version);
  }

  lemma NewestOfList(nm: Naming, arches: map<string, Arch>, v: string)
    requires nm.Sound() && Newest(nm, VersionList(nm, arches)) == Some(v)
    ensures exists a :: a in arches && arches[a].version == v
  {
    hide VersionList;
    NewestIsGreatest(nm, VersionList(nm, arches));
    VersionsAreListed(nm, arches, v);
  }

  /** Merging keeps entries as the script writes them; in particular the platform's version stays
      the newest of its architectures' versions. */
  lemma MergedIsWritten(nm: Naming, p: string, prior: Option<Entry>, inc: Entry)
    requires nm.Sound() && BothWritten(nm, p, prior, inc)
    ensures MergedPlatform(nm, prior, inc) == Some(MergedEntry(nm, prior, inc)) && Written(nm, p, MergedEntry(nm, prior, inc))
    ensures MergedEntry(nm, prior, inc).published == inc.published
  {
    hide MergedArches, Clean, VersionList, Newest, Codes, WrittenArch, BothWritten;
    var e := MergedEntry(nm, prior, inc);
    InWritten(nm, p, prior, inc);
    forall a | a in e.arches ensures WrittenArch(nm, p, a, e.arches[a]) {
      MergedArchIsWritten(nm, p, prior, inc, a);
    }
    forall a | a in e.codes ensures a in e.arches {
      CodesFollowFiles(nm, p, prior, inc, a);
      MergedArchesAre(nm, p, prior, inc, a);
      CodesInArches(nm, p, prior, inc, a);
    }
    var newest := NewestIncoming(nm, p, prior, inc);
    AlreadyNewest(nm, e.arches, newest, inc.version);
  }

  lemma InWritten(nm: Naming, p: string, prior: Option<Entry>, inc: Entry)
    requires nm.Sound() && BothWritten(nm, p, prior, inc)
    ensures Clean(inc.version) == Some(inc.version) && inc.arches != map[]
  {
    hide Clean, VersionList, Newest, WrittenArch;
    WrittenVersionIsClean(nm, p, inc);
  }

  lemma CodesInArches(nm: Naming, p: string, prior: Option<Entry>, inc: Entry, a: string)
    requires BothWritten(nm, p, prior, inc)
    ensures (a in inc.codes ==> a in inc.arches) && (a in CodesOf(prior) ==> a in ArchesOf(prior))
  {
    hide Clean, VersionList, Newest, WrittenArch;
  }

  /** An architecture of the upload that has its version keeps it in the merge. */
  lemma NewestIncoming(nm: Naming, p: string, prior: Option<Entry>, inc: Entry) returns (a: string)
    requires nm.Sound() && BothWritten(nm, p, prior, inc)
    ensures a in MergedArches(nm, prior, inc) && MergedArches(nm, prior, inc)[a].version == inc.version
  {
    hide Clean, VersionList, Newest, MergedArches, FileOf, Blank;
    WrittenVersionIsClean(nm, p, inc);
    a :| a in inc.arches && inc.arches[a].version == inc.version;
    MergedArchesAre(nm, p, prior, inc, a);
    IncomingFile(prior, inc, a);
    assert WrittenArch(nm, p, a, inc.arches[a]);
  }

  lemma MergedArchIsWritten(nm: Naming, p: string, prior: Option<Entry>, inc: Entry, a: string)
    requires nm.Sound() && BothWritten(nm, p, prior, inc) && Clean(inc.version) == Some(inc.version) && a in MergedArches(nm, prior, inc)
    ensures WrittenArch(nm, p, a, MergedArches(nm, prior, inc)[a])
  {
    hide MergedArches, Clean, Blank, FileOf, Newest, Written;
    MergedArchesAre(nm, p, prior, inc, a);
    FileIsNamed(nm, p, prior, inc, a);
  }

  lemma IncomingFile(prior: Option<Entry>, inc: Entry, a: string)
    ensures a in inc.arches ==> FileOf(prior, inc, a) == inc.arches[a].filename
  {
  }

  lemma AlreadyNewest(nm: Naming, arches: map<string, Arch>, a: string, v: string)
    requires nm.Sound() && a in arches && arches[a].version == v
    ensures Newest(nm, VersionList(nm, arches) + [v]) == Newest(nm, VersionList(nm, arches)) && Newest(nm, VersionList(nm, arches)).Some?
  {
    hide VersionList;
    SomeVersion(nm, arches, a);
    VersionsAreListed(nm, arches, v);
    NewestIsGreatest(nm, VersionList(nm, arches));
    OneMoreVersion(nm, VersionList(nm, arches), v);
  }

  /** A sibling architecture keeps its version exactly when its file name embeds one or the upload
      has the same version; otherwise it takes the upload's. */
  lemma SiblingKeepsVersionIff(nm: Naming, p: string, prior: Option<Entry>, inc: Entry, a: string)
    requires nm.Sound() && BothWritten(nm, p, prior, inc) && a in ArchesOf(prior) && a !in inc.arches
    ensures a in MergedArches(nm, prior, inc)
    ensures MergedArches(nm, prior, inc)[a] == ArchesOf(prior)[a]
            <==> nm.version(ArchesOf(prior)[a].filename).Some? || ArchesOf(prior)[a].version == inc.version
  {
    hide MergedArches, Clean, Blank, Newest;
    WrittenVersionIsClean(nm, p, inc);
    MergedArchesAre(nm, p, prior, inc, a);
  }

  /** An entry of one file whose name embeds no version. */
  function OneFile(a: string, version: string, name: string, published: string): Entry {
    Entry(version, published, map[a := Arch(version, name, published)], map[])
  }

  lemma OneFileIsWritten(nm: Naming, p: string, a: string, version: string, name: string, published: string)
    requires nm.Sound() && nm.platform(name) == Some(p) && nm.arch(name) == a && nm.version(name).None?
    requires !Blank(name) && Clean(version) == Some(version)
    ensures Written(nm, p, OneFile(a, version, name, published))
  {
    hide Blank, Clean;
    var e := OneFile(a, version, name, published);
    var keys := nm.listing(e.arches.Keys);
    assert Lists(keys, e.arches.Keys) && a in e.arches.Keys;
    OneListed(keys, a);
    assert ValuesAt([a], Versions(e.arches)) == [version];
    assert Newest(nm, [version]) == Some(version);
  }

  lemma SameInList(keys: seq<string>, a: string)
    requires forall x :: x in keys ==> x == a
    ensures |keys| > 1 ==> keys[0] == keys[1]
  {
    assert forall i :: 0 <= i < |keys| ==> keys[i] in keys;
  }

  lemma OneListed(keys: seq<string>, a: string)
    requires Lists(keys, {a})
    ensures keys == [a]
  {
    assert a in {a} && a in keys;
    SameInList(keys, a);
  }

  /** For example: with x86_64 at 1.0 under a name without a version, uploading arm64 at 2.0, unversioned
      as well, makes the merged manifest call the old x86_64 file 2.0. */
  lemma UnversionedSiblingTakesVersion(nm: Naming, p: string, before: string, now: string)
    requires nm.Sound() && forall name <- ["setup-x86_64.exe", "setup-arm64.exe"] :: nm.platform(name) == Some(p) && nm.version(name).None?
    requires nm.arch("setup-x86_64.exe") == "x86_64" && nm.arch("setup-arm64.exe") == "arm64"
    ensures var prior, inc := OneFile("x86_64", "1.0", "setup-x86_64.exe", before), OneFile("arm64", "2.0", "setup-arm64.exe", now);
      && BothWritten(nm, p, Some(prior), inc)
      && "x86_64" in MergedArches(nm, Some(prior), inc)
      && MergedArches(nm, Some(prior), inc)["x86_64"] == Arch("2.0", "setup-x86_64.exe", before)
  {
    var prior, inc := OneFile("x86_64", "1.0", "setup-x86_64.exe", before), OneFile("arm64", "2.0", "setup-arm64.exe", now);
    PlainTexts();
    hide Blank, Clean, MergedArches, Written;
    OneFileIsWritten(nm, p, "x86_64", "1.0", "setup-x86_64.exe", before);
    OneFileIsWritten(nm, p, "arm64", "2.0", "setup-arm64.exe", now);
    assert "x86_64" != "arm64";
    MergedArchesAre(nm, p, Some(prior), inc, "x86_64");
  }

  lemma PlainTexts()
    ensures Clean("1.0") == Some("1.0") && Clean("2.0") == Some("2.0")
    ensures !Blank("setup-x86_64.exe") && !Blank("setup-arm64.exe")
  {
    hide Text.Trim;
    Text.TrimmedIsFixed("1.0");
    Text.TrimmedIsFixed("2.0");
    Text.TrimmedIsFixed("setup-x86_64.exe");
    Text.TrimmedIsFixed("setup-arm64.exe");
  }

  // ---------------------------------------------------------------------------------------------
  // The whole manifest

  /** An architecture read back from a stored entry: without a file name or any version it is dropped. */
  function ReadArch(nm: Naming, m: Arch): Option<Arch> {
    var ver := if Text.Trim(m.version) != "" then Clean(m.version) else nm.version(m.filename);
    if Blank(m.filename) || ver.None? then None else Some(m.(version := ver.value))
  }

  function ReadArches(nm: Naming, arches: map<string, Arch>): map<string, Arch> {
    map a | a in arches && ReadArch(nm, arches[a]).Some? :: ReadArch(nm, arches[a]).value
  }

  /** `_normalize_platform_entry`. */
  function Normalized(nm: Naming, e: Entry): Option<Entry> {
    var arches := ReadArches(nm, e.arches);
    var version := Newest(nm, VersionList(nm, arches) + OneOf(Clean(e.version)));
    if arches == map[] || version.None? then None
    else Some(Entry(version.value, e.published, arches, map a | a in e.codes && a in arches :: e.codes[a]))
  }

  lemma WrittenIsNormal(nm: Naming, p: string, e: Entry)
    requires nm.Sound() && Written(nm, p, e)
    ensures Normalized(nm, e) == Some(e)
  {
    hide Clean, Blank, VersionList, Newest, ReadArches;
    ReadBack(nm, p, e.arches);
    WrittenVersionIsClean(nm, p, e);
    var a :| a in e.arches && e.arches[a].version == e.version;
    AlreadyNewest(nm, e.arches, a, e.version);
    var codes := map a | a in e.codes && a in e.arches :: e.codes[a];
    assert codes == e.codes;
  }

  lemma ReadBack(nm: Naming, p: string, arches: map<string, Arch>)
    requires forall a <- arches :: WrittenArch(nm, p, a, arches[a])
    ensures ReadArches(nm, arches) == arches
  {
    hide Clean, Blank, ReadArch;
    forall a | a in arches ensures ReadArch(nm, arches[a]) == Some(arches[a]) {
      ReadBackArch(nm, p, a, arches[a]);
    }
  }

  lemma ReadBackArch(nm: Naming, p: string, a: string, m: Arch)
    requires WrittenArch(nm, p, a, m)
    ensures ReadArch(nm, m) == Some(m)
  {
    hide Clean, Blank;
    CleanIsNotBlank(m.version);
  }

  lemma CleanIsNotBlank(v: string)
    ensures Clean(v).Some? ==> Text.Trim(v) != ""
  {
  }

  function EntryAt(platforms: map<string, Entry>, p: string): Option<Entry> {
    if p in platforms then Some(platforms[p]) else None
  }

  /** The existing entries as they are read; no manifest has none. */
  function Existing(nm: Naming, existing: Option<Manifest>): map<string, Entry> {
    if existing.None? then map[]
    else
      var ps := existing.value.platforms;
      map p | p in ps && Normalized(nm, ps[p]).Some? :: Normalized(nm, ps[p]).value
  }

  function MergedAt(nm: Naming, before: map<string, Entry>, incoming: map<string, Entry>, p: string): Option<Entry> {
    if p in incoming then MergedPlatform(nm, EntryAt(before, p), incoming[p]) else EntryAt(before, p)
  }

  function MergedPlatforms(nm: Naming, before: map<string, Entry>, incoming: map<string, Entry>): map<string, Entry> {
    map p | p in before.Keys + incoming.Keys && MergedAt(nm, before, incoming, p).Some? :: MergedAt(nm, before, incoming, p).value
  }

  function Merged(nm: Naming, existing: Option<Manifest>, incoming: map<string, Entry>, published: string): Manifest {
    Manifest(published, MergedPlatforms(nm, Existing(nm, existing), incoming))
  }

  method MergePlatformManifest(nm: Naming, existing: Option<Manifest>, incoming: map<string, Entry>,
        published: string) returns (m: Manifest)
    ensures m == Merged(nm, existing, incoming, published)
  {
    hide Normalized, MergedArches, MergedEntry, MergedNamesOf, Assets, VersionList, Newest, Clean;
    ghost var before := Existing(nm, existing);
    var platforms: map<string, Entry> := ReadExisting(nm, existing);
    var left := incoming.Keys;
    while left != {}
      invariant left <= incoming.Keys
      invariant forall p :: EntryAt(platforms, p) == if p in left then EntryAt(before, p) else MergedAt(nm, before, incoming, p)
      decreases left
    {
      var p :| p in left;
      left := left - {p};
      var merged := MergeOne(nm, EntryAt(platforms, p), incoming[p]);
      if merged.Some? {
        platforms := platforms[p := merged.value];
      }
    }
    m := Manifest(published, platforms);
    SamePlatforms(nm, before, incoming, platforms);
  }

  lemma SamePlatforms(nm: Naming, before: map<string, Entry>, incoming: map<string, Entry>, platforms: map<string, Entry>)
    requires forall p :: EntryAt(platforms, p) == MergedAt(nm, before, incoming, p)
    ensures platforms == MergedPlatforms(nm, before, incoming)
  {
    hide MergedPlatform;
    forall p ensures p in platforms <==> p in MergedPlatforms(nm, before, incoming)
             ensures p in platforms ==> platforms[p] == MergedPlatforms(nm, before, incoming)[p]
    {
      assert EntryAt(platforms, p) == MergedAt(nm, before, incoming, p);
    }
  }

  /** The first loop: stored entries, normalised. */
  method ReadExisting(nm: Naming, existing: Option<Manifest>) returns (platforms: map<string, Entry>)
    ensures platforms == Existing(nm, existing)
  {
    hide Normalized;
    platforms := map[];
    if existing.None? {
      return;
    }
    var ps := existing.value.platforms;
    var left := ps.Keys;
    while left != {}
      invariant left <= ps.Keys
      invariant platforms == map p | p in ps.Keys - left && Normalized(nm, ps[p]).Some? :: Normalized(nm, ps[p]).value
      decreases left
    {
      var p :| p in left;
      left := left - {p};
      var e := Normalized(nm, ps[p]);
      if e.Some? {
        platforms := platforms[p := e.value];
      }
    }
  }

  /** One turn of the second loop. */
  method MergeOne(nm: Naming, prior: Option<Entry>, inc: Entry) returns (r: Option<Entry>)
    ensures r == MergedPlatform(nm, prior, inc)
    ensures inc.arches == map[] || MergedArches(nm, prior, inc) == map[] ==> r == prior
  {
    hide Arches, MergedNames, Assets, VersionList, Newest, Clean, Codes, ArchSet;
    if inc.arches == map[] {
      return prior;
    }
    var names := MergeAssetsByArch(nm, Assets(nm, ArchesOf(prior)), Assets(nm, inc.arches));
    var arches := BuildArches(nm, names, inc.published, ArchesOf(prior), ArchSet(nm, Assets(nm, inc.arches)), Clean(inc.version));
    if arches == map[] {
      return prior;
    }
    var version := Newest(nm, VersionList(nm, arches) + OneOf(Clean(inc.version)));
    var codes := MergeDownloaderCodes(nm, CodesOf(prior), Assets(nm, ArchesOf(prior)), inc.codes, Assets(nm, inc.arches), names);
    r := Some(Entry(version.GetOr(""), inc.published, arches, codes));
  }

  /** Merging a written manifest with written entries: platforms not uploaded are as they were, the
      uploaded ones are merged with what was there, and nothing else appears. */
  lemma MergeKeepsAndReplaces(nm: Naming, existing: Option<Manifest>, incoming: map<string, Entry>, published: string)
    requires nm.Sound() && (existing.Some? ==> WrittenManifest(nm, existing.value))
    requires forall p <- incoming :: Written(nm, p, incoming[p])
    ensures var m, before := Merged(nm, existing, incoming, published), if existing.Some? then existing.value.platforms else map[];
      && WrittenManifest(nm, m) && m.published == published
      && m.platforms.Keys == before.Keys + incoming.Keys
      && (forall p <- before :: p !in incoming ==> m.platforms[p] == before[p])
      && (forall p <- incoming :: m.platforms[p] == MergedEntry(nm, EntryAt(before, p), incoming[p]))
  {
    hide Written, Normalized, MergedPlatform, MergedEntry;
    var before := if existing.Some? then existing.value.platforms else map[];
    forall p | p in before ensures Normalized(nm, before[p]) == Some(before[p]) {
      WrittenIsNormal(nm, p, before[p]);
    }
    assert Existing(nm, existing) == before;
    forall p | p in incoming
      ensures MergedPlatform(nm, EntryAt(before, p), incoming[p]) == Some(MergedEntry(nm, EntryAt(before, p), incoming[p]))
      ensures Written(nm, p, MergedEntry(nm, EntryAt(before, p), incoming[p]))
    {
      MergedIsWritten(nm, p, EntryAt(before, p), incoming[p]);
    }
  }

  // ---------------------------------------------------------------------------------------------
  // Patching codes afterwards

  /** `apply_downloader_codes_to_atv_entry`. */
  function Patched(e: Entry, codes: map<string, string>): Entry {
    e.(codes := map a | a in e.arches && (a in codes || a in e.codes) :: if a in codes then codes[a] else e.codes[a])
  }

  lemma PatchedIsWritten(nm: Naming, p: string, e: Entry, codes: map<string, string>)
    requires Written(nm, p, e)
    ensures Written(nm, p, Patched(e, codes))
  {
    hide Clean, Blank, VersionList, Newest;
  }
}
