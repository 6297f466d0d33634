/** Publishing a release into the bucket: uploads, the merged manifest, and then the deletions
    (scripts/upload_release_to_r2.py:818-875, 1125-1231, 1248-1467). */
module ReleaseBucket {
  import opened Wrappers
  import opened Listings
  import opened ReleaseManifest
  import opened ReleaseMerge
  import Text

  /** An object key: what stands before its first slash and what follows, or a key without one. */
  datatype Key = Object(dir: string, name: string) | Bare(name: string)

  const LATEST := "latest"
  const MANIFEST := "manifest.json"
  const MANIFEST_KEY := Object(LATEST, MANIFEST)

  /** One request that changes the bucket. A manifest is put together with the codes it is given. */
  datatype Step = Put(key: Key) | PutManifest(m: Manifest, given: set<(string, string)>) | Delete(key: Key)

  /** The keys, the manifest of the latest installers, and for each Downloader code (by platform and
      architecture) the file that was listed when the code was given. */
  datatype Bucket = Bucket(keys: set<Key>, manifest: Option<Manifest>, codedFor: map<(string, string), string>)

  const EMPTY := Bucket({}, None, map[])

  function Coded(m: Manifest, given: set<(string, string)>,
        before: map<(string, string), string>): map<(string, string), string> {
    before + map k | k in given && k.0 in m.platforms && k.1 in m.platforms[k.0].arches :: m.platforms[k.0].arches[k.1].filename
  }

  function Apply(b: Bucket, s: Step): Bucket {
    match s
    case Put(k) => b.(keys := b.keys + {k})
    case PutManifest(m, given) => Bucket(b.keys + {MANIFEST_KEY}, Some(m), Coded(m, given, b.codedFor))
    case Delete(k) => b.(keys := b.keys - {k})
  }

  function Run(b: Bucket, steps: seq<Step>): Bucket {
    if steps == [] then b else Apply(Run(b, steps[..|steps| - 1]), steps[|steps| - 1])
  }

  lemma {:induction false} RunConcat(b: Bucket, s: seq<Step>, t: seq<Step>)
    ensures Run(b, s + t) == Run(Run(b, s), t)
  {
    if t == [] {
      assert s + t == s;
    } else {
      RunConcat(b, s, t[..|t| - 1]);
      assert (s + t)[..|s + t| - 1] == s + t[..|t| - 1];
    }
  }

  // ---------------------------------------------------------------------------------------------
  // What must hold at every moment

  /** Every listed file is under latest/; and with `trees` also under the directory of the version
      in its name, if it has one. */
  ghost predicate Present(nm: Naming, trees: bool, m: Manifest, keys: set<Key>) {
    forall p, a | p in m.platforms && a in m.platforms[p].arches :: FileIsPresent(nm, trees, m.platforms[p].arches[a].filename, keys)
  }

  ghost predicate FileIsPresent(nm: Naming, trees: bool, name: string, keys: set<Key>) {
    && Object(LATEST, name) in keys
    && (trees && nm.version(name).Some? ==> Object("v" + nm.version(name).value, name) in keys)
  }

  /** A code is kept only with the file it was given for. */
  ghost predicate CodesMatch(m: Manifest, codedFor: map<(string, string), string>) {
    forall p, a | p in m.platforms && a in m.platforms[p].codes :: CodeMatches(m, codedFor, p, a)
  }

  ghost predicate CodeMatches(m: Manifest, codedFor: map<(string, string), string>, p: string, a: string) {
    && p in m.platforms && a in m.platforms[p].arches && (p, a) in codedFor
    && codedFor[(p, a)] == m.platforms[p].arches[a].filename
  }

  ghost predicate Good(nm: Naming, trees: bool, b: Bucket) {
    b.manifest.Some? ==>
      && WrittenManifest(nm, b.manifest.value)
      && Present(nm, trees, b.manifest.value, b.keys)
      && CodesMatch(b.manifest.value, b.codedFor)
  }

  /** The keys whose loss would leave the manifest dangling. */
  ghost predicate Needed(nm: Naming, trees: bool, m: Manifest, k: Key) {
    exists p, a | p in m.platforms && a in m.platforms[p].arches :: NeededFor(nm, trees, m.platforms[p].arches[a].filename, k)
  }

  ghost predicate NeededFor(nm: Naming, trees: bool, name: string, k: Key) {
    k == Object(LATEST, name) || (trees && nm.version(name).Some? && k == Object("v" + nm.version(name).value, name))
  }

  ghost predicate Admissible(nm: Naming, trees: bool, b: Bucket, s: Step) {
    match s
    case Put(_) => true
    case PutManifest(m, given) => WrittenManifest(nm, m) && Present(nm, trees, m, b.keys) && CodesMatch(m, Coded(m, given, b.codedFor))
    case Delete(k) => b.manifest.Some? ==> !Needed(nm, trees, b.manifest.value, k)
  }

  lemma AdmissibleKeepsGood(nm: Naming, trees: bool, b: Bucket, s: Step)
    requires Good(nm, trees, b) && Admissible(nm, trees, b, s)
    ensures Good(nm, trees, Apply(b, s))
  {
    hide WrittenManifest, CodesMatch;
    if s.Delete? && b.manifest.Some? {
      var m := b.manifest.value;
      forall p, a | p in m.platforms && a in m.platforms[p].arches
        ensures FileIsPresent(nm, trees, m.platforms[p].arches[a].filename, b.keys - {s.key})
      {
        assert FileIsPresent(nm, trees, m.platforms[p].arches[a].filename, b.keys);
        assert !NeededFor(nm, trees, m.platforms[p].arches[a].filename, s.key);
      }
    } else if b.manifest.Some? && s.Put? {
      MoreKeys(nm, trees, b.manifest.value, b.keys, b.keys + {s.key});
    } else if s.PutManifest? {
      MoreKeys(nm, trees, s.m, b.keys, b.keys + {MANIFEST_KEY});
    }
  }

  lemma MoreKeys(nm: Naming, trees: bool, m: Manifest, fewer: set<Key>, more: set<Key>)
    requires Present(nm, trees, m, fewer) && fewer <= more
    ensures Present(nm, trees, m, more)
  {
    forall p, a | p in m.platforms && a in m.platforms[p].arches ensures FileIsPresent(nm, trees, m.platforms[p].arches[a].filename, more) {
      assert FileIsPresent(nm, trees, m.platforms[p].arches[a].filename, fewer);
    }
  }

  ghost predicate AllAdmissible(nm: Naming, trees: bool, b: Bucket, steps: seq<Step>) {
    forall n :: 0 <= n < |steps| ==> Admissible(nm, trees, Run(b, steps[..n]), steps[n])
  }

  /** From a good bucket, admissible steps keep it good, whichever of them is the last one made. */
  lemma {:induction false} PrefixesAreGood(nm: Naming, trees: bool, b: Bucket, steps: seq<Step>, n: nat)
    requires Good(nm, trees, b) && AllAdmissible(nm, trees, b, steps) && n <= |steps|
    ensures Good(nm, trees, Run(b, steps[..n]))
  {
    hide Good, Admissible;
    if n == 0 {
      assert steps[..0] == [];
    } else {
      PrefixesAreGood(nm, trees, b, steps, n - 1);
      assert steps[..n][..n - 1] == steps[..n - 1];
      AdmissibleKeepsGood(nm, trees, Run(b, steps[..n - 1]), steps[n - 1]);
    }
  }

  lemma AdmissibleConcat(nm: Naming, trees: bool, b: Bucket, s: seq<Step>, t: seq<Step>)
    requires AllAdmissible(nm, trees, b, s) && AllAdmissible(nm, trees, Run(b, s), t)
    ensures AllAdmissible(nm, trees, b, s + t)
  {
    hide Admissible, Run;
    forall n | 0 <= n < |s + t| ensures Admissible(nm, trees, Run(b, (s + t)[..n]), (s + t)[n]) {
      if n < |s| {
        assert (s + t)[..n] == s[..n];
      } else {
        RunConcat(b, s, t[..n - |s|]);
        assert (s + t)[..n] == s + t[..n - |s|];
      }
    }
  }

  // ---------------------------------------------------------------------------------------------
  // One release

  /** `published` is the time of publication, `keep` the number of versions to keep, `codes` the
      Downloader codes given with the upload and `notes` the versions with released notes. */
  datatype Release = Release(version: string, dir: seq<string>, published: string, keep: int, codes: map<string, string>, notes: seq<string>)

  /** `path.suffix`: a name that is nothing but the ending has none. */
  predicate HasSuffix(name: string, suffix: string) { name != suffix && Text.EndsWith(name, suffix) }

  predicate IsInstaller(name: string) {
    var lower := Text.LowerAscii(name);
    HasSuffix(lower, ".dmg") || HasSuffix(lower, ".exe") || HasSuffix(lower, ".apk") || Text.EndsWith(name, ".AppImage")
  }

  function Installers(dir: seq<string>): seq<string> {
    if dir == [] then []
    else
      var front, last := Installers(dir[..|dir| - 1]), dir[|dir| - 1];
      if IsInstaller(last) then front + [last] else front
  }

  function Uploads(version: string, files: seq<string>): seq<Step> {
    if files == [] then []
    else
      var f := files[|files| - 1];
      Uploads(version, files[..|files| - 1]) + [Put(Object("v" + version, f)), Put(Object(LATEST, f))]
  }

  function WithCodes(nm: Naming, incoming: map<string, Entry>, codes: map<string, string>): map<string, Entry> {
    if ANDROID_TV !in incoming then incoming
    else
      var e := incoming[ANDROID_TV];
      incoming[ANDROID_TV := e.(codes := map a | a in codes && a in ArchSet(nm, Assets(nm, e.arches)) :: codes[a])]
  }

  function IncomingOf(nm: Naming, r: Release): map<string, Entry> {
    WithCodes(nm, Incoming(nm, Installers(r.dir), r.version, r.published), r.codes)
  }

  function GivenBy(incoming: map<string, Entry>): set<(string, string)> {
    if ANDROID_TV in incoming then set a | a in incoming[ANDROID_TV].codes :: (ANDROID_TV, a) else {}
  }

  function NoteSteps(notes: seq<string>): seq<Step> {
    if notes == [] then [Put(Object("changelog", "index.json"))]
    else [Put(Object("changelog", notes[0] + ".md"))] + NoteSteps(notes[1..])
  }

  function MergedOf(nm: Naming, b: Bucket,
        r: Release): Manifest { Merged(nm, b.manifest, IncomingOf(nm, r), r.published) }

  /** Everything that is put, in order: each installer under its version and under latest/, the
      merged manifest, the version's own manifest, and the release notes. */
  function Puts(nm: Naming, b: Bucket, r: Release): seq<Step> {
    Uploads(r.version, Installers(r.dir))
    + [PutManifest(MergedOf(nm, b, r), GivenBy(IncomingOf(nm, r))), Put(Object("v" + r.version, MANIFEST))]
    + (if r.notes == [] then [] else NoteSteps(r.notes))
  }

  predicate IsListed(m: Manifest, name: string) {
    exists p, a | p in m.platforms && a in m.platforms[p].arches :: m.platforms[p].arches[a].filename == name
  }

  /** `stale_latest_keys`: files of an uploaded platform that the manifest does not list. */
  predicate IsStale(nm: Naming, m: Manifest, replaced: set<string>, k: Key) {
    && k.Object? && k.dir == LATEST && !IsListed(m, k.name) && k.name != MANIFEST
    && nm.platform(k.name).Some? && nm.platform(k.name).value in replaced
  }

  function Head(k: Key): string { if k.Object? then k.dir else k.name }

  function Dirs(keys: set<Key>): set<string> { set k | k in keys && k.Object? && "v" <= k.dir :: k.dir }

  /** `referenced_version_prefixes`. */
  predicate Referenced(nm: Naming, m: Manifest, dir: string) {
    exists p | p in m.platforms :: ReferencedBy(nm, m.platforms[p], dir)
  }

  predicate ReferencedBy(nm: Naming, e: Entry, dir: string) {
    || (Clean(e.version).Some? && dir == "v" + Clean(e.version).value)
    || exists a | a in e.arches :: nm.version(e.arches[a].filename).Some? && dir == "v" + nm.version(e.arches[a].filename).value
  }

  /** The newest of the version directories; among equally new ones any may be chosen. */
  ghost predicate IsWindow(nm: Naming, dirs: set<string>, keep: int, window: set<string>) {
    var n := if keep > 1 then keep else 1;
    && window <= dirs && |window| == (if n < |dirs| then n else |dirs|)
    && forall x, y | x in window && y in dirs - window :: !Less(nm.rank(x), nm.rank(y))
  }

  predicate IsOutdated(nm: Naming, m: Manifest, dirs: set<string>, window: set<string>, k: Key) {
    Head(k) in dirs && Head(k) !in window && !Referenced(nm, m, Head(k)) && !(k.Object? && k.dir == "changelog")
  }

  /** Deletions of exactly the keys with some property, in any order. */
  ghost predicate Deletes(steps: seq<Step>, keys: set<Key>, chosen: Key -> bool) {
    && (forall s <- steps :: s.Delete? && s.key in keys && chosen(s.key))
    && (forall k <- keys :: chosen(k) ==> Delete(k) in steps)
  }

  ghost function StaleTest(nm: Naming, m: Manifest,
        replaced: set<string>): Key -> bool { k => IsStale(nm, m, replaced, k) }

  ghost function OutdatedTest(nm: Naming, m: Manifest, dirs: set<string>, window: set<string>): Key -> bool {
    k => IsOutdated(nm, m, dirs, window, k)
  }

  /** The requests of one complete run of the script on a bucket. Without a file of a known platform
      it stops after the uploads. */
  ghost predicate Plan(nm: Naming, b: Bucket, r: Release, window: set<string>, stale: seq<Step>,
        outdated: seq<Step>, steps: seq<Step>) {
    if IncomingOf(nm, r) == map[] then steps == Uploads(r.version, Installers(r.dir))
    else
      var m := MergedOf(nm, b, r);
      var listed := Run(b, Puts(nm, b, r)).keys;
      && Deletes(stale, listed, StaleTest(nm, m, IncomingOf(nm, r).Keys))
      && IsWindow(nm, Dirs(listed), r.keep, window)
      && Deletes(outdated, listed, OutdatedTest(nm, m, Dirs(listed), window))
      && steps == Puts(nm, b, r) + (stale + outdated)
  }

  /** A plain release version; with `trees` it is also the one that the versioned file names embed. */
  ghost predicate Honest(nm: Naming, trees: bool, r: Release) {
    && Clean(r.version) == Some(r.version)
    && (trees ==> forall f <- Installers(r.dir) :: nm.version(f).Some? ==> nm.version(f).value == r.version)
  }

  ghost predicate OnlyPuts(steps: seq<Step>) { forall s <- steps :: s.Put? }

  ghost predicate OnlyDeletes(steps: seq<Step>) { forall s <- steps :: s.Delete? }

  lemma {:induction false} PutsAdd(b: Bucket, steps: seq<Step>)
    requires OnlyPuts(steps)
    ensures Run(b, steps).manifest == b.manifest && Run(b, steps).codedFor == b.codedFor
    ensures forall k :: k in Run(b, steps).keys <==> k in b.keys || Put(k) in steps
  {
    if steps != [] {
      var front, last := steps[..|steps| - 1], steps[|steps| - 1];
      assert last in steps && steps == front + [last];
      PutsAdd(b, front);
      assert Run(b, steps) == Apply(Run(b, front), last);
      assert forall k :: Put(k) in steps <==> Put(k) in front || Put(k) == last;
    }
  }

  lemma {:induction false} DeletesRemove(b: Bucket, steps: seq<Step>)
    requires OnlyDeletes(steps)
    ensures Run(b, steps).manifest == b.manifest && Run(b, steps).codedFor == b.codedFor
    ensures forall k :: k in Run(b, steps).keys <==> k in b.keys && Delete(k) !in steps
  {
    if steps != [] {
      var front, last := steps[..|steps| - 1], steps[|steps| - 1];
      assert last in steps && steps == front + [last];
      DeletesRemove(b, front);
      assert Run(b, steps) == Apply(Run(b, front), last);
      assert forall k :: Delete(k) in steps <==> Delete(k) in front || Delete(k) == last;
    }
  }

  lemma {:induction false} UploadsAre(version: string, files: seq<string>)
    ensures OnlyPuts(Uploads(version, files))
    ensures forall k :: Put(k) in Uploads(version, files) <==> k.Object? && k.name in files && k.dir in {"v" + version, LATEST}
  {
    if files != [] {
      var front, f := files[..|files| - 1], files[|files| - 1];
      UploadsAre(version, front);
      assert files == front + [f];
    }
  }

  lemma {:induction false} NotesArePuts(notes: seq<string>)
    ensures OnlyPuts(NoteSteps(notes))
    ensures forall k :: Put(k) in NoteSteps(notes) ==> k.Object? && k.dir == "changelog"
  {
    if notes != [] {
      NotesArePuts(notes[1..]);
    }
  }

  lemma PutsAreAdmissible(nm: Naming, trees: bool, b: Bucket, steps: seq<Step>)
    requires OnlyPuts(steps)
    ensures AllAdmissible(nm, trees, b, steps)
  {
    hide Run;
    assert forall n :: 0 <= n < |steps| ==> steps[n].Put?;
  }

  /** Deletions that spare what the manifest needs. */
  lemma DeletesAreAdmissible(nm: Naming, trees: bool, b: Bucket, steps: seq<Step>)
    requires OnlyDeletes(steps)
    requires b.manifest.Some? ==> forall s <- steps :: !Needed(nm, trees, b.manifest.value, s.key)
    ensures AllAdmissible(nm, trees, b, steps)
  {
    hide Run, Needed;
    forall n | 0 <= n < |steps| ensures Admissible(nm, trees, Run(b, steps[..n]), steps[n]) {
      DeletesRemove(b, steps[..n]);
      assert steps[n] in steps;
    }
  }

  // ---------------------------------------------------------------------------------------------
  // A release never leaves the manifest dangling

  lemma {:induction false} InstallersAre(dir: seq<string>)
    ensures forall f <- Installers(dir) :: IsInstaller(f)
  {
    if dir != [] {
      InstallersAre(dir[..|dir| - 1]);
    }
  }

  /** An installer's name ends in a visible character. */
  lemma InstallerSaysSomething(name: string)
    requires IsInstaller(name)
    ensures !Blank(name) && name != MANIFEST
  {
    var last := name[|name| - 1];
    var lower := Text.LowerAscii(name);
    assert |lower| > 4 && lower[|lower| - 1] == Text.ToLowerAscii(last);
    assert HasSuffix(lower, ".dmg") ==> lower[|lower| - 4..][3] == 'g';
    assert HasSuffix(lower, ".exe") ==> lower[|lower| - 4..][3] == 'e' && lower[|lower| - 4..][1] == 'e';
    assert HasSuffix(lower, ".apk") ==> lower[|lower| - 4..][3] == 'k';
    assert Text.EndsWith(name, ".AppImage") ==> name[|name| - 9..][8] == 'e' && name[|name| - 9..][0] == '.';
    VisibleLast(name);
  }

  lemma VisibleLast(name: string)
    requires name != "" && !Text.IsSpace(name[|name| - 1])
    ensures !Blank(name)
  {
    hide Text.IsSpace;
    var t := Text.TrimStart(name);
    Text.TrimStartIsTail(name);
    assert t != "" && t[|t| - 1] == name[|name| - 1];
  }

  /** The merged manifest's entries, as the merge proves them. */
  lemma IncomingIsWritten(nm: Naming, trees: bool, r: Release)
    requires nm.Sound() && Honest(nm, trees, r)
    ensures var incoming := IncomingOf(nm, r);
      && incoming.Keys == PlatformsOf(nm, Installers(r.dir))
      && (forall p <- incoming :: Written(nm, p, incoming[p]) && (p != ANDROID_TV ==> incoming[p].codes == map[]))
      && (forall p, a | p in incoming && a in incoming[p].arches :: IsUploaded(nm, trees, r, incoming[p].arches[a].filename))
  {
    hide Clean, Blank, Newest, VersionList, Incoming, ArchSet, Written, FromUpload, PlatformsOf, IsUploaded;
    var files := Installers(r.dir);
    InstallersAre(r.dir);
    forall f | f in files ensures !Blank(f) {
      InstallerSaysSomething(f);
    }
    UploadIsWritten(nm, files, r.version, r.published);
    var plain, incoming := Incoming(nm, files, r.version, r.published), IncomingOf(nm, r);
    forall p | p in incoming ensures Written(nm, p, incoming[p]) && (p != ANDROID_TV ==> incoming[p].codes == map[]) {
      assert Written(nm, p, plain[p]) && FromUpload(nm, p, plain[p], files, r.version, r.published);
      CodesAreFit(nm, trees, p, plain[p], r, files);
    }
    forall p, a | p in incoming && a in incoming[p].arches ensures IsUploaded(nm, trees, r, incoming[p].arches[a].filename) {
      assert FromUpload(nm, p, plain[p], files, r.version, r.published);
      CodesAreFit(nm, trees, p, plain[p], r, files);
    }
  }

  ghost predicate IsUploaded(nm: Naming, trees: bool, r: Release, name: string) {
    name in Installers(r.dir) && (trees && nm.version(name).Some? ==> nm.version(name).value == r.version)
  }

  lemma CodesAreFit(nm: Naming, trees: bool, p: string, e: Entry, r: Release, files: seq<string>)
    requires nm.Sound() && Written(nm, p, e) && Honest(nm, trees, r) && files == Installers(r.dir)
    requires FromUpload(nm, p, e, files, r.version, r.published)
    ensures var codes := map a | a in r.codes && a in ArchSet(nm, Assets(nm, e.arches)) :: r.codes[a];
      Written(nm, p, e.(codes := codes))
    ensures e.codes == map[]
    ensures forall a <- e.arches :: IsUploaded(nm, trees, r, e.arches[a].filename)
  {
    hide Clean, Blank, Newest, VersionList, ArchSet, Assets;
    AssetsByArch(nm, p, e.arches);
  }

  /** When the manifest is put, everything that it lists is already there. */
  lemma ManifestComesLast(nm: Naming, trees: bool, b: Bucket, r: Release)
    requires nm.Sound() && Honest(nm, trees, r) && Good(nm, trees, b)
    ensures var after := Run(b, Uploads(r.version, Installers(r.dir)));
      && after.manifest == b.manifest && after.codedFor == b.codedFor
      && Admissible(nm, trees, after, PutManifest(MergedOf(nm, b, r), GivenBy(IncomingOf(nm, r))))
  {
    hide Merged, IncomingOf, Run, Present, CodesMatch, WrittenManifest;
    var files := Installers(r.dir);
    var after := Run(b, Uploads(r.version, files));
    UploadsAre(r.version, files);
    PutsAdd(b, Uploads(r.version, files));
    IncomingIsWritten(nm, trees, r);
    MergeKeepsAndReplaces(nm, b.manifest, IncomingOf(nm, r), r.published);
    MergedIsPresent(nm, trees, b, r, after.keys);
    MergedCodesMatch(nm, trees, b, r);
  }

  function Before(b: Bucket): map<string, Entry> { if b.manifest.Some? then b.manifest.value.platforms else map[] }

  lemma MergedIsPresent(nm: Naming, trees: bool, b: Bucket, r: Release, keys: set<Key>)
    requires nm.Sound() && Honest(nm, trees, r) && Good(nm, trees, b)
    requires forall k :: k in keys <==> k in b.keys || (k.Object? && k.name in Installers(r.dir) && k.dir in {"v" + r.version, LATEST})
    ensures Present(nm, trees, MergedOf(nm, b, r), keys)
  {
    hide Merged, IncomingOf, MergedEntry, Written, FileIsPresent, IsUploaded;
    var m, incoming := MergedOf(nm, b, r), IncomingOf(nm, r);
    IncomingIsWritten(nm, trees, r);
    MergeKeepsAndReplaces(nm, b.manifest, incoming, r.published);
    forall p, a | p in m.platforms && a in m.platforms[p].arches ensures FileIsPresent(nm, trees, m.platforms[p].arches[a].filename, keys) {
      if p in incoming {
        MergedFileIsPresent(nm, trees, b, r, keys, p, a);
      } else {
        assert FileIsPresent(nm, trees, Before(b)[p].arches[a].filename, b.keys);
        StillPresent(nm, trees, Before(b)[p].arches[a].filename, b.keys, keys);
      }
    }
  }

  lemma StillPresent(nm: Naming, trees: bool, name: string, fewer: set<Key>, more: set<Key>)
    requires FileIsPresent(nm, trees, name, fewer) && forall k :: k in fewer ==> k in more
    ensures FileIsPresent(nm, trees, name, more)
  {
  }

  lemma MergedFileIsPresent(nm: Naming, trees: bool, b: Bucket, r: Release, keys: set<Key>, p: string, a: string)
    requires nm.Sound() && Honest(nm, trees, r) && Good(nm, trees, b) && p in IncomingOf(nm, r)
    requires a in MergedEntry(nm, EntryAt(Before(b), p), IncomingOf(nm, r)[p]).arches
    requires forall k :: k in keys <==> k in b.keys || (k.Object? && k.name in Installers(r.dir) && k.dir in {"v" + r.version, LATEST})
    ensures FileIsPresent(nm, trees, MergedEntry(nm, EntryAt(Before(b), p), IncomingOf(nm, r)[p]).arches[a].filename, keys)
  {
    hide IncomingOf, MergedArches, Written, Clean, Installers;
    var prior, inc := EntryAt(Before(b), p), IncomingOf(nm, r)[p];
    IncomingIsWritten(nm, trees, r);
    WrittenVersionIsClean(nm, p, inc);
    MergedArchesAre(nm, p, prior, inc, a);
    if a in inc.arches {
      IncomingFile(prior, inc, a);
      assert IsUploaded(nm, trees, r, inc.arches[a].filename);
    } else {
      PriorFile(prior, inc, a);
      assert FileIsPresent(nm, trees, Before(b)[p].arches[a].filename, b.keys);
    }
  }

  lemma MergedCodesMatch(nm: Naming, trees: bool, b: Bucket, r: Release)
    requires nm.Sound() && Honest(nm, trees, r) && Good(nm, trees, b)
    ensures CodesMatch(MergedOf(nm, b, r), Coded(MergedOf(nm, b, r), GivenBy(IncomingOf(nm, r)), b.codedFor))
  {
    hide Merged, IncomingOf, MergedEntry, Written, CodeMatches, GivenBy, Coded;
    var m, incoming := MergedOf(nm, b, r), IncomingOf(nm, r);
    IncomingIsWritten(nm, trees, r);
    MergeKeepsAndReplaces(nm, b.manifest, incoming, r.published);
    forall p, a | p in m.platforms && a in m.platforms[p].codes
      ensures CodeMatches(m, Coded(m, GivenBy(incoming), b.codedFor), p, a)
    {
      if p in incoming {
        MergedCodeMatches(nm, trees, b, r, m, p, a);
      } else {
        assert CodeMatches(b.manifest.value, b.codedFor, p, a);
        NotGiven(incoming, p, a);
        CodeHasFile(b.manifest.value, b.codedFor, p, a);
        KeptCode(m, b.manifest.value, GivenBy(incoming), b.codedFor, p, a);
      }
    }
  }

  lemma NotGiven(incoming: map<string, Entry>, p: string, a: string)
    ensures (p, a) in GivenBy(incoming) <==> p == ANDROID_TV && p in incoming && a in incoming[p].codes
  {
  }

  lemma CodeHasFile(m: Manifest, codedFor: map<(string, string), string>, p: string, a: string)
    requires CodeMatches(m, codedFor, p, a)
    ensures p in m.platforms && a in m.platforms[p].arches
  {
  }

  lemma KeptCode(m: Manifest, before: Manifest, given: set<(string, string)>,
        codedFor: map<(string, string), string>, p: string, a: string)
    requires CodeMatches(before, codedFor, p, a) && (p, a) !in given
    requires p in m.platforms && a in m.platforms[p].arches && m.platforms[p].arches[a].filename == before.platforms[p].arches[a].filename
    ensures CodeMatches(m, Coded(m, given, codedFor), p, a)
  {
  }

  lemma FreshCode(m: Manifest, given: set<(string, string)>, codedFor: map<(string, string), string>, p: string,
        a: string)
    requires (p, a) in given && p in m.platforms && a in m.platforms[p].arches
    ensures CodeMatches(m, Coded(m, given, codedFor), p, a)
  {
  }

  lemma MergedCodeMatches(nm: Naming, trees: bool, b: Bucket, r: Release, m: Manifest, p: string, a: string)
    requires nm.Sound() && Honest(nm, trees, r) && Good(nm, trees, b) && p in IncomingOf(nm, r)
    requires p in m.platforms && m.platforms[p] == MergedEntry(nm, EntryAt(Before(b), p), IncomingOf(nm, r)[p]) && a in m.platforms[p].codes
    ensures CodeMatches(m, Coded(m, GivenBy(IncomingOf(nm, r)), b.codedFor), p, a)
  {
    hide IncomingOf, MergedArches, Written, Clean, Installers, GivenBy, Coded, CodeMatches, Codes;
    var prior, inc := EntryAt(Before(b), p), IncomingOf(nm, r)[p];
    IncomingIsWritten(nm, trees, r);
    WrittenVersionIsClean(nm, p, inc);
    CodesFollowFiles(nm, p, prior, inc, a);
    CodedArch(nm, p, prior, inc, a);
    NotGiven(IncomingOf(nm, r), p, a);
    if a in inc.codes {
      FreshCode(m, GivenBy(IncomingOf(nm, r)), b.codedFor, p, a);
    } else {
      assert CodeMatches(b.manifest.value, b.codedFor, p, a);
      KeptCode(m, b.manifest.value, GivenBy(IncomingOf(nm, r)), b.codedFor, p, a);
    }
  }

  lemma CodedArch(nm: Naming, p: string, prior: Option<Entry>, inc: Entry, a: string)
    requires nm.Sound() && BothWritten(nm, p, prior, inc) && Clean(inc.version) == Some(inc.version)
    requires a in MergedEntry(nm, prior, inc).codes
    ensures a in MergedEntry(nm, prior, inc).arches && MergedEntry(nm, prior, inc).arches[a].filename == FileOf(prior, inc, a)
  {
    hide MergedArches, Codes, Clean, Newest, VersionList, Blank;
    CodesFollowFiles(nm, p, prior, inc, a);
    MergedArchesAre(nm, p, prior, inc, a);
  }

  // ---------------------------------------------------------------------------------------------
  // Whole runs and histories

  lemma NeededDirs(nm: Naming, trees: bool, m: Manifest, k: Key)
    requires Needed(nm, trees, m, k)
    ensures k.Object? && (k.dir == LATEST ==> IsListed(m, k.name))
    ensures k.dir != LATEST ==> "v" <= k.dir && Referenced(nm, m, k.dir)
  {
    var p, a :| p in m.platforms && a in m.platforms[p].arches && NeededFor(nm, trees, m.platforms[p].arches[a].filename, k);
    if k.dir != LATEST {
      assert ReferencedBy(nm, m.platforms[p], k.dir);
    }
  }

  lemma StaleIsSpare(nm: Naming, trees: bool, m: Manifest, replaced: set<string>, k: Key)
    requires IsStale(nm, m, replaced, k)
    ensures !Needed(nm, trees, m, k)
  {
    if Needed(nm, trees, m, k) {
      NeededDirs(nm, trees, m, k);
    }
  }

  lemma OutdatedIsSpare(nm: Naming, trees: bool, m: Manifest, keys: set<Key>, window: set<string>, k: Key)
    requires IsOutdated(nm, m, Dirs(keys), window, k)
    ensures !Needed(nm, trees, m, k)
  {
    hide Needed, Referenced;
    if Needed(nm, trees, m, k) {
      NeededDirs(nm, trees, m, k);
      VersionDirs(keys, k.dir);
    }
  }

  lemma VersionDirs(keys: set<Key>, dir: string)
    requires dir in Dirs(keys)
    ensures "v" <= dir && dir != LATEST && dir != "changelog"
  {
    assert dir[0] == 'v' && LATEST[0] == 'l' && "changelog"[0] == 'c';
  }

  lemma PlanIsAdmissible(nm: Naming, trees: bool, b: Bucket, r: Release, window: set<string>, stale: seq<Step>,
        outdated: seq<Step>, steps: seq<Step>)
    requires nm.Sound() && Honest(nm, trees, r) && Good(nm, trees, b) && Plan(nm, b, r, window, stale, outdated, steps)
    ensures AllAdmissible(nm, trees, b, steps)
  {
    hide Run, Good, IncomingOf, MergedOf, Honest, AllAdmissible, Admissible, Uploads, IsStale, IsOutdated, IsWindow, NoteSteps;
    var uploads := Uploads(r.version, Installers(r.dir));
    UploadsAre(r.version, Installers(r.dir));
    PutsAreAdmissible(nm, trees, b, uploads);
    if IncomingOf(nm, r) != map[] {
      var m := MergedOf(nm, b, r);
      PutsPhase(nm, trees, b, r);
      DeletePhase(nm, trees, b, r, m, window, stale, outdated);
      AdmissibleConcat(nm, trees, b, Puts(nm, b, r), stale + outdated);
    }
  }

  lemma PutsPhase(nm: Naming, trees: bool, b: Bucket, r: Release)
    requires nm.Sound() && Honest(nm, trees, r) && Good(nm, trees, b)
    ensures AllAdmissible(nm, trees, b, Puts(nm, b, r))
    ensures Run(b, Puts(nm, b, r)).manifest == Some(MergedOf(nm, b, r))
    ensures forall k :: k in Run(b, Puts(nm, b, r)).keys <==>
      k in b.keys || (k.Object? && k.name in Installers(r.dir) && k.dir in {"v" + r.version, LATEST})
      || k == MANIFEST_KEY || k == Object("v" + r.version, MANIFEST) || (r.notes != [] && Put(k) in NoteSteps(r.notes))
  {
    hide Good, IncomingOf, MergedOf, Honest, AllAdmissible, Admissible, Uploads, NoteSteps, Run, GivenBy, Coded;
    var uploads := Uploads(r.version, Installers(r.dir));
    var put := PutManifest(MergedOf(nm, b, r), GivenBy(IncomingOf(nm, r)));
    var after := Run(b, uploads);
    UploadsAre(r.version, Installers(r.dir));
    PutsAreAdmissible(nm, trees, b, uploads);
    PutsAdd(b, uploads);
    ManifestComesLast(nm, trees, b, r);
    OneStep(nm, trees, after, put);
    RestOfPuts(nm, trees, Apply(after, put), r);
    AdmissibleConcat(nm, trees, after, [put], RestPuts(r));
    AdmissibleConcat(nm, trees, b, uploads, [put] + RestPuts(r));
    RunConcat(after, [put], RestPuts(r));
    RunConcat(b, uploads, [put] + RestPuts(r));
    assert Puts(nm, b, r) == uploads + ([put] + RestPuts(r));
  }

  function RestPuts(r: Release): seq<Step> {
    [Put(Object("v" + r.version, MANIFEST))] + (if r.notes == [] then [] else NoteSteps(r.notes))
  }

  lemma RestOfPuts(nm: Naming, trees: bool, b: Bucket, r: Release)
    ensures AllAdmissible(nm, trees, b, RestPuts(r)) && Run(b, RestPuts(r)).manifest == b.manifest
    ensures forall k :: k in Run(b, RestPuts(r)).keys <==>
      k in b.keys || k == Object("v" + r.version, MANIFEST) || (r.notes != [] && Put(k) in NoteSteps(r.notes))
  {
    hide NoteSteps, Run, AllAdmissible;
    NotesArePuts(r.notes);
    PutsAreAdmissible(nm, trees, b, RestPuts(r));
    PutsAdd(b, RestPuts(r));
  }

  lemma OneStep(nm: Naming, trees: bool, b: Bucket, s: Step)
    ensures Admissible(nm, trees, b, s) ==> AllAdmissible(nm, trees, b, [s])
    ensures Run(b, [s]) == Apply(b, s)
  {
    hide Admissible;
    assert [s][..0] == [] && Run(b, []) == b;
  }

  lemma DeletePhase(nm: Naming, trees: bool, b: Bucket, r: Release, m: Manifest, window: set<string>,
        stale: seq<Step>, outdated: seq<Step>)
    requires nm.Sound() && Honest(nm, trees, r) && Good(nm, trees, b) && m == MergedOf(nm, b, r)
    requires var listed := Run(b, Puts(nm, b, r)).keys;
      Deletes(stale, listed, StaleTest(nm, m, IncomingOf(nm, r).Keys)) && Deletes(outdated, listed, OutdatedTest(nm, m, Dirs(listed), window))
    ensures AllAdmissible(nm, trees, Run(b, Puts(nm, b, r)), stale + outdated)
  {
    hide Good, IncomingOf, MergedOf, Honest, AllAdmissible, Puts, Run, Needed, IsStale, IsOutdated;
    PutsPhase(nm, trees, b, r);
    var after := Run(b, Puts(nm, b, r));
    forall s | s in stale + outdated ensures s.Delete? && !Needed(nm, trees, m, s.key) {
      if s in stale {
        assert StaleTest(nm, m, IncomingOf(nm, r).Keys)(s.key);
        StaleIsSpare(nm, trees, m, IncomingOf(nm, r).Keys, s.key);
      } else {
        assert OutdatedTest(nm, m, Dirs(after.keys), window)(s.key);
        OutdatedIsSpare(nm, trees, m, after.keys, window, s.key);
      }
    }
    DeletesAreAdmissible(nm, trees, after, stale + outdated);
  }

  /** At every moment of a release, including one broken off, the manifest's files are there and its
      codes belong to the files they were given for. */
  lemma EveryMomentIsGood(nm: Naming, trees: bool, b: Bucket, r: Release, window: set<string>, stale: seq<Step>,
        outdated: seq<Step>, steps: seq<Step>, n: nat)
    requires nm.Sound() && Honest(nm, trees, r) && Good(nm, trees, b) && Plan(nm, b, r, window, stale, outdated, steps) && n <= |steps|
    ensures Good(nm, trees, Run(b, steps[..n]))
  {
    hide Good, Plan, Run, AllAdmissible, Honest;
    PlanIsAdmissible(nm, trees, b, r, window, stale, outdated, steps);
    PrefixesAreGood(nm, trees, b, steps, n);
  }

  /** What a complete run leaves under latest/ for an uploaded platform: exactly the listed files.
      Files of the other platforms stay, apart from what was just uploaded. */
  lemma LatestIsExact(nm: Naming, trees: bool, b: Bucket, r: Release, window: set<string>, stale: seq<Step>,
        outdated: seq<Step>, steps: seq<Step>, name: string)
    requires nm.Sound() && Honest(nm, trees, r) && Good(nm, trees, b) && Plan(nm, b, r, window, stale, outdated, steps)
    requires IncomingOf(nm, r) != map[] && name != MANIFEST
    ensures var after, m := Run(b, steps), MergedOf(nm, b, r);
      && after.manifest == Some(m)
      && (if nm.platform(name).Some? && nm.platform(name).value in IncomingOf(nm, r)
          then Object(LATEST, name) in after.keys <==> IsListed(m, name)
          else Object(LATEST, name) in after.keys <==> Object(LATEST, name) in b.keys || name in Installers(r.dir))
  {
    hide Good, IncomingOf, MergedOf, Honest, Run, IsListed, IsWindow, NoteSteps, Puts, Referenced;
    var m, k := MergedOf(nm, b, r), Object(LATEST, name);
    var listed := Run(b, Puts(nm, b, r));
    PutsPhase(nm, trees, b, r);
    NotesArePuts(r.notes);
    AfterDeletes(nm, b, r, m, window, stale, outdated, steps);
    LatestIsNotDropped(nm, m, listed.keys, window, name);
    assert StaleTest(nm, m, IncomingOf(nm, r).Keys)(k) == IsStale(nm, m, IncomingOf(nm, r).Keys, k);
    assert OutdatedTest(nm, m, Dirs(listed.keys), window)(k) == IsOutdated(nm, m, Dirs(listed.keys), window, k);
    EveryMomentIsGood(nm, trees, b, r, window, stale, outdated, steps, |steps|);
    assert steps[..|steps|] == steps;
    if IsListed(m, name) {
      ListedIsPresent(nm, trees, Run(b, steps), m, name);
    }
  }

  lemma AfterDeletes(nm: Naming, b: Bucket, r: Release, m: Manifest, window: set<string>, stale: seq<Step>,
        outdated: seq<Step>, steps: seq<Step>)
    requires Plan(nm, b, r, window, stale, outdated, steps) && IncomingOf(nm, r) != map[] && m == MergedOf(nm, b, r)
    ensures var listed := Run(b, Puts(nm, b, r));
      && Run(b, steps).manifest == listed.manifest
      && forall k :: k in Run(b, steps).keys <==>
        (k in listed.keys && !StaleTest(nm, m, IncomingOf(nm, r).Keys)(k) && !OutdatedTest(nm, m, Dirs(listed.keys), window)(k))
  {
    hide IncomingOf, MergedOf, Run, IsWindow, Puts, StaleTest, OutdatedTest;
    var listed := Run(b, Puts(nm, b, r));
    RunConcat(b, Puts(nm, b, r), stale + outdated);
    DeletesRemove(listed, stale + outdated);
  }

  lemma LatestIsNotDropped(nm: Naming, m: Manifest, keys: set<Key>, window: set<string>, name: string)
    ensures !IsOutdated(nm, m, Dirs(keys), window, Object(LATEST, name))
  {
    hide Referenced;
    if LATEST in Dirs(keys) {
      VersionDirs(keys, LATEST);
    }
  }

  lemma ListedIsPresent(nm: Naming, trees: bool, b: Bucket, m: Manifest, name: string)
    requires Good(nm, trees, b) && b.manifest == Some(m) && IsListed(m, name)
    ensures Object(LATEST, name) in b.keys
  {
    var p, a :| p in m.platforms && a in m.platforms[p].arches && m.platforms[p].arches[a].filename == name;
    assert FileIsPresent(nm, trees, m.platforms[p].arches[a].filename, b.keys);
  }

  /** Which version directories a complete run keeps: the newest ones and the referenced ones, each
      of them whole. A listed file whose name has no version loses its copy with its directory. */
  lemma DirectoriesKept(nm: Naming, trees: bool, b: Bucket, r: Release, window: set<string>, stale: seq<Step>,
        outdated: seq<Step>, steps: seq<Step>, k: Key)
    requires nm.Sound() && Honest(nm, trees, r) && Good(nm, trees, b) && Plan(nm, b, r, window, stale, outdated, steps)
    requires IncomingOf(nm, r) != map[] && k.Object? && "v" <= k.dir
    ensures var listed, m := Run(b, Puts(nm, b, r)).keys, MergedOf(nm, b, r);
      k in Run(b, steps).keys <==> k in listed && (k.dir in window || Referenced(nm, m, k.dir))
  {
    hide Good, IncomingOf, MergedOf, Honest, Run, IsListed, IsWindow, NoteSteps, Puts, Referenced;
    var m := MergedOf(nm, b, r);
    var listed := Run(b, Puts(nm, b, r)).keys;
    AfterDeletes(nm, b, r, m, window, stale, outdated, steps);
    assert StaleTest(nm, m, IncomingOf(nm, r).Keys)(k) == IsStale(nm, m, IncomingOf(nm, r).Keys, k);
    assert OutdatedTest(nm, m, Dirs(listed), window)(k) == IsOutdated(nm, m, Dirs(listed), window, k);
    assert k.dir[0] == 'v' && LATEST[0] == 'l' && "changelog"[0] == 'c';
    if k in listed {
      assert k.dir in Dirs(listed);
    }
  }

  /** A history: releases, each complete or broken off after some request, and code patches. */
  datatype Op =
    | Publish(r: Release, window: set<string>, stale: seq<Step>, outdated: seq<Step>, plan: seq<Step>, made: nat)
    | Patch(version: string, stored: bool, codes: map<string, string>)

  /** The codes of the latest installers: their manifest is replaced, unless there is no entry or no code applies. */
  function PatchStep(b: Bucket, codes: map<string, string>): seq<Step> {
    if b.manifest.None? || ANDROID_TV !in b.manifest.value.platforms then []
    else
      var m := b.manifest.value;
      var e := m.platforms[ANDROID_TV];
      if codes.Keys * e.arches.Keys == {} then []
      else [PutManifest(m.(platforms := m.platforms[ANDROID_TV := Patched(e, codes)]), set a | a in codes && a in e.arches :: (ANDROID_TV, a))]
  }

  /** `patch_downloader_codes` of a version. What that version's own manifest says is not modelled:
      `stored` tells whether it reads as one that some code applies to. */
  function PatchSteps(b: Bucket, version: string, stored: bool, codes: map<string, string>): seq<Step> {
    var own := Object("v" + WithoutV(version), MANIFEST);
    PatchStep(b, codes) + if PatchStep(b, codes) != [] && stored && own in b.keys then [Put(own)] else []
  }

  ghost predicate Possible(nm: Naming, trees: bool, b: Bucket, op: Op) {
    match op
    case Publish(r, window, stale, outdated, plan, made) =>
      Honest(nm, trees, r) && Plan(nm, b, r, window, stale, outdated, plan) && made <= |plan|
    case Patch(_, _, _) => true
  }

  function After(b: Bucket, op: Op): Bucket {
    match op
    case Publish(_, _, _, _, plan, made) => Run(b, plan[..if made <= |plan| then made else |plan|])
    case Patch(version, stored, codes) => Run(b, PatchSteps(b, version, stored, codes))
  }

  function Ops(b: Bucket, ops: seq<Op>): Bucket {
    if ops == [] then b else After(Ops(b, ops[..|ops| - 1]), ops[|ops| - 1])
  }

  ghost predicate History(nm: Naming, trees: bool, b: Bucket, ops: seq<Op>) {
    forall n :: 0 <= n < |ops| ==> Possible(nm, trees, Ops(b, ops[..n]), ops[n])
  }

  /** Patching codes keeps the bucket good, broken off after either of its requests. */
  lemma PatchIsGood(nm: Naming, trees: bool, b: Bucket, version: string, stored: bool, codes: map<string, string>)
    requires Good(nm, trees, b)
    ensures Good(nm, trees, Run(b, PatchStep(b, codes))) && Good(nm, trees, Run(b, PatchSteps(b, version, stored, codes)))
  {
    hide Good, Run, PatchStep;
    var own := Put(Object("v" + WithoutV(version), MANIFEST));
    LatestPatchIsGood(nm, trees, b, codes);
    RunSnoc(b, PatchStep(b, codes), own);
    AdmissibleKeepsGood(nm, trees, Run(b, PatchStep(b, codes)), own);
    assert PatchStep(b, codes) + [] == PatchStep(b, codes);
  }

  lemma LatestPatchIsGood(nm: Naming, trees: bool, b: Bucket, codes: map<string, string>)
    requires Good(nm, trees, b)
    ensures Good(nm, trees, Run(b, PatchStep(b, codes)))
  {
    hide Written, FileIsPresent, Run;
    var steps := PatchStep(b, codes);
    if steps == [] {
      assert Run(b, steps) == b by { NoSteps(b); }
    } else {
      var before, m := b.manifest.value, steps[0].m;
      OneStep(nm, trees, b, steps[0]);
      PatchedIsWritten(nm, ANDROID_TV, before.platforms[ANDROID_TV], codes);
      forall p, a | p in m.platforms && a in m.platforms[p].arches ensures FileIsPresent(nm, trees, m.platforms[p].arches[a].filename, b.keys) {
        assert FileIsPresent(nm, trees, before.platforms[p].arches[a].filename, b.keys);
      }
      forall p, a | p in m.platforms && a in m.platforms[p].codes ensures CodeMatches(m, Coded(m, steps[0].given, b.codedFor), p, a) {
        PatchedCodeMatches(b, codes, p, a);
      }
      AdmissibleKeepsGood(nm, trees, b, steps[0]);
    }
  }

  lemma NoSteps(b: Bucket)
    ensures Run(b, []) == b
  {
  }

  lemma PatchedCodeMatches(b: Bucket, codes: map<string, string>, p: string, a: string)
    requires b.manifest.Some? && CodesMatch(b.manifest.value, b.codedFor) && PatchStep(b, codes) != []
    requires var m := PatchStep(b, codes)[0].m; p in m.platforms && a in m.platforms[p].codes
    ensures CodeMatches(PatchStep(b, codes)[0].m, Coded(PatchStep(b, codes)[0].m, PatchStep(b, codes)[0].given, b.codedFor), p, a)
  {
    hide CodeMatches, Coded;
    var before, s := b.manifest.value, PatchStep(b, codes)[0];
    if (p, a) in s.given {
      FreshCode(s.m, s.given, b.codedFor, p, a);
    } else {
      assert a in before.platforms[p].codes;
      assert CodeMatches(before, b.codedFor, p, a);
      CodeHasFile(before, b.codedFor, p, a);
      KeptCode(s.m, before, s.given, b.codedFor, p, a);
    }
  }

  /** Over every history of releases and patches, each release complete or broken off anywhere. */
  lemma {:induction false} HistoriesAreGood(nm: Naming, trees: bool, b: Bucket, ops: seq<Op>)
    requires nm.Sound() && Good(nm, trees, b) && History(nm, trees, b, ops)
    ensures Good(nm, trees, Ops(b, ops))
  {
    hide Good, Plan, Run, Honest, PatchStep, PatchSteps;
    if ops != [] {
      var front, last := ops[..|ops| - 1], ops[|ops| - 1];
      forall n | 0 <= n < |front| ensures Possible(nm, trees, Ops(b, front[..n]), front[n]) {
        assert front[..n] == ops[..n];
      }
      HistoriesAreGood(nm, trees, b, front);
      assert Possible(nm, trees, Ops(b, front), last);
      match last {
        case Publish(r, window, stale, outdated, plan, made) =>
          EveryMomentIsGood(nm, trees, Ops(b, front), r, window, stale, outdated, plan, made);
        case Patch(version, stored, codes) => PatchIsGood(nm, trees, Ops(b, front), version, stored, codes);
      }
    }
  }

  lemma EmptyIsGood(nm: Naming, trees: bool)
    ensures Good(nm, trees, EMPTY)
  {
  }

  /** Whatever has been published into an empty bucket and patched since: what the manifest lists is
      there, and each code belongs to the file it was given for. */
  lemma EverythingListedIsThere(nm: Naming, trees: bool, ops: seq<Op>)
    requires nm.Sound() && History(nm, trees, EMPTY, ops)
    ensures Good(nm, trees, Ops(EMPTY, ops))
  {
    hide Good, History;
    EmptyIsGood(nm, trees);
    HistoriesAreGood(nm, trees, EMPTY, ops);
  }

  // ---------------------------------------------------------------------------------------------
  // Which files a release uploads

  /** The names put under a directory of the bucket, in order. */
  function NamesPut(steps: seq<Step>, dir: string): seq<string> {
    if steps == [] then []
    else
      var front, last := NamesPut(steps[..|steps| - 1], dir), steps[|steps| - 1];
      if last.Put? && last.key.Object? && last.key.dir == dir then front + [last.key.name] else front
  }

  /** An installer by its ending: .dmg, .exe or .apk behind something, in either case, or .AppImage. */
  lemma InstallerEndings(name: string)
    ensures IsInstaller(name)
      <==> (|name| > 4 && Text.LowerAscii(name)[|name| - 4..] in [".dmg", ".exe", ".apk"])
           || (|name| >= 9 && name[|name| - 9..] == ".AppImage")
  {
    hide Text.LowerAscii, HasSuffix, Text.EndsWith;
    var lower := Text.LowerAscii(name);
    SuffixIs(lower, ".dmg");
    SuffixIs(lower, ".exe");
    SuffixIs(lower, ".apk");
    assert Text.EndsWith(name, ".AppImage") <==> |name| >= 9 && name[|name| - 9..] == ".AppImage" by { EndIs(name, ".AppImage"); }
  }

  lemma SuffixIs(s: string, suffix: string)
    ensures HasSuffix(s, suffix) <==> |s| > |suffix| && s[|s| - |suffix|..] == suffix
  {
    assert |s| == |suffix| && s[0..] == suffix ==> s == suffix;
  }

  lemma EndIs(s: string, tail: string)
    ensures Text.EndsWith(s, tail) <==> |s| >= |tail| && s[|s| - |tail|..] == tail
  {
  }

  lemma {:induction false} InstallersInOrder(dir: seq<string>) returns (at: seq<nat>)
    ensures PickedAt(Installers(dir), dir, at)
    ensures forall i :: 0 <= i < |dir| ==> (i in at <==> IsInstaller(dir[i]))
  {
    hide IsInstaller;
    if dir == [] {
      at := [];
    } else {
      var front, last := dir[..|dir| - 1], |dir| - 1;
      var before := InstallersInOrder(front);
      at := if IsInstaller(dir[last]) then before + [last] else before;
      OneMorePicked(Installers(front), dir, before);
      assert forall i :: 0 <= i < last ==> front[i] == dir[i];
    }
  }

  lemma {:induction false} NamesConcat(a: seq<Step>, b: seq<Step>, dir: string)
    ensures NamesPut(a + b, dir) == NamesPut(a, dir) + NamesPut(b, dir)
  {
    if b == [] {
      assert a + b == a;
    } else {
      NamesConcat(a, b[..|b| - 1], dir);
      assert (a + b)[..|a + b| - 1] == a + b[..|b| - 1];
    }
  }

  lemma {:induction false} NamesOfUploads(version: string, files: seq<string>)
    ensures NamesPut(Uploads(version, files), LATEST) == files
    ensures NamesPut(Uploads(version, files), "v" + version) == files
  {
    if files != [] {
      var front, f := files[..|files| - 1], files[|files| - 1];
      NamesOfUploads(version, front);
      var one, two := Put(Object("v" + version, f)), Put(Object(LATEST, f));
      assert ("v" + version)[0] == 'v' && LATEST[0] == 'l';
      NamesConcat(Uploads(version, front), [one, two], LATEST);
      NamesConcat(Uploads(version, front), [one, two], "v" + version);
      assert [one, two][..1] == [one] && [one][..0] == [];
      assert NamesPut([one], LATEST) == [] && NamesPut([one], "v" + version) == [f];
      assert NamesPut([one, two], LATEST) == [f] && NamesPut([one, two], "v" + version) == [f];
      assert files == front + [f];
    }
  }

  lemma {:induction false} NoNamesPut(steps: seq<Step>, dir: string)
    requires forall s <- steps :: s.Put? ==> s.key.Object? && s.key.dir != dir
    ensures NamesPut(steps, dir) == []
  {
    if steps != [] {
      NoNamesPut(steps[..|steps| - 1], dir);
    }
  }

  /** What stands behind the uploads puts nothing else under latest/. */
  lemma RestPutsElsewhere(nm: Naming, b: Bucket, r: Release, window: set<string>, stale: seq<Step>, outdated: seq<Step>,
        steps: seq<Step>)
    requires Plan(nm, b, r, window, stale, outdated, steps)
    ensures Uploads(r.version, Installers(r.dir)) <= steps
    ensures NamesPut(steps, LATEST) == Installers(r.dir)
  {
    hide Installers, IncomingOf, MergedOf, Uploads, NoteSteps, Run, GivenBy, StaleTest, OutdatedTest, IsWindow, Dirs;
    var ups := Uploads(r.version, Installers(r.dir));
    NamesOfUploads(r.version, Installers(r.dir));
    if IncomingOf(nm, r) != map[] {
      var rest := steps[|ups|..];
      NotesArePuts(r.notes);
      assert ("v" + r.version)[0] == 'v' && LATEST[0] == 'l' && "changelog"[0] == 'c';
      RestOfPlan(nm, b, r, stale, outdated, ups, steps);
      assert steps == ups + rest;
      forall s <- rest ensures s.Put? ==> s.key.Object? && s.key.dir != LATEST {
        if s.Put? {
          assert s !in stale && s !in outdated;
        }
      }
      NoNamesPut(rest, LATEST);
      NamesConcat(ups, rest, LATEST);
    }
  }

  lemma RestOfPlan(nm: Naming, b: Bucket, r: Release, stale: seq<Step>, outdated: seq<Step>, ups: seq<Step>, steps: seq<Step>)
    requires ups == Uploads(r.version, Installers(r.dir)) && steps == Puts(nm, b, r) + (stale + outdated)
    ensures ups <= steps
    ensures var notes := if r.notes == [] then [] else NoteSteps(r.notes);
      steps[|ups|..] == [PutManifest(MergedOf(nm, b, r), GivenBy(IncomingOf(nm, r))), Put(Object("v" + r.version, MANIFEST))]
                        + notes + (stale + outdated)
  {
    hide Installers, IncomingOf, MergedOf, Uploads, NoteSteps, GivenBy;
  }

  /** The names that a release puts under latest/ are, in the directory's order, exactly its files that
      end like an installer; and once these are put, each is there and under the version. */
  lemma EveryInstallerIsUploaded(nm: Naming, b: Bucket, r: Release, window: set<string>, stale: seq<Step>,
        outdated: seq<Step>, steps: seq<Step>) returns (at: seq<nat>, n: nat)
    requires Plan(nm, b, r, window, stale, outdated, steps)
    ensures PickedAt(NamesPut(steps, "latest"), r.dir, at)
    ensures forall i :: 0 <= i < |r.dir| ==>
      (i in at <==> (|r.dir[i]| > 4 && Text.LowerAscii(r.dir[i])[|r.dir[i]| - 4..] in [".dmg", ".exe", ".apk"])
                    || (|r.dir[i]| >= 9 && r.dir[i][|r.dir[i]| - 9..] == ".AppImage"))
    ensures n <= |steps| && NamesPut(steps[..n], "v" + r.version) == NamesPut(steps[..n], "latest") == NamesPut(steps, "latest")
    ensures forall i :: 0 <= i < n ==> steps[i].Put?
    ensures forall i <- at :: i < |r.dir| ==>
      Object("latest", r.dir[i]) in Run(b, steps[..n]).keys && Object("v" + r.version, r.dir[i]) in Run(b, steps[..n]).keys
  {
    hide Installers, IsInstaller, Plan, Uploads, Run, NamesPut;
    at := InstallersInOrder(r.dir);
    forall i | 0 <= i < |r.dir|
      ensures IsInstaller(r.dir[i])
        <==> (|r.dir[i]| > 4 && Text.LowerAscii(r.dir[i])[|r.dir[i]| - 4..] in [".dmg", ".exe", ".apk"])
             || (|r.dir[i]| >= 9 && r.dir[i][|r.dir[i]| - 9..] == ".AppImage")
    {
      InstallerEndings(r.dir[i]);
    }
    RestPutsElsewhere(nm, b, r, window, stale, outdated, steps);
    var files := Installers(r.dir);
    var ups := Uploads(r.version, files);
    n := |ups|;
    assert steps[..n] == ups;
    NamesOfUploads(r.version, files);
    UploadsAre(r.version, files);
    PutsAdd(b, ups);
    forall i <- at | i < |r.dir|
      ensures Object("latest", r.dir[i]) in Run(b, steps[..n]).keys && Object("v" + r.version, r.dir[i]) in Run(b, steps[..n]).keys
    {
      var k :| 0 <= k < |at| && at[k] == i;
      assert files[k] in files;
      assert Put(Object("latest", r.dir[i])) in ups && Put(Object("v" + r.version, r.dir[i])) in ups;
    }
    assert forall i :: 0 <= i < n ==> steps[i] == ups[i] && ups[i] in ups;
  }

  // ---------------------------------------------------------------------------------------------
  // The script

  class Publisher {
    var keys: set<Key>
    var manifest: Option<Manifest>
    ghost var codedFor: map<(string, string), string>
    ghost var log: seq<Step>

    ghost function State(): Bucket
      reads this
    {
      Bucket(keys, manifest, codedFor)
    }

    method PutObject(k: Key)
      modifies this`keys, this`log
      ensures log == old(log) + [Put(k)] && State() == Apply(old(State()), Put(k))
    {
      keys := keys + {k};
      log := log + [Put(k)];
    }

    method PutLatest(m: Manifest, ghost given: set<(string, string)>)
      modifies this
      ensures log == old(log) + [PutManifest(m, given)] && State() == Apply(old(State()), PutManifest(m, given))
    {
      keys := keys + {MANIFEST_KEY};
      manifest := Some(m);
      codedFor := Coded(m, given, codedFor);
      log := log + [PutManifest(m, given)];
    }

    /** `delete_keys`, one key at a time: the requests carry up to a thousand. */
    method DeleteKeys(doomed: set<Key>) returns (ghost steps: seq<Step>)
      modifies this`keys, this`log
      ensures log == old(log) + steps && State() == Run(old(State()), steps)
      ensures forall s :: s in steps <==> s.Delete? && s.key in doomed
    {
      hide Run;
      steps := [];
      var left := doomed;
      NoSteps(State());
      while left != {}
        invariant left <= doomed
        invariant log == old(log) + steps && State() == Run(old(State()), steps)
        invariant forall s :: s in steps <==> s.Delete? && s.key in doomed - left
        decreases left
      {
        var k :| k in left;
        left := left - {k};
        keys := keys - {k};
        log := log + [Delete(k)];
        RunSnoc(old(State()), steps, Delete(k));
        steps := steps + [Delete(k)];
      }
    }

    method UploadFiles(version: string, files: seq<string>)
      modifies this`keys, this`log
      ensures log == old(log) + Uploads(version, files) && State() == Run(old(State()), Uploads(version, files))
    {
      hide Run, Apply;
      NoSteps(State());
      assert Uploads(version, files[..0]) == [];
      for i := 0 to |files|
        invariant log == old(log) + Uploads(version, files[..i])
        invariant State() == Run(old(State()), Uploads(version, files[..i]))
      {
        var f := files[i];
        assert files[..i + 1][..i] == files[..i];
        var done := Uploads(version, files[..i]);
        PutObject(Object("v" + version, f));
        RunSnoc(old(State()), done, Put(Object("v" + version, f)));
        PutObject(Object(LATEST, f));
        RunSnoc(old(State()), done + [Put(Object("v" + version, f))], Put(Object(LATEST, f)));
        assert done + [Put(Object("v" + version, f)), Put(Object(LATEST, f))]
            == done + [Put(Object("v" + version, f))] + [Put(Object(LATEST, f))];
      }
      assert files[..|files|] == files;
    }

    method UploadNotes(notes: seq<string>)
      modifies this`keys, this`log
      ensures log == old(log) + NoteSteps(notes) && State() == Run(old(State()), NoteSteps(notes))
    {
      hide Run, Apply;
      NoSteps(State());
      ghost var steps: seq<Step> := [];
      for i := 0 to |notes|
        invariant log == old(log) + steps && State() == Run(old(State()), steps)
        invariant steps + NoteSteps(notes[i..]) == NoteSteps(notes)
      {
        var note := Put(Object("changelog", notes[i] + ".md"));
        PutObject(note.key);
        RunSnoc(old(State()), steps, note);
        assert notes[i..][1..] == notes[i + 1..];
        assert steps + NoteSteps(notes[i..]) == steps + [note] + NoteSteps(notes[i + 1..]);
        steps := steps + [note];
      }
      PutObject(Object("changelog", "index.json"));
      RunSnoc(old(State()), steps, Put(Object("changelog", "index.json")));
      assert notes[|notes|..] == [];
    }

    /** The whole run of the script. It ends early, as `die` does, when no file is of a known platform. */
    method Publish(nm: Naming, r: Release) returns (ghost window: set<string>, ghost stale: seq<Step>,
          ghost outdated: seq<Step>, ghost steps: seq<Step>)
      modifies this
      ensures Plan(nm, old(State()), r, window, stale, outdated, steps)
      ensures log == old(log) + steps && State() == Run(old(State()), steps)
    {
      hide Run, Apply, Uploads, Merged, Incoming, NoteSteps, GivenBy, DeletesAll, WithCodes, Plan, Puts, RestPuts, Installers;
      ghost var b := State();
      window, stale, outdated := {}, [], [];
      var files := Installers(r.dir);
      UploadFiles(r.version, files);
      steps := Uploads(r.version, files);
      var incoming := PlatformsFromFilenames(nm, files, r.version, r.published);
      SamePlatformsWithCodes(nm, incoming, r.codes);
      if incoming == map[] {
        NothingToPlan(nm, b, r);
        return;
      }
      incoming := WithCodes(nm, incoming, r.codes);
      var m := MergePlatformManifest(nm, manifest, incoming, r.published);
      PutManifests(r, m, incoming);
      RunConcat(b, steps, [PutManifest(m, GivenBy(incoming))] + RestPuts(r));
      PutsInOrder(nm, b, r, m, incoming);
      steps := steps + ([PutManifest(m, GivenBy(incoming))] + RestPuts(r));
      window, stale, outdated := DeleteSuperseded(nm, r, m, incoming.Keys);
      RunConcat(b, steps, stale + outdated);
      PlanIsMade(nm, b, r, m, incoming, window, stale, outdated, steps);
      steps := steps + (stale + outdated);
    }

    /** The merged manifest, the version's own one, and the notes. */
    method PutManifests(r: Release, m: Manifest, incoming: map<string, Entry>)
      modifies this
      ensures log == old(log) + ([PutManifest(m, GivenBy(incoming))] + RestPuts(r))
      ensures State() == Run(old(State()), [PutManifest(m, GivenBy(incoming))] + RestPuts(r))
    {
      hide Run, Apply, GivenBy, NoteSteps;
      ghost var b, first, second := State(), PutManifest(m, GivenBy(incoming)), Put(Object("v" + r.version, MANIFEST));
      PutLatest(m, GivenBy(incoming));
      PutObject(Object("v" + r.version, MANIFEST));
      NoSteps(b);
      RunSnoc(b, [], first);
      RunSnoc(b, [first], second);
      assert [] + [first] == [first] && [first] + [second] == [first, second];
      if r.notes != [] {
        UploadNotes(r.notes);
        RunConcat(b, [first, second], NoteSteps(r.notes));
        assert [first, second] + NoteSteps(r.notes) == [first] + ([second] + NoteSteps(r.notes));
      } else {
        assert [first] + ([second] + []) == [first, second];
      }
    }

    /** Lists the bucket, and deletes what the new manifest supersedes and the versions outside the window. */
    method DeleteSuperseded(nm: Naming, r: Release, m: Manifest, replaced: set<string>)
      returns (ghost window: set<string>, ghost stale: seq<Step>, ghost outdated: seq<Step>)
      modifies this`keys, this`log
      ensures DeletesAll(nm, m, replaced, old(keys), r.keep, window, stale, outdated)
      ensures log == old(log) + (stale + outdated) && State() == Run(old(State()), stale + outdated)
    {
      hide Run, IsStale, IsOutdated, IsWindow, Dirs;
      var listed := keys;
      var superseded := StaleLatestKeys(nm, listed, m, replaced);
      stale := DeleteKeys(superseded);
      var dirs := Dirs(listed);
      var newest := NewestDirs(nm, dirs, r.keep);
      outdated := DeleteKeys(set k | k in listed && IsOutdated(nm, m, dirs, newest, k));
      window := newest;
      RunConcat(old(State()), stale, outdated);
    }

    /** Succeeds exactly when the latest manifest takes a code, whatever the version's own one says. */
    method PatchDownloaderCodes(version: string, stored: bool, codes: map<string, string>) returns (ok: bool)
      modifies this
      ensures var steps := PatchSteps(old(State()), version, stored, codes);
        log == old(log) + steps && State() == Run(old(State()), steps) && (ok <==> steps != [])
    {
      hide Run, Apply;
      ghost var b := State();
      NoSteps(b);
      ok := false;
      if manifest.None? || ANDROID_TV !in manifest.value.platforms {
        return;
      }
      var e := manifest.value.platforms[ANDROID_TV];
      if codes.Keys * e.arches.Keys == {} {
        return;
      }
      ok := true;
      var m := manifest.value.(platforms := manifest.value.platforms[ANDROID_TV := Patched(e, codes)]);
      ghost var given := set a | a in codes && a in e.arches :: (ANDROID_TV, a);
      ghost var latest := PutManifest(m, given);
      assert PatchStep(b, codes) == [latest] && [] + [latest] == [latest];
      RunSnoc(b, [], latest);
      var own := Object("v" + WithoutV(version), MANIFEST);
      var found := own in keys;
      PutLatest(m, given);
      if found && stored {
        PutObject(own);
        RunSnoc(b, [latest], Put(own));
        assert PatchSteps(b, version, stored, codes) == [latest] + [Put(own)];
      } else {
        assert PatchSteps(b, version, stored, codes) == [latest];
      }
    }
  }

  /** The loop over all keys. */
  method StaleLatestKeys(nm: Naming, keys: set<Key>, m: Manifest, replaced: set<string>) returns (stale: set<Key>)
    ensures stale == set k | k in keys && IsStale(nm, m, replaced, k)
  {
    hide IsListed;
    stale := {};
    var left := keys;
    while left != {}
      invariant left <= keys
      invariant stale == set k | k in keys - left && IsStale(nm, m, replaced, k)
      decreases left
    {
      var k :| k in left;
      left := left - {k};
      if !k.Object? || k.dir != LATEST || IsListed(m, k.name) || k.name == MANIFEST {
        continue;
      }
      var platform := nm.platform(k.name);
      if platform.None? || platform.value !in replaced {
        continue;
      }
      stale := stale + {k};
    }
  }

  /** `sorted(versions, key=semver_key, reverse=True)[:keep]`, by picking the newest again and again. */
  method NewestDirs(nm: Naming, dirs: set<string>, keep: int) returns (window: set<string>)
    ensures IsWindow(nm, dirs, keep, window)
  {
    hide Picking, IsWindow;
    window := {};
    var left := dirs;
    NonePicked(nm, dirs);
    while left != {} && |window| < Room(keep)
      invariant Picking(nm, dirs, keep, window, left)
      decreases left
    {
      var best := NewestOf(nm, left);
      OnePicked(nm, dirs, keep, window, left, best);
      window := window + {best};
      left := left - {best};
    }
    AllPicked(nm, dirs, keep, window, left);
  }

  function Room(keep: int): nat { if keep > 1 then keep else 1 }

  ghost predicate Picking(nm: Naming, dirs: set<string>, keep: int, window: set<string>, left: set<string>) {
    && window <= dirs && left == dirs - window && |window| <= Room(keep)
    && forall x, y | x in window && y in left :: !Less(nm.rank(x), nm.rank(y))
  }

  lemma NonePicked(nm: Naming, dirs: set<string>)
    ensures forall keep :: Picking(nm, dirs, keep, {}, dirs)
  {
  }

  lemma OnePicked(nm: Naming, dirs: set<string>, keep: int, window: set<string>, left: set<string>, best: string)
    requires Picking(nm, dirs, keep, window, left) && |window| < Room(keep)
    requires best in left && forall d <- left :: !Less(nm.rank(best), nm.rank(d))
    ensures Picking(nm, dirs, keep, window + {best}, left - {best})
  {
    hide Less;
    assert |window + {best}| == |window| + 1;
  }

  lemma AllPicked(nm: Naming, dirs: set<string>, keep: int, window: set<string>, left: set<string>)
    requires Picking(nm, dirs, keep, window, left) && (left == {} || |window| >= Room(keep))
    ensures IsWindow(nm, dirs, keep, window)
  {
    hide Less;
    assert dirs == window + left && |dirs| == |window| + |left|;
  }

  method NewestOf(nm: Naming, dirs: set<string>) returns (best: string)
    requires dirs != {}
    ensures best in dirs && forall d <- dirs :: !Less(nm.rank(best), nm.rank(d))
  {
    best :| best in dirs;
    var left := dirs - {best};
    while left != {}
      invariant left < dirs && best in dirs - left
      invariant forall d <- dirs - left :: !Less(nm.rank(best), nm.rank(d))
      decreases left
    {
      var d :| d in left;
      left := left - {d};
      if Less(nm.rank(best), nm.rank(d)) {
        best := d;
      }
    }
  }

  ghost predicate DeletesAll(nm: Naming, m: Manifest, replaced: set<string>, listed: set<Key>, keep: int,
                             window: set<string>, stale: seq<Step>, outdated: seq<Step>) {
    && (forall s :: s in stale <==> s.Delete? && s.key in listed && IsStale(nm, m, replaced, s.key))
    && IsWindow(nm, Dirs(listed), keep, window)
    && (forall s :: s in outdated <==> s.Delete? && s.key in listed && IsOutdated(nm, m, Dirs(listed), window, s.key))
  }

  lemma SamePlatformsWithCodes(nm: Naming, incoming: map<string, Entry>, codes: map<string, string>)
    ensures WithCodes(nm, incoming, codes).Keys == incoming.Keys
    ensures WithCodes(nm, incoming, codes) == map[] <==> incoming == map[]
  {
    hide Assets, ArchSet;
    assert incoming == map[] <==> incoming.Keys == {};
    var coded := WithCodes(nm, incoming, codes);
    assert coded == map[] <==> coded.Keys == {};
  }

  lemma NothingToPlan(nm: Naming, b: Bucket, r: Release)
    requires IncomingOf(nm, r) == map[]
    ensures Plan(nm, b, r, {}, [], [], Uploads(r.version, Installers(r.dir)))
  {
    hide IncomingOf;
  }

  lemma PutsInOrder(nm: Naming, b: Bucket, r: Release, m: Manifest, incoming: map<string, Entry>)
    requires incoming == IncomingOf(nm, r) && m == MergedOf(nm, b, r)
    ensures Uploads(r.version, Installers(r.dir)) + ([PutManifest(m, GivenBy(incoming))] + RestPuts(r)) == Puts(nm, b, r)
  {
    hide Uploads, NoteSteps, IncomingOf, MergedOf, GivenBy;
    var u, x, y := Uploads(r.version, Installers(r.dir)), PutManifest(m, GivenBy(incoming)), Put(Object("v" + r.version, MANIFEST));
    Regroup(u, x, y, if r.notes == [] then [] else NoteSteps(r.notes));
  }

  lemma Regroup(u: seq<Step>, x: Step, y: Step, v: seq<Step>)
    ensures u + ([x] + ([y] + v)) == u + [x, y] + v
  {
  }

  lemma PlanIsMade(nm: Naming, b: Bucket, r: Release, m: Manifest, incoming: map<string, Entry>,
                   window: set<string>, stale: seq<Step>, outdated: seq<Step>, puts: seq<Step>)
    requires incoming == IncomingOf(nm, r) != map[] && m == MergedOf(nm, b, r) && puts == Puts(nm, b, r)
    requires DeletesAll(nm, m, incoming.Keys, Run(b, puts).keys, r.keep, window, stale, outdated)
    ensures Plan(nm, b, r, window, stale, outdated, puts + (stale + outdated))
  {
    hide Run, Puts, IncomingOf, MergedOf, IsStale, IsOutdated, IsWindow, Dirs;
    var listed := Run(b, puts).keys;
    forall k ensures StaleTest(nm, m, incoming.Keys)(k) == IsStale(nm, m, incoming.Keys, k) {
    }
    forall k ensures OutdatedTest(nm, m, Dirs(listed), window)(k) == IsOutdated(nm, m, Dirs(listed), window, k) {
    }
  }

  lemma RunSnoc(b: Bucket, steps: seq<Step>, s: Step)
    ensures Run(b, steps + [s]) == Apply(Run(b, steps), s)
  {
    assert (steps + [s])[..|steps|] == steps;
  }
}
