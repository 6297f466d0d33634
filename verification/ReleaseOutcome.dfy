/** What a release and a code patch leave in the bucket, written out
    (scripts/upload_release_to_r2.py:845-875, 1125-1231, 1248-1467). */
module ReleaseOutcome {
  import opened Wrappers
  import opened ReleaseManifest
  import opened ReleaseMerge
  import opened ReleaseBucket

  /** An installer under its version or under latest/, one of the two manifests, or a release note. */
  ghost predicate IsPut(r: Release, k: Key) {
    || (exists f <- Installers(r.dir) :: k == Object("v" + r.version, f) || k == Object("latest", f))
    || k == Object("latest", "manifest.json") || k == Object("v" + r.version, "manifest.json")
    || (r.notes != [] && (k == Object("changelog", "index.json") || exists n <- r.notes :: k == Object("changelog", n + ".md")))
  }

  /** A file under latest/ of a platform of this release that its manifest does not list. */
  ghost predicate IsSuperseded(nm: Naming, m: Manifest, r: Release, k: Key) {
    && k.Object? && k.dir == "latest" && k.name != "manifest.json"
    && (exists f <- Installers(r.dir) :: nm.platform(f).Some? && nm.platform(f) == nm.platform(k.name))
    && forall p, a | p in m.platforms && a in m.platforms[p].arches :: m.platforms[p].arches[a].filename != k.name
  }

  /** The text before the first slash of a key. */
  function Prefix(k: Key): string { match k case Object(dir, _) => dir case Bare(name) => name }

  /** A version directory: it starts with v and has an object. */
  ghost predicate IsVersionDir(keys: set<Key>, dir: string) { "v" <= dir && exists name :: Object(dir, name) in keys }

  /** Some platform's version, or the version in some listed file's name, is that of the directory. */
  ghost predicate StillServes(nm: Naming, m: Manifest, dir: string) {
    exists p | p in m.platforms :: ServesFrom(nm, m.platforms[p], dir)
  }

  ghost predicate ServesFrom(nm: Naming, e: Entry, dir: string) {
    || (Clean(e.version).Some? && dir == "v" + Clean(e.version).value)
    || exists a | a in e.arches :: nm.version(e.arches[a].filename).Some? && dir == "v" + nm.version(e.arches[a].filename).value
  }

  /** The `keep` newest version directories, at least one, and all of them when there are fewer. */
  ghost predicate AreNewest(nm: Naming, keys: set<Key>, keep: int, window: set<string>) {
    && (forall d <- window :: IsVersionDir(keys, d))
    && (forall x, y | x in window && y !in window && IsVersionDir(keys, y) :: NotAbove(nm.rank(y), nm.rank(x)))
    && |window| <= (if keep >= 1 then keep else 1)
    && (|window| < (if keep >= 1 then keep else 1) ==> forall d :: IsVersionDir(keys, d) ==> d in window)
  }

  lemma WindowIsNewest(nm: Naming, keys: set<Key>, keep: int, window: set<string>)
    requires IsWindow(nm, Dirs(keys), keep, window)
    ensures AreNewest(nm, keys, keep, window)
  {
    forall d ensures d in Dirs(keys) <==> IsVersionDir(keys, d) {
    }
    if |window| == |Dirs(keys)| {
      SameSize(window, Dirs(keys));
    }
  }

  lemma SameSize(a: set<string>, b: set<string>)
    requires a <= b && |a| == |b|
    ensures a == b
  {
    assert |b - a| == |b| - |a|;
  }

  lemma NoteKeys(notes: seq<string>, k: Key)
    ensures Put(k) in NoteSteps(notes)
      <==> k == Object("changelog", "index.json") || exists n <- notes :: k == Object("changelog", n + ".md")
  {
    if notes != [] {
      NoteKeys(notes[1..], k);
      assert notes == [notes[0]] + notes[1..];
    }
  }

  lemma StaleIsSuperseded(nm: Naming, trees: bool, m: Manifest, r: Release, k: Key)
    requires nm.Sound() && Honest(nm, trees, r)
    ensures IsStale(nm, m, IncomingOf(nm, r).Keys, k) <==> IsSuperseded(nm, m, r, k)
  {
    hide IncomingOf, Installers, Honest;
    IncomingIsWritten(nm, trees, r);
  }

  lemma OutdatedIs(nm: Naming, m: Manifest, keys: set<Key>, window: set<string>, k: Key)
    ensures IsOutdated(nm, m, Dirs(keys), window, k)
      <==> IsVersionDir(keys, Prefix(k)) && Prefix(k) !in window && !StillServes(nm, m, Prefix(k))
  {
    hide Clean;
    assert "changelog"[0] == 'c';
    assert Prefix(k) in Dirs(keys) <==> IsVersionDir(keys, Prefix(k));
    assert Referenced(nm, m, Prefix(k)) <==> StillServes(nm, m, Prefix(k)) by {
      forall p | p in m.platforms ensures ReferencedBy(nm, m.platforms[p], Prefix(k)) <==> ServesFrom(nm, m.platforms[p], Prefix(k)) {
      }
    }
  }

  lemma SomethingToList(nm: Naming, trees: bool, r: Release)
    requires nm.Sound() && Honest(nm, trees, r)
    ensures IncomingOf(nm, r) != map[] <==> exists f <- Installers(r.dir) :: nm.platform(f).Some?
  {
    hide IncomingOf, Installers, Honest;
    IncomingIsWritten(nm, trees, r);
    if f :| f in Installers(r.dir) && nm.platform(f).Some? {
      assert nm.platform(f).value in IncomingOf(nm, r);
    }
    if p :| p in IncomingOf(nm, r) {
      assert p in PlatformsOf(nm, Installers(r.dir));
    }
  }

  /** A complete run leaves what was there and what it put, less the superseded installers of its
      platforms and the version directories that are neither among the newest nor still serving. */
  lemma ReleaseLeaves(nm: Naming, trees: bool, b: Bucket, r: Release, window: set<string>, stale: seq<Step>,
        outdated: seq<Step>, steps: seq<Step>) returns (listed: set<Key>)
    requires nm.Sound() && Honest(nm, trees, r) && Good(nm, trees, b) && Plan(nm, b, r, window, stale, outdated, steps)
    requires exists f <- Installers(r.dir) :: nm.platform(f).Some?
    ensures Run(b, steps).manifest == Some(MergedOf(nm, b, r))
    ensures forall k :: k in listed <==> k in b.keys || IsPut(r, k)
    ensures AreNewest(nm, listed, r.keep, window)
    ensures var m := MergedOf(nm, b, r);
      forall k :: k in Run(b, steps).keys <==>
        && k in listed && !IsSuperseded(nm, m, r, k)
        && !(IsVersionDir(listed, Prefix(k)) && Prefix(k) !in window && !StillServes(nm, m, Prefix(k)))
  {
    hide Good, Honest, IncomingOf, MergedOf, Installers, Run, Puts, NoteSteps, IsWindow, AreNewest, IsStale, IsOutdated, IsSuperseded,
      IsVersionDir, StillServes;
    var m := MergedOf(nm, b, r);
    SomethingToList(nm, trees, r);
    PutsPhase(nm, trees, b, r);
    AfterDeletes(nm, b, r, m, window, stale, outdated, steps);
    listed := Run(b, Puts(nm, b, r)).keys;
    WindowIsNewest(nm, listed, r.keep, window);
    forall k ensures k in listed <==> k in b.keys || IsPut(r, k) {
      NoteKeys(r.notes, k);
    }
    forall k ensures StaleTest(nm, m, IncomingOf(nm, r).Keys)(k) <==> IsSuperseded(nm, m, r, k)
             ensures OutdatedTest(nm, m, Dirs(listed), window)(k)
               <==> IsVersionDir(listed, Prefix(k)) && Prefix(k) !in window && !StillServes(nm, m, Prefix(k))
    {
      StaleIsSuperseded(nm, trees, m, r, k);
      OutdatedIs(nm, m, listed, window, k);
    }
  }

  /** Without a file of a known platform the run stops after the uploads. */
  lemma NothingToList(nm: Naming, trees: bool, b: Bucket, r: Release, window: set<string>, stale: seq<Step>,
        outdated: seq<Step>, steps: seq<Step>)
    requires nm.Sound() && Honest(nm, trees, r) && Plan(nm, b, r, window, stale, outdated, steps)
    requires forall f <- Installers(r.dir) :: nm.platform(f).None?
    ensures Run(b, steps).manifest == b.manifest
    ensures forall k :: k in Run(b, steps).keys <==>
      k in b.keys || exists f <- Installers(r.dir) :: k == Object("v" + r.version, f) || k == Object("latest", f)
  {
    hide Honest, IncomingOf, Installers, Uploads, Run;
    SomethingToList(nm, trees, r);
    UploadsAre(r.version, Installers(r.dir));
    PutsAdd(b, steps);
  }

  /** The codes of a release go to the Android TV platform, as far as it has the architecture among
      the files uploaded; the other platforms get none. */
  lemma CodesGoToAndroidTv(nm: Naming, trees: bool, r: Release, p: string, a: string)
    requires nm.Sound() && Honest(nm, trees, r) && p in IncomingOf(nm, r)
    ensures var e := IncomingOf(nm, r)[p];
      && (a in e.codes <==> p == "android_tv" && a in r.codes && a in e.arches)
      && (a in e.codes ==> e.codes[a] == r.codes[a])
  {
    hide Honest, Incoming, Installers, Written, FromUpload, ArchSet, Assets, PlatformsOf;
    var files := Installers(r.dir);
    InstallersAre(r.dir);
    forall f | f in files ensures !Blank(f) {
      InstallerSaysSomething(f);
    }
    HonestVersion(nm, trees, r);
    UploadIsWritten(nm, files, r.version, r.published);
    var plain := Incoming(nm, files, r.version, r.published);
    assert Written(nm, p, plain[p]) && FromUpload(nm, p, plain[p], files, r.version, r.published);
    ArchesAreListed(nm, p, plain[p]);
    NoCodesYet(nm, p, plain[p], files, r);
  }

  lemma HonestVersion(nm: Naming, trees: bool, r: Release)
    requires Honest(nm, trees, r)
    ensures Clean(r.version) == Some(r.version)
  {
  }

  lemma ArchesAreListed(nm: Naming, p: string, e: Entry)
    requires nm.Sound() && Written(nm, p, e)
    ensures ArchSet(nm, Assets(nm, e.arches)) == e.arches.Keys
  {
    hide ArchSet, Assets;
    AssetsByArch(nm, p, e.arches);
  }

  lemma NoCodesYet(nm: Naming, p: string, e: Entry, files: seq<string>, r: Release)
    requires FromUpload(nm, p, e, files, r.version, r.published)
    ensures e.codes == map[]
  {
  }

  /** An entry with other codes: those of a patch for its architectures, and else its own. */
  ghost predicate HasCodes(before: Entry, codes: map<string, string>, after: Entry) {
    && after.version == before.version && after.published == before.published && after.arches == before.arches
    && after.codes.Keys == before.codes.Keys + codes.Keys * before.arches.Keys
    && forall a <- after.codes :: after.codes[a] == if a in codes then codes[a] else before.codes[a]
  }

  lemma PatchedHasCodes(e: Entry, codes: map<string, string>)
    requires e.codes.Keys <= e.arches.Keys
    ensures HasCodes(e, map[], e) && HasCodes(e, codes, Patched(e, codes))
    ensures codes.Keys * e.arches.Keys == {} ==> HasCodes(e, codes, e)
  {
    var none: map<string, string> := map[];
    assert e.codes.Keys + none.Keys * e.arches.Keys == e.codes.Keys;
    assert Patched(e, codes).codes.Keys == e.codes.Keys + codes.Keys * e.arches.Keys;
    if codes.Keys * e.arches.Keys == {} {
      assert e.codes.Keys + codes.Keys * e.arches.Keys == e.codes.Keys;
    }
  }

  /** A code patch sets the codes that apply to a listed architecture of Android TV and no others; it
      is refused exactly when none does. The version's own manifest is put only where it is stored. */
  lemma PatchLeaves(b: Bucket, version: string, stored: bool, codes: map<string, string>)
    requires b.manifest.Some? && forall p <- b.manifest.value.platforms :: b.manifest.value.platforms[p].codes.Keys <= b.manifest.value.platforms[p].arches.Keys
    ensures var after := Run(b, PatchSteps(b, version, stored, codes)).manifest;
      && after.Some? && after.value.published == b.manifest.value.published
      && after.value.platforms.Keys == b.manifest.value.platforms.Keys
      && forall p <- after.value.platforms ::
          HasCodes(b.manifest.value.platforms[p], if p == "android_tv" then codes else map[], after.value.platforms[p])
    ensures var steps := PatchSteps(b, version, stored, codes);
      forall k :: Put(k) in steps <==> steps != [] && stored && k in b.keys && k == Object("v" + WithoutV(version), "manifest.json")
    ensures PatchSteps(b, version, stored, codes) == []
      <==> "android_tv" !in b.manifest.value.platforms || codes.Keys * b.manifest.value.platforms["android_tv"].arches.Keys == {}
  {
    hide Run, Coded, Patched, HasCodes;
    var steps, own := PatchStep(b, codes), Put(Object("v" + WithoutV(version), "manifest.json"));
    NoSteps(b);
    RunSnoc(b, steps, own);
    assert steps + [] == steps;
    assert Run(b, PatchSteps(b, version, stored, codes)).manifest == Run(b, steps).manifest;
    if steps != [] {
      RunSnoc(b, [], steps[0]);
      assert [] + [steps[0]] == steps;
    }
    forall p | p in b.manifest.value.platforms
      ensures HasCodes(b.manifest.value.platforms[p], map[], b.manifest.value.platforms[p])
      ensures HasCodes(b.manifest.value.platforms[p], codes, Patched(b.manifest.value.platforms[p], codes))
      ensures codes.Keys * b.manifest.value.platforms[p].arches.Keys == {}
        ==> HasCodes(b.manifest.value.platforms[p], codes, b.manifest.value.platforms[p])
    {
      PatchedHasCodes(b.manifest.value.platforms[p], codes);
    }
  }
}
