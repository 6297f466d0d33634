/** The manifest of the latest installers: one entry a platform, one file an architecture
    (scripts/upload_release_to_r2.py:269-462, 525-815). */
module ReleaseManifest {
  import opened Wrappers
  import Text

  /** What is read off a file name or a version text, and the order in which architectures are listed. */
  datatype Naming = Naming(
    platform: string -> Option<string>,
    arch: string -> string,
    version: string -> Option<string>,
    rank: string -> (int, int, int),
    listing: set<string> -> seq<string>)
  {
    ghost predicate Sound() {
      && (forall s :: Lists(listing(s), s))
      && (forall name :: version(name).Some? ==> Clean(version(name).value) == version(name))
    }
  }

  ghost predicate Lists(l: seq<string>, s: set<string>) {
    && (forall x :: x in l <==> x in s)
    && (forall i, j :: 0 <= i < j < |l| ==> l[i] != l[j])
  }

  datatype Arch = Arch(version: string, filename: string, published: string)
  datatype Entry = Entry(version: string, published: string, arches: map<string, Arch>, codes: map<string, string>)
  datatype Manifest = Manifest(published: string, platforms: map<string, Entry>)

  // ---------------------------------------------------------------------------------------------
  // Versions

  predicate Less(a: (int, int, int), b: (int, int, int)) {
    a.0 < b.0 || (a.0 == b.0 && (a.1 < b.1 || (a.1 == b.1 && a.2 < b.2)))
  }

  /** No number is greater before one is smaller. */
  predicate NotAbove(a: (int, int, int), b: (int, int, int)) {
    a.0 <= b.0 && (a.0 == b.0 ==> a.1 <= b.1 && (a.1 == b.1 ==> a.2 <= b.2))
  }

  /** The first of the versions with the greatest rank. */
  function Newest(nm: Naming, versions: seq<string>): Option<string> {
    if versions == [] then None
    else
      var before, last := Newest(nm, versions[..|versions| - 1]), versions[|versions| - 1];
      if before.None? || Less(nm.rank(before.value), nm.rank(last)) then Some(last) else before
  }

  lemma {:induction false} NewestIsGreatest(nm: Naming, versions: seq<string>)
    requires versions != []
    ensures Newest(nm, versions).Some? && Newest(nm, versions).value in versions
    ensures forall v <- versions :: !Less(nm.rank(Newest(nm, versions).value), nm.rank(v))
    ensures forall v <- versions :: NotAbove(nm.rank(v), nm.rank(Newest(nm, versions).value))
  {
    var front, last := versions[..|versions| - 1], versions[|versions| - 1];
    if front != [] {
      NewestIsGreatest(nm, front);
    }
    assert versions == front + [last];
  }

  /** One more version changes nothing exactly when it is not newer than all the others. */
  lemma OneMoreVersion(nm: Naming, versions: seq<string>, v: string)
    requires versions != []
    ensures Newest(nm, versions + [v]) == (if Less(nm.rank(Newest(nm, versions).value), nm.rank(v)) then Some(v) else Newest(nm, versions))
  {
    NewestIsGreatest(nm, versions);
    assert (versions + [v])[..|versions|] == versions;
  }

  function WithoutV(s: string): string { if s != "" && s[0] == 'v' then WithoutV(s[1..]) else s }

  /** A version given as text: trimmed, without its leading v; None when nothing is left. */
  function Clean(version: string): Option<string> {
    var v := WithoutV(Text.Trim(version));
    if v == "" then None else Some(v)
  }

  /** The text behind any number of v's, unless that is nothing. */
  lemma CleanIs(s: string)
    requires Text.Trimmed(s)
    ensures Clean("v" + s) == Clean(s)
    ensures s != "" && s[0] != 'v' ==> Clean(s) == Some(s)
    ensures Clean("") == None
  {
    hide Text.Trim;
    Text.TrimmedIsFixed(s);
    Text.TrimmedIsFixed("v" + s);
    Text.TrimmedIsFixed("");
    assert ("v" + s)[1..] == s;
  }

  function VersionOf(nm: Naming, name: string, fallback: Option<string>): Option<string> {
    if nm.version(name).Some? then nm.version(name) else fallback
  }

  // ---------------------------------------------------------------------------------------------
  // One entry's architectures

  predicate Blank(name: string) { Text.Trim(name) == "" }

  function Dated(nm: Naming, name: string, published: string, prior: map<string, Arch>, replaced: set<string>): string {
    if nm.arch(name) in replaced || nm.arch(name) !in prior then published else prior[nm.arch(name)].published
  }

  /** `build_arches`: the later of two names for one architecture wins. */
  function Arches(nm: Naming, names: seq<string>, published: string, prior: map<string, Arch>, replaced: set<string>,
                  fallback: Option<string>): map<string, Arch> {
    if names == [] then map[]
    else
      var front, name := Arches(nm, names[..|names| - 1], published, prior, replaced, fallback), names[|names| - 1];
      var ver := VersionOf(nm, name, fallback);
      if Blank(name) || ver.None? then front
      else front[nm.arch(name) := Arch(ver.value, name, Dated(nm, name, published, prior, replaced))]
  }

  method BuildArches(nm: Naming, names: seq<string>, published: string, prior: map<string, Arch>, replaced: set<string>,
                     fallback: Option<string>) returns (out: map<string, Arch>)
    ensures out == Arches(nm, names, published, prior, replaced, fallback)
  {
    hide Arches, Blank, Dated, VersionOf;
    out := map[];
    assert Arches(nm, names[..0], published, prior, replaced, fallback) == map[] by { NoNames(nm, published, prior, replaced, fallback); }
    for i := 0 to |names|
      invariant out == Arches(nm, names[..i], published, prior, replaced, fallback)
    {
      var name := names[i];
      OneMoreName(nm, names, i, published, prior, replaced, fallback);
      if Blank(name) {
        continue;
      }
      var ver := VersionOf(nm, name, fallback);
      if ver.None? {
        continue;
      }
      out := out[nm.arch(name) := Arch(ver.value, name, Dated(nm, name, published, prior, replaced))];
    }
    assert names[..|names|] == names;
  }

  lemma NoNames(nm: Naming, published: string, prior: map<string, Arch>, replaced: set<string>, fallback: Option<string>)
    ensures Arches(nm, [], published, prior, replaced, fallback) == map[]
  {
  }

  lemma OneMoreName(nm: Naming, names: seq<string>, i: nat, published: string, prior: map<string, Arch>,
        replaced: set<string>,
                    fallback: Option<string>)
    requires i < |names|
    ensures Arches(nm, names[..i + 1], published, prior, replaced, fallback) ==
            var front, name := Arches(nm, names[..i], published, prior, replaced, fallback), names[i];
            var ver := VersionOf(nm, name, fallback);
            if Blank(name) || ver.None? then front
            else front[nm.arch(name) := Arch(ver.value, name, Dated(nm, name, published, prior, replaced))]
  {
    hide Blank, Dated, VersionOf;
    assert names[..i + 1][..i] == names[..i];
  }

  /** A name that gets a version. */
  predicate Counts(nm: Naming, name: string, fallback: Option<string>) {
    !Blank(name) && VersionOf(nm, name, fallback).Some?
  }

  /** Each architecture has the last name that counts for it, with its version and date; there are no others. */
  lemma {:induction false} LastNameWins(nm: Naming, names: seq<string>, published: string,
        prior: map<string, Arch>, replaced: set<string>,
                                        fallback: Option<string>, a: string)
    ensures var out := Arches(nm, names, published, prior, replaced, fallback);
      if a in out then exists i :: Wins(nm, names, fallback, a, i) && out[a] == Given(nm, names, i, published, prior, replaced, fallback)
      else forall i :: 0 <= i < |names| && nm.arch(names[i]) == a ==> !Counts(nm, names[i], fallback)
  {
    hide Blank, Dated;
    if names != [] {
      var front, last := names[..|names| - 1], names[|names| - 1];
      var out := Arches(nm, names, published, prior, replaced, fallback);
      LastNameWins(nm, front, published, prior, replaced, fallback, a);
      if Counts(nm, last, fallback) && nm.arch(last) == a {
        assert Wins(nm, names, fallback, a, |names| - 1);
      } else if a in out {
        var i :| Wins(nm, front, fallback, a, i) && out[a] == Given(nm, front, i, published, prior, replaced, fallback);
        assert front[i] == names[i];
        assert Wins(nm, names, fallback, a, i);
        assert Given(nm, front, i, published, prior, replaced, fallback) == Given(nm, names, i, published, prior, replaced, fallback);
      }
    }
  }

  /** What the i-th name makes of its architecture, if it counts. */
  function Given(nm: Naming, names: seq<string>, i: int, published: string, prior: map<string, Arch>,
        replaced: set<string>,
                 fallback: Option<string>): Arch
    requires 0 <= i < |names|
  {
    Arch(VersionOf(nm, names[i], fallback).GetOr(""), names[i], Dated(nm, names[i], published, prior, replaced))
  }

  ghost predicate Wins(nm: Naming, names: seq<string>, fallback: Option<string>, a: string, i: int) {
    && 0 <= i < |names| && nm.arch(names[i]) == a && Counts(nm, names[i], fallback)
    && forall j :: i < j < |names| && nm.arch(names[j]) == a ==> !Counts(nm, names[j], fallback)
  }

  // ---------------------------------------------------------------------------------------------
  // Lists of names, and the latest one for each architecture

  function ArchSet(nm: Naming, names: seq<string>): set<string> { set n | n in names :: nm.arch(n) }

  /** The entries of a map at the listed keys. */
  function ValuesAt<V>(keys: seq<string>, m: map<string, V>): seq<V> {
    if keys == [] then []
    else
      var front, last := ValuesAt(keys[..|keys| - 1], m), keys[|keys| - 1];
      if last in m then front + [m[last]] else front
  }

  lemma {:induction false} ValuesAtKeys<V>(keys: seq<string>, m: map<string, V>)
    requires forall k <- keys :: k in m
    ensures |ValuesAt(keys, m)| == |keys| && forall i :: 0 <= i < |keys| ==> ValuesAt(keys, m)[i] == m[keys[i]]
  {
    if keys != [] {
      var front := keys[..|keys| - 1];
      assert keys == front + [keys[|keys| - 1]];
      ValuesAtKeys(front, m);
    }
  }

  function Filenames(arches: map<string, Arch>): map<string, string> { map a | a in arches :: arches[a].filename }

  function Versions(arches: map<string, Arch>): map<string, string> { map a | a in arches :: arches[a].version }

  /** `assets_from_arches`. */
  function Assets(nm: Naming, arches: map<string, Arch>): seq<string> { ValuesAt(nm.listing(arches.Keys), Filenames(arches)) }

  function VersionList(nm: Naming, arches: map<string, Arch>): seq<string> { ValuesAt(nm.listing(arches.Keys), Versions(arches)) }

  function ByArch(nm: Naming, names: seq<string>): map<string, string> {
    if names == [] then map[] else ByArch(nm, names[..|names| - 1])[nm.arch(names[|names| - 1]) := names[|names| - 1]]
  }

  lemma OneMoreByArch(nm: Naming, names: seq<string>, n: string)
    ensures ByArch(nm, names + [n]) == ByArch(nm, names)[nm.arch(n) := n]
  {
    assert (names + [n])[..|names|] == names;
  }

  lemma NoneByArch(nm: Naming)
    ensures ByArch(nm, []) == map[]
  {
  }

  lemma {:induction false} ByArchConcat(nm: Naming, a: seq<string>, b: seq<string>)
    ensures ByArch(nm, a + b) == ByArch(nm, a) + ByArch(nm, b)
  {
    hide ByArch;
    if b == [] {
      NoneByArch(nm);
      assert a + b == a;
      assert ByArch(nm, a) + map[] == ByArch(nm, a);
    } else {
      var front, last := b[..|b| - 1], b[|b| - 1];
      ByArchConcat(nm, a, front);
      OneMoreByArch(nm, a + front, last);
      OneMoreByArch(nm, front, last);
      assert a + b == (a + front) + [last] && b == front + [last];
    }
  }

  /** A list with at most one name an architecture is what it was made from. */
  lemma {:induction false} ByArchOfListing(nm: Naming, keys: seq<string>, m: map<string, string>)
    requires forall k <- keys :: k in m && nm.arch(m[k]) == k
    ensures ByArch(nm, ValuesAt(keys, m)) == map k | k in keys :: m[k]
  {
    if keys != [] {
      var front, last := keys[..|keys| - 1], keys[|keys| - 1];
      assert keys == front + [last];
      ByArchOfListing(nm, front, m);
      var names := ValuesAt(front, m);
      assert (names + [m[last]])[..|names|] == names;
    }
  }

  /** `merge_assets_by_arch`. */
  function MergedNames(nm: Naming, existing: seq<string>, incoming: seq<string>): seq<string> {
    var chosen := ByArch(nm, existing + incoming);
    ValuesAt(nm.listing(chosen.Keys), chosen)
  }

  method MergeAssetsByArch(nm: Naming, existing: seq<string>, incoming: seq<string>) returns (names: seq<string>)
    ensures names == MergedNames(nm, existing, incoming)
  {
    var chosen: map<string, string> := map[];
    for i := 0 to |existing|
      invariant chosen == ByArch(nm, existing[..i])
    {
      assert existing[..i + 1][..i] == existing[..i];
      chosen := chosen[nm.arch(existing[i]) := existing[i]];
    }
    assert existing[..|existing|] == existing && existing + incoming[..0] == existing;
    for i := 0 to |incoming|
      invariant chosen == ByArch(nm, existing + incoming[..i])
    {
      assert (existing + incoming[..i + 1])[..|existing| + i] == existing + incoming[..i];
      chosen := chosen[nm.arch(incoming[i]) := incoming[i]];
    }
    assert incoming[..|incoming|] == incoming;
    names := ValuesAt(nm.listing(chosen.Keys), chosen);
  }

  // ---------------------------------------------------------------------------------------------
  // Entries the script writes

  ghost predicate WrittenArch(nm: Naming, platform: string, a: string, m: Arch) {
    && nm.arch(m.filename) == a && nm.platform(m.filename) == Some(platform) && !Blank(m.filename)
    && Clean(m.version) == Some(m.version)
    && (nm.version(m.filename).Some? ==> m.version == nm.version(m.filename).value)
  }

  ghost predicate Written(nm: Naming, platform: string, e: Entry) {
    && e.arches != map[]
    && (forall a <- e.arches :: WrittenArch(nm, platform, a, e.arches[a]))
    && e.codes.Keys <= e.arches.Keys
    && Newest(nm, VersionList(nm, e.arches)) == Some(e.version)
  }

  ghost predicate WrittenManifest(nm: Naming, m: Manifest) {
    forall p <- m.platforms :: Written(nm, p, m.platforms[p])
  }

  /** What a listing of a map's keys shows is the map's values, each of them. */
  lemma ListedValues(keys: seq<string>, m: map<string, string>, v: string)
    requires Lists(keys, m.Keys)
    ensures v in ValuesAt(keys, m) <==> exists k :: k in m && m[k] == v
  {
    hide ValuesAt;
    ValuesAtKeys(keys, m);
    if k :| k in m && m[k] == v {
      var i :| 0 <= i < |keys| && keys[i] == k;
      assert ValuesAt(keys, m)[i] == v;
    }
  }

  lemma AssetsAreFilenames(nm: Naming, arches: map<string, Arch>, name: string)
    requires nm.Sound()
    ensures name in Assets(nm, arches) <==> exists a :: a in arches && arches[a].filename == name
  {
    hide ValuesAt;
    ListedValues(nm.listing(arches.Keys), Filenames(arches), name);
    if a :| a in arches && arches[a].filename == name {
      assert Filenames(arches)[a] == name;
    }
    if a :| a in Filenames(arches) && Filenames(arches)[a] == name {
      assert arches[a].filename == name;
    }
  }

  lemma VersionsAreListed(nm: Naming, arches: map<string, Arch>, v: string)
    requires nm.Sound()
    ensures v in VersionList(nm, arches) <==> exists a :: a in arches && arches[a].version == v
  {
    hide ValuesAt;
    ListedValues(nm.listing(arches.Keys), Versions(arches), v);
    if a :| a in arches && arches[a].version == v {
      assert Versions(arches)[a] == v;
    }
    if a :| a in Versions(arches) && Versions(arches)[a] == v {
      assert arches[a].version == v;
    }
  }
}
