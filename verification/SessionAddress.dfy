/** What becomes of the address of a BaseURL on its way through the rewritten manifest, the player
    and the session's handler (crates/proxy/src/ext.rs:101-131, 236-258). */
module SessionAddress {
  import opened Wrappers
  import opened Text
  import opened MpdRewrite

  // ---------------------------------------------------------------------------------------------
  // Paths

  predicate Dotted(segment: string) { segment == "." || segment == ".." }

  function OneStep(done: seq<string>, segment: string): seq<string> {
    if segment == "." then done
    else if segment == ".." then if done == [] then [] else done[..|done| - 1]
    else done + [segment]
  }

  function Steps(done: seq<string>, segments: seq<string>): seq<string>
    decreases |segments|
  {
    if segments == [] then done else Steps(OneStep(done, segments[0]), segments[1..])
  }

  /** Removing dot segments, section 5.2.4 of RFC 3986, from a path given as its segments: one that
      ends in a dot segment ends in a slash. */
  function Undotted(done: seq<string>, segments: seq<string>): seq<string> {
    Steps(done, segments) + if segments != [] && Dotted(segments[|segments| - 1]) then [""] else []
  }

  /** Whether going through the segments ever leaves the directory `depth` levels down from. */
  predicate Climbs(segments: seq<string>, depth: nat) {
    segments != []
    && if segments[0] == ".." then depth == 0 || Climbs(segments[1..], depth - 1)
       else Climbs(segments[1..], if segments[0] == "." then depth else depth + 1)
  }

  lemma {:induction false} StepsConcat(done: seq<string>, a: seq<string>, b: seq<string>)
    ensures Steps(done, a + b) == Steps(Steps(done, a), b)
    decreases |a|
  {
    if a == [] {
      assert a + b == b;
    } else {
      assert (a + b)[1..] == a[1..] + b;
      StepsConcat(OneStep(done, a[0]), a[1..], b);
    }
  }

  lemma {:induction false} StepsUnder(dir: seq<string>, done: seq<string>, segments: seq<string>)
    requires !Climbs(segments, |done|)
    ensures Steps(dir + done, segments) == dir + Steps(done, segments)
    decreases |segments|
  {
    if segments != [] {
      StepUnder(dir, done, segments[0]);
      StepsUnder(dir, OneStep(done, segments[0]), segments[1..]);
    }
  }

  lemma StepUnder(dir: seq<string>, done: seq<string>, segment: string)
    requires segment == ".." ==> done != []
    ensures OneStep(dir + done, segment) == dir + OneStep(done, segment)
  {
    if segment == ".." {
      assert (dir + done)[..|dir + done| - 1] == dir + done[..|done| - 1];
    }
  }

  /** A path that never climbs stays under any directory it is taken from. */
  lemma StaysUnder(dir: seq<string>, segments: seq<string>)
    requires !Climbs(segments, 0)
    ensures Undotted(dir, segments) == dir + Undotted([], segments)
  {
    hide Steps, Climbs;
    StepsUnder(dir, [], segments);
    assert dir + [] == dir;
  }

  /** Nothing that leaves the session finds back without its id. */
  lemma {:induction false} StaysOutside(id: string, done: seq<string>, segments: seq<string>)
    requires id !in segments && (|done| < 2 || done[1] != id)
    ensures var all := Steps(done, segments); |all| < 2 || all[1] != id
    decreases |segments|
  {
    if segments != [] {
      StaysOutside(id, OneStep(done, segments[0]), segments[1..]);
    }
  }

  lemma {:induction false} ClimbingLeaves(id: string, done: seq<string>, segments: seq<string>)
    requires id !in segments && Climbs(segments, |done|)
    ensures var all := Steps(["ext", id] + done, segments); |all| < 2 || all[1] != id
    decreases |segments|
  {
    if segments[0] == ".." && done == [] {
      assert OneStep(["ext", id] + done, "..") == ["ext"];
      StaysOutside(id, ["ext"], segments[1..]);
    } else {
      StepUnder(["ext", id], done, segments[0]);
      ClimbingLeaves(id, OneStep(done, segments[0]), segments[1..]);
    }
  }

  /** A path is asked of the session it is taken from exactly when it never climbs out of it. */
  lemma StaysInSessionIff(segments: seq<string>, id: string)
    requires id != "" && id !in segments
    ensures ["ext", id] <= Undotted(["ext", id], segments) <==> !Climbs(segments, 0)
    ensures !Climbs(segments, 0) ==> Undotted(["ext", id], segments) == ["ext", id] + Undotted([], segments)
  {
    hide Steps, Climbs;
    if Climbs(segments, 0) {
      ClimbingLeaves(id, [], segments);
      assert ["ext", id] + [] == ["ext", id];
      var all := Undotted(["ext", id], segments);
      assert |all| >= 2 ==> all[1] != id;
    } else {
      StaysUnder(["ext", id], segments);
    }
  }

  lemma {:induction false} NoDots(done: seq<string>, segments: seq<string>)
    requires forall s <- segments :: !Dotted(s)
    ensures Undotted(done, segments) == done + segments
    decreases |segments|
  {
    if segments != [] {
      assert segments[0] in segments && segments[|segments| - 1] in segments;
      NoDots(done + [segments[0]], segments[1..]);
      assert done + [segments[0]] + segments[1..] == done + segments;
    } else {
      assert done + [] == done;
    }
  }

  lemma {:induction false} StepsAre(done: seq<string>, segments: seq<string>)
    ensures forall s <- Steps(done, segments) :: s in done || (s in segments && !Dotted(s))
    decreases |segments|
  {
    if segments != [] {
      StepsAre(OneStep(done, segments[0]), segments[1..]);
    }
  }

  /** What is left has no dot segments, and nothing that was not there. */
  lemma UndottedAre(segments: seq<string>)
    ensures forall s <- Undotted([], segments) :: !Dotted(s) && (s == "" || s in segments)
    ensures segments != [] ==> Undotted([], segments) != []
  {
    hide Steps;
    StepsAre([], segments);
    if segments != [] && !Dotted(segments[|segments| - 1]) {
      LastStep([], segments);
    }
  }

  lemma {:induction false} LastStep(done: seq<string>, segments: seq<string>)
    requires segments != [] && !Dotted(segments[|segments| - 1])
    ensures Steps(done, segments) != []
    decreases |segments|
  {
    if |segments| > 1 {
      LastStep(OneStep(done, segments[0]), segments[1..]);
    }
  }

  // ---------------------------------------------------------------------------------------------
  // Addresses

  function PathText(address: string): (r: string)
    ensures r <= address && '?' !in r && '#' !in r
  {
    UpTo(UpTo(address, '#'), '?')
  }

  function QueryText(address: string): string { UpTo(address, '#')[|PathText(address)|..] }

  /** What is asked of a server: segments without dot segments, the first three of which are the scheme,
      nothing and the authority, and the query; a fragment stays with the player. */
  datatype Target = Target(segments: seq<string>, query: string)

  function Plainly(segments: seq<string>): seq<string> {
    if |segments| <= 3 then segments else segments[..3] + Undotted([], segments[3..])
  }

  function Requested(address: string): Target {
    Target(Plainly(Split(PathText(address), '/')), QueryText(address))
  }

  predicate IsLetter(c: char) { 'a' <= c <= 'z' || 'A' <= c <= 'Z' }

  predicate SchemeEnds(ref: string, i: nat) {
    && 0 < i < |ref| && ref[i] == ':' && IsLetter(ref[0])
    && forall j :: 0 < j < i ==> IsLetter(ref[j]) || '0' <= ref[j] <= '9' || ref[j] in "+-."
  }

  /** A reference that starts with a scheme, as section 3.1 of RFC 3986 writes one. */
  predicate HasScheme(ref: string) { exists i :: 0 < i < |ref| && SchemeEnds(ref, i) }

  /** By code point: a letter first, then letters, digits, plus, minus or full stop, and a colon. */
  lemma SchemeIs(ref: string)
    ensures HasScheme(ref) <==>
      exists i :: 0 < i < |ref| && ref[i] == ':' && (65 <= ref[0] as int <= 90 || 97 <= ref[0] as int <= 122)
        && forall j :: 0 < j < i ==> SchemeCode(ref[j] as int)
  {
    forall c ensures IsLetter(c) <==> 65 <= c as int <= 90 || 97 <= c as int <= 122 {
    }
    forall c ensures IsLetter(c) || '0' <= c <= '9' || c in "+-." <==> SchemeCode(c as int) {
    }
    if HasScheme(ref) {
      var i :| 0 < i < |ref| && SchemeEnds(ref, i);
    }
    if i :| 0 < i < |ref| && ref[i] == ':' && IsLetter(ref[0]) && forall j :: 0 < j < i ==> SchemeCode(ref[j] as int) {
      assert SchemeEnds(ref, i);
    }
  }

  predicate SchemeCode(n: int) { 65 <= n <= 90 || 97 <= n <= 122 || 48 <= n <= 57 || n in [43, 45, 46] }

  /** The path a player asks the proxy for, resolving a reference by section 5.2.2 of RFC 3986 against
      the address it plays, `/ext/{id}/{entry}`; None when it asks another server. A reference without
      a path names the manifest, and so the directory, for what is resolved against it in turn. */
  function Asked(ref: string, id: string): Option<seq<string>> {
    if HasScheme(ref) || "//" <= ref then None
    else if "/" <= ref then Some(Undotted([], Split(PathText(ref)[1..], '/')))
    else Some(Undotted(["ext", id], Split(PathText(ref), '/')))
  }

  /** `path.trim_start_matches('/')`. */
  function WithoutLead(path: string): (r: string)
    ensures |r| <= |path| && ("/" <= path ==> |r| < |path|)
  {
    if "/" <= path then WithoutLead(path[1..]) else path
  }

  /** The address the session's handler asks for in turn, which it refuses for a path with two dots in
      it; the query has gone with the route, and the directory stands for what is below it. */
  function Forwarded(path: seq<string>, base: string, id: string): Option<string> {
    if |path| <= 2 || path[0] != "ext" || path[1] != id then None
    else
      var rel := WithoutLead(Join(path[2..], '/'));
      if Contains(rel, "..") then None else Some(base + rel)
  }

  function Reached(ref: string, base: string, id: string): Option<Target> {
    match Asked(ref, id)
    case None => None
    case Some(path) =>
      match Forwarded(path, base, id)
      case None => None
      case Some(address) => Some(Requested(address))
  }

  /** What an element's content leads to after the rewrite: its own address if it was left alone. */
  function Meant(text: string, base: string, id: string): Option<Target> {
    match ContentPiece(text, base)
    case Keep(_) => Some(Requested(Trim(text)))
    case Cut(_, rel, _) => Reached(rel, base, id)
    case Emptied(_) => Reached("", base, id)
  }

  /** The same as was meant before, or the directory that was named without its final slash. */
  predicate IsKept(text: string, base: string, id: string) {
    || Meant(text, base, id) == Some(Requested(Trim(text)))
    || (ContentPiece(text, base).Emptied? && Meant(text, base, id) == Some(Requested(Trim(text) + "/")))
  }

  // ---------------------------------------------------------------------------------------------
  // When an address is kept

  /** No dot segment climbs out of the base, nor past the authority where the base has none. */
  predicate StaysBelow(tail: seq<string>, base: string)
    requires tail != []
  {
    && !Climbs(tail, 0)
    && (|Split(base, '/')| == 3 ==> !Dotted(tail[0]) && !Climbs(tail[1..], 0))
  }

  /** What follows the base: no scheme, slash or query, no way out of the base, and no two dots in
      what is left of it. */
  predicate KeepableTail(rel: string, base: string) {
    var tail := Split(PathText(rel), '/');
    var left := Join(Undotted([], tail), '/');
    && !HasScheme(rel) && !("/" <= rel) && QueryText(rel) == ""
    && StaysBelow(tail, base) && !("/" <= left) && !Contains(left, "..")
  }

  predicate IsDirectory(address: string, base: string) {
    Requested(base) == Requested(address) || Requested(base) == Requested(address + "/")
  }

  /** What a caller can check of an absolute address under, or beside, the base. */
  predicate Keepable(address: string, base: string) {
    if base <= address then KeepableTail(address[|base|..], base)
    else WithoutSlashes(base) <= address ==> IsDirectory(address, base)
  }

  lemma TextsBehind(a: string, s: string)
    requires '?' !in a && '#' !in a
    ensures PathText(a + s) == a + PathText(s) && QueryText(a + s) == QueryText(s)
  {
    hide UpTo;
    UpToBehind(a, s, '#');
    UpToBehind(a, UpTo(s, '#'), '?');
  }

  /** The segments of an address under the base are those of the base and of what follows it. */
  lemma SegmentsBelow(b: string, base: string, rel: string)
    requires base == b + "/" && '?' !in base && '#' !in base
    ensures Split(PathText(base + rel), '/') == Split(b, '/') + Split(PathText(rel), '/')
    ensures QueryText(base + rel) == QueryText(rel)
    ensures Split(base, '/') == Split(b, '/') + [""]
  {
    hide PathText, QueryText, Split;
    TextsBehind(base, rel);
    SplitConcat(b, '/', PathText(rel));
    assert base + PathText(rel) == b + ['/'] + PathText(rel);
    SplitConcat(b, '/', "");
    SplitNone("", '/');
    assert base == b + ['/'] + "";
  }

  lemma PlainlyBelow(b: seq<string>, tail: seq<string>)
    requires |b| >= 3 && tail != [] && !Climbs(tail, 0)
    ensures Plainly(b + tail) == b[..3] + Steps([], b[3..]) + Undotted([], tail)
  {
    hide Steps, Climbs, Undotted;
    assert (b + tail)[..3] == b[..3] && (b + tail)[3..] == b[3..] + tail;
    UndottedConcat([], b[3..], tail);
    StaysUnder(Steps([], b[3..]), tail);
    assert b[..3] + (Steps([], b[3..]) + Undotted([], tail)) == b[..3] + Steps([], b[3..]) + Undotted([], tail);
  }

  lemma UndottedConcat(done: seq<string>, a: seq<string>, b: seq<string>)
    requires b != []
    ensures Undotted(done, a + b) == Undotted(Steps(done, a), b)
  {
    hide Steps;
    StepsConcat(done, a, b);
    assert (a + b)[|a + b| - 1] == b[|b| - 1];
  }

  lemma PlainlyPastAuthority(b: seq<string>, tail: seq<string>)
    requires |b| == 2 && tail != []
    ensures Plainly(b + tail) == b + [tail[0]] + Undotted([], tail[1..])
  {
    hide Steps;
    assert (b + tail)[..3] == b + [tail[0]] && (b + tail)[3..] == tail[1..];
    assert Undotted([], []) == [] by { NoDots([], []); }
    if |tail| == 1 {
      assert tail == [tail[0]] && b + [tail[0]] + [] == b + tail;
    }
  }

  lemma {:induction false} NoDotsNoClimb(segments: seq<string>, depth: nat)
    requires forall s <- segments :: !Dotted(s)
    ensures !Climbs(segments, depth)
    decreases |segments|
  {
    if segments != [] {
      assert segments[0] in segments;
      NoDotsNoClimb(segments[1..], depth + 1);
    }
  }

  /** A path that climbs once does not know what it climbed out of. */
  lemma {:induction false} ClimbingForgets(h: string, done: seq<string>, segments: seq<string>)
    requires Climbs(segments, |done|)
    ensures Steps([h] + done, segments) == Steps(done, segments)
    decreases |segments|
  {
    if segments[0] == ".." && done == [] {
      assert OneStep([h] + done, "..") == [] == OneStep(done, "..");
    } else {
      StepUnder([h], done, segments[0]);
      ClimbingForgets(h, OneStep(done, segments[0]), segments[1..]);
    }
  }

  lemma SamePrefix(a: seq<string>, x: seq<string>, y: seq<string>)
    ensures a + x == a + y <==> x == y
  {
    assert (a + x)[|a|..] == x && (a + y)[|a|..] == y;
  }

  /** Where the base holds the authority the two addresses have the same segments exactly when
      nothing was taken off the front of what was left. */
  lemma SameBelow(b: seq<string>, tail: seq<string>, part: seq<string>)
    requires |b| >= 3 && tail != [] && part != [] && !Climbs(tail, 0) && forall s <- part :: !Dotted(s)
    ensures Plainly(b + part) == Plainly(b + tail) <==> part == Undotted([], tail)
  {
    hide Undotted, Climbs, Plainly;
    NoDotsNoClimb(part, 0);
    NoDots([], part);
    assert [] + part == part;
    PlainlyBelow(b, tail);
    PlainlyBelow(b, part);
    SamePrefix(b[..3] + Steps([], b[3..]), part, Undotted([], tail));
  }

  /** Where it does not, the first segment is the authority, which no dot segment may touch. */
  lemma SamePastAuthority(b: seq<string>, tail: seq<string>, part: seq<string>)
    requires |b| == 2 && tail != [] && part != [] && !Climbs(tail, 0) && forall s <- part :: !Dotted(s)
    requires |part| <= |Undotted([], tail)|
    ensures Plainly(b + part) == Plainly(b + tail)
      <==> part == Undotted([], tail) && !Dotted(tail[0]) && !Climbs(tail[1..], 0)
  {
    hide Undotted, Climbs, Plainly;
    var h, path := tail[0], tail[1..];
    assert part[0] in part && part == [part[0]] + part[1..];
    assert forall s <- part[1..] :: s in part;
    NoDots([], part[1..]);
    PlainlyPastAuthority(b, part);
    PlainlyPastAuthority(b, tail);
    assert b + [part[0]] + ([] + part[1..]) == b + part;
    assert b + [h] + Undotted([], path) == b + ([h] + Undotted([], path));
    SamePrefix(b, part, [h] + Undotted([], path));
    if !Dotted(h) {
      FirstStays(tail);
      if Climbs(path, 0) {
        AuthorityIsLost(h, path);
      } else {
        StaysUnder([h], path);
      }
    }
  }

  lemma AuthorityIsLost(h: string, path: seq<string>)
    requires Climbs(path, 0)
    ensures Undotted([h], path) == Undotted([], path)
  {
    hide Steps, Climbs;
    ClimbingForgets(h, [], path);
    assert [h] + [] == [h];
  }

  lemma FirstStays(tail: seq<string>)
    requires tail != [] && !Dotted(tail[0])
    ensures Undotted([], tail) == Undotted([tail[0]], tail[1..])
  {
    assert [] + [tail[0]] == [tail[0]];
  }

  /** Taking slashes off the front of a path takes off empty segments. */
  lemma {:induction false} LeadOff(path: string) returns (k: nat)
    ensures k < |Split(path, '/')| && Split(WithoutLead(path), '/') == Split(path, '/')[k..]
    ensures k == 0 <==> !("/" <= path)
    decreases |path|
  {
    if "/" <= path {
      k := LeadOff(path[1..]);
      SplitCons('/', path[1..], '/');
      assert path == ['/'] + path[1..];
      k := k + 1;
    } else {
      k := 0;
    }
  }

  lemma {:induction false} NotJoined(parts: seq<string>, c: char)
    requires c != '/' && forall p <- parts :: c !in p
    ensures c !in Join(parts, '/')
  {
    if |parts| > 1 {
      NotJoined(parts[1..], c);
    }
  }

  lemma {:induction false} NotSplit(s: string, c: char)
    requires c !in s
    ensures forall p <- Split(s, '/') :: c !in p
  {
    if s != "" {
      NotSplit(s[1..], c);
      assert s == [s[0]] + s[1..];
      SplitCons(s[0], s[1..], '/');
    }
  }

  lemma LeadChars(path: string, c: char)
    requires c !in path
    ensures c !in WithoutLead(path)
  {
  }

  /** What is left of a path has its segments, and none of the marks that end one. */
  lemma LeftOver(path: string)
    requires '?' !in path && '#' !in path
    ensures var left := Undotted([], Split(path, '/'));
      && left != [] && Split(Join(left, '/'), '/') == left
      && (forall s <- left :: !Dotted(s)) && '?' !in Join(left, '/') && '#' !in Join(left, '/')
  {
    hide Undotted, Split, Join;
    var left := Undotted([], Split(path, '/'));
    UndottedAre(Split(path, '/'));
    NotSplit(path, '?');
    NotSplit(path, '#');
    NotJoined(left, '?');
    NotJoined(left, '#');
    SplitJoin(left, '/');
  }

  lemma NotInSession(path: seq<string>, id: string)
    requires !(["ext", id] <= path)
    ensures |path| < 2 || path[0] != "ext" || path[1] != id
  {
  }

  /** The path a plain reference is resolved to, and what the handler makes of it. */
  lemma PlainIsForwarded(rel: string, base: string, id: string)
    requires !HasScheme(rel) && !("/" <= rel) && id != "" && id !in Split(PathText(rel), '/')
    ensures var tail := Split(PathText(rel), '/'); var part := WithoutLead(Join(Undotted([], tail), '/'));
      Reached(rel, base, id) == if Climbs(tail, 0) || Contains(part, "..") then None else Some(Requested(base + part))
  {
    hide HasScheme, PathText, Split, Undotted, Climbs, Requested, Contains, Join;
    var tail := Split(PathText(rel), '/');
    assert !("//" <= rel);
    StaysInSessionIff(tail, id);
    UndottedAre(tail);
    if Climbs(tail, 0) {
      NotInSession(Undotted(["ext", id], tail), id);
    } else {
      assert (["ext", id] + Undotted([], tail))[2..] == Undotted([], tail);
    }
  }

  /** Any other reference is not asked of the session. */
  lemma OthersAreNotForwarded(rel: string, base: string, id: string)
    requires HasScheme(rel) || "/" <= rel
    requires id != "" && id !in Split(PathText(rel), '/')
    ensures Reached(rel, base, id) == None
  {
    hide HasScheme, Split, Steps, Requested, Contains, Join;
    if !HasScheme(rel) && !("//" <= rel) {
      var path := PathText(rel);
      RootedPath(rel);
      SplitCons('/', path[1..], '/');
      assert path == ['/'] + path[1..];
      StaysOutside(id, [], Split(path[1..], '/'));
    }
  }

  lemma RootedPath(rel: string)
    requires "/" <= rel
    ensures "/" <= PathText(rel)
  {
  }

  /** A tail that leads to the address it was cut from. */
  lemma TailIsKeptIff(b: string, base: string, rel: string, id: string)
    requires base == b + "/" && '?' !in base && '#' !in base && (|Split(b, '/')| >= 2 || "/" <= rel)
    requires id != "" && id !in Split(PathText(rel), '/')
    ensures Reached(rel, base, id) == Some(Requested(base + rel)) <==> KeepableTail(rel, base)
  {
    hide HasScheme, PathText, QueryText, Split, Undotted, Climbs, Plainly, Contains, Join, WithoutLead, Reached;
    if HasScheme(rel) || "/" <= rel {
      OthersAreNotForwarded(rel, base, id);
    } else {
      var tail := Split(PathText(rel), '/');
      var left := Join(Undotted([], tail), '/');
      var part := WithoutLead(left);
      PlainIsForwarded(rel, base, id);
      LeftOver(PathText(rel));
      if !Climbs(tail, 0) {
        PartIsKeptIff(b, base, rel, part);
        if !("/" <= left) {
          NoLead(left);
        }
      }
    }
  }

  lemma NoLead(path: string)
    requires !("/" <= path)
    ensures WithoutLead(path) == path
  {
  }

  /** Given that the request is forwarded: the two addresses are the same. */
  lemma PartIsKeptIff(b: string, base: string, rel: string, part: string)
    requires base == b + "/" && '?' !in base && '#' !in base && |Split(b, '/')| >= 2
    requires !Climbs(Split(PathText(rel), '/'), 0)
    requires part == WithoutLead(Join(Undotted([], Split(PathText(rel), '/')), '/'))
    ensures Requested(base + part) == Requested(base + rel)
      <==> QueryText(rel) == "" && StaysBelow(Split(PathText(rel), '/'), base)
           && !("/" <= Join(Undotted([], Split(PathText(rel), '/')), '/'))
  {
    hide PathText, QueryText, Split, Undotted, Climbs, Plainly, Join, WithoutLead;
    var front, tail := Split(b, '/'), Split(PathText(rel), '/');
    var left := Undotted([], tail);
    LeftOver(PathText(rel));
    LeadChars(Join(left, '/'), '?');
    LeadChars(Join(left, '/'), '#');
    NoMarks(part);
    SegmentsBelow(b, base, rel);
    SegmentsBelow(b, base, part);
    var k := LeadOff(Join(left, '/'));
    var kept := left[k..];
    assert Split(part, '/') == kept && (forall s <- kept :: s in left) && (kept == left <==> k == 0);
    if |front| == 2 {
      SamePastAuthority(front, tail, kept);
    } else {
      SameBelow(front, tail, kept);
    }
  }

  lemma NoMarks(part: string)
    requires '?' !in part && '#' !in part
    ensures PathText(part) == part && QueryText(part) == ""
  {
  }

  /** What follows a base that ends within the scheme's slashes starts with one. */
  lemma BaseHasRoot(address: string, b: string, base: string)
    requires Absolute(address) && base == b + "/" && base <= address
    ensures |Split(b, '/')| >= 2 || "/" <= address[|base|..]
  {
    hide Split;
    assert address[|b|] == '/' by { assert base[|b|] == '/'; }
    if '/' in b {
      TwoParts(b);
    } else {
      FirstSlash(address, b, if "http://" <= address then "http://" else "https://");
      assert address[|base|..][0] == '/';
    }
  }

  lemma FirstSlash(address: string, b: string, scheme: string)
    requires scheme in ["http://", "https://"] && scheme <= address && b <= address
    requires '/' !in b && |b| < |address| && address[|b|] == '/'
    ensures |b| == |scheme| - 2 && address[|b| + 1] == '/'
  {
    SlashesOf(scheme);
    var n := |scheme| - 2;
    assert address[n] == scheme[n] == '/' && address[n + 1] == scheme[n + 1] == '/';
    assert forall i :: 0 <= i < |b| ==> b[i] == address[i] && b[i] in b;
    assert forall i :: 0 <= i < |scheme| ==> scheme[i] == address[i];
  }

  lemma SlashesOf(scheme: string)
    requires scheme in ["http://", "https://"]
    ensures forall i :: 0 <= i < |scheme| ==> (scheme[i] == '/' <==> i >= |scheme| - 2)
  {
  }

  lemma TwoParts(s: string)
    requires '/' in s
    ensures |Split(s, '/')| >= 2
  {
    hide Split;
    var i :| 0 <= i < |s| && s[i] == '/';
    SplitConcat(s[..i], '/', s[i + 1..]);
    assert s == s[..i] + ['/'] + s[i + 1..];
  }

  lemma NothingLeads(base: string, id: string)
    requires EndsWith(base, "/") && '?' !in base && '#' !in base && id != ""
    ensures Reached("", base, id) == Some(Requested(base))
  {
    hide Reached, Requested, HasScheme, PathText, Split, Undotted;
    NoMarks("");
    SplitNone("", '/');
    assert !HasScheme("") by { NoScheme(); }
    PlainIsForwarded("", base, id);
    NoDots([], [""]);
    assert Undotted([], [""]) == [""] && Join([""], '/') == "" && WithoutLead("") == "" && base + "" == base;
    NoDotsNoClimb([""], 0);
    assert !Contains("", "..");
  }

  lemma NoScheme()
    ensures !HasScheme("")
  {
  }

  /** The random id of a session is no segment of an address in a manifest. */
  predicate Unknown(id: string, address: string) { id != "" && id !in Split(PathText(address), '/') }

  /** Through the player and the session's handler an element keeps its address exactly when it is
      not absolute, or its tail under the base is one that can be kept, or it does not start like the
      base without its slashes, or it names the base's directory. */
  lemma AddressIsKeptIff(text: string, base: string, id: string)
    requires EndsWith(base, "/") && '?' !in base && '#' !in base && '%' !in Trim(text)
    requires Unknown(id, Trim(text))
    ensures IsKept(text, base, id) <==> (Absolute(Trim(text)) ==> Keepable(Trim(text), base))
  {
    hide Trim, Lead, Trail, WithoutSlashes, KeepableTail, Reached, Absolute, Split, PathText, Requested;
    var address := Trim(text);
    if !Absolute(address) {
    } else if base <= address {
      var b, rel := base[..|base| - 1], address[|base|..];
      assert base == b + "/" && address == base + rel by { assert base[|b|..] == "/"; }
      SegmentsBelow(b, base, rel);
      BaseHasRoot(address, b, base);
      TailIsKeptIff(b, base, rel, id);
    } else if WithoutSlashes(base) <= address {
      NothingLeads(base, id);
    }
  }

  /** Beside the base, an address without dot segments names the same directory exactly when it is
      the base short of its final slash. */
  lemma DirectoryIsNamedIff(address: string, base: string)
    requires forall c <- "?#" :: c !in address && c !in base
    requires forall s <- Split(base, '/') + Split(address, '/') :: !Dotted(s)
    requires !(base <= address)
    ensures IsDirectory(address, base) <==> base == address + "/"
  {
    hide Split;
    assert '?' in "?#" && '#' in "?#";
    assert address + "/" == address + ['/'] + "";
    SplitConcat(address, '/', "");
    SplitNone("", '/');
    AsWritten(base);
    AsWritten(address);
    AsWritten(address + "/");
    JoinSplit(base, '/');
    JoinSplit(address, '/');
    JoinSplit(address + "/", '/');
  }

  lemma AsWritten(address: string)
    requires '?' !in address && '#' !in address && forall s <- Split(address, '/') :: !Dotted(s)
    ensures Requested(address) == Target(Split(address, '/'), "")
  {
    hide Split, PathText, QueryText;
    NoMarks(address);
    var all := Split(address, '/');
    if |all| > 3 {
      NoDots([], all[3..]);
      assert [] + all[3..] == all[3..] && all[..3] + all[3..] == all;
    }
  }

  // ---------------------------------------------------------------------------------------------
  // Addresses that are lost

  const BASE := "https://a/b/"

  lemma TailIsLost(rel: string, id: string)
    requires Trimmed(BASE + rel) && '%' !in rel && Unknown(id, BASE + rel) && !KeepableTail(rel, BASE)
    ensures ContentPiece(BASE + rel, BASE) == Cut("", rel, "") && !IsKept(BASE + rel, BASE, id)
  {
    hide Trim, Lead, Trail, TrimStart, KeepableTail, Reached, Split, PathText, Requested, IsKept;
    var text := BASE + rel;
    TrimmedIsFixed(text);
    NothingAround(text);
    assert text[..8] == "https://" && text[|BASE|..] == rel;
    AddressIsKeptIff(text, BASE, id);
  }

  lemma NothingAround(text: string)
    requires Trimmed(text)
    ensures Lead(text) == "" && Trail(text) == ""
  {
    hide Trim, TrimStart, Lead, Trail;
    TrimmedIsFixed(text);
    TrimParts(text);
    assert |Lead(text)| + |Trail(text)| == 0;
  }

  lemma QueryTail(rel: string, base: string)
    requires '?' in rel && '#' !in rel
    ensures !KeepableTail(rel, base)
  {
    hide HasScheme, StaysBelow, Undotted, Split, UpTo, Contains, Join;
    assert PathText(rel) != rel && UpTo(rel, '#') == rel;
    assert |PathText(rel)| == |rel| ==> PathText(rel) == rel;
  }

  lemma TwoDotsTail(name: string, base: string)
    requires '?' !in name && '#' !in name && '/' !in name && !Dotted(name) && Contains(name, "..")
    ensures !KeepableTail(name, base)
  {
    hide HasScheme, StaysBelow, Undotted, Split, PathText, Contains;
    NoMarks(name);
    SplitNone(name, '/');
    NoDots([], [name]);
    assert [] + [name] == [name];
  }

  lemma ParentTail(rest: string, base: string)
    requires '?' !in rest && '#' !in rest
    ensures !KeepableTail("../" + rest, base)
  {
    hide HasScheme, Undotted, Split, PathText, Contains, Join;
    NoMarks("../" + rest);
    SplitHead("..", '/', rest);
    assert ".." + ['/'] + rest == "../" + rest;
  }

  /** A doubled slash after the base: the tail is taken from the proxy's own root. */
  lemma DoubledSlashIsLost(id: string)
    requires Unknown(id, "https://a/b//c")
    ensures ContentPiece("https://a/b//c", BASE) == Cut("", "/c", "") && !IsKept("https://a/b//c", BASE, id)
  {
    hide ContentPiece, IsKept, Unknown;
    assert BASE + "/c" == "https://a/b//c";
    assert !KeepableTail("/c", BASE) by { hide PathText, Split, HasScheme, StaysBelow, Undotted; }
    TailIsLost("/c", id);
  }

  /** A query does not come through the handler. */
  lemma QueryIsLost(id: string)
    requires Unknown(id, "https://a/b/c?t=1")
    ensures ContentPiece("https://a/b/c?t=1", BASE) == Cut("", "c?t=1", "") && !IsKept("https://a/b/c?t=1", BASE, id)
  {
    hide ContentPiece, IsKept, Unknown, KeepableTail;
    assert BASE + "c?t=1" == "https://a/b/c?t=1";
    assert '?' in "c?t=1" by { assert "c?t=1"[1] == '?'; }
    QueryTail("c?t=1", BASE);
    TailIsLost("c?t=1", id);
  }

  /** The handler refuses two dots even within a name. */
  lemma TwoDotsAreRefused(id: string)
    requires Unknown(id, "https://a/b/c..d")
    ensures ContentPiece("https://a/b/c..d", BASE) == Cut("", "c..d", "") && !IsKept("https://a/b/c..d", BASE, id)
  {
    hide ContentPiece, IsKept, Unknown, KeepableTail, Contains;
    assert BASE + "c..d" == "https://a/b/c..d";
    assert Contains("c..d", "..") by { TwoDots(); }
    TwoDotsTail("c..d", BASE);
    TailIsLost("c..d", id);
  }

  lemma TwoDots()
    ensures Contains("c..d", "..")
  {
    assert OccursAt("c..d", "..", 1);
  }

  /** An address in the parent directory is not asked of the session at all. */
  lemma ParentDirectoryIsLost(id: string)
    requires Unknown(id, "https://a/b/../c")
    ensures ContentPiece("https://a/b/../c", BASE) == Cut("", "../c", "") && !IsKept("https://a/b/../c", BASE, id)
  {
    hide ContentPiece, IsKept, Unknown, KeepableTail;
    assert BASE + "../c" == "https://a/b/../c" && "../" + "c" == "../c";
    ParentTail("c", BASE);
    TailIsLost("../c", id);
  }

  /** A directory that merely starts like the base is emptied, and then means another address. */
  lemma SiblingDirectoryIsLost(id: string)
    requires Unknown(id, "https://a/bc/")
    ensures ContentPiece("https://a/bc/", BASE) == Emptied("https://a/bc/") && !IsKept("https://a/bc/", BASE, id)
  {
    hide Trim, WithoutSlashes, IsKept, Unknown, IsDirectory, KeepableTail, ContentPiece, Absolute;
    SiblingIsEmptied();
    assert EndsWith(BASE, "/") by { assert BASE[|BASE| - 1..] == "/"; }
    AddressIsKeptIff("https://a/bc/", BASE, id);
    SiblingIsElsewhere();
  }

  lemma SiblingIsEmptied()
    ensures var text := "https://a/bc/";
      && Trim(text) == text && ContentPiece(text, BASE) == Emptied(text)
      && Absolute(text) && !(BASE <= text) && WithoutSlashes(BASE) <= text
  {
    hide Trim, Lead, Trail, WithoutSlashes;
    var text := "https://a/bc/";
    TrimmedIsFixed(text);
    OneSlash("https://a/b");
    assert BASE == "https://a/b" + "/" && text[..8] == "https://";
    assert text[..11] == "https://a/b" && text[11] == 'c' && BASE[11] == '/';
  }

  lemma SiblingIsElsewhere()
    ensures !IsDirectory("https://a/bc/", BASE)
  {
    hide Split, IsDirectory;
    DirectorySegments("b");
    DirectorySegments("bc");
    assert "https://a/" + "b" + "/" == BASE && "https://a/" + "bc" + "/" == "https://a/bc/";
    assert "https://a/bc/"[11] != BASE[11];
    DirectoryIsNamedIff("https://a/bc/", BASE);
  }

  lemma DirectorySegments(name: string)
    requires '/' !in name
    ensures Split("https://a/" + name + "/", '/') == ["https:", "", "a", name, ""]
  {
    hide Split;
    SplitNone("", '/');
    SplitHead(name, '/', "");
    SplitHead("a", '/', name + ['/'] + "");
    SplitHead("", '/', "a" + ['/'] + (name + ['/'] + ""));
    SplitHead("https:", '/', "" + ['/'] + ("a" + ['/'] + (name + ['/'] + "")));
    assert "https://a/" + name + "/" == "https:" + ['/'] + ("" + ['/'] + ("a" + ['/'] + (name + ['/'] + "")));
  }

  lemma OneSlash(stem: string)
    requires stem != "" && stem[|stem| - 1] != '/'
    ensures WithoutSlashes(stem + "/") == stem
  {
    assert (stem + "/")[..|stem|] == stem;
  }
}
