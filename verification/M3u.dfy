/** The playlist parser: a machine over lines that carries attributes to the next address
    (crates/iptv/src/m3u.rs). */
module M3u {
  import opened Wrappers
  import Text

  /** The attributes of a directive, as the regular expression finds them: by lower-case key. */
  type Attrs = string -> map<string, string>

  datatype Channel = Channel(name: string, url: string, logo: string, group: string, tvgId: string, tvgName: string, entryType: Option<string>)
  datatype M3uError = EmptyText | NoChannels | Enigma2Bouquet
  datatype ParseResult = ParseResult(channels: seq<Channel>, epgUrl: Option<string>)

  const URL_PREFIXES := ["http://", "https://", "rtmp://", "rtmps://", "rtsp://", "udp://", "rtp://", "mms://", "mmsh://"]

  predicate LooksLikeUrl(s: string) {
    var lower := Text.LowerAscii(s);
    exists i :: 0 <= i < |URL_PREFIXES| && URL_PREFIXES[i] <= lower
  }

  function NonEmpty(s: string): Option<string> { if s == "" then None else Some(s) }

  function At(m: map<string, string>, key: string): string { if key in m then m[key] else "" }

  // ---------------------------------------------------------------------------------------------
  // Lines, trimmed

  predicate IsHeader(line: string) { "#EXTM3U" <= line }

  predicate IsInfo(line: string) { "#EXTINF" <= line && !IsHeader(line) }

  predicate IsGroup(line: string) { "#EXTGRP:" <= line && !IsHeader(line) && !IsInfo(line) }

  /** A line that becomes a channel. */
  predicate Accepted(line: string) { line != "" && !("#" <= line) && LooksLikeUrl(line) }

  /** What follows the first comma of an `#EXTINF` line, and what stands before it. */
  function InfoParts(line: string): (string, string)
    requires IsInfo(line)
  {
    var rest := line[7..];
    match Text.Find(rest, ",", 0)
    case Some(i) => (rest[..i], Text.Trim(rest[i + 1..]))
    case None => (rest, "")
  }

  function EpgOf(attrs: Attrs, line: string): Option<string> {
    var m := attrs(line);
    if "url-tvg" in m then NonEmpty(m["url-tvg"]) else NonEmpty(At(m, "x-tvg-url"))
  }

  function GroupText(line: string): string
    requires IsGroup(line)
  {
    Text.Trim(line[8..])
  }

  // ---------------------------------------------------------------------------------------------
  // The machine

  datatype Pending = Pending(name: Option<string>, logo: string, group: string, tvgId: string, tvgName: string, entryType: string)
  datatype Machine = Machine(pending: Pending, out: seq<Channel>, epg: Option<string>)

  const NOTHING := Pending(None, "", "", "", "", "")
  const START := Machine(NOTHING, [], None)

  function FromInfo(attrs: Attrs, line: string): Pending
    requires IsInfo(line)
  {
    var parts := InfoParts(line);
    var m := attrs(parts.0);
    var tvgName := At(m, "tvg-name");
    Pending(Some(if parts.1 != "" then parts.1 else if tvgName != "" then tvgName else "Unknown"),
      At(m, "tvg-logo"), At(m, "group-title"), At(m, "tvg-id"), tvgName, At(m, "type"))
  }

  function Emit(p: Pending, url: string): Channel {
    Channel(p.name.GetOr(url), url, p.logo, p.group, p.tvgId, p.tvgName, NonEmpty(p.entryType))
  }

  function Step(attrs: Attrs, s: Machine, line: string): Machine {
    if line == "" then s
    else if IsHeader(line) then (if s.epg.None? then s.(epg := EpgOf(attrs, line)) else s)
    else if IsInfo(line) then s.(pending := FromInfo(attrs, line))
    else if IsGroup(line) then s.(pending := s.pending.(group := GroupText(line)))
    else if "#" <= line || !LooksLikeUrl(line) then s
    else Machine(NOTHING, s.out + [Emit(s.pending, line)], s.epg)
  }

  function RunLines(attrs: Attrs, lines: seq<string>): Machine {
    if lines == [] then START else Step(attrs, RunLines(attrs, lines[..|lines| - 1]), lines[|lines| - 1])
  }

  // ---------------------------------------------------------------------------------------------
  // What a channel is made of, said of the lines themselves

  /** The lines after the last accepted address. */
  function SinceUrl(lines: seq<string>): seq<string> {
    if lines == [] || Accepted(lines[|lines| - 1]) then []
    else SinceUrl(lines[..|lines| - 1]) + [lines[|lines| - 1]]
  }

  function LastInfo(lines: seq<string>): Option<string> {
    if lines == [] then None
    else if IsInfo(lines[|lines| - 1]) then Some(lines[|lines| - 1])
    else LastInfo(lines[..|lines| - 1])
  }

  /** The last line that sets a group, of either kind. */
  function LastGroupLine(lines: seq<string>): Option<string> {
    if lines == [] then None
    else if IsInfo(lines[|lines| - 1]) || IsGroup(lines[|lines| - 1]) then Some(lines[|lines| - 1])
    else LastGroupLine(lines[..|lines| - 1])
  }

  lemma {:induction false} LastLines(lines: seq<string>)
    ensures LastInfo(lines).Some? ==> IsInfo(LastInfo(lines).value)
    ensures LastGroupLine(lines).Some? ==> IsInfo(LastGroupLine(lines).value) || IsGroup(LastGroupLine(lines).value)
  {
    if lines != [] {
      LastLines(lines[..|lines| - 1]);
    }
  }

  function GroupOf(attrs: Attrs, line: Option<string>): string {
    match line
    case None => ""
    case Some(l) => if IsGroup(l) then GroupText(l) else if IsInfo(l) then FromInfo(attrs, l).group else ""
  }

  /** What the lines before an address say about it: everything from the last `#EXTINF`, the group
      from the last line that sets one. */
  function Said(attrs: Attrs, lines: seq<string>): Pending {
    LastLines(lines);
    var base := if LastInfo(lines).Some? then FromInfo(attrs, LastInfo(lines).value) else NOTHING;
    base.(group := GroupOf(attrs, LastGroupLine(lines)))
  }

  /** The channels of a playlist: each address with what was said since the accepted address before it. */
  function Channels(attrs: Attrs, lines: seq<string>): seq<Channel> {
    if lines == [] then []
    else
      var front, last := lines[..|lines| - 1], lines[|lines| - 1];
      Channels(attrs, front) + (if Accepted(last) then [Emit(Said(attrs, SinceUrl(front)), last)] else [])
  }

  /** The guide address: the first header line that has one. */
  function FirstEpg(attrs: Attrs, lines: seq<string>): Option<string> {
    if lines == [] then None
    else if IsHeader(lines[0]) && EpgOf(attrs, lines[0]).Some? then EpgOf(attrs, lines[0])
    else FirstEpg(attrs, lines[1..])
  }

  lemma LineKinds(line: string)
    ensures Accepted(line) ==> !IsHeader(line) && !IsInfo(line) && !IsGroup(line)
    ensures "#" <= line || line == "" ==> !Accepted(line)
    ensures IsHeader(line) || IsInfo(line) || IsGroup(line) ==> "#" <= line
  {
    hide LooksLikeUrl;
    assert "#EXTM3U"[..1] == "#" && "#EXTINF"[..1] == "#" && "#EXTGRP:"[..1] == "#";
    assert IsHeader(line) ==> line[..1] == "#";
    assert IsInfo(line) ==> line[..1] == "#";
    assert IsGroup(line) ==> line[..1] == "#";
  }

  /** The machine holds what was said since the last address, and has emitted the channels so far. */
  lemma {:induction false} MachineMeetsLines(attrs: Attrs, lines: seq<string>)
    ensures RunLines(attrs, lines).pending == Said(attrs, SinceUrl(lines))
    ensures RunLines(attrs, lines).out == Channels(attrs, lines)
  {
    hide LooksLikeUrl, Accepted, IsHeader, IsInfo, IsGroup, FromInfo, GroupText;
    if lines == [] {
      assert Said(attrs, []) == NOTHING;
    } else {
      var front, last := lines[..|lines| - 1], lines[|lines| - 1];
      MachineMeetsLines(attrs, front);
      StepMeetsLine(attrs, RunLines(attrs, front), SinceUrl(front), last);
      assert SinceUrl(lines) == if Accepted(last) then [] else SinceUrl(front) + [last];
    }
  }

  lemma StepMeetsLine(attrs: Attrs, s: Machine, since: seq<string>, line: string)
    requires s.pending == Said(attrs, since)
    ensures Step(attrs, s, line).pending == if Accepted(line) then Said(attrs, []) else Said(attrs, since + [line])
    ensures Step(attrs, s, line).out == s.out + if Accepted(line) then [Emit(Said(attrs, since), line)] else []
  {
    LineKinds(line);
    hide LooksLikeUrl, FromInfo, GroupText;
    assert (since + [line])[..|since|] == since;
  }

  lemma {:induction false} FirstEpgConcat(attrs: Attrs, a: seq<string>, b: seq<string>)
    ensures FirstEpg(attrs, a + b) == if FirstEpg(attrs, a).Some? then FirstEpg(attrs, a) else FirstEpg(attrs, b)
  {
    hide IsHeader, EpgOf;
    if a == [] {
      assert a + b == b;
    } else {
      FirstEpgConcat(attrs, a[1..], b);
      assert (a + b)[1..] == a[1..] + b;
    }
  }

  lemma {:induction false} MachineFindsEpg(attrs: Attrs, lines: seq<string>)
    ensures RunLines(attrs, lines).epg == FirstEpg(attrs, lines)
  {
    if lines != [] {
      var front, last := lines[..|lines| - 1], lines[|lines| - 1];
      MachineFindsEpg(attrs, front);
      assert lines == front + [last];
      FirstEpgConcat(attrs, front, [last]);
      EpgOfLine(attrs, RunLines(attrs, front), last);
    }
  }

  lemma EpgOfLine(attrs: Attrs, s: Machine, line: string)
    ensures Step(attrs, s, line).epg == if s.epg.Some? then s.epg else FirstEpg(attrs, [line])
  {
    LineKinds(line);
    hide LooksLikeUrl, FromInfo, GroupText, EpgOf;
    assert [line][1..] == [];
    assert "#EXTM3U" != "";
  }

  // ---------------------------------------------------------------------------------------------
  // Splitting a playlist after an address

  lemma {:induction false} SinceUrlAfter(a: seq<string>, b: seq<string>)
    requires SinceUrl(a) == []
    ensures SinceUrl(a + b) == SinceUrl(b)
  {
    hide Accepted;
    if b == [] {
      assert a + b == a;
    } else {
      SinceUrlAfter(a, b[..|b| - 1]);
      assert (a + b)[..|a + b| - 1] == a + b[..|b| - 1];
    }
  }

  /** Behind an accepted address nothing is carried over: the channels are those of the two parts. */
  lemma {:induction false} ChannelsSplit(attrs: Attrs, a: seq<string>, b: seq<string>)
    requires SinceUrl(a) == []
    ensures Channels(attrs, a + b) == Channels(attrs, a) + Channels(attrs, b)
  {
    hide Accepted, Said, SinceUrl;
    if b == [] {
      assert a + b == a;
    } else {
      var front, last := b[..|b| - 1], b[|b| - 1];
      ChannelsSplit(attrs, a, front);
      SinceUrlAfter(a, front);
      assert (a + b)[..|a + b| - 1] == a + front && (a + b)[|a + b| - 1] == last;
    }
  }

  // ---------------------------------------------------------------------------------------------
  // The whole text

  /** `replace("\r\n", "\n")`, and then `replace('\r', "\n")`. */
  function ReplaceCrLf(s: string): string {
    if s == "" then ""
    else if "\r\n" <= s then "\n" + ReplaceCrLf(s[2..])
    else [s[0]] + ReplaceCrLf(s[1..])
  }

  function ReplaceCr(s: string): string {
    if s == "" then "" else [if s[0] == '\r' then '\n' else s[0]] + ReplaceCr(s[1..])
  }

  function TrimAll(lines: seq<string>): (r: seq<string>)
    ensures |r| == |lines| && forall i :: 0 <= i < |lines| ==> r[i] == Text.Trim(lines[i])
  {
    seq(|lines|, i requires 0 <= i < |lines| => Text.Trim(lines[i]))
  }

  function Lines(content: string): seq<string> { TrimAll(Text.Split(ReplaceCr(ReplaceCrLf(content)), '\n')) }

  function FirstMeaningful(lines: seq<string>): Option<string> {
    if lines == [] then None else if lines[0] != "" then Some(lines[0]) else FirstMeaningful(lines[1..])
  }

  /** `looks_like_enigma2`: told by the first line that is not blank. */
  function LooksLikeEnigma2(content: string): bool {
    match FirstMeaningful(TrimAll(Text.Split(ReplaceCr(content), '\n')))
    case None => false
    case Some(line) => !("#EXTM3U" <= line || "#EXTINF" <= line) && ("#SERVICE" <= line || "#NAME" <= line)
  }

  function Parsed(attrs: Attrs, content: string): Result<ParseResult, M3uError> {
    if content == "" then Err(EmptyText)
    else if LooksLikeEnigma2(content) then Err(Enigma2Bouquet)
    else if Channels(attrs, Lines(content)) == [] then Err(NoChannels)
    else Ok(ParseResult(Channels(attrs, Lines(content)), FirstEpg(attrs, Lines(content))))
  }

  /** `parse_with_header`. */
  method ParseWithHeader(attrs: Attrs, content: string) returns (r: Result<ParseResult, M3uError>)
    ensures r == Parsed(attrs, content)
  {
    hide LooksLikeEnigma2, Lines, Channels, FirstEpg, LooksLikeUrl, InfoParts, RunLines;
    if content == "" {
      return Err(EmptyText);
    }
    if LooksLikeEnigma2(content) {
      return Err(Enigma2Bouquet);
    }
    var lines := Lines(content);
    var out: seq<Channel>, epgUrl: Option<string> := [], None;
    var name: Option<string> := None;
    var logo, group, tvgId, tvgName, entryType := "", "", "", "", "";
    NoLinesRun(attrs);
    for i := 0 to |lines|
      invariant RunLines(attrs, lines[..i]) == Machine(Pending(name, logo, group, tvgId, tvgName, entryType), out, epgUrl)
    {
      var line := lines[i];
      NextLineRun(attrs, lines, i);
      if line == "" {
        continue;
      }
      if IsHeader(line) {
        if epgUrl.None? {
          epgUrl := EpgOf(attrs, line);
        }
        continue;
      }
      if IsInfo(line) {
        var parts := InfoParts(line);
        var m := attrs(parts.0);
        tvgId, tvgName, logo, group, entryType := At(m, "tvg-id"), At(m, "tvg-name"), At(m, "tvg-logo"), At(m, "group-title"), At(m, "type");
        name := Some(if parts.1 != "" then parts.1 else if tvgName != "" then tvgName else "Unknown");
        continue;
      }
      if IsGroup(line) {
        group := GroupText(line);
        continue;
      }
      if "#" <= line || !LooksLikeUrl(line) {
        continue;
      }
      out := out + [Channel(name.GetOr(line), line, logo, group, tvgId, tvgName, NonEmpty(entryType))];
      name, logo, group, tvgId, tvgName, entryType := None, "", "", "", "", "";
    }
    assert lines[..|lines|] == lines;
    MachineMeetsLines(attrs, lines);
    MachineFindsEpg(attrs, lines);
    if out == [] {
      return Err(NoChannels);
    }
    r := Ok(ParseResult(out, epgUrl));
  }

  lemma NoLinesRun(attrs: Attrs)
    ensures RunLines(attrs, []) == START
  {
  }

  lemma NextLineRun(attrs: Attrs, lines: seq<string>, i: nat)
    requires i < |lines|
    ensures RunLines(attrs, lines[..i + 1]) == Step(attrs, RunLines(attrs, lines[..i]), lines[i])
  {
    hide Step;
    assert lines[..i + 1][..i] == lines[..i];
  }

  lemma {:induction false} CrLfConcat(a: string, b: string)
    requires a == "" || b == "" || a[|a| - 1] != '\r' || b[0] != '\n'
    ensures ReplaceCrLf(a + b) == ReplaceCrLf(a) + ReplaceCrLf(b)
    decreases |a|
  {
    hide ReplaceCrLf;
    if a == "" {
      assert a + b == b && ReplaceCrLf(a) == "" by { NothingReplaced(); }
    } else if "\r\n" <= a {
      CrLfConcat(a[2..], b);
      assert (a + b)[2..] == a[2..] + b && "\r\n" <= a + b;
      PairReplaced(a);
      PairReplaced(a + b);
    } else {
      CrLfConcat(a[1..], b);
      assert (a + b)[1..] == a[1..] + b;
      NoCrLfAcross(a, b);
      CharKept(a);
      CharKept(a + b);
    }
  }

  lemma NothingReplaced()
    ensures ReplaceCrLf("") == ""
  {
  }

  lemma PairReplaced(s: string)
    requires "\r\n" <= s
    ensures ReplaceCrLf(s) == "\n" + ReplaceCrLf(s[2..])
  {
  }

  lemma CharKept(s: string)
    requires s != "" && !("\r\n" <= s)
    ensures ReplaceCrLf(s) == [s[0]] + ReplaceCrLf(s[1..])
  {
  }

  lemma NoCrLfAcross(a: string, b: string)
    requires a != "" && !("\r\n" <= a) && (b == "" || a[|a| - 1] != '\r' || b[0] != '\n')
    ensures !("\r\n" <= a + b)
  {
    var s := a + b;
    if |a| >= 2 {
      assert s[..2] == a[..2];
    } else if b != "" {
      assert s[0] == a[0] && s[1] == b[0];
    } else {
      assert s == a;
    }
  }

  lemma {:induction false} CrConcat(a: string, b: string)
    ensures ReplaceCr(a + b) == ReplaceCr(a) + ReplaceCr(b)
  {
    if a == "" {
      assert a + b == b;
    } else {
      CrConcat(a[1..], b);
      assert (a + b)[1..] == a[1..] + b;
    }
  }

  /** `end` is one whole line end between the two texts. */
  predicate CutAt(a: string, end: string, b: string) {
    || (end == "\n" && (a == "" || a[|a| - 1] != '\r'))
    || end == "\r\n"
    || (end == "\r" && (b == "" || b[0] != '\n'))
  }

  /** The lines of a text in two parts, the first without its line end. */
  lemma LinesSplit(a: string, end: string, b: string)
    requires CutAt(a, end, b)
    ensures Lines(a + end + b) == Lines(a) + Lines(b)
  {
    hide Text.Split, Text.Trim, TrimAll, ReplaceCr, ReplaceCrLf;
    assert a + end + b == a + (end + b);
    CrLfConcat(a, end + b);
    CrConcat(ReplaceCrLf(a), ReplaceCrLf(end + b));
    EndReplaced(a, end, b);
    var x, y := ReplaceCr(ReplaceCrLf(a)), ReplaceCr(ReplaceCrLf(b));
    assert ReplaceCr(ReplaceCrLf(a + end + b)) == x + ['\n'] + y;
    Text.SplitConcat(x, '\n', y);
    TrimAllConcat(Text.Split(x, '\n'), Text.Split(y, '\n'));
  }

  lemma EndReplaced(a: string, end: string, b: string)
    requires CutAt(a, end, b)
    ensures ReplaceCr(ReplaceCrLf(end + b)) == "\n" + ReplaceCr(ReplaceCrLf(b))
  {
    hide ReplaceCrLf, ReplaceCr;
    var s := end + b;
    if end == "\r\n" {
      assert s[..2] == "\r\n" && s[2..] == b;
      PairReplaced(s);
      CrFront('\n', ReplaceCrLf(b));
    } else {
      assert s[0] == end[0] && s[1..] == b;
      NoPair(s);
      CharKept(s);
      CrFront(s[0], ReplaceCrLf(b));
    }
  }

  lemma NoPair(s: string)
    requires s != "" && (s[0] != '\r' || |s| == 1 || s[1] != '\n')
    ensures !("\r\n" <= s)
  {
  }

  lemma CrFront(c: char, s: string)
    requires c == '\r' || c == '\n'
    ensures ReplaceCr([c] + s) == "\n" + ReplaceCr(s)
  {
    assert ([c] + s)[1..] == s;
  }

  lemma TrimAllConcat(a: seq<string>, b: seq<string>)
    ensures TrimAll(a + b) == TrimAll(a) + TrimAll(b)
  {
    hide Text.Trim;
  }

  /** Text cut just after an accepted address gives the channels of its two parts, one after the
      other, and the guide address of the first that has one; whatever the second part is. */
  lemma ParseSplit(attrs: Attrs, a: string, end: string, b: string)
    requires CutAt(a, end, b)
    requires Parsed(attrs, a).Ok? && Accepted(Lines(a)[|Lines(a)| - 1])
    ensures Parsed(attrs, a + end + b) == Ok(ParseResult(
              Channels(attrs, Lines(a)) + Channels(attrs, Lines(b)),
              if FirstEpg(attrs, Lines(a)).Some? then FirstEpg(attrs, Lines(a)) else FirstEpg(attrs, Lines(b))))
    ensures Parsed(attrs, b).Ok? ==>
      Parsed(attrs, a + end + b).value.channels == Parsed(attrs, a).value.channels + Parsed(attrs, b).value.channels
  {
    hide Lines, Channels, FirstEpg, LooksLikeEnigma2, Accepted;
    LinesSplit(a, end, b);
    assert SinceUrl(Lines(a)) == [];
    ChannelsSplit(attrs, Lines(a), Lines(b));
    FirstEpgConcat(attrs, Lines(a), Lines(b));
    SameFormat(a, end, b);
  }

  /** What comes behind an address does not make a playlist look like a bouquet. */
  lemma SameFormat(a: string, end: string, b: string)
    requires CutAt(a, end, b)
    requires Accepted(Lines(a)[|Lines(a)| - 1])
    ensures LooksLikeEnigma2(a + end + b) == LooksLikeEnigma2(a)
  {
    hide Lines, FirstMeaningful, Accepted;
    SomeLine(a);
    FormatByLines(a + end + b);
    FormatByLines(a);
    LinesSplit(a, end, b);
    LineKinds(Lines(a)[|Lines(a)| - 1]);
    MeaningfulStays(Lines(a), Lines(b));
  }

  lemma SomeLine(content: string)
    ensures Lines(content) != []
  {
  }

  /** The lines that are not blank. */
  function Shown(lines: seq<string>): seq<string> {
    if lines == [] then [] else (if Text.Trim(lines[0]) == "" then [] else [Text.Trim(lines[0])]) + Shown(lines[1..])
  }

  lemma {:induction false} FirstShown(lines: seq<string>)
    ensures FirstMeaningful(TrimAll(lines)) == if Shown(lines) == [] then None else Some(Shown(lines)[0])
  {
    hide Text.Trim;
    if lines != [] {
      FirstShown(lines[1..]);
      assert TrimAll(lines)[1..] == TrimAll(lines[1..]);
    }
  }

  /** Reading a carriage return and newline as two line ends only adds a blank line. */
  lemma {:induction false} SameShown(s: string)
    ensures var x, y := Text.Split(ReplaceCr(s), '\n'), Text.Split(ReplaceCr(ReplaceCrLf(s)), '\n');
      x[0] == y[0] && Shown(x[1..]) == Shown(y[1..])
    decreases |s|
  {
    hide Text.Split, Text.Trim, Shown;
    if s != "" {
      if "\r\n" <= s {
        SameShown(s[2..]);
        TwoEnds(s);
      } else {
        SameShown(s[1..]);
        OneChar(s);
      }
    }
  }

  lemma ShownHead(x: seq<string>, y: seq<string>)
    requires x != [] && y != [] && x[0] == y[0] && Shown(x[1..]) == Shown(y[1..])
    ensures Shown(x) == Shown(y)
  {
    hide Text.Trim;
  }

  lemma TwoEnds(s: string)
    requires "\r\n" <= s
    requires var x, y := Text.Split(ReplaceCr(s[2..]), '\n'), Text.Split(ReplaceCr(ReplaceCrLf(s[2..])), '\n');
      x[0] == y[0] && Shown(x[1..]) == Shown(y[1..])
    ensures var x, y := Text.Split(ReplaceCr(s), '\n'), Text.Split(ReplaceCr(ReplaceCrLf(s)), '\n');
      x[0] == y[0] && Shown(x[1..]) == Shown(y[1..])
  {
    hide Text.Split, Text.Trim, Shown;
    var p, q := ReplaceCr(s[2..]), ReplaceCr(ReplaceCrLf(s[2..]));
    var x, y := Text.Split(p, '\n'), Text.Split(q, '\n');
    assert s[0] == '\r' && s[1] == '\n' && s[1..][1..] == s[2..];
    assert ReplaceCr(s) == ['\n'] + (['\n'] + p);
    assert ReplaceCrLf(s) == "\n" + ReplaceCrLf(s[2..]);
    assert ("\n" + ReplaceCrLf(s[2..]))[1..] == ReplaceCrLf(s[2..]);
    assert ReplaceCr(ReplaceCrLf(s)) == ['\n'] + q;
    Text.SplitCons('\n', ['\n'] + p, '\n');
    Text.SplitCons('\n', p, '\n');
    Text.SplitCons('\n', q, '\n');
    assert Text.Split(ReplaceCr(s), '\n')[1..] == [""] + x;
    assert Text.Split(ReplaceCr(ReplaceCrLf(s)), '\n')[1..] == y;
    ShownHead(x, y);
    BlankIsNotShown(x);
  }

  lemma BlankIsNotShown(x: seq<string>)
    ensures Shown([""] + x) == Shown(x)
  {
    Text.TrimmedIsFixed("");
    assert ([""] + x)[1..] == x;
  }

  lemma OneChar(s: string)
    requires s != "" && !("\r\n" <= s)
    requires var x, y := Text.Split(ReplaceCr(s[1..]), '\n'), Text.Split(ReplaceCr(ReplaceCrLf(s[1..])), '\n');
      x[0] == y[0] && Shown(x[1..]) == Shown(y[1..])
    ensures var x, y := Text.Split(ReplaceCr(s), '\n'), Text.Split(ReplaceCr(ReplaceCrLf(s)), '\n');
      x[0] == y[0] && Shown(x[1..]) == Shown(y[1..])
  {
    hide Text.Split, Text.Trim, Shown;
    var p, q := ReplaceCr(s[1..]), ReplaceCr(ReplaceCrLf(s[1..]));
    var x, y := Text.Split(p, '\n'), Text.Split(q, '\n');
    var c := if s[0] == '\r' then '\n' else s[0];
    assert ReplaceCr(s) == [c] + p;
    assert ([s[0]] + ReplaceCrLf(s[1..]))[1..] == ReplaceCrLf(s[1..]);
    assert ReplaceCr(ReplaceCrLf(s)) == [c] + q;
    Text.SplitCons(c, p, '\n');
    Text.SplitCons(c, q, '\n');
    if c == '\n' {
      ShownHead(x, y);
      assert ([""] + x)[1..] == x && ([""] + y)[1..] == y;
    }
  }

  lemma FormatByLines(s: string)
    ensures LooksLikeEnigma2(s) ==
      match FirstMeaningful(Lines(s))
      case None => false
      case Some(line) => !("#EXTM3U" <= line || "#EXTINF" <= line) && ("#SERVICE" <= line || "#NAME" <= line)
  {
    hide Text.Split, Shown, TrimAll, FirstMeaningful;
    SameShown(s);
    var x, y := Text.Split(ReplaceCr(s), '\n'), Text.Split(ReplaceCr(ReplaceCrLf(s)), '\n');
    ShownHead(x, y);
    FirstShown(x);
    FirstShown(y);
  }

  lemma {:induction false} MeaningfulStays(lines: seq<string>, more: seq<string>)
    requires lines != [] && lines[|lines| - 1] != ""
    ensures FirstMeaningful(lines + more) == FirstMeaningful(lines)
  {
    assert (lines + more)[1..] == lines[1..] + more;
    if lines[0] == "" {
      MeaningfulStays(lines[1..], more);
    }
  }

  // ---------------------------------------------------------------------------------------------
  // Whole texts

  lemma {:induction false} PlainText(s: string)
    requires '\r' !in s && '\n' !in s
    ensures ReplaceCr(ReplaceCrLf(s)) == s
  {
    if s != "" {
      PlainText(s[1..]);
      assert s == [s[0]] + s[1..] && s[0] in s;
      assert !("\r\n" <= s) && ReplaceCrLf(s) == [s[0]] + ReplaceCrLf(s[1..]);
      assert ([s[0]] + ReplaceCrLf(s[1..]))[1..] == ReplaceCrLf(s[1..]);
    }
  }

  lemma OneLine(s: string)
    requires '\r' !in s && '\n' !in s
    ensures Lines(s) == [Text.Trim(s)]
  {
    hide Text.Trim;
    PlainText(s);
    Text.SplitNone(s, '\n');
  }

  predicate IsLineEnd(end: string) { end in ["\n", "\r\n", "\r"] }

  lemma LinesBefore(line: string, end: string, rest: string)
    requires IsLineEnd(end) && '\r' !in line && '\n' !in line && rest != "" && rest[0] != '\n'
    ensures Lines(line + end + rest) == [Text.Trim(line)] + Lines(rest)
  {
    hide Lines;
    OneLine(line);
    assert line != "" ==> line[|line| - 1] in line;
    LinesSplit(line, end, rest);
  }

  /** A directive with white space behind it. */
  lemma TrimmedDirective(head: string, tail: string)
    requires head != "" && !Text.IsSpace(head[0]) && !Text.IsSpace(head[|head| - 1])
    ensures Text.Trim(head + tail) == head + Text.TrimEnd(tail)
  {
    hide Text.IsSpace, Text.TrimEnd;
    Text.TrimEndBehind(head, tail);
    assert Text.TrimStart(head + tail) == head + tail;
  }

  lemma FirstComma(a: string, rest: string)
    requires ',' !in a
    ensures Text.Find(a + "," + rest, ",", 0) == Some(|a|)
  {
    var s := a + "," + rest;
    assert Text.OccursAt(s, ",", |a|);
    forall i | 0 <= i < |a| ensures !Text.OccursAt(s, ",", i) {
      assert s[i] == a[i] && a[i] in a;
      assert s[i..i + 1] == [s[i]];
    }
  }

  /** The one channel of an `#EXTINF` line, whose attribute text and name are these, and an address. */
  function Described(m: map<string, string>, name: string, url: string): Channel {
    Channel(
      if name != "" then name else if "tvg-name" in m && m["tvg-name"] != "" then m["tvg-name"] else "Unknown", url,
      if "tvg-logo" in m then m["tvg-logo"] else "", if "group-title" in m then m["group-title"] else "",
      if "tvg-id" in m then m["tvg-id"] else "", if "tvg-name" in m then m["tvg-name"] else "",
      if "type" in m && m["type"] != "" then Some(m["type"]) else None)
  }

  lemma InfoWithComma(attrs: Attrs, a: string, n: string, url: string)
    requires ',' !in a
    ensures var line := Text.Trim("#EXTINF" + a + "," + n);
      IsInfo(line) && Emit(FromInfo(attrs, line), url) == Described(attrs(a), Text.Trim(n), url)
  {
    hide Text.Trim, Text.TrimEnd, Text.Find;
    var head := "#EXTINF" + a + ",";
    assert !Text.IsSpace('#') && !Text.IsSpace(',') && head[0] == '#' && head[|head| - 1] == ',';
    TrimmedDirective(head, n);
    var line := head + Text.TrimEnd(n);
    InfoOf(line, a + "," + Text.TrimEnd(n));
    FirstComma(a, Text.TrimEnd(n));
    assert (a + "," + Text.TrimEnd(n))[|a| + 1..] == Text.TrimEnd(n) && (a + "," + Text.TrimEnd(n))[..|a|] == a;
    Text.TrimOfTrimEnd(n);
  }

  lemma InfoOf(line: string, rest: string)
    requires line == "#EXTINF" + rest
    ensures IsInfo(line) && line[7..] == rest
  {
    DiffersAt("#EXTM3U", line, 4);
  }

  lemma DiffersAt(p: string, s: string, i: nat)
    requires i < |p| && i < |s| && p[i] != s[i]
    ensures !(p <= s)
  {
  }

  lemma InfoWithoutComma(attrs: Attrs, a: string, url: string)
    requires ',' !in a
    ensures var line := Text.Trim("#EXTINF" + a);
      IsInfo(line) && Emit(FromInfo(attrs, line), url) == Described(attrs(Text.TrimEnd(a)), "", url)
  {
    hide Text.Trim, Text.TrimEnd, Text.Find;
    assert "#EXTINF"[0] == '#' && "#EXTINF"[6] == 'F' && !Text.IsSpace('#') && !Text.IsSpace('F');
    TrimmedDirective("#EXTINF", a);
    var rest := Text.TrimEnd(a);
    InfoOf("#EXTINF" + rest, rest);
    assert forall c <- rest :: c in a by { assert rest <= a; }
    NoComma(rest);
  }

  lemma NoComma(s: string)
    requires ',' !in s
    ensures Text.Find(s, ",", 0) == None
  {
    forall i: nat ensures !Text.OccursAt(s, ",", i) {
      assert i < |s| ==> s[i] in s && s[i..i + 1] == [s[i]];
    }
  }

  lemma ChannelsOfInfo(attrs: Attrs, info: string, url: string)
    requires IsInfo(info) && Accepted(url)
    ensures Channels(attrs, [info, url]) == [Emit(FromInfo(attrs, info), url)] && FirstEpg(attrs, [info, url]) == None
  {
    hide FromInfo, LooksLikeUrl, EpgOf;
    LineKinds(info);
    LineKinds(url);
    OneMoreChannel(attrs, [info], url);
    OneMoreChannel(attrs, [], info);
    assert [info] + [url] == [info, url] && [] + [info] == [info];
    FirstEpgConcat(attrs, [info], [url]);
    NoGuide(attrs, info);
    NoGuide(attrs, url);
  }

  lemma OneMoreChannel(attrs: Attrs, lines: seq<string>, line: string)
    ensures Channels(attrs, lines + [line]) == Channels(attrs, lines) + if Accepted(line) then [Emit(Said(attrs, SinceUrl(lines)), line)] else []
    ensures SinceUrl(lines + [line]) == if Accepted(line) then [] else SinceUrl(lines) + [line]
    ensures LastInfo(lines + [line]) == if IsInfo(line) then Some(line) else LastInfo(lines)
    ensures LastGroupLine(lines + [line]) == if IsInfo(line) || IsGroup(line) then Some(line) else LastGroupLine(lines)
  {
    hide Accepted, IsInfo, IsGroup, Said;
    assert (lines + [line])[..|lines|] == lines;
  }

  lemma NoGuide(attrs: Attrs, line: string)
    requires !IsHeader(line)
    ensures FirstEpg(attrs, [line]) == None
  {
    assert [line][1..] == [];
  }

  lemma ChannelsOfGroup(attrs: Attrs, info: string, group: string, url: string)
    requires IsInfo(info) && IsGroup(group) && Accepted(url)
    ensures Channels(attrs, [info, group, url]) == [Emit(FromInfo(attrs, info), url).(group := GroupText(group))]
    ensures FirstEpg(attrs, [info, group, url]) == None
  {
    hide FromInfo, LooksLikeUrl, EpgOf, GroupText;
    LineKinds(info);
    LineKinds(group);
    LineKinds(url);
    OneMoreChannel(attrs, [info, group], url);
    OneMoreChannel(attrs, [info], group);
    OneMoreChannel(attrs, [], info);
    assert [info, group] + [url] == [info, group, url] && [info] + [group] == [info, group] && [] + [info] == [info];
    FirstEpgConcat(attrs, [info, group], [url]);
    FirstEpgConcat(attrs, [info], [group]);
    NoGuide(attrs, info);
    NoGuide(attrs, group);
    NoGuide(attrs, url);
  }

  lemma InfoIsNoBouquet(content: string, lines: seq<string>)
    requires content != "" && Lines(content) == lines && lines != [] && IsInfo(lines[0])
    ensures !LooksLikeEnigma2(content)
  {
    hide Lines;
    FormatByLines(content);
    LineKinds(lines[0]);
  }

  predicate PlainAddress(url: string) { Accepted(url) && Text.Trimmed(url) && '\r' !in url && '\n' !in url }

  lemma AddressLine(url: string)
    requires PlainAddress(url)
    ensures Lines(url) == [url] && url != "" && url[0] != '\n'
  {
    hide Lines;
    OneLine(url);
    Text.TrimmedIsFixed(url);
    assert url[0] in url;
  }

  /** A directive with a comma and an address behind it parse to one channel: its name is what
      follows the first comma, and all else are the attributes of what stands before it. */
  lemma InfoNamesChannel(attrs: Attrs, a: string, n: string, end: string, url: string)
    requires ',' !in a && (forall c <- a + n :: c != '\r' && c != '\n') && IsLineEnd(end) && PlainAddress(url)
    ensures Parsed(attrs, "#EXTINF" + a + "," + n + end + url)
         == Ok(ParseResult([Described(attrs(a), Text.Trim(n), url)], None))
  {
    hide Lines, IsInfo, FromInfo, Accepted, Described, LooksLikeEnigma2, Channels, FirstEpg, Text.Trim, Text.Trimmed;
    var line := "#EXTINF" + a + "," + n;
    var content := line + end + url;
    AddressLine(url);
    PlainLine(a, n);
    LinesBefore(line, end, url);
    InfoWithComma(attrs, a, n, url);
    assert [Text.Trim(line)] + [url] == [Text.Trim(line), url];
    ChannelsOfInfo(attrs, Text.Trim(line), url);
    InfoIsNoBouquet(content, [Text.Trim(line), url]);
  }

  lemma PlainLine(a: string, n: string)
    requires forall c <- a + n :: c != '\r' && c != '\n'
    ensures '\r' !in "#EXTINF" + a + "," + n && '\n' !in "#EXTINF" + a + "," + n
    ensures '\r' !in "#EXTINF" + a && '\n' !in "#EXTINF" + a
  {
    assert forall c <- a :: c in a + n;
    assert forall c <- n :: c in a + n;
  }

  /** Without a comma all of it is attribute text, less white space at its end, and gives the name too. */
  lemma InfoWithoutName(attrs: Attrs, a: string, end: string, url: string)
    requires ',' !in a && '\r' !in a && '\n' !in a && IsLineEnd(end) && PlainAddress(url)
    ensures Parsed(attrs, "#EXTINF" + a + end + url)
         == Ok(ParseResult([Described(attrs(Text.TrimEnd(a)), "", url)], None))
  {
    hide Lines, IsInfo, FromInfo, Accepted, Described, LooksLikeEnigma2, Channels, FirstEpg, Text.Trim, Text.Trimmed, Text.TrimEnd;
    var line := "#EXTINF" + a;
    AddressLine(url);
    assert a + "" == a;
    PlainLine(a, "");
    LinesBefore(line, end, url);
    InfoWithoutComma(attrs, a, url);
    assert [Text.Trim(line)] + [url] == [Text.Trim(line), url];
    ChannelsOfInfo(attrs, Text.Trim(line), url);
    InfoIsNoBouquet(line + end + url, [Text.Trim(line), url]);
  }

  /** A group directive in between gives the group instead. */
  lemma GroupReplacesGroup(attrs: Attrs, a: string, n: string, g: string, end: string, url: string)
    requires ',' !in a && (forall c <- a + n :: c != '\r' && c != '\n') && '\r' !in g && '\n' !in g
    requires IsLineEnd(end) && PlainAddress(url)
    ensures Parsed(attrs, "#EXTINF" + a + "," + n + end + ("#EXTGRP:" + g + end + url))
         == Ok(ParseResult([Described(attrs(a), Text.Trim(n), url).(group := Text.Trim(g))], None))
  {
    hide Lines, IsInfo, IsGroup, FromInfo, Accepted, Described, LooksLikeEnigma2, Channels, FirstEpg, Text.Trim, Text.Trimmed, GroupText;
    var line, group := "#EXTINF" + a + "," + n, "#EXTGRP:" + g;
    AddressLine(url);
    PlainLine(a, n);
    GroupLine(g);
    LinesBefore(group, end, url);
    assert (group + end + url)[0] == '#';
    LinesBefore(line, end, group + end + url);
    InfoWithComma(attrs, a, n, url);
    var lines := [Text.Trim(line), Text.Trim(group), url];
    assert [Text.Trim(line)] + ([Text.Trim(group)] + [url]) == lines;
    ChannelsOfGroup(attrs, Text.Trim(line), Text.Trim(group), url);
    InfoIsNoBouquet(line + end + (group + end + url), lines);
  }

  lemma GroupLine(g: string)
    requires '\r' !in g && '\n' !in g
    ensures '\r' !in "#EXTGRP:" + g && '\n' !in "#EXTGRP:" + g
    ensures var line := Text.Trim("#EXTGRP:" + g); IsGroup(line) && GroupText(line) == Text.Trim(g)
  {
    hide Text.Trim, Text.TrimEnd;
    assert "#EXTGRP:"[0] == '#' && "#EXTGRP:"[7] == ':' && !Text.IsSpace('#') && !Text.IsSpace(':');
    TrimmedDirective("#EXTGRP:", g);
    Text.TrimOfTrimEnd(g);
    var line := "#EXTGRP:" + Text.TrimEnd(g);
    assert line[8..] == Text.TrimEnd(g);
    DiffersAt("#EXTM3U", line, 4);
    DiffersAt("#EXTINF", line, 4);
  }

  /** A header's guide address: its `url-tvg` if it has one, else its `x-tvg-url`; an empty one is none. */
  lemma HeaderGivesGuide(attrs: Attrs, h: string, lines: seq<string>)
    ensures var m, header := attrs("#EXTM3U" + h), ["#EXTM3U" + h];
      FirstEpg(attrs, header + lines) ==
        if "url-tvg" in m && m["url-tvg"] != "" then Some(m["url-tvg"])
        else if "url-tvg" !in m && "x-tvg-url" in m && m["x-tvg-url"] != "" then Some(m["x-tvg-url"])
        else FirstEpg(attrs, lines)
  {
    assert (["#EXTM3U" + h] + lines)[1..] == lines;
    assert ("#EXTM3U" + h)[..7] == "#EXTM3U";
  }

  // ---------------------------------------------------------------------------------------------
  // Which lines count

  /** An address starts with one of nine schemes, in any case. */
  lemma AddressIs(line: string)
    ensures Accepted(line)
      <==> exists p <- ["http://", "https://", "rtmp://", "rtmps://", "rtsp://", "udp://", "rtp://", "mms://", "mmsh://"] ::
             p <= Text.LowerAscii(line)
  {
    hide Text.LowerAscii;
    var prefixes := ["http://", "https://", "rtmp://", "rtmps://", "rtsp://", "udp://", "rtp://", "mms://", "mmsh://"];
    LowerHash(line);
    var lower := Text.LowerAscii(line);
    if p :| p in prefixes && p <= lower {
      assert p[0] == lower[0] != '#';
      var i :| 0 <= i < |prefixes| && prefixes[i] == p;
      assert URL_PREFIXES[i] <= lower;
    }
    if Accepted(line) {
      var i :| 0 <= i < |URL_PREFIXES| && URL_PREFIXES[i] <= lower;
      assert URL_PREFIXES[i] in prefixes;
    }
  }

  lemma LowerHash(line: string)
    ensures line == "" ==> Text.LowerAscii(line) == ""
    ensures "#" <= line ==> "#" <= Text.LowerAscii(line)
  {
    assert "#" <= line ==> line[0] == '#';
  }

  /** An address alone is a channel named by it, without anything else. */
  lemma BareAddress(attrs: Attrs, url: string)
    requires PlainAddress(url)
    ensures Parsed(attrs, url) == Ok(ParseResult([Channel(url, url, "", "", "", "", None)], None))
  {
    hide Lines, LooksLikeUrl, Text.Trimmed, LooksLikeEnigma2, FirstEpg;
    AddressLine(url);
    LineKinds(url);
    OneMoreChannel(attrs, [], url);
    assert [] + [url] == [url];
    NoGuide(attrs, url);
    assert !LooksLikeEnigma2(url) by {
      FormatByLines(url);
      assert url[0] != '#';
      DiffersAt("#SERVICE", url, 0);
      DiffersAt("#NAME", url, 0);
    }
    assert Said(attrs, []) == NOTHING;
    assert Channels(attrs, []) == [] && SinceUrl([]) == [];
    assert Channels(attrs, [url]) == [Emit(NOTHING, url)];
  }

  /** Any other line counts for no channel, wherever it stands. */
  lemma OtherLinesCountForNothing(attrs: Attrs, a: seq<string>, line: string, b: seq<string>)
    requires !("#EXTINF" <= line) && !("#EXTGRP:" <= line) && !Accepted(line)
    ensures Channels(attrs, a + [line] + b) == Channels(attrs, a + b)
  {
    hide RunLines, Step, Channels, Said, SinceUrl;
    OneMoreLine(attrs, a, line);
    StepPasses(attrs, RunLines(attrs, a), line);
    SameFrom(attrs, a + [line], a, b);
    MachineMeetsLines(attrs, a + [line] + b);
    MachineMeetsLines(attrs, a + b);
  }

  /** A directive takes back all that the one before it said. */
  lemma NewInfoReplaces(attrs: Attrs, a: seq<string>, first: string, second: string, b: seq<string>)
    requires IsInfo(first) && IsInfo(second)
    ensures Channels(attrs, a + [first, second] + b) == Channels(attrs, a + [second] + b)
  {
    hide RunLines, Channels, Said, SinceUrl, IsHeader, FromInfo, LooksLikeUrl;
    LineKinds(first);
    LineKinds(second);
    OneMoreLine(attrs, a, first);
    OneMoreLine(attrs, a + [first], second);
    OneMoreLine(attrs, a, second);
    assert a + [first] + [second] == a + [first, second];
    assert first != "" && second != "";
    SameFrom(attrs, a + [first, second], a + [second], b);
    MachineMeetsLines(attrs, a + [first, second] + b);
    MachineMeetsLines(attrs, a + [second] + b);
  }

  lemma OneMoreLine(attrs: Attrs, lines: seq<string>, line: string)
    ensures RunLines(attrs, lines + [line]) == Step(attrs, RunLines(attrs, lines), line)
  {
    hide Step;
    assert (lines + [line])[..|lines|] == lines;
  }

  /** All but the guide address. */
  predicate SameChannels(s: Machine, t: Machine) { s.pending == t.pending && s.out == t.out }

  lemma StepPasses(attrs: Attrs, s: Machine, line: string)
    requires !("#EXTINF" <= line) && !("#EXTGRP:" <= line) && !Accepted(line)
    ensures SameChannels(Step(attrs, s, line), s)
  {
    hide LooksLikeUrl, EpgOf;
  }

  lemma {:induction false} SameFrom(attrs: Attrs, a: seq<string>, c: seq<string>, b: seq<string>)
    requires SameChannels(RunLines(attrs, a), RunLines(attrs, c))
    ensures SameChannels(RunLines(attrs, a + b), RunLines(attrs, c + b))
  {
    hide RunLines, LooksLikeUrl, FromInfo, EpgOf, GroupText, IsInfo, IsGroup, IsHeader;
    if b == [] {
      assert a + b == a && c + b == c;
    } else {
      var front, last := b[..|b| - 1], b[|b| - 1];
      SameFrom(attrs, a, c, front);
      OneMoreLine(attrs, a + front, last);
      OneMoreLine(attrs, c + front, last);
      assert a + front + [last] == a + b && c + front + [last] == c + b;
    }
  }

  lemma {:induction false} ChannelsAreAddresses(attrs: Attrs, lines: seq<string>)
    ensures Channels(attrs, lines) == [] <==> forall line <- lines :: !Accepted(line)
  {
    hide Accepted, Said, SinceUrl;
    if lines != [] {
      ChannelsAreAddresses(attrs, lines[..|lines| - 1]);
      assert lines == lines[..|lines| - 1] + [lines[|lines| - 1]];
    }
  }

  lemma {:induction false} FirstMeaningfulIs(lines: seq<string>)
    ensures match FirstMeaningful(lines)
      case None => forall line <- lines :: line == ""
      case Some(l) => l != "" && exists i :: 0 <= i < |lines| && lines[i] == l && forall j :: 0 <= j < i ==> lines[j] == ""
  {
    if lines != [] && lines[0] == "" {
      FirstMeaningfulIs(lines[1..]);
      assert lines == [lines[0]] + lines[1..];
      var found := FirstMeaningful(lines[1..]);
      if found.Some? {
        var i :| 0 <= i < |lines[1..]| && lines[1..][i] == found.value && forall j :: 0 <= j < i ==> lines[1..][j] == "";
        assert lines[i + 1] == found.value;
        assert forall j :: 0 < j < i + 1 ==> lines[j] == lines[1..][j - 1];
      }
    }
  }

  /** The first line that is not blank marks a receiver's bouquet. */
  ghost predicate StartsBouquet(lines: seq<string>) {
    exists i :: 0 <= i < |lines| && ("#SERVICE" <= lines[i] || "#NAME" <= lines[i]) && forall j :: 0 <= j < i ==> lines[j] == ""
  }

  lemma BouquetIff(content: string)
    ensures LooksLikeEnigma2(content) <==> StartsBouquet(Lines(content))
  {
    hide Lines, LooksLikeEnigma2, FirstMeaningful;
    var lines := Lines(content);
    FormatByLines(content);
    FirstMeaningfulIs(lines);
    if StartsBouquet(lines) {
      var i :| 0 <= i < |lines| && ("#SERVICE" <= lines[i] || "#NAME" <= lines[i]) && forall j :: 0 <= j < i ==> lines[j] == "";
      assert lines[i] in lines && lines[i] != "";
      DiffersAt("#EXTM3U", lines[i], 1);
      DiffersAt("#EXTINF", lines[i], 1);
      var l := FirstMeaningful(lines).value;
      var k :| 0 <= k < |lines| && lines[k] == l && forall j :: 0 <= j < k ==> lines[j] == "";
      assert k == i;
    }
  }

  /** When a text is refused, and as what. */
  lemma RefusedAs(attrs: Attrs, content: string)
    ensures Parsed(attrs, content) == Err(EmptyText) <==> content == ""
    ensures Parsed(attrs, content) == Err(Enigma2Bouquet) <==> content != "" && StartsBouquet(Lines(content))
    ensures Parsed(attrs, content) == Err(NoChannels)
      <==> content != "" && !StartsBouquet(Lines(content)) && forall line <- Lines(content) :: !Accepted(line)
  {
    hide Lines, LooksLikeEnigma2, StartsBouquet, Channels, Accepted, FirstEpg;
    BouquetIff(content);
    ChannelsAreAddresses(attrs, Lines(content));
  }
}
