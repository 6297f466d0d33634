/** Reliability memory of providers: per-title verdicts, a running total per provider, and one
    persisted record per identity scope (crates/engine/src/provider_health.rs). */
module ProviderHealth {
  import opened Wrappers
  import opened Sums
  import Text

  const MIN_I32 := -0x8000_0000
  const MAX_I32 := 0x7fff_ffff

  /** `as i32`, and what a release build's `+` on `i32` leaves: two's complement truncation. */
  function AsI32(n: int): (r: int)
    ensures -0x8000_0000 <= r <= 0x7fff_ffff && (n - r) % 0x1_0000_0000 == 0
    ensures MIN_I32 <= n <= MAX_I32 ==> r == n
    ensures n > MAX_I32 ==> r < n
  {
    (n + 0x8000_0000) % 0x1_0000_0000 - 0x8000_0000
  }

  lemma AsI32Absorbs(a: int, b: int)
    ensures AsI32(AsI32(a) + b) == AsI32(a + b)
  {
    var m := 0x1_0000_0000;
    assert AsI32(a) + 0x8000_0000 == a + 0x8000_0000 - m * ((a + 0x8000_0000) / m);
    assert (AsI32(a) + b + 0x8000_0000) % m == (a + b + 0x8000_0000) % m;
  }

  function Max(a: int, b: int): int { if a >= b then a else b }

  /** The four maps of one identity scope. */
  datatype Health = Health(server: map<string, int>, stream: map<string, int>,
                           lastDelta: map<string, int>, totals: map<string, int>)

  const EMPTY := Health(map[], map[], map[], map[])

  function Lookup(m: map<string, int>, k: string): Option<int> {
    if k in m then Some(m[k]) else None
  }

  /** A title's net: server verdict plus stream verdict. */
  function Net(h: Health, key: string): int {
    Lookup(h.server, key).GetOr(0) + Lookup(h.stream, key).GetOr(0)
  }

  function Total(h: Health, provider: string): int {
    Lookup(h.totals, provider).GetOr(0)
  }

  // ---------------------------------------------------------------------------------------------
  // Memory keys

  datatype Domain = Movies | Series | Anime | AsianDrama | Iptv | Torrent

  function DebugName(d: Domain): string {
    match d
    case Movies => "Movies"
    case Series => "Series"
    case Anime => "Anime"
    case AsianDrama => "AsianDrama"
    case Iptv => "Iptv"
    case Torrent => "Torrent"
  }

  /** The position of the last `c`, as `rfind`. */
  function LastIndexOf(s: string, c: char): (r: Option<nat>)
    ensures r.Some? ==> r.value < |s| && s[r.value] == c && c !in s[r.value + 1..]
  {
    if s == "" then None
    else if s[|s| - 1] == c then Some(|s| - 1)
    else LastIndexOf(s[..|s| - 1], c)
  }

  function NormalizeProvider(provider: string): string {
    var id := Text.Trim(provider);
    var lower := Text.LowerAscii(id);
    if id == "" then ""
    else if Text.EndsWith(lower, ":sub") || Text.EndsWith(lower, ":dub") then
      id[..LastIndexOf(id, ':').GetOr(|id|)]
    else id
  }

  /** A provider id is trimmed, and loses a last `:sub` or `:dub`, in any case. */
  lemma ProviderIs(provider: string)
    ensures var id := Text.Trim(provider); var n := |id| - 4;
      NormalizeProvider(provider) == if n >= 0 && Text.LowerAscii(id)[n..] in [":sub", ":dub"] then id[..n] else id
  {
    hide Text.Trim, Text.LowerAscii;
    var id := Text.Trim(provider);
    var lower, n := Text.LowerAscii(id), |id| - 4;
    if n >= 0 && lower[n..] in [":sub", ":dub"] {
      assert lower[n..][0] == ':' && lower[n..][1] != ':' && lower[n..][2] != ':' && lower[n..][3] != ':';
      assert lower[n] == ':' && id[n] == ':';
      forall i | n < i < |id| ensures id[i] != ':' {
        assert lower[i] == lower[n..][i - n];
      }
      LastIs(id, ':', n);
    }
  }

  lemma LastIs(s: string, c: char, n: nat)
    requires n < |s| && s[n] == c && forall i :: n < i < |s| ==> s[i] != c
    ensures LastIndexOf(s, c) == Some(n)
  {
    if n < |s| - 1 {
      LastIs(s[..|s| - 1], c, n);
    }
  }

  function MemoryKey(d: Domain, contentId: int, season: int, episode: int, provider: string): string {
    var norm := NormalizeProvider(provider);
    match d
    case Movies => "movie" + ":" + (Text.Decimal(contentId) + ":" + norm)
    case Series =>
      "tv" + ":" + (Text.Decimal(contentId) + ":"
                    + (("s" + Text.Decimal(season) + "e" + Text.Decimal(episode)) + ":" + norm))
    case Anime =>
      "anime" + ":" + (Text.Decimal(contentId) + ":" + (("e" + Text.Decimal(episode)) + ":" + norm))
    case _ => DebugName(d) + ":" + (Text.Decimal(contentId) + ":" + norm)
  }

  function ProviderOf(key: string): Option<string> {
    var parts := Text.Split(key, ':');
    var found :=
      if parts[0] == "movie" && |parts| >= 3 then Some(Text.Join(parts[2..], ':'))
      else if parts[0] == "tv" && |parts| >= 4 then Some(Text.Join(parts[3..], ':'))
      else if parts[0] == "anime" && |parts| >= 4 then Some(Text.Join(parts[3..], ':'))
      else if |parts| >= 3 then Some(Text.Join(parts[2..], ':'))
      else None;
    if found == Some("") then None else found
  }

  /** A title's memory key leads back to the provider bucket that `global_score_for` reads,
      whatever colons the provider id holds; only a blank id has no bucket. */
  lemma MemoryKeyNamesProvider(d: Domain, contentId: int, season: int, episode: int, provider: string)
    ensures ProviderOf(MemoryKey(d, contentId, season, episode, provider)) == NonBlank(NormalizeProvider(provider))
  {
    hide ProviderOf, NormalizeProvider, NonBlank, Text.Decimal;
    var norm := NormalizeProvider(provider);
    var id := Text.Decimal(contentId);
    match d {
      case Movies => ProviderAfterTwo("movie", id, norm);
      case Series => ProviderAfterThree("tv", id, "s" + Text.Decimal(season) + "e" + Text.Decimal(episode), norm);
      case Anime => ProviderAfterThree("anime", id, "e" + Text.Decimal(episode), norm);
      case _ =>
        OtherNames(d);
        ProviderAfterTwo(DebugName(d), id, norm);
    }
  }

  /** The keys written out, of the numbers and the provider as texts. */
  function KeyText(d: Domain, id: string, season: string, episode: string, norm: string): string {
    match d
    case Movies => "movie:" + id + ":" + norm
    case Series => "tv:" + id + ":s" + season + "e" + episode + ":" + norm
    case Anime => "anime:" + id + ":e" + episode + ":" + norm
    case AsianDrama => "AsianDrama:" + id + ":" + norm
    case Iptv => "Iptv:" + id + ":" + norm
    case Torrent => "Torrent:" + id + ":" + norm
  }

  lemma MemoryKeyIs(d: Domain, contentId: int, season: int, episode: int, provider: string)
    ensures MemoryKey(d, contentId, season, episode, provider)
         == KeyText(d, Text.Decimal(contentId), Text.Decimal(season), Text.Decimal(episode), NormalizeProvider(provider))
  {
    hide NormalizeProvider, Text.Decimal;
    var id, norm := Text.Decimal(contentId), NormalizeProvider(provider);
    match d {
      case Movies => OfTwo("movie", "movie:", id, norm);
      case Series => OfEpisode(id, Text.Decimal(season), Text.Decimal(episode), norm);
      case Anime => OfAnime(id, Text.Decimal(episode), norm);
      case AsianDrama => OfTwo("AsianDrama", "AsianDrama:", id, norm);
      case Iptv => OfTwo("Iptv", "Iptv:", id, norm);
      case Torrent => OfTwo("Torrent", "Torrent:", id, norm);
    }
  }

  lemma OfTwo(name: string, head: string, id: string, norm: string)
    requires head == name + ":"
    ensures name + ":" + (id + ":" + norm) == head + id + ":" + norm
  {
  }

  lemma OfEpisode(id: string, s: string, e: string, norm: string)
    ensures "tv" + ":" + (id + ":" + (("s" + s + "e" + e) + ":" + norm)) == "tv:" + id + ":s" + s + "e" + e + ":" + norm
  {
    assert "tv" + ":" == "tv:" && ":" + "s" == ":s";
    assert id + ":" + (("s" + s + "e" + e) + ":" + norm) == id + ":s" + s + "e" + e + ":" + norm;
  }

  lemma OfAnime(id: string, e: string, norm: string)
    ensures "anime" + ":" + (id + ":" + (("e" + e) + ":" + norm)) == "anime:" + id + ":e" + e + ":" + norm
  {
    assert "anime" + ":" == "anime:" && ":" + "e" == ":e";
    assert id + ":" + (("e" + e) + ":" + norm) == id + ":e" + e + ":" + norm;
  }

  /** Which part of any key names the provider: all behind the second colon, and for episodes behind
      the third if there is one; the keys of fewer parts name none. */
  lemma KeyNames(a: string, b: string, c: string, rest: string)
    requires ':' !in a && ':' !in b && ':' !in c
    ensures ProviderOf(a) == None && ProviderOf(a + ":" + b) == None
    ensures ProviderOf(a + ":" + (b + ":" + c)) == NonBlank(c)
    ensures ProviderOf(a + ":" + (b + ":" + (c + ":" + rest))) == NonBlank(if a in ["tv", "anime"] then rest else c + ":" + rest)
  {
    hide Text.Split, Text.Join, ProviderOf;
    assert ProviderOf(a) == None && ProviderOf(a + ":" + b) == None by { ShortKeys(a, b); }
    if a == "tv" || a == "anime" {
      ThreeParts(a, b, c);
      ProviderAfterThree(a, b, c, rest);
    } else {
      ProviderAfterTwo(a, b, c);
      ProviderAfterTwo(a, b, c + ":" + rest);
    }
  }

  lemma ShortKeys(a: string, b: string)
    requires ':' !in a && ':' !in b
    ensures ProviderOf(a) == None && ProviderOf(a + ":" + b) == None
  {
    hide Text.Split, Text.Join;
    Text.SplitNone(a, ':');
    Text.SplitNone(b, ':');
    Text.SplitHead(a, ':', b);
  }

  lemma ThreeParts(a: string, b: string, c: string)
    requires ':' !in b && ':' !in c && (a == "tv" || a == "anime")
    ensures ProviderOf(a + ":" + (b + ":" + c)) == NonBlank(c)
  {
    hide Text.Split, Text.Join;
    Text.SplitNone(c, ':');
    Text.SplitHead(b, ':', c);
    Text.SplitHead(a, ':', b + ":" + c);
    Text.JoinSplit(c, ':');
    var parts := [a] + ([b] + [c]);
    assert parts[2..] == [c];
  }

  lemma OtherNames(d: Domain)
    requires d.AsianDrama? || d.Iptv? || d.Torrent?
    ensures ':' !in DebugName(d) && DebugName(d) != "tv" && DebugName(d) != "anime"
  {
    assert DebugName(d)[0] !in {'m', 't', 'a'};
  }

  function NonBlank(s: string): Option<string> { if s == "" then None else Some(s) }

  lemma ProviderAfterTwo(a: string, b: string, norm: string)
    requires ':' !in a && ':' !in b && a != "tv" && a != "anime"
    ensures ProviderOf(a + ":" + (b + ":" + norm)) == NonBlank(norm)
  {
    hide Text.Split, Text.Join;
    Text.SplitHead(b, ':', norm);
    Text.SplitHead(a, ':', b + ":" + norm);
    Text.JoinSplit(norm, ':');
    var parts := [a] + ([b] + Text.Split(norm, ':'));
    assert parts[0] == a && parts[2..] == Text.Split(norm, ':');
  }

  lemma ProviderAfterThree(a: string, b: string, c: string, norm: string)
    requires ':' !in b && ':' !in c && (a == "tv" || a == "anime")
    ensures ProviderOf(a + ":" + (b + ":" + (c + ":" + norm))) == NonBlank(norm)
  {
    hide Text.Split, Text.Join;
    Text.SplitHead(c, ':', norm);
    Text.SplitHead(b, ':', c + ":" + norm);
    Text.SplitHead(a, ':', b + ":" + (c + ":" + norm));
    Text.JoinSplit(norm, ':');
    var parts := [a] + ([b] + ([c] + Text.Split(norm, ':')));
    assert parts[0] == a && parts[3..] == Text.Split(norm, ':');
  }

  // ---------------------------------------------------------------------------------------------
  // One verdict

  datatype Event = ServerUp | ServerFail | StreamUp(wins: bool) | StreamFail {
    function Server(): Option<int> {
      match this
      case ServerUp => Some(2)
      case ServerFail => Some(-2)
      case _ => None
    }

    function Stream(): Option<int> {
      match this
      case StreamUp(_) => Some(2)
      case StreamFail => Some(-2)
      case _ => None
    }

    function Wins(): bool { StreamUp? && wins }
  }

  /** What a title's move from `before` to `after` adds to its provider's running total. */
  function Credited(before: int, after: int): (r: int)
    ensures after > before ==> r == Max(0, after) - Max(0, before)
    ensures after <= before ==> r == after - before
  {
    var delta := after - before;
    if delta <= 0 then delta else Max(delta - Max(-before, 0), 0)
  }

  function WithDelta(totals: map<string, int>, key: string, before: int, after: int): map<string, int> {
    match ProviderOf(key)
    case None => totals
    case Some(provider) =>
      var credited := Credited(before, after);
      var next := Max(AsI32(Lookup(totals, provider).GetOr(0) + credited), 0);
      if credited == 0 then totals
      else if next == 0 then totals - {provider}
      else totals[provider := next]
  }

  function WithServer(m: map<string, int>, key: string, server: Option<int>): map<string, int> {
    if server.Some? then m[key := server.value] else m
  }

  /** A recorded stream win blocks a later failure that does not win. */
  function WithStream(m: map<string, int>, key: string, stream: Option<int>, wins: bool): map<string, int> {
    var blocked := !wins && stream.Some? && stream.value < 0 && Lookup(m, key) == Some(2);
    if stream.Some? && !blocked then m[key := stream.value] else m
  }

  /** The state after one verdict; `set_verdict` is proved to compute it. */
  function Judged(h: Health, key: string, server: Option<int>, stream: Option<int>, wins: bool): Health {
    var server' := WithServer(h.server, key, server);
    var stream' := WithStream(h.stream, key, stream, wins);
    var before := Net(h, key);
    if server' == h.server && stream' == h.stream then h
    else
      var after := Net(Health(server', stream', map[], map[]), key);
      var delta := if after != before then after - before
                   else (if stream.Some? then stream else server).GetOr(Lookup(h.lastDelta, key).GetOr(0));
      Health(server', stream', h.lastDelta[key := delta],
             if before != after then WithDelta(h.totals, key, before, after) else h.totals)
  }

  function Recorded(h: Health, key: string, ev: Event): Health {
    Judged(h, key, ev.Server(), ev.Stream(), ev.Wins())
  }

  function Of(m: map<string, int>, key: string): int { if key in m then m[key] else 0 }

  /** What each event writes: a title's other verdict stays, and a stream win is not taken back. */
  lemma EventWrites(h: Health, key: string, ev: Event)
    ensures var h' := Recorded(h, key, ev);
      && (ev == ServerUp ==> h'.server == h.server[key := 2] && h'.stream == h.stream)
      && (ev == ServerFail ==> h'.server == h.server[key := -2] && h'.stream == h.stream)
      && (ev.StreamUp? ==> h'.stream == h.stream[key := 2] && h'.server == h.server)
      && (ev == StreamFail ==>
            h'.stream == (if key in h.stream && h.stream[key] == 2 then h.stream else h.stream[key := -2]) && h'.server == h.server)
      && Net(h', key) == Of(h'.server, key) + Of(h'.stream, key)
  {
    hide WithDelta;
    assert key in h.server && h.server[key] == 2 ==> h.server == h.server[key := 2];
    assert key in h.server && h.server[key] == -2 ==> h.server == h.server[key := -2];
    assert key in h.stream && h.stream[key] == 2 ==> h.stream == h.stream[key := 2];
    assert key in h.stream && h.stream[key] == -2 ==> h.stream == h.stream[key := -2];
  }

  /** The delta that is shown of a title: how its net moved, or else the verdict itself, if any changed. */
  lemma DeltaIsShown(h: Health, key: string, ev: Event)
    ensures var h' := Recorded(h, key, ev);
      if h'.server == h.server && h'.stream == h.stream then h' == h
      else h'.lastDelta == h.lastDelta[key :=
             if Net(h', key) != Net(h, key) then Net(h', key) - Net(h, key)
             else if ev == ServerUp || ev.StreamUp? then 2 else -2]
  {
    hide WithDelta;
  }

  // ---------------------------------------------------------------------------------------------
  // Bounds on the running total

  ghost function Titles(h: Health): set<string> { h.server.Keys + h.stream.Keys }

  /** A title's share above water, counted only for its own provider. */
  ghost function Above(h: Health, p: string): string -> int {
    key => if ProviderOf(key) == Some(p) then Max(0, Net(h, key)) else 0
  }

  /** The sum over a provider's titles of max(0, net). */
  ghost function Cover(h: Health, p: string): int { SumBy(Titles(h), Above(h, p)) }

  lemma CoverNonNegative(h: Health, p: string)
    ensures Cover(h, p) >= 0
  {
    var zero := (key: string) => 0;
    SumMono(Titles(h), zero, Above(h, p));
    SumZero(Titles(h), zero);
  }

  ghost predicate Bounded(h: Health) {
    forall p :: 0 <= Total(h, p) <= Cover(h, p)
  }

  /** No verdict outside -2..2: what loading clamps to and recording writes. */
  ghost predicate InRange(h: Health) {
    && (forall k <- h.server :: -2 <= h.server[k] <= 2)
    && (forall k <- h.stream :: -2 <= h.stream[k] <= 2)
  }

  /** A verdict moves its own title's share and nothing else. */
  lemma CoverMoves(h: Health, key: string, ev: Event, p: string)
    ensures var h' := Recorded(h, key, ev);
      Cover(h', p) == Cover(h, p) + (if ProviderOf(key) == Some(p) then Max(0, Net(h', key)) - Max(0, Net(h, key)) else 0)
  {
    var h' := Recorded(h, key, ev);
    if h' != h {
      assert Titles(h') == Titles(h) + {key};
      forall k <- Titles(h) | k != key ensures Above(h', p)(k) == Above(h, p)(k) {
        assert Net(h', k) == Net(h, k);
      }
      SumUpdate(Titles(h), Above(h, p), Above(h', p), key);
    }
  }

  /** How one verdict moves every provider's running total. */
  lemma TotalMoves(h: Health, key: string, ev: Event, p: string)
    requires 0 <= Total(h, p)
    ensures var h' := Recorded(h, key, ev);
      Total(h', p) == if ProviderOf(key) == Some(p) && Net(h', key) != Net(h, key) && Credited(Net(h, key), Net(h', key)) != 0
                      then Max(AsI32(Total(h, p) + Credited(Net(h, key), Net(h', key))), 0)
                      else Total(h, p)
  {
    hide ProviderOf, AsI32, Credited;
  }

  /** Every verdict keeps each running total between 0 and the sum of its titles' shares. */
  lemma VerdictKeepsBound(h: Health, key: string, ev: Event)
    requires InRange(h) && Bounded(h)
    ensures InRange(Recorded(h, key, ev)) && Bounded(Recorded(h, key, ev))
  {
    forall p ensures 0 <= Total(Recorded(h, key, ev), p) <= Cover(Recorded(h, key, ev), p) {
      VerdictKeepsBoundOf(h, key, ev, p);
    }
  }

  lemma VerdictKeepsBoundOf(h: Health, key: string, ev: Event, p: string)
    requires InRange(h) && 0 <= Total(h, p) <= Cover(h, p)
    ensures 0 <= Total(Recorded(h, key, ev), p) <= Cover(Recorded(h, key, ev), p)
  {
    CoverMoves(h, key, ev, p);
    TotalMoves(h, key, ev, p);
    CoverNonNegative(Recorded(h, key, ev), p);
    NetInRange(h, key, ev);
    if ProviderOf(key) == Some(p) {
      CreditWithinCover(Total(h, p), Cover(h, p), Net(h, key), Net(Recorded(h, key, ev), key));
    }
  }

  lemma NetInRange(h: Health, key: string, ev: Event)
    requires InRange(h)
    ensures -4 <= Net(h, key) <= 4 && -4 <= Net(Recorded(h, key, ev), key) <= 4
  {
  }

  /** The arithmetic of one step: a total within its cover stays within it. */
  lemma CreditWithinCover(total: int, cover: int, before: int, after: int)
    requires 0 <= total <= cover && -4 <= before <= 4 && -4 <= after <= 4
    requires cover + Max(0, after) - Max(0, before) >= 0
    ensures before == after || Credited(before, after) == 0 ==> total <= cover + Max(0, after) - Max(0, before)
    ensures Max(AsI32(total + Credited(before, after)), 0) <= cover + Max(0, after) - Max(0, before)
  {
  }

  ghost function Share(h: Health, p: string): string -> int {
    key => if ProviderOf(key) == Some(p) then Net(h, key) else 0
  }

  ghost function NetSum(h: Health, p: string): int { SumBy(Titles(h), Share(h, p)) }

  lemma NetSumMoves(h: Health, key: string, ev: Event, p: string)
    ensures var h' := Recorded(h, key, ev);
      NetSum(h', p) == NetSum(h, p) + (if ProviderOf(key) == Some(p) then Net(h', key) - Net(h, key) else 0)
  {
    var h' := Recorded(h, key, ev);
    if h' != h {
      assert Titles(h') == Titles(h) + {key};
      forall k <- Titles(h) | k != key ensures Share(h', p)(k) == Share(h, p)(k) {
        assert Net(h', k) == Net(h, k);
      }
      SumUpdate(Titles(h), Share(h, p), Share(h', p), key);
    }
  }

  ghost predicate Exact(h: Health) {
    forall p :: Total(h, p) == NetSum(h, p)
  }

  /** A title does not rise from below zero, and its provider's sum of nets neither falls below zero
      nor leaves `i32`; or its net stays as it is. */
  ghost predicate IsFair(h: Health, key: string, ev: Event) {
    var h' := Recorded(h, key, ev);
    var before, after := Net(h, key), Net(h', key);
    before != after && ProviderOf(key).Some? ==>
      !(before < 0 && after > before) && 0 <= NetSum(h', ProviderOf(key).value) <= MAX_I32
  }

  /** One verdict keeps the totals equal to the sums of nets exactly when it is fair. */
  lemma VerdictKeepsExactIff(h: Health, key: string, ev: Event)
    requires Exact(h) && forall p :: 0 <= Total(h, p)
    ensures Exact(Recorded(h, key, ev)) <==> IsFair(h, key, ev)
  {
    hide ProviderOf, Recorded, Net, NetSum;
    var h' := Recorded(h, key, ev);
    forall p ensures (Total(h', p) == NetSum(h', p)) <==> (ProviderOf(key) == Some(p) ==> IsFair(h, key, ev)) {
      assert Total(h, p) == NetSum(h, p) && Total(h, p) >= 0;
      NetSumMoves(h, key, ev, p);
      TotalMoves(h, key, ev, p);
      if Net(h, key) != Net(h', key) {
        CreditIsExactIff(Total(h, p), Net(h, key), Net(h', key));
      }
    }
    if ProviderOf(key).Some? {
      assert Exact(h') ==> Total(h', ProviderOf(key).value) == NetSum(h', ProviderOf(key).value);
    }
  }

  /** The arithmetic of one step: a credit is the whole change, unless the title rises from below
      zero or the total would leave its range. */
  lemma CreditIsExactIff(total: int, before: int, after: int)
    requires total >= 0 && before != after
    ensures var credited := Credited(before, after);
      (if credited == 0 then total else Max(AsI32(total + credited), 0)) == total + after - before
      <==> !(before < 0 && after > before) && 0 <= total + after - before <= MAX_I32
  {
  }

  // ---------------------------------------------------------------------------------------------
  // Histories of one scope

  datatype ScopeEvent = Verdict(key: string, ev: Event) | Wipe

  function Apply(h: Health, e: ScopeEvent): Health {
    match e
    case Verdict(key, ev) => if key == "" then h else Recorded(h, key, ev)
    case Wipe => EMPTY
  }

  function Fold(h: Health, es: seq<ScopeEvent>): Health {
    if es == [] then h else Apply(Fold(h, es[..|es| - 1]), es[|es| - 1])
  }

  /** After any run of verdicts and clears, from any bounded start. */
  lemma {:induction false} RunKeepsBound(h: Health, es: seq<ScopeEvent>)
    requires InRange(h) && Bounded(h)
    ensures InRange(Fold(h, es)) && Bounded(Fold(h, es))
  {
    if es != [] {
      var last := es[|es| - 1];
      RunKeepsBound(h, es[..|es| - 1]);
      if last.Verdict? && last.key != "" {
        VerdictKeepsBound(Fold(h, es[..|es| - 1]), last.key, last.ev);
      } else if last.Wipe? {
        forall p { CoverNonNegative(EMPTY, p); }
      }
    }
  }

  ghost predicate FairStep(h: Health, e: ScopeEvent) {
    e.Verdict? && e.key != "" ==> IsFair(h, e.key, e.ev)
  }

  lemma StepKeepsExactIff(h: Health, e: ScopeEvent)
    requires Exact(h) && forall p :: 0 <= Total(h, p)
    ensures Exact(Apply(h, e)) <==> FairStep(h, e)
    ensures forall p :: 0 <= Total(Apply(h, e), p)
  {
    hide Recorded, IsFair, ProviderOf;
    if e.Verdict? && e.key != "" {
      VerdictKeepsExactIff(h, e.key, e.ev);
      forall p ensures 0 <= Total(Apply(h, e), p) {
        TotalMoves(h, e.key, e.ev, p);
      }
    } else if e.Wipe? {
      NothingIsExact();
    }
  }

  lemma NothingIsExact()
    ensures Exact(EMPTY)
  {
    forall p { SumZero(Titles(EMPTY), Share(EMPTY, p)); }
  }

  ghost predicate ExactUpTo(es: seq<ScopeEvent>, n: nat)
    requires n <= |es|
  {
    forall m :: 0 <= m <= n ==> Exact(Fold(EMPTY, es[..m]))
  }

  ghost predicate FairUpTo(es: seq<ScopeEvent>, n: nat)
    requires n <= |es|
  {
    forall m :: 0 <= m < n ==> FairStep(Fold(EMPTY, es[..m]), es[m])
  }

  /** The totals are the sums of the titles' nets at every point of a run exactly when no verdict of
      it takes a title up from below zero, or a sum of nets below zero or beyond `i32`. */
  lemma RunIsExactIff(es: seq<ScopeEvent>)
    ensures (forall n :: 0 <= n <= |es| ==> Exact(Fold(EMPTY, es[..n])))
        <==> (forall n :: 0 <= n < |es| ==> FairStep(Fold(EMPTY, es[..n]), es[n]))
  {
    hide Fold, Exact, FairStep;
    ExactAsFair(es, |es|);
    assert ExactUpTo(es, |es|) <==> FairUpTo(es, |es|);
  }

  lemma {:induction false} ExactAsFair(es: seq<ScopeEvent>, n: nat)
    requires n <= |es|
    ensures ExactUpTo(es, n) <==> FairUpTo(es, n)
    ensures forall p :: 0 <= Total(Fold(EMPTY, es[..n]), p)
  {
    hide Exact, FairStep, Total, Fold;
    if n == 0 {
      NoneFolded();
      NothingIsExact();
      assert es[..0] == [];
      TotalsOfNothing();
    } else {
      var h, e := Fold(EMPTY, es[..n - 1]), es[n - 1];
      ExactAsFair(es, n - 1);
      FoldSnoc(es, n - 1);
      assert ExactUpTo(es, n) <==> ExactUpTo(es, n - 1) && Exact(Fold(EMPTY, es[..n]));
      assert FairUpTo(es, n) <==> FairUpTo(es, n - 1) && FairStep(h, e);
      TotalsStay(h, e);
      if ExactUpTo(es, n - 1) {
        assert Exact(h);
        StepKeepsExactIff(h, e);
      }
    }
  }

  lemma TotalsOfNothing()
    ensures forall p :: 0 <= Total(EMPTY, p)
  {
  }

  lemma TotalsStay(h: Health, e: ScopeEvent)
    requires forall p :: 0 <= Total(h, p)
    ensures forall p :: 0 <= Total(Apply(h, e), p)
  {
    hide Recorded, ProviderOf;
    forall p ensures 0 <= Total(Apply(h, e), p) {
      if e.Verdict? && e.key != "" {
        TotalMoves(h, e.key, e.ev, p);
      }
    }
  }

  lemma FoldSnoc(es: seq<ScopeEvent>, n: nat)
    requires n < |es|
    ensures Fold(EMPTY, es[..n + 1]) == Apply(Fold(EMPTY, es[..n]), es[n])
  {
    assert es[..n + 1][..n] == es[..n];
  }

  /** No failure raises a title's net or its provider's total, and no success lowers them, as long as
      the total has room in 32 bits; nobody else's total moves. */
  lemma FailuresNeverHelp(h: Health, key: string, ev: Event, p: string)
    requires InRange(h) && 0 <= Total(h, p) <= 0x7fff_ffff - 8
    ensures var h' := Recorded(h, key, ev);
      && (ev == ServerFail || ev == StreamFail ==> Net(h', key) <= Net(h, key) && Total(h', p) <= Total(h, p))
      && (ev == ServerUp || ev.StreamUp? ==> Net(h', key) >= Net(h, key) && Total(h', p) >= Total(h, p))
      && (ProviderOf(key) != Some(p) ==> Total(h', p) == Total(h, p))
  {
    hide ProviderOf, Recorded, Credited;
    EventWrites(h, key, ev);
    NetParts(h, key);
    NetInRange(h, key, ev);
    TotalMoves(h, key, ev, p);
    CreditHasSign(Total(h, p), Net(h, key), Net(Recorded(h, key, ev), key));
  }

  lemma NetParts(h: Health, key: string)
    requires InRange(h)
    ensures Net(h, key) == Of(h.server, key) + Of(h.stream, key)
    ensures -2 <= Of(h.server, key) <= 2 && -2 <= Of(h.stream, key) <= 2
  {
  }

  lemma CreditHasSign(total: int, before: int, after: int)
    requires 0 <= total <= 0x7fff_ffff - 8 && -4 <= before <= 4 && -4 <= after <= 4
    ensures var next := Max(AsI32(total + Credited(before, after)), 0);
      (after <= before ==> next <= total) && (after >= before ==> next >= total)
  {
  }

  /** No title under water, and no sum beyond `i32`. */
  ghost predicate Calm(h: Health) {
    && (forall k :: Net(h, k) >= 0)
    && (forall p :: NetSum(h, p) <= MAX_I32)
  }

  /** In particular on runs that never take a title under water. */
  lemma CalmRunIsExact(es: seq<ScopeEvent>)
    requires forall n :: 0 <= n <= |es| ==> Calm(Fold(EMPTY, es[..n]))
    ensures Exact(Fold(EMPTY, es))
  {
    hide Fold, Exact, Calm, FairStep;
    forall n | 0 <= n < |es| ensures FairStep(Fold(EMPTY, es[..n]), es[n]) {
      assert Calm(Fold(EMPTY, es[..n])) && Calm(Fold(EMPTY, es[..n + 1]));
      FoldSnoc(es, n);
      CalmIsFair(Fold(EMPTY, es[..n]), es[n]);
    }
    RunIsExactIff(es);
    assert es[..|es|] == es;
  }

  lemma CalmIsFair(h: Health, e: ScopeEvent)
    requires Calm(h) && Calm(Apply(h, e))
    ensures FairStep(h, e)
  {
    hide Recorded, ProviderOf, Net;
    if e.Verdict? && e.key != "" {
      assert Net(h, e.key) >= 0;
      var h' := Apply(h, e);
      forall p ensures 0 <= NetSum(h', p) <= MAX_I32 {
        SumMono(Titles(h'), (k: string) => 0, Share(h', p));
        SumZero(Titles(h'), (k: string) => 0);
      }
    }
  }

  /** The total is a running one: title A at +4, B down 2, then B up 2 ends at 4, while the
      titles' nets sum to 6. */
  lemma RunningTotalIsNotTheSum(a: string, b: string, p: string)
    requires a != b && a != "" && b != "" && ProviderOf(a) == ProviderOf(b) == Some(p)
    ensures var h := Fold(EMPTY, [Verdict(a, ServerUp), Verdict(a, StreamUp(true)), Verdict(b, ServerFail), Verdict(b, ServerUp)]);
      Total(h, p) == 4 && Net(h, a) + Net(h, b) == 6
  {
    hide Fold, Recorded;
    NoneFolded();
    var h1 := Recorded(EMPTY, a, ServerUp);
    var h2 := Recorded(h1, a, StreamUp(true));
    var h3 := Recorded(h2, b, ServerFail);
    OneFolded([], a, ServerUp);
    OneFolded([Verdict(a, ServerUp)], a, StreamUp(true));
    OneFolded([Verdict(a, ServerUp), Verdict(a, StreamUp(true))], b, ServerFail);
    OneFolded([Verdict(a, ServerUp), Verdict(a, StreamUp(true)), Verdict(b, ServerFail)], b, ServerUp);
    assert [] + [Verdict(a, ServerUp)] == [Verdict(a, ServerUp)];
    assert [Verdict(a, ServerUp)] + [Verdict(a, StreamUp(true))] == [Verdict(a, ServerUp), Verdict(a, StreamUp(true))];
    assert [Verdict(a, ServerUp), Verdict(a, StreamUp(true))] + [Verdict(b, ServerFail)]
        == [Verdict(a, ServerUp), Verdict(a, StreamUp(true)), Verdict(b, ServerFail)];
    assert [Verdict(a, ServerUp), Verdict(a, StreamUp(true)), Verdict(b, ServerFail)] + [Verdict(b, ServerUp)]
        == [Verdict(a, ServerUp), Verdict(a, StreamUp(true)), Verdict(b, ServerFail), Verdict(b, ServerUp)];
    FirstTitleRises(a, b, p);
    SecondTitleDips(h2, a, b, p);
  }

  lemma NoneFolded()
    ensures Fold(EMPTY, []) == EMPTY
  {
  }

  lemma OneFolded(es: seq<ScopeEvent>, key: string, ev: Event)
    requires key != ""
    ensures Fold(EMPTY, es + [Verdict(key, ev)]) == Recorded(Fold(EMPTY, es), key, ev)
  {
    hide Recorded;
    assert (es + [Verdict(key, ev)])[..|es|] == es;
  }

  lemma FirstTitleRises(a: string, b: string, p: string)
    requires a != b && ProviderOf(a) == Some(p)
    ensures var h := Recorded(Recorded(EMPTY, a, ServerUp), a, StreamUp(true));
      Total(h, p) == 4 && Net(h, a) == 4 && Net(h, b) == 0 && b !in h.server && b !in h.stream
  {
    hide ProviderOf;
    var h := Recorded(EMPTY, a, ServerUp);
    assert Net(h, a) == 2 && Total(h, p) == 2;
  }

  lemma SecondTitleDips(h: Health, a: string, b: string, p: string)
    requires a != b && ProviderOf(b) == Some(p) && Total(h, p) == 4 && Net(h, a) == 4 && Net(h, b) == 0
    requires b !in h.server && b !in h.stream
    ensures var h' := Recorded(Recorded(h, b, ServerFail), b, ServerUp);
      Total(h', p) == 4 && Net(h', a) + Net(h', b) == 6
  {
    hide ProviderOf;
    var dipped := Recorded(h, b, ServerFail);
    assert Net(dipped, b) == -2 && Net(dipped, a) == 4;
    assert Total(dipped, p) == 2;
  }

  /** The verdicts a history leaves on a title, read off the history alone: the last server
      event, and a stream win as soon as there was one since the last clear. */
  function LastServer(es: seq<ScopeEvent>, key: string): Option<int> {
    if es == [] then None
    else
      var last := es[|es| - 1];
      if last.Wipe? then None
      else if last.key == key && last.ev.Server().Some? then last.ev.Server()
      else LastServer(es[..|es| - 1], key)
  }

  function StickyStream(es: seq<ScopeEvent>, key: string): Option<int> {
    if es == [] then None
    else
      var last := es[|es| - 1];
      var earlier := StickyStream(es[..|es| - 1], key);
      if last.Wipe? then None
      else if last.key != key || earlier == Some(2) || last.ev.Stream().None? then earlier
      else last.ev.Stream()
  }

  lemma {:induction false} VerdictsFollowHistory(es: seq<ScopeEvent>, key: string)
    requires key != ""
    ensures Lookup(Fold(EMPTY, es).server, key) == LastServer(es, key)
    ensures Lookup(Fold(EMPTY, es).stream, key) == StickyStream(es, key)
  {
    if es != [] {
      VerdictsFollowHistory(es[..|es| - 1], key);
    }
  }
}
