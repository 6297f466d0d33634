/** The live store over persisted records: one set of maps in memory, one stored record per
    identity scope, and a legacy record that one scope adopts
    (crates/engine/src/provider_health.rs:9-162, 386-414). */
module ProviderStore {
  import opened Wrappers
  import opened Sums
  import opened ProviderHealth
  import Text

  const DEFAULT_SCOPE := "local:default"

  /** Storage keys: the legacy key, and one per scope. */
  datatype StorageKey = LegacyKey | ScopeKey(scope: string) {
    function Text(): string {
      match this
      case LegacyKey => "provider_score_reliability_v5"
      case ScopeKey(scope) => "provider_score_reliability_v5" + ("@" + scope)
    }
  }

  /** Distinct keys have distinct texts, so a map over the keys is a map over the texts. */
  lemma KeyTextsDiffer(j: StorageKey, k: StorageKey)
    ensures j.Text() == k.Text() ==> j == k
    ensures j.LegacyKey? ==> j.Text() == "provider_score_reliability_v5"
    ensures j.ScopeKey? ==> j.Text() == "provider_score_reliability_v5@" + j.scope
  {
    assert "provider_score_reliability_v5@" == "provider_score_reliability_v5" + "@";
    if j.ScopeKey? && k.ScopeKey? && j.Text() == k.Text() {
      var n := |LegacyKey.Text()|;
      assert j.Text()[n..] == "@" + j.scope && k.Text()[n..] == "@" + k.scope;
      assert ("@" + j.scope)[1..] == j.scope && ("@" + k.scope)[1..] == k.scope;
    } else if j.ScopeKey? != k.ScopeKey? {
      assert |j.Text()| != |k.Text()|;
    }
  }

  function NormalScope(scope: string): string {
    if Text.Trim(scope) == "" then DEFAULT_SCOPE else Text.Trim(scope)
  }

  /** A scope is named by its text without the space around it; a text of nothing but space means
      the local default. */
  lemma ScopeNames(scope: string)
    ensures (forall c <- scope :: Text.IsSpace(c)) ==> NormalScope(scope) == "local:default"
    ensures !(forall c <- scope :: Text.IsSpace(c)) ==> NormalScope(scope) == Text.Trim(scope) != ""
  {
    hide Text.Trim, Text.IsSpace;
    Text.TrimIsEmptyIff(scope);
  }

  /** A stored record: the integer entries of its objects `srv`, `str`, `d` and `tot`. An absent
      object has no entries; whether `tot` is there at all decides between reading and rebuilding. */
  datatype Raw = Raw(srv: map<string, int>, str: map<string, int>, d: map<string, int>, tot: Option<map<string, int>>)

  /** The empty JSON object, which migration leaves behind. */
  const BLANK := Raw(map[], map[], map[], None)

  function Clamp2(n: int): int { if n < -2 then -2 else if n > 2 then 2 else n }

  function ReadVerdicts(m: map<string, int>): map<string, int> {
    map k | k in m && m[k] != 0 :: Clamp2(AsI32(m[k]))
  }

  function ReadDeltas(m: map<string, int>): map<string, int> {
    map k | k in m && m[k] != 0 :: AsI32(m[k])
  }

  function Positive(m: map<string, int>): map<string, int> {
    map k | k in m && m[k] > 0 :: m[k]
  }

  // ---------------------------------------------------------------------------------------------
  // Rebuilding totals for records that predate `tot`

  ghost function Providers(h: Health): set<string> {
    set k | k in Titles(h) && ProviderOf(k).Some? :: ProviderOf(k).value
  }

  ghost function Rebuilt(h: Health): map<string, int> {
    map p | p in Providers(h) && AsI32(NetSum(h, p)) > 0 :: AsI32(NetSum(h, p))
  }

  method RebuildTotals(server: map<string, int>, stream: map<string, int>) returns (totals: map<string, int>)
    ensures totals == Rebuilt(Health(server, stream, map[], map[]))
  {
    hide ProviderOf, SummedSoFar, Rebuilt, Floored, Added;
    ghost var h := Health(server, stream, map[], map[]);
    var keys := server.Keys + stream.Keys;
    var summed: map<string, int> := map[];
    RebuildStart(h);
    assert Titles(h) - keys == {};
    while keys != {}
      invariant keys <= Titles(h)
      invariant SummedSoFar(h, Titles(h) - keys, summed)
      decreases keys
    {
      var key :| key in keys;
      var t := Lookup(server, key).GetOr(0) + Lookup(stream, key).GetOr(0);
      RebuildStep(h, Titles(h) - keys, summed, key);
      assert Titles(h) - (keys - {key}) == Titles(h) - keys + {key};
      keys := keys - {key};
      summed := Added(summed, ProviderOf(key), t);
    }
    assert Titles(h) - keys == Titles(h);
    totals := Floored(summed);
    RebuildEnd(h, summed);
  }

  /** `*summed.entry(provider).or_default() += t`, skipped for a key without a provider and for 0. */
  function Added(summed: map<string, int>, provider: Option<string>, t: int): map<string, int> {
    if provider.None? || t == 0 then summed
    else summed[provider.value := AsI32(Lookup(summed, provider.value).GetOr(0) + t)]
  }

  function Floored(summed: map<string, int>): map<string, int> {
    map p | p in summed && Max(summed[p], 0) > 0 :: Max(summed[p], 0)
  }

  ghost predicate SummedSoFar(h: Health, done: set<string>, summed: map<string, int>) {
    && done <= Titles(h)
    && summed.Keys <= Providers(h)
    && forall p :: Lookup(summed, p).GetOr(0) == AsI32(SumBy(done, Share(h, p)))
  }

  lemma RebuildStart(h: Health)
    ensures SummedSoFar(h, {}, map[])
  {
  }

  lemma RebuildStep(h: Health, done: set<string>, summed: map<string, int>, key: string)
    requires SummedSoFar(h, done, summed) && key in Titles(h) && key !in done
    ensures SummedSoFar(h, done + {key}, Added(summed, ProviderOf(key), Net(h, key)))
  {
    hide ProviderOf, AsI32, SumBy, Net, Share;
    var provider := ProviderOf(key);
    var summed' := Added(summed, provider, Net(h, key));
    forall p ensures Lookup(summed', p).GetOr(0) == AsI32(SumBy(done + {key}, Share(h, p))) {
      RebuildStepOf(h, done, Lookup(summed, p).GetOr(0), key, p);
    }
    assert provider.Some? ==> provider.value in Providers(h);
  }

  lemma RebuildStepOf(h: Health, done: set<string>, sum: int, key: string, p: string)
    requires key !in done && sum == AsI32(SumBy(done, Share(h, p)))
    ensures AsI32(SumBy(done + {key}, Share(h, p))) == if ProviderOf(key) == Some(p) && Net(h, key) != 0 then AsI32(sum + Net(h, key)) else sum
  {
    hide ProviderOf, AsI32, SumBy, Net;
    SumAdd(done, Share(h, p), key);
    AsI32Absorbs(SumBy(done, Share(h, p)), Net(h, key));
  }

  lemma RebuildEnd(h: Health, summed: map<string, int>)
    requires SummedSoFar(h, Titles(h), summed)
    ensures Floored(summed) == Rebuilt(h)
  {
    hide ProviderOf, AsI32, SumBy;
    var totals := Floored(summed);
    forall p ensures p in totals <==> p in Rebuilt(h)
             ensures p in totals ==> totals[p] == Rebuilt(h)[p]
    {
      assert Lookup(summed, p).GetOr(0) == AsI32(NetSum(h, p));
      RebuiltIs(h, p);
    }
  }

  lemma AsI32OfZero()
    ensures AsI32(0) == 0
  {
  }

  /** As many titles as can be at -4 before their sum leaves `i32`. */
  const MOST_TITLES := 0x2000_0000

  lemma NetSumFits(h: Health, p: string)
    requires InRange(h) && |Titles(h)| <= MOST_TITLES
    ensures NetSum(h, p) >= MIN_I32
  {
    SumAtLeast(Titles(h), Share(h, p), -4);
  }

  /** The one-shot rebuild of a record as it is loaded, of at most 2^29 titles, lands within the
      same bound. */
  lemma RebuildIsBounded(h: Health)
    requires InRange(h) && |Titles(h)| <= MOST_TITLES
    ensures Bounded(h.(totals := Rebuilt(h)))
  {
    hide InRange, Total, Cover, Rebuilt, NetSum;
    forall p ensures 0 <= Total(h.(totals := Rebuilt(h)), p) <= Cover(h.(totals := Rebuilt(h)), p) {
      NetSumFits(h, p);
      CoverIsOfTitles(h, Rebuilt(h), p);
      RebuiltTotal(h, p);
      NetSumWithinCover(h, p);
      CoverNonNegative(h, p);
    }
  }

  lemma RebuiltTotal(h: Health, p: string)
    requires NetSum(h, p) >= MIN_I32
    ensures 0 <= Total(h.(totals := Rebuilt(h)), p) <= Max(0, NetSum(h, p))
  {
    hide NetSum, ProviderOf;
  }

  lemma NetSumWithinCover(h: Health, p: string)
    ensures NetSum(h, p) <= Cover(h, p)
  {
    hide ProviderOf, SumBy;
    SumMono(Titles(h), Share(h, p), Above(h, p));
  }

  lemma CoverIsOfTitles(h: Health, totals: map<string, int>, p: string)
    ensures Cover(h.(totals := totals), p) == Cover(h, p)
  {
    hide ProviderOf, SumBy;
    var h' := h.(totals := totals);
    forall k <- Titles(h) ensures Above(h, p)(k) == Above(h', p)(k) { assert Net(h, k) == Net(h', k); }
    SumCong(Titles(h), Above(h, p), Above(h', p));
  }

  // ---------------------------------------------------------------------------------------------
  // Loading and persisting

  ghost function Load(raw: Raw): Health {
    var h := Health(ReadVerdicts(raw.srv), ReadVerdicts(raw.str), ReadDeltas(raw.d), map[]);
    match raw.tot
    case Some(tot) => h.(totals := Positive(ReadDeltas(tot)))
    case None => h.(totals := Rebuilt(h))
  }

  /** Which entries of a record are read, and as what: verdicts cut to two points, deltas as 32-bit
      numbers, and of the totals those above zero. */
  lemma LoadReads(raw: Raw, k: string)
    ensures k in Load(raw).server <==> k in raw.srv && raw.srv[k] != 0
    ensures k in Load(raw).server ==> CutFrom(raw.srv[k], Load(raw).server[k])
    ensures k in Load(raw).stream <==> k in raw.str && raw.str[k] != 0
    ensures k in Load(raw).stream ==> CutFrom(raw.str[k], Load(raw).stream[k])
    ensures k in Load(raw).lastDelta <==> k in raw.d && raw.d[k] != 0
    ensures k in Load(raw).lastDelta ==> Load(raw).lastDelta[k] == AsI32(raw.d[k])
    ensures raw.tot.Some? ==> (k in Load(raw).totals <==> k in raw.tot.value && raw.tot.value[k] != 0 && AsI32(raw.tot.value[k]) > 0)
    ensures raw.tot.Some? && k in Load(raw).totals ==> Load(raw).totals[k] == AsI32(raw.tot.value[k])
    ensures raw.tot.None? ==> (k in Load(raw).totals <==> AsI32(NetSum(Load(raw), k)) > 0)
    ensures raw.tot.None? && k in Load(raw).totals ==> Load(raw).totals[k] == AsI32(NetSum(Load(raw), k))
  {
    hide AsI32, SumBy, ProviderOf;
    var h := Health(ReadVerdicts(raw.srv), ReadVerdicts(raw.str), ReadDeltas(raw.d), map[]);
    if raw.tot.None? {
      RebuiltIs(h, k);
      SameNetSum(h, Load(raw), k);
    }
  }

  /** The stored number as 32 bits, and -2 or 2 where it is beyond. */
  ghost predicate CutFrom(stored: int, read: int) {
    var n := AsI32(stored);
    if n < -2 then read == -2 else if n > 2 then read == 2 else read == n
  }

  lemma RebuiltIs(h: Health, p: string)
    ensures p in Rebuilt(h) <==> AsI32(NetSum(h, p)) > 0
    ensures p in Rebuilt(h) ==> Rebuilt(h)[p] == AsI32(NetSum(h, p))
  {
    hide AsI32, SumBy, ProviderOf;
    if p !in Providers(h) {
      assert forall k <- Titles(h) :: Share(h, p)(k) == 0;
      SumZero(Titles(h), Share(h, p));
      AsI32OfZero();
    }
  }

  lemma SameNetSum(a: Health, b: Health, p: string)
    requires a.server == b.server && a.stream == b.stream
    ensures NetSum(a, p) == NetSum(b, p)
  {
    forall k ensures Share(a, p)(k) == Share(b, p)(k) { assert Net(a, k) == Net(b, k); }
    SumCong(Titles(a), Share(a, p), Share(b, p));
  }

  function Saved(h: Health): Raw { Raw(h.server, h.stream, h.lastDelta, Some(h.totals)) }

  /** What every reachable state satisfies, and what makes a stored record read back unchanged. */
  ghost predicate Stable(h: Health) {
    && (forall k <- h.server :: h.server[k] != 0 && -2 <= h.server[k] <= 2)
    && (forall k <- h.stream :: h.stream[k] != 0 && -2 <= h.stream[k] <= 2)
    && (forall k <- h.lastDelta :: h.lastDelta[k] != 0 && MIN_I32 <= h.lastDelta[k] <= MAX_I32)
    && (forall k <- h.totals :: 0 < h.totals[k] <= MAX_I32)
  }

  lemma LoadAfterSave(h: Health)
    requires Stable(h)
    ensures Load(Saved(h)) == h
  {
    hide ReadVerdicts, ReadDeltas, Positive;
    VerdictsAreKept(h.server);
    VerdictsAreKept(h.stream);
    DeltasAreKept(h.lastDelta);
    DeltasAreKept(h.totals);
  }

  lemma VerdictsAreKept(m: map<string, int>)
    requires forall k <- m :: m[k] != 0 && -2 <= m[k] <= 2
    ensures ReadVerdicts(m) == m
  {
  }

  lemma DeltasAreKept(m: map<string, int>)
    requires forall k <- m :: m[k] != 0 && MIN_I32 <= m[k] <= MAX_I32
    ensures ReadDeltas(m) == m && ((forall k <- m :: m[k] > 0) ==> Positive(m) == m)
  {
  }

  /** No nonzero verdict or delta that truncates to zero. */
  ghost predicate Storable(raw: Raw) {
    forall m <- {raw.srv, raw.str, raw.d}, k <- m :: m[k] != 0 ==> AsI32(m[k]) != 0
  }

  /** A record reads back unchanged after being loaded and saved exactly when none of its
      nonzero verdicts or deltas is a multiple of 2^32. */
  lemma ReloadIsIdentityIff(raw: Raw)
    ensures Storable(raw) <==> Load(Saved(Load(raw))) == Load(raw)
    ensures Storable(raw) ==> Stable(Load(raw))
  {
    hide *;
    if Storable(raw) {
      LoadIsStable(raw);
      LoadAfterSave(Load(raw));
    } else {
      WrappedIsLost(raw);
    }
  }

  /** A nonzero entry that wraps to zero is loaded once, and is gone the next time. */
  lemma WrappedIsLost(raw: Raw)
    requires !Storable(raw)
    ensures Load(Saved(Load(raw))) != Load(raw)
  {
    hide Rebuilt, AsI32, ReadVerdicts, ReadDeltas, Positive;
    var h := Load(raw);
    var again := Load(Saved(h));
    var m, k :| m in {raw.srv, raw.str, raw.d} && k in m && m[k] != 0 && AsI32(m[k]) == 0;
    ZeroIsDropped(m, k);
    assert (m == raw.srv && again.server != h.server) || (m == raw.str && again.stream != h.stream) || (m == raw.d && again.lastDelta != h.lastDelta);
  }

  lemma ZeroIsDropped(m: map<string, int>, k: string)
    requires k in m && m[k] != 0 && AsI32(m[k]) == 0
    ensures ReadVerdicts(ReadVerdicts(m)) != ReadVerdicts(m) && ReadDeltas(ReadDeltas(m)) != ReadDeltas(m)
  {
    hide AsI32;
    assert k in ReadVerdicts(m) && k !in ReadVerdicts(ReadVerdicts(m));
    assert k in ReadDeltas(m) && k !in ReadDeltas(ReadDeltas(m));
  }

  /** For example: a verdict of 2^32 is loaded as 0, and the next load has none. */
  lemma WideVerdictIsLost(key: string)
    ensures var raw := Raw(map[key := 0x1_0000_0000], map[], map[], Some(map[]));
      !Storable(raw) && Load(Saved(Load(raw))) != Load(raw)
  {
    hide Load, Saved;
    var raw := Raw(map[key := 0x1_0000_0000], map[], map[], Some(map[]));
    assert AsI32(0x1_0000_0000) == 0;
    assert raw.srv in {raw.srv, raw.str, raw.d} && key in raw.srv;
    WrappedIsLost(raw);
  }

  lemma LoadIsStable(raw: Raw)
    requires Storable(raw)
    ensures Stable(Load(raw))
  {
    hide ReadVerdicts, ReadDeltas, Rebuilt, AsI32;
    forall k | k in raw.srv && raw.srv[k] != 0 ensures AsI32(raw.srv[k]) != 0 { assert raw.srv in {raw.srv, raw.str, raw.d}; }
    forall k | k in raw.str && raw.str[k] != 0 ensures AsI32(raw.str[k]) != 0 { assert raw.str in {raw.srv, raw.str, raw.d}; }
    forall k | k in raw.d && raw.d[k] != 0 ensures AsI32(raw.d[k]) != 0 { assert raw.d in {raw.srv, raw.str, raw.d}; }
    VerdictsAreStable(raw.srv);
    VerdictsAreStable(raw.str);
    DeltasAreStable(raw.d);
    match raw.tot {
      case Some(tot) => DeltasAreInRange(tot);
      case None => RebuiltIsPositive(Load(raw).(totals := map[]));
    }
  }

  lemma VerdictsAreStable(m: map<string, int>)
    requires forall k | k in m && m[k] != 0 :: AsI32(m[k]) != 0
    ensures forall k <- ReadVerdicts(m) :: ReadVerdicts(m)[k] != 0 && -2 <= ReadVerdicts(m)[k] <= 2
  {
    hide AsI32;
  }

  lemma DeltasAreStable(m: map<string, int>)
    requires forall k | k in m && m[k] != 0 :: AsI32(m[k]) != 0
    ensures forall k <- ReadDeltas(m) :: ReadDeltas(m)[k] != 0 && MIN_I32 <= ReadDeltas(m)[k] <= MAX_I32
  {
  }

  lemma DeltasAreInRange(m: map<string, int>)
    ensures forall k <- ReadDeltas(m) :: ReadDeltas(m)[k] <= MAX_I32
  {
  }

  lemma RebuiltIsPositive(h: Health)
    ensures forall p <- Rebuilt(h) :: 0 < Rebuilt(h)[p] <= MAX_I32
  {
    hide SumBy, ProviderOf;
  }

  lemma RecordedIsStable(h: Health, key: string, ev: Event)
    requires Stable(h)
    ensures Stable(Recorded(h, key, ev))
  {
    var h' := Recorded(h, key, ev);
    TotalsStayPositive(h.totals, key, Net(h, key), Net(h', key));
    RecordedParts(h, key, ev);
    hide Recorded, WithDelta;
  }

  lemma RecordedParts(h: Health, key: string, ev: Event)
    requires Stable(h)
    ensures var h' := Recorded(h, key, ev);
      && h'.totals in {h.totals, WithDelta(h.totals, key, Net(h, key), Net(h', key))}
      && (forall k <- h'.server :: (k in h.server && h'.server[k] == h.server[k]) || h'.server[k] in {-2, 2})
      && (forall k <- h'.stream :: (k in h.stream && h'.stream[k] == h.stream[k]) || h'.stream[k] in {-2, 2})
      && (forall k <- h'.lastDelta :: (k in h.lastDelta && h'.lastDelta[k] == h.lastDelta[k]) || (h'.lastDelta[k] != 0 && -8 <= h'.lastDelta[k] <= 8))
  {
    hide WithDelta;
  }

  lemma TotalsStayPositive(totals: map<string, int>, key: string, before: int, after: int)
    requires forall k <- totals :: 0 < totals[k] <= MAX_I32
    ensures var totals' := WithDelta(totals, key, before, after); forall k <- totals' :: 0 < totals'[k] <= MAX_I32
  {
    hide ProviderOf, Credited;
  }

  lemma SavedIsStorable(h: Health)
    requires Stable(h)
    ensures Storable(Saved(h))
  {
  }

  // ---------------------------------------------------------------------------------------------
  // The ledger: one map from scope to state, and legacy scores nobody has adopted yet

  datatype Ledger = Ledger(claimed: map<string, Health>, legacy: Health) {
    function At(scope: string): Health {
      if scope in claimed then claimed[scope] else legacy
    }

    function Touch(scope: string): Ledger {
      if scope in claimed then this else Ledger(claimed[scope := legacy], EMPTY)
    }

    function Put(scope: string, h: Health): Ledger {
      Ledger(claimed[scope := h], legacy)
    }
  }

  datatype Op = Record(key: string, ev: Event) | Clear | Switch(scope: string) | Query

  datatype World = World(scope: string, ledger: Ledger)

  /** The scope an operation loads, if any. */
  function Loads(scope: string, op: Op): Option<string> {
    match op
    case Record(key, _) => if key == "" then None else Some(scope)
    case Clear => None
    case Switch(to) => Some(NormalScope(to))
    case Query => Some(scope)
  }

  /** The event an operation is for the active scope, if any. */
  function EventOf(op: Op): Option<ScopeEvent> {
    match op
    case Record(key, ev) => if key == "" then None else Some(Verdict(key, ev))
    case Clear => Some(Wipe)
    case _ => None
  }

  function TouchMaybe(l: Ledger, loads: Option<string>): Ledger {
    if loads.Some? then l.Touch(loads.value) else l
  }

  function Step(w: World, op: Op): World {
    var l := TouchMaybe(w.ledger, Loads(w.scope, op));
    World(if op.Switch? then NormalScope(op.scope) else w.scope,
          if EventOf(op).Some? then l.Put(w.scope, Apply(l.At(w.scope), EventOf(op).value)) else l)
  }

  function Run(w: World, ops: seq<Op>): World {
    if ops == [] then w else Step(Run(w, ops[..|ops| - 1]), ops[|ops| - 1])
  }

  /** What an operation does to the states of the scopes: a verdict changes the active one, clearing
      empties it, and an active or newly chosen scope that has no record takes the legacy scores. */
  lemma OpsDo(w: World, op: Op, s: string)
    ensures op.Clear? ==> Step(w, op) == World(w.scope, Ledger(w.ledger.claimed[w.scope := Health(map[], map[], map[], map[])], w.ledger.legacy))
    ensures op.Record? && op.key == "" ==> Step(w, op) == w
    ensures op.Record? && op.key != "" ==> Step(w, op).ledger.At(w.scope) == Recorded(w.ledger.At(w.scope), op.key, op.ev)
    ensures op.Record? ==> Step(w, op).scope == w.scope
    ensures op.Switch? ==> Step(w, op).scope == NormalScope(op.scope)
    ensures op.Query? ==> Step(w, op).scope == w.scope
    ensures op.Switch? || op.Query? ==> Step(w, op).ledger.At(Step(w, op).scope) == w.ledger.At(Step(w, op).scope)
    ensures op.Switch? || op.Query? || (op.Record? && op.key != "") ==>
      Step(w, op).scope in Step(w, op).ledger.claimed
      && (s != Step(w, op).scope && s in w.ledger.claimed ==> Step(w, op).ledger.At(s) == w.ledger.claimed[s])
      && (s != Step(w, op).scope && s !in w.ledger.claimed ==>
            Step(w, op).ledger.At(s) == if Step(w, op).scope in w.ledger.claimed then w.ledger.legacy else Health(map[], map[], map[], map[]))
  {
    hide Recorded, NormalScope;
  }

  /** The events of one scope in a run, in order. */
  function EventsOf(w: World, ops: seq<Op>, scope: string): seq<ScopeEvent> {
    if ops == [] then []
    else
      var front, op := ops[..|ops| - 1], ops[|ops| - 1];
      var earlier := EventsOf(w, front, scope);
      if Run(w, front).scope == scope && EventOf(op).Some? then earlier + [EventOf(op).value] else earlier
  }

  /** The scope that adopts the legacy scores: the first that is loaded with nothing stored. */
  function Adopter(w: World, ops: seq<Op>): Option<string> {
    if ops == [] then None
    else
      var front, op := ops[..|ops| - 1], ops[|ops| - 1];
      NextAdopter(Adopter(w, front), Run(w, front).ledger, Loads(Run(w, front).scope, op))
  }

  function NextAdopter(adopter: Option<string>, l: Ledger, loads: Option<string>): Option<string> {
    if adopter.None? && loads.Some? && loads.value !in l.claimed then loads else adopter
  }

  /** What a scope started from: its own record, the legacy scores if it is the one that adopts
      them (or if nobody has yet), otherwise nothing. */
  function Start(l: Ledger, adopter: Option<string>, scope: string): Health {
    if scope in l.claimed then l.claimed[scope]
    else if adopter.None? || adopter.value == scope then l.legacy
    else EMPTY
  }

  ghost predicate Isolated(start: Ledger, now: Ledger, adopter: Option<string>, es: seq<ScopeEvent>, scope: string) {
    && now.legacy == (if adopter.None? then start.legacy else EMPTY)
    && start.claimed.Keys <= now.claimed.Keys
    && (adopter.Some? ==> adopter.value in now.claimed)
    && (scope !in now.claimed ==> es == [])
    && (adopter.None? && scope in now.claimed && scope !in start.claimed ==> es != [] && es[0].Wipe?)
    && now.At(scope) == Fold(Start(start, adopter, scope), es)
  }

  lemma TouchKeepsIsolated(start: Ledger, now: Ledger, adopter: Option<string>, es: seq<ScopeEvent>,
        scope: string, loads: Option<string>)
    requires Isolated(start, now, adopter, es, scope)
    ensures Isolated(start, TouchMaybe(now, loads), NextAdopter(adopter, now, loads), es, scope)
  {
    if es != [] && es[0].Wipe? {
      WipeForgets(start.legacy, EMPTY, es);
    }
  }

  /** A clear makes the start of a history irrelevant. */
  lemma {:induction false} WipeForgets(g: Health, h: Health, es: seq<ScopeEvent>)
    requires es != [] && es[0].Wipe?
    ensures Fold(g, es) == Fold(h, es)
  {
    if |es| > 1 {
      WipeForgets(g, h, es[..|es| - 1]);
    }
  }

  lemma PutKeepsIsolated(start: Ledger, now: Ledger, adopter: Option<string>, es: seq<ScopeEvent>, scope: string,
        at: string, e: ScopeEvent)
    requires Isolated(start, now, adopter, es, scope)
    requires e.Verdict? ==> at in now.claimed
    ensures Isolated(start, now.Put(at, Apply(now.At(at), e)), adopter, if at == scope then es + [e] else es, scope)
  {
    assert (es + [e])[..|es|] == es;
  }

  /** Scopes never mix: after any run, what a scope holds is its own start and its own events,
      whatever happened to other scopes in between and however often it was switched away; and
      the legacy scores go to the adopter alone. */
  lemma {:induction false} ScopesAreIsolated(w: World, ops: seq<Op>, scope: string)
    ensures Run(w, ops).ledger.At(scope) == Fold(Start(w.ledger, Adopter(w, ops), scope), EventsOf(w, ops, scope))
    ensures Run(w, ops).ledger.legacy == if Adopter(w, ops).None? then w.ledger.legacy else EMPTY
    ensures Isolated(w.ledger, Run(w, ops).ledger, Adopter(w, ops), EventsOf(w, ops, scope), scope)
  {
    if ops != [] {
      var front, op := ops[..|ops| - 1], ops[|ops| - 1];
      ScopesAreIsolated(w, front, scope);
      var mid, adopter, es := Run(w, front), Adopter(w, front), EventsOf(w, front, scope);
      var loads := Loads(mid.scope, op);
      TouchKeepsIsolated(w.ledger, mid.ledger, adopter, es, scope, loads);
      if EventOf(op).Some? {
        PutKeepsIsolated(w.ledger, TouchMaybe(mid.ledger, loads), NextAdopter(adopter, mid.ledger, loads), es, scope, mid.scope, EventOf(op).value);
      }
    }
  }

  ghost predicate Sound(h: Health) { InRange(h) && Bounded(h) }

  /** From records and legacy scores whose totals are within bounds, every total of every scope
      stays within them over any run, whichever scopes it visits. */
  lemma EveryScopeStaysBounded(w: World, ops: seq<Op>, scope: string)
    requires Sound(w.ledger.legacy) && forall s <- w.ledger.claimed :: Sound(w.ledger.claimed[s])
    ensures Sound(Run(w, ops).ledger.At(scope))
  {
    var start := Start(w.ledger, Adopter(w, ops), scope);
    ScopesAreIsolated(w, ops, scope);
    NothingIsSound();
    RunKeepsBound(start, EventsOf(w, ops, scope));
  }

  lemma NothingIsSound()
    ensures Sound(EMPTY)
  {
    forall p { CoverNonNegative(EMPTY, p); }
  }

  /** Switching away and back restores every map exactly. */
  lemma SwitchBackRestores(w: World, other: string)
    requires w.scope in w.ledger.claimed && NormalScope(w.scope) == w.scope
    ensures var back := Step(Step(w, Switch(other)), Switch(w.scope));
      back.scope == w.scope && back.ledger.At(w.scope) == w.ledger.At(w.scope)
  {
    hide NormalScope, Apply;
  }

  // ---------------------------------------------------------------------------------------------
  // Storage

  type Storage = map<StorageKey, Raw>

  ghost function LegacyIn(storage: Storage): Health {
    if LegacyKey in storage then Load(storage[LegacyKey]) else EMPTY
  }

  /** What loading a scope would show. */
  ghost function Shown(storage: Storage, scope: string): Health {
    if ScopeKey(scope) in storage then Load(storage[ScopeKey(scope)]) else LegacyIn(storage)
  }

  /** Migration: the legacy record moves under the scope's key. */
  function Migrated(storage: Storage, scope: string): Storage {
    if ScopeKey(scope) in storage || LegacyKey !in storage then storage
    else storage[ScopeKey(scope) := storage[LegacyKey]][LegacyKey := BLANK]
  }

  ghost predicate AllStorable(storage: Storage) {
    forall k <- storage :: Storable(storage[k])
  }

  /** The ledger describes what is stored, except that the active scope, once loaded, may hold
      nothing and be stored nowhere. */
  ghost predicate Describes(l: Ledger, storage: Storage) {
    && AllStorable(storage)
    && l.legacy == LegacyIn(storage)
    && (forall s :: Shown(storage, s) == l.At(s))
    && (l.legacy != EMPTY ==> forall s :: s in l.claimed <==> ScopeKey(s) in storage)
  }

  lemma NewLedgerDescribes(stored: Storage)
    requires AllStorable(stored)
    ensures Describes(Ledger(StoredScopes(stored), LegacyIn(stored)), stored)
  {
    hide Load, AllStorable;
  }

  lemma MigrationIsTouch(l: Ledger, storage: Storage, scope: string)
    requires Describes(l, storage)
    ensures Describes(l.Touch(scope), Migrated(storage, scope))
    ensures Shown(Migrated(storage, scope), scope) == l.Touch(scope).At(scope)
    ensures AllStorable(Migrated(storage, scope))
  {
    hide Load, Storable;
    LoadBlank();
    var storage' := Migrated(storage, scope);
    var l' := l.Touch(scope);
    assert Shown(storage, scope) == l.At(scope);
    forall s ensures Shown(storage', s) == l'.At(s) {
      assert Shown(storage, s) == l.At(s);
    }
  }

  lemma SaveIsPut(l: Ledger, storage: Storage, scope: string, h: Health)
    requires Describes(l, storage) && Stable(h)
    ensures Describes(l.Put(scope, h), storage[ScopeKey(scope) := Saved(h)])
  {
    hide Load, Storable, Stable;
    LoadAfterSave(h);
    SavedIsStorable(h);
    var storage' := storage[ScopeKey(scope) := Saved(h)];
    forall s ensures Shown(storage', s) == l.Put(scope, h).At(s) {
      assert Shown(storage, s) == l.At(s);
    }
  }

  // ---------------------------------------------------------------------------------------------
  // The store

  class Store {
    var server: map<string, int>
    var stream: map<string, int>
    var lastDelta: map<string, int>
    var totals: map<string, int>
    var loaded: bool
    var scope: string
    var storage: Storage
    ghost var ledger: Ledger

    function Live(): Health
      reads this
    {
      Health(server, stream, lastDelta, totals)
    }

    /** The one live set of maps and the storage together are the ledger. */
    ghost predicate Valid()
      reads this
    {
      && Describes(ledger, storage)
      && (if loaded then scope in ledger.claimed && Live() == ledger.At(scope) && Stable(Live()) else Live() == EMPTY)
    }

    ghost function TheWorld(): World
      reads this
    {
      World(scope, ledger)
    }

    constructor (stored: Storage)
      requires AllStorable(stored)
      ensures Valid() && !loaded && scope == DEFAULT_SCOPE && storage == stored
    {
      hide Describes, LegacyIn, StoredScopes;
      server, stream, lastDelta, totals := map[], map[], map[], map[];
      loaded := false;
      scope := DEFAULT_SCOPE;
      storage := stored;
      ledger := Ledger(StoredScopes(stored), LegacyIn(stored));
      NewLedgerDescribes(stored);
    }

    method EnsureLoaded()
      requires Valid()
      modifies this
      ensures Valid() && loaded && scope == old(scope)
      ensures ledger == old(ledger).Touch(scope)
    {
      hide Describes, Stable, Storable, SumBy, ProviderOf, Rebuilt, ReadVerdicts, ReadDeltas, Positive, Saved;
      if loaded {
        return;
      }
      var needsPersist := false;
      MigrationIsTouch(ledger, storage, scope);
      if ScopeKey(scope) !in storage && LegacyKey in storage {
        storage := storage[ScopeKey(scope) := storage[LegacyKey]][LegacyKey := BLANK];
      }
      ledger := ledger.Touch(scope);
      assert storage == Migrated(old(storage), scope);
      EmptyIsStable();
      if ScopeKey(scope) in storage {
        LoadIsStable(storage[ScopeKey(scope)]);
        needsPersist := ReadRecord(storage[ScopeKey(scope)]);
      }
      loaded := true;
      if needsPersist {
        PutBack(ledger, scope);
        Persist();
      }
    }

    /** Fills the live maps from a stored record; a record without totals gets them rebuilt. */
    method ReadRecord(raw: Raw) returns (needsPersist: bool)
      modifies this`server, this`stream, this`lastDelta, this`totals
      ensures Live() == Load(raw)
      ensures needsPersist <==> raw.tot.None?
    {
      hide Rebuilt, ReadVerdicts, ReadDeltas, Positive;
      server := ReadVerdicts(raw.srv);
      stream := ReadVerdicts(raw.str);
      lastDelta := ReadDeltas(raw.d);
      needsPersist := raw.tot.None?;
      match raw.tot {
        case Some(tot) => totals := Positive(ReadDeltas(tot));
        case None =>
          totals := RebuildTotals(server, stream);
          SameRebuild(Health(server, stream, map[], map[]), Health(server, stream, lastDelta, map[]));
      }
    }

    method Persist()
      requires loaded && Describes(ledger, storage) && Stable(Live())
      modifies this`storage, this`ledger
      ensures Valid() && ledger == old(ledger).Put(scope, Live())
      ensures storage == old(storage)[ScopeKey(scope) := Saved(Live())]
    {
      hide Describes, Stable;
      SaveIsPut(ledger, storage, scope, Live());
      ledger := ledger.Put(scope, Live());
      storage := storage[ScopeKey(scope) := Raw(server, stream, lastDelta, Some(totals))];
    }

    method ClearAll()
      requires Valid()
      modifies this
      ensures Valid() && TheWorld() == Step(old(TheWorld()), Clear)
    {
      hide Describes, Stable, Storable, NormalScope, ProviderOf, Recorded;
      server, stream, lastDelta, totals := map[], map[], map[], map[];
      loaded := true;
      EmptyIsStable();
      Persist();
    }

    method SetIdentityScope(to: string)
      requires Valid()
      modifies this
      ensures Valid() && loaded && TheWorld() == Step(old(TheWorld()), Switch(to))
    {
      hide Describes, Stable, Storable;
      server, stream, lastDelta, totals := map[], map[], map[], map[];
      loaded := false;
      scope := if Text.Trim(to) == "" then DEFAULT_SCOPE else Text.Trim(to);
      EnsureLoaded();
    }

    /** `set_verdict` as the five recorders call it. */
    method SetVerdict(key: string, ev: Event) returns (r: int)
      requires Valid()
      modifies this
      ensures Valid() && TheWorld() == Step(old(TheWorld()), Record(key, ev))
      ensures r == if key == "" then 0 else Net(ledger.At(scope), key)
    {
      hide Describes, Stable, Recorded;
      if key == "" {
        return 0;
      }
      EnsureLoaded();
      r := Judge(key, ev.Server(), ev.Stream(), ev.Wins(), ev);
    }

    method Judge(key: string, serverDelta: Option<int>, streamDelta: Option<int>, wins: bool,
          ghost ev: Event) returns (r: int)
      requires Valid() && loaded && key != ""
      requires serverDelta == ev.Server() && streamDelta == ev.Stream() && wins == ev.Wins()
      modifies this
      ensures Valid() && loaded && scope == old(scope)
      ensures ledger == old(ledger).Put(scope, Recorded(old(ledger).At(scope), key, ev))
      ensures r == Net(ledger.At(scope), key)
    {
      hide Describes, Stable, WithDelta, WithServer, WithStream, Recorded, Net, Lookup;
      ghost var h := Live();
      var before := Net(Live(), key);
      var changed := WriteVerdicts(key, serverDelta, streamDelta, wins);
      RecordedIs(h, key, ev);
      if !changed {
        PutBack(ledger, scope);
        return before;
      }
      var after := Net(Live(), key);
      var delta := after - before;
      lastDelta := lastDelta[key :=
        if delta != 0 then delta
        else (if streamDelta.Some? then streamDelta else serverDelta).GetOr(Lookup(lastDelta, key).GetOr(0))];
      if before != after {
        ApplyProviderDelta(key, before, after);
      }
      assert Live() == Recorded(h, key, ev);
      RecordedIsStable(h, key, ev);
      Persist();
      r := after;
    }

    method WriteVerdicts(key: string, serverDelta: Option<int>, streamDelta: Option<int>,
          wins: bool) returns (changed: bool)
      modifies this`server, this`stream
      ensures server == WithServer(old(server), key, serverDelta)
      ensures stream == WithStream(old(stream), key, streamDelta, wins)
      ensures changed <==> server != old(server) || stream != old(stream)
    {
      changed := false;
      if serverDelta.Some? && Lookup(server, key) != serverDelta {
        server := server[key := serverDelta.value];
        changed := true;
      }
      if streamDelta.Some? {
        var current := Lookup(stream, key);
        var blockedByWin := !wins && streamDelta.value < 0 && current == Some(2);
        if !blockedByWin && current != streamDelta {
          stream := stream[key := streamDelta.value];
          changed := true;
        }
      }
    }

    method ApplyProviderDelta(key: string, before: int, after: int)
      modifies this`totals
      ensures totals == WithDelta(old(totals), key, before, after)
    {
      var found := ProviderOf(key);
      if found.None? {
        return;
      }
      var provider := found.value;
      var credited := Credited(before, after);
      if credited == 0 {
        return;
      }
      var next := Max(AsI32(Lookup(totals, provider).GetOr(0) + credited), 0);
      if next == 0 {
        totals := totals - {provider};
      } else {
        totals := totals[provider := next];
      }
    }

    /** Any sequence of calls does to the ledger what the reference run does. */
    method Perform(ops: seq<Op>)
      requires Valid()
      modifies this
      ensures Valid() && TheWorld() == Run(old(TheWorld()), ops)
    {
      for i := 0 to |ops|
        invariant Valid() && TheWorld() == Run(old(TheWorld()), ops[..i])
      {
        assert ops[..i + 1][..i] == ops[..i];
        match ops[i] {
          case Record(key, ev) => var _ := SetVerdict(key, ev);
          case Clear => ClearAll();
          case Switch(to) => SetIdentityScope(to);
          case Query => EnsureLoaded();
        }
      }
      assert ops[..|ops|] == ops;
    }
  }

  ghost function StoredScopes(stored: Storage): map<string, Health> {
    var scopes := set k | k in stored && k.ScopeKey? :: k.scope;
    map s | s in scopes :: Load(stored[ScopeKey(s)])
  }

  lemma RecordedIs(h: Health, key: string, ev: Event)
    ensures var s, t := WithServer(h.server, key, ev.Server()), WithStream(h.stream, key, ev.Stream(), ev.Wins());
      Net(Recorded(h, key, ev), key) == Net(Health(s, t, h.lastDelta, h.totals), key)
    ensures var s, t := WithServer(h.server, key, ev.Server()), WithStream(h.stream, key, ev.Stream(), ev.Wins());
      var before, after := Net(h, key), Net(Health(s, t, h.lastDelta, h.totals), key);
      Recorded(h, key, ev) == if s == h.server && t == h.stream then h
        else Health(s, t, h.lastDelta[key :=
               if after != before then after - before
               else (if ev.Stream().Some? then ev.Stream() else ev.Server()).GetOr(Lookup(h.lastDelta, key).GetOr(0))],
               if before != after then WithDelta(h.totals, key, before, after) else h.totals)
  {
    hide WithServer, WithStream, WithDelta;
  }

  lemma EmptyIsStable()
    ensures Stable(EMPTY)
  {
  }

  lemma PutBack(l: Ledger, scope: string)
    requires scope in l.claimed
    ensures l.Put(scope, l.At(scope)) == l
  {
    assert l.claimed[scope := l.claimed[scope]] == l.claimed;
  }

  lemma LoadBlank()
    ensures Load(BLANK) == EMPTY && Storable(BLANK)
  {
    var h := Health(ReadVerdicts(map[]), ReadVerdicts(map[]), ReadDeltas(map[]), map[]);
    assert h == EMPTY;
    assert Rebuilt(h) == map[];
  }

  lemma SameRebuild(a: Health, b: Health)
    requires a.server == b.server && a.stream == b.stream
    ensures Rebuilt(a) == Rebuilt(b)
  {
    forall p ensures NetSum(a, p) == NetSum(b, p) {
      SameNetSum(a, b, p);
    }
  }
}
