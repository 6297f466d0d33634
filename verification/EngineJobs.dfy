/** The engine's job store and the rows a job emits while it runs
    (crates/ffi/src/engine_jobs.rs, crates/engine/src/extract_events.rs). */
module EngineJobs {
  import opened Wrappers
  import Text

  const LIVE_SPORTS_FETCH := 12
  const ENGINE_JS_EXTRACT := 15
  const MAX_ROWS := 48
  const CANCELLED := "{\"error\":\"cancelled\"}"

  datatype Outcome = Pending | Done(json: string)

  /** Every interleaving is a sequence of these steps; each holds one lock once. `Finish` is the
      completion block of a job's task, `Take` and `ClearTaken` the two halves of `take_result`. */
  datatype Event =
    | Submit(kind: nat)
    | Finish(id: nat, json: string)
    | Take(id: nat)
    | ClearTaken(id: nat)
    | CancelKind(kind: nat)
    | CancelAll
    | Push(id: nat, row: string)
    | TakeEvents(id: nat)

  /** `outcomes`, `tokens`, `kinds` and the event queues; a token is named by its job's id.
      `running` has the tasks whose completion block has not run, each with its job's kind (which a
      cancellation takes out of `kinds` while the task goes on), `cancelled` the tokens that were
      cancelled, `clearing` the jobs between the two halves of `take_result`. */
  datatype Jobs = Jobs(
    nextId: nat,
    outcomes: map<nat, Outcome>,
    tokens: set<nat>,
    kinds: map<nat, nat>,
    queues: map<nat, seq<string>>,
    running: map<nat, nat>,
    cancelled: set<nat>,
    clearing: set<nat>)

  const INITIAL := Jobs(1, map[], {}, map[], map[], map[], {}, {})

  /** The kinds a cancellation covers. */
  predicate Covers(ev: Event, kind: nat) {
    match ev
    case CancelKind(k) => kind == k
    case CancelAll => kind != LIVE_SPORTS_FETCH
    case _ => false
  }

  function Hit(s: Jobs, ev: Event): set<nat> {
    set id | id in s.kinds && Covers(ev, s.kinds[id])
  }

  function CancelledOutcomes(outcomes: map<nat, Outcome>, hit: set<nat>): map<nat, Outcome> {
    map id | id in outcomes :: if id in hit && outcomes[id].Pending? then Done(CANCELLED) else outcomes[id]
  }

  function Cancel(s: Jobs, ev: Event): Jobs {
    var hit := Hit(s, ev);
    s.(kinds := s.kinds - hit,
       tokens := s.tokens - hit,
       cancelled := s.cancelled + s.tokens * hit,
       outcomes := CancelledOutcomes(s.outcomes, hit))
  }

  /** The row a push adds to its queue, or the queue unchanged. */
  function Queued(queues: map<nat, seq<string>>, id: nat, row: string): map<nat, seq<string>> {
    var trimmed := Text.Trim(row);
    if id == 0 || !("{" <= trimmed) then queues
    else
      var q := if id in queues then queues[id] else [];
      queues[id := if |q| >= MAX_ROWS then q else q + [trimmed]]
  }

  predicate Extracting(s: Jobs, id: nat) { id in s.running && s.running[id] == ENGINE_JS_EXTRACT }

  function Step(s: Jobs, ev: Event): Jobs {
    match ev
    case Submit(kind) =>
      var id := s.nextId;
      s.(nextId := id + 1, outcomes := s.outcomes[id := Pending], tokens := s.tokens + {id},
         kinds := s.kinds[id := kind], running := s.running[id := kind])
    case Finish(id, json) =>
      if id !in s.running then s
      else
        s.(running := s.running - {id}, tokens := s.tokens - {id}, kinds := s.kinds - {id},
           outcomes := if id in s.outcomes && s.outcomes[id].Pending? then s.outcomes[id := Done(json)] else s.outcomes)
    case Take(id) =>
      if id in s.outcomes && s.outcomes[id].Done? then
        s.(outcomes := s.outcomes - {id}, clearing := s.clearing + {id})
      else s
    case ClearTaken(id) =>
      if id in s.clearing then s.(clearing := s.clearing - {id}, queues := if id == 0 then s.queues else s.queues - {id}) else s
    case CancelKind(_) => Cancel(s, ev)
    case CancelAll => Cancel(s, ev)
    case Push(id, row) =>
      // From within an extraction, which a cancellation may find under way; the future that
      // pushes is gone before the completion block.
      if Extracting(s, id) then s.(queues := Queued(s.queues, id, row)) else s
    case TakeEvents(id) =>
      if id != 0 && id in s.queues then s.(queues := s.queues[id := []]) else s
  }

  /** What a step hands to its caller: the result `take_result` returns. */
  function Delivered(s: Jobs, ev: Event): Option<string> {
    if ev.Take? && ev.id in s.outcomes && s.outcomes[ev.id].Done? then Some(s.outcomes[ev.id].json) else None
  }

  function Run(evs: seq<Event>): Jobs {
    if evs == [] then INITIAL else Step(Run(evs[..|evs| - 1]), evs[|evs| - 1])
  }

  // ---------------------------------------------------------------------------------------------
  // The same run told by its history alone

  function Submissions(evs: seq<Event>): nat {
    if evs == [] then 0
    else Submissions(evs[..|evs| - 1]) + if evs[|evs| - 1].Submit? then 1 else 0
  }

  /** The kind a job was submitted with: job n is the n-th submission. */
  function KindOf(evs: seq<Event>, id: nat): Option<nat> {
    if evs == [] then None
    else
      var front, last := evs[..|evs| - 1], evs[|evs| - 1];
      if last.Submit? && id == Submissions(front) + 1 then Some(last.kind) else KindOf(front, id)
  }

  /** The first thing that ended a job after it was submitted: its own task, or a cancellation
      that covers its kind. */
  function Ended(evs: seq<Event>, id: nat): Option<string> {
    if evs == [] then None
    else
      var front, last := evs[..|evs| - 1], evs[|evs| - 1];
      if Ended(front, id).Some? || KindOf(front, id).None? then Ended(front, id)
      else if last.Finish? && last.id == id then Some(last.json)
      else if Covers(last, KindOf(front, id).value) then Some(CANCELLED)
      else None
  }

  /** Whether somebody asked for the result after the job had ended. */
  predicate Taken(evs: seq<Event>, id: nat) {
    evs != []
    && (|| Taken(evs[..|evs| - 1], id)
        || (evs[|evs| - 1] == Take(id) && Ended(evs[..|evs| - 1], id).Some?))
  }

  /** Every result a run hands out for one job. */
  function Deliveries(evs: seq<Event>, id: nat): seq<string> {
    if evs == [] then []
    else
      var front, last := evs[..|evs| - 1], evs[|evs| - 1];
      var out := Delivered(Run(front), last);
      if last.Take? && last.id == id && out.Some? then Deliveries(front, id) + [out.value] else Deliveries(front, id)
  }

  /** The store's entry for a job, told by history. */
  function EntryOf(evs: seq<Event>, id: nat): Option<Outcome> {
    if KindOf(evs, id).None? || Taken(evs, id) then None
    else if Ended(evs, id).None? then Some(Pending)
    else Some(Done(Ended(evs, id).value))
  }

  function Entry(s: Jobs, id: nat): Option<Outcome> {
    if id in s.outcomes then Some(s.outcomes[id]) else None
  }

  ghost predicate Agrees(s: Jobs, evs: seq<Event>, id: nat) {
    && Entry(s, id) == EntryOf(evs, id)
    && (id in s.kinds <==> KindOf(evs, id).Some? && Ended(evs, id).None?)
    && (id in s.kinds ==> s.kinds[id] == KindOf(evs, id).value)
    && (id in s.tokens <==> id in s.kinds)
    && (id in s.kinds ==> id in s.running)
    && (id in s.running ==> KindOf(evs, id) == Some(s.running[id]))
    && (KindOf(evs, id).Some? <==> 1 <= id < s.nextId)
    && (KindOf(evs, id).None? ==> Ended(evs, id).None? && id !in s.running)
    && (Taken(evs, id) ==> Ended(evs, id).Some?)
    && s.nextId == Submissions(evs) + 1
  }

  lemma StepAgrees(s: Jobs, evs: seq<Event>, last: Event, id: nat)
    requires Agrees(s, evs, id)
    ensures Agrees(Step(s, last), evs + [last], id)
  {
    hide Queued, KindOf, Ended, Taken, Submissions;
    HistoryGrows(evs, last, id);
  }

  lemma HistoryGrows(evs: seq<Event>, last: Event, id: nat)
    ensures Submissions(evs + [last]) == Submissions(evs) + if last.Submit? then 1 else 0
    ensures KindOf(evs + [last], id) == if last.Submit? && id == Submissions(evs) + 1 then Some(last.kind) else KindOf(evs, id)
    ensures Ended(evs + [last], id) ==
      if Ended(evs, id).Some? || KindOf(evs, id).None? then Ended(evs, id)
      else if last.Finish? && last.id == id then Some(last.json)
      else if Covers(last, KindOf(evs, id).value) then Some(CANCELLED)
      else None
    ensures Taken(evs + [last], id) <==> Taken(evs, id) || (last == Take(id) && Ended(evs, id).Some?)
  {
    assert (evs + [last])[..|evs|] == evs;
  }

  /** In every interleaving the store is what the history says: the three maps' entries for a job
      depend only on its submission, on the first event that ended it and on whether its result
      was taken since; and a result is handed out at most once, namely that first ending. */
  lemma {:induction false} StoreFollowsHistory(evs: seq<Event>, id: nat)
    ensures Agrees(Run(evs), evs, id)
    ensures Deliveries(evs, id) == if Taken(evs, id) then [Ended(evs, id).value] else []
  {
    if evs != [] {
      var front, last := evs[..|evs| - 1], evs[|evs| - 1];
      StoreFollowsHistory(front, id);
      StepAgrees(Run(front), front, last, id);
      assert front + [last] == evs;
    }
  }

  /** A later finish, cancellation or submission never changes how a job ended. */
  lemma {:induction false} EndingIsFinal(evs: seq<Event>, more: seq<Event>, id: nat)
    requires Ended(evs, id).Some?
    ensures Ended(evs + more, id) == Ended(evs, id)
    ensures Taken(evs, id) ==> Taken(evs + more, id) && Entry(Run(evs + more), id) == None
  {
    if more == [] {
      assert evs + more == evs;
    } else {
      var front := evs + more[..|more| - 1];
      EndingIsFinal(evs, more[..|more| - 1], id);
      assert (evs + more)[..|evs + more| - 1] == front;
    }
    if Taken(evs + more, id) {
      StoreFollowsHistory(evs + more, id);
    }
  }

  // ---------------------------------------------------------------------------------------------
  // What every state keeps

  function PendingIds(s: Jobs): set<nat> {
    set id | id in s.outcomes && s.outcomes[id].Pending?
  }

  ghost predicate Consistent(s: Jobs) {
    && s.tokens == s.kinds.Keys == PendingIds(s)
    && s.tokens <= s.running.Keys <= s.tokens + s.cancelled
    && 1 <= s.nextId
    && (forall id :: id in s.running || id in s.cancelled || id in s.outcomes || id in s.clearing || id in s.queues ==> 1 <= id < s.nextId)
    && s.clearing !! s.outcomes.Keys
    && s.clearing !! s.tokens
    && (forall id <- s.queues :: id in s.running || id in s.cancelled || id in s.outcomes || id in s.clearing)
    && (forall id <- s.queues :: |s.queues[id]| <= 48)
    && (forall id <- s.queues, row <- s.queues[id] :: "{" <= row)
  }

  lemma StepKeepsConsistent(s: Jobs, ev: Event)
    requires Consistent(s)
    ensures Consistent(Step(s, ev))
  {
    match ev
    case Submit(_) => SubmitKeepsConsistent(s, ev);
    case Finish(id, _) => FinishKeepsConsistent(s, ev);
    case Take(_) => assert PendingIds(Step(s, ev)) == PendingIds(s);
    case CancelKind(_) => CancelKeepsConsistent(s, ev);
    case CancelAll => CancelKeepsConsistent(s, ev);
    case Push(id, row) => PushKeepsConsistent(s, ev);
    case _ =>
  }

  lemma SubmitKeepsConsistent(s: Jobs, ev: Event)
    requires Consistent(s) && ev.Submit?
    ensures Consistent(Step(s, ev))
  {
    assert PendingIds(Step(s, ev)) == PendingIds(s) + {s.nextId};
  }

  lemma CancelKeepsConsistent(s: Jobs, ev: Event)
    requires Consistent(s) && (ev.CancelKind? || ev.CancelAll?)
    ensures Consistent(Cancel(s, ev))
  {
    assert PendingIds(Cancel(s, ev)) == PendingIds(s) - Hit(s, ev);
  }

  lemma FinishKeepsConsistent(s: Jobs, ev: Event)
    requires Consistent(s) && ev.Finish?
    ensures Consistent(Step(s, ev))
  {
    var s' := Step(s, ev);
    if ev.id in s.running {
      assert PendingIds(s') == PendingIds(s) - {ev.id};
      forall id <- s'.queues ensures id in s'.running || id in s'.cancelled || id in s'.outcomes || id in s'.clearing {
        assert id in s.running || id in s.cancelled || id in s.outcomes || id in s.clearing;
      }
    }
  }

  lemma PushKeepsConsistent(s: Jobs, ev: Event)
    requires Consistent(s) && ev.Push?
    ensures Consistent(Step(s, ev))
  {
    hide Text.Trim;
  }

  lemma {:induction false} EveryStateIsConsistent(evs: seq<Event>)
    ensures Consistent(Run(evs))
  {
    if evs != [] {
      EveryStateIsConsistent(evs[..|evs| - 1]);
      StepKeepsConsistent(Run(evs[..|evs| - 1]), evs[|evs| - 1]);
    }
  }

  /** A cancellation ends exactly the pending jobs of its kind, or all but the live-sports fetches,
      by their entry, their token and their kind; no other job's change. */
  lemma CancelTouchesOnlyItsKind(s: Jobs, id: nat, kind: nat)
    requires Consistent(s)
    ensures var s' := Step(s, CancelKind(kind));
      if id in s.kinds && s.kinds[id] == kind
      then Entry(s', id) == Some(Done("{\"error\":\"cancelled\"}")) && id !in s'.tokens && id !in s'.kinds && id in s'.cancelled
      else Entry(s', id) == Entry(s, id) && (id in s'.tokens <==> id in s.tokens) && (id in s'.cancelled <==> id in s.cancelled)
           && (id in s'.kinds <==> id in s.kinds) && (id in s.kinds ==> s'.kinds[id] == s.kinds[id])
    ensures var s' := Step(s, CancelAll);
      if id in s.kinds && s.kinds[id] != 12
      then Entry(s', id) == Some(Done("{\"error\":\"cancelled\"}")) && id !in s'.tokens && id !in s'.kinds && id in s'.cancelled
      else Entry(s', id) == Entry(s, id) && (id in s'.tokens <==> id in s.tokens) && (id in s'.cancelled <==> id in s.cancelled)
           && (id in s'.kinds <==> id in s.kinds) && (id in s.kinds ==> s'.kinds[id] == s.kinds[id])
  {
    assert id in s.tokens <==> id in PendingIds(s);
  }

  /** So in every run, whatever it was submitted as: a pending job is ended by a cancellation of its
      kind, or of all unless it fetches live sports, and only so. */
  lemma CancelEndsByKind(evs: seq<Event>, id: nat, kind: nat, other: nat)
    requires Entry(Run(evs), id) == Some(Pending) && KindOf(evs, id) == Some(kind)
    ensures Entry(Run(evs + [CancelAll]), id) == Some(if kind == 12 then Pending else Done("{\"error\":\"cancelled\"}"))
    ensures Entry(Run(evs + [CancelKind(other)]), id) == Some(if kind == other then Done("{\"error\":\"cancelled\"}") else Pending)
  {
    hide Step, Run, KindOf;
    StoreFollowsHistory(evs, id);
    EveryStateIsConsistent(evs);
    CancelTouchesOnlyItsKind(Run(evs), id, other);
    OneMore(evs, CancelAll);
    OneMore(evs, CancelKind(other));
    assert id in PendingIds(Run(evs));
  }

  /** A live-sports fetch that has not finished, and whose own kind was never cancelled, is pending. */
  lemma {:induction false} LiveSportsStaysPending(evs: seq<Event>, id: nat)
    requires KindOf(evs, id) == Some(12)
    requires forall ev <- evs :: !(ev.Finish? && ev.id == id) && ev != CancelKind(12)
    ensures Entry(Run(evs), id) == Some(Pending) && id in Run(evs).tokens && id in Run(evs).kinds
  {
    NotEnded(evs, id);
    StoreFollowsHistory(evs, id);
  }

  lemma {:induction false} NotEnded(evs: seq<Event>, id: nat)
    requires KindOf(evs, id) in [None, Some(12)]
    requires forall ev <- evs :: !(ev.Finish? && ev.id == id) && ev != CancelKind(12)
    ensures Ended(evs, id) == None && !Taken(evs, id)
  {
    if evs != [] {
      var front, last := evs[..|evs| - 1], evs[|evs| - 1];
      assert last in evs && front + [last] == evs;
      KindIsKept(front, last, id);
      NotEnded(front, id);
    }
  }

  lemma KindIsKept(front: seq<Event>, last: Event, id: nat)
    ensures KindOf(front, id).Some? ==> KindOf(front + [last], id) == KindOf(front, id)
  {
    StoreFollowsHistory(front, id);
    HistoryGrows(front, last, id);
  }

  predicate TakenAndCleared(s: Jobs, id: nat) {
    id !in s.outcomes && id !in s.clearing
  }

  /** Submitted, without a queue, and nothing left that could push to one. */
  predicate Quiet(s: Jobs, id: nat) {
    1 <= id < s.nextId && id !in s.queues && !Extracting(s, id)
  }

  lemma StepKeepsQuiet(s: Jobs, ev: Event, id: nat)
    requires Quiet(s, id)
    ensures Quiet(Step(s, ev), id)
  {
    hide Text.Trim;
  }

  lemma {:induction false} QuietStays(evs: seq<Event>, more: seq<Event>, id: nat)
    requires Quiet(Run(evs), id)
    ensures Quiet(Run(evs + more), id)
  {
    hide Step, Quiet;
    if more == [] {
      assert evs + more == evs;
    } else {
      var front, last := more[..|more| - 1], more[|more| - 1];
      QuietStays(evs, front, id);
      StepKeepsQuiet(Run(evs + front), last, id);
      OneMore(evs + front, last);
      assert evs + front + [last] == evs + more;
    }
  }

  lemma ExtractionMayPush(s: Jobs, id: nat)
    requires id != 0 && Extracting(s, id)
    ensures id in Step(s, Push(id, "{")).queues
  {
    hide Text.Trim;
    Text.TrimmedIsFixed("{");
  }

  /** No later state has a queue for a job, whatever happens, exactly when it has none now and is
      not an extraction whose task still runs. */
  lemma QueueIsOverIff(evs: seq<Event>, id: nat)
    requires 1 <= id < Run(evs).nextId
    ensures (forall more :: id !in Run(evs + more).queues) <==> id !in Run(evs).queues && !Extracting(Run(evs), id)
  {
    hide Extracting, Step;
    if Extracting(Run(evs), id) {
      ExtractionMayPush(Run(evs), id);
      OneMore(evs, Push(id, "{"));
    } else if id in Run(evs).queues {
      assert evs + [] == evs;
    } else {
      forall more ensures id !in Run(evs + more).queues {
        QuietStays(evs, more, id);
      }
    }
  }

  lemma TakenUncancelledIsQuiet(s: Jobs, id: nat)
    requires Consistent(s) && 1 <= id < s.nextId && TakenAndCleared(s, id) && id !in s.cancelled
    ensures Quiet(s, id)
  {
    assert id !in PendingIds(s);
  }

  /** In particular a job that was never cancelled has no queue once its result was taken. */
  lemma TakenJobHasNoQueue(evs: seq<Event>, more: seq<Event>, id: nat)
    requires 1 <= id < Run(evs).nextId && TakenAndCleared(Run(evs), id) && id !in Run(evs).cancelled
    ensures id !in Run(evs + more).queues
  {
    EveryStateIsConsistent(evs);
    TakenUncancelledIsQuiet(Run(evs), id);
    QuietStays(evs, more, id);
  }

  lemma StepKeepsLeftQueue(s: Jobs, ev: Event, id: nat)
    requires Consistent(s) && TakenAndCleared(s, id) && id in s.queues
    ensures TakenAndCleared(Step(s, ev), id) && id in Step(s, ev).queues
    ensures ev != TakeEvents(id) ==> s.queues[id] <= Step(s, ev).queues[id]
  {
    hide Text.Trim;
  }

  /** A queue that is there after its job's result was taken is there for good: draining empties
      it but keeps its entry, and nothing else takes a row from it. */
  lemma {:induction false} LeftQueueStays(evs: seq<Event>, more: seq<Event>, id: nat)
    requires TakenAndCleared(Run(evs), id) && id in Run(evs).queues
    ensures TakenAndCleared(Run(evs + more), id) && id in Run(evs + more).queues
    ensures TakeEvents(id) !in more ==> Run(evs).queues[id] <= Run(evs + more).queues[id]
  {
    hide Step, Consistent, TakenAndCleared;
    if more == [] {
      assert evs + more == evs;
    } else {
      var front, last := more[..|more| - 1], more[|more| - 1];
      LeftQueueStays(evs, front, id);
      EveryStateIsConsistent(evs + front);
      StepKeepsLeftQueue(Run(evs + front), last, id);
      OneMore(evs + front, last);
      assert evs + front + [last] == evs + more;
    }
  }

  function RowsOf(s: Jobs, id: nat): seq<string> { if id in s.queues then s.queues[id] else [] }

  /** The rows that the polls of a job were handed, in order. */
  function Handed(evs: seq<Event>, id: nat): seq<string> {
    if evs == [] then []
    else
      var front := evs[..|evs| - 1];
      Handed(front, id) + if evs[|evs| - 1] == TakeEvents(id) then RowsOf(Run(front), id) else []
  }

  /** The rows that were pushed for a job, trimmed: those that start with a brace, while its extraction
      runs and fewer than 48 rows wait. */
  function Accepted(evs: seq<Event>, id: nat): seq<string> {
    if evs == [] then []
    else
      var front, last := evs[..|evs| - 1], evs[|evs| - 1];
      var s := Run(front);
      if last.Push? && last.id == id && id in s.running && s.running[id] == 15 && "{" <= Text.Trim(last.row) && |RowsOf(s, id)| < 48
      then Accepted(front, id) + [Text.Trim(last.row)] else Accepted(front, id)
  }

  /** Until the result is taken, the rows handed out and those still waiting are the rows accepted,
      each once and in order. */
  lemma {:induction false} RowsArriveOnce(evs: seq<Event>, id: nat)
    requires id != 0 && ClearTaken(id) !in evs
    ensures Handed(evs, id) + RowsOf(Run(evs), id) == Accepted(evs, id)
  {
    hide Text.Trim, Step, Cancel;
    if evs != [] {
      var front, last := evs[..|evs| - 1], evs[|evs| - 1];
      RowsArriveOnce(front, id);
      RowsMove(Run(front), last, id);
    }
  }

  lemma RowsMove(s: Jobs, ev: Event, id: nat)
    requires id != 0 && ev != ClearTaken(id)
    ensures var more := ev.Push? && ev.id == id && id in s.running && s.running[id] == 15 && "{" <= Text.Trim(ev.row) && |RowsOf(s, id)| < 48;
      RowsOf(Step(s, ev), id)
      == if more then RowsOf(s, id) + [Text.Trim(ev.row)] else if ev == TakeEvents(id) then [] else RowsOf(s, id)
  {
    hide Text.Trim;
  }

  /** One such run: an extraction is cancelled, taken and cleared, and then its task pushes. */
  lemma CancelledJobMayLeaveQueue()
    ensures var s := Run([Submit(15), CancelKind(15), Take(1), ClearTaken(1), Push(1, "{")]);
      TakenAndCleared(s, 1) && s.queues == map[1 := ["{"]]
  {
    hide Run, Step;
    assert Run([]) == INITIAL by { NoEvents(); }
    OneMore([], Submit(15));
    OneMore([Submit(15)], CancelKind(15));
    OneMore([Submit(15), CancelKind(15)], Take(1));
    OneMore([Submit(15), CancelKind(15), Take(1)], ClearTaken(1));
    OneMore([Submit(15), CancelKind(15), Take(1), ClearTaken(1)], Push(1, "{"));
    assert [] + [Submit(15)] == [Submit(15)];
    assert [Submit(15)] + [CancelKind(15)] == [Submit(15), CancelKind(15)];
    assert [Submit(15), CancelKind(15)] + [Take(1)] == [Submit(15), CancelKind(15), Take(1)];
    assert [Submit(15), CancelKind(15), Take(1)] + [ClearTaken(1)] == [Submit(15), CancelKind(15), Take(1), ClearTaken(1)];
    assert [Submit(15), CancelKind(15), Take(1), ClearTaken(1)] + [Push(1, "{")]
        == [Submit(15), CancelKind(15), Take(1), ClearTaken(1), Push(1, "{")];
    SubmittedThenCancelled();
    TakenThenPushed();
  }

  const AFTER_CANCEL := Jobs(2, map[1 := Done(CANCELLED)], {}, map[], map[], map[1 := 15], {1}, {})

  lemma NoEvents()
    ensures Run([]) == INITIAL
  {
  }

  lemma OneMore(evs: seq<Event>, ev: Event)
    ensures Run(evs + [ev]) == Step(Run(evs), ev)
  {
    assert (evs + [ev])[..|evs|] == evs;
  }

  lemma SubmittedThenCancelled()
    ensures Step(Step(INITIAL, Submit(15)), CancelKind(15)) == AFTER_CANCEL
  {
    hide Queued;
    var s := Step(INITIAL, Submit(15));
    assert s == Jobs(2, map[1 := Pending], {1}, map[1 := 15], map[], map[1 := 15], {}, {});
    assert Hit(s, CancelKind(15)) == {1};
    assert CancelledOutcomes(s.outcomes, {1}) == map[1 := Done(CANCELLED)];
  }

  lemma TakenThenPushed()
    ensures var s := Step(Step(Step(AFTER_CANCEL, Take(1)), ClearTaken(1)), Push(1, "{"));
      TakenAndCleared(s, 1) && s.queues == map[1 := ["{"]]
  {
    hide Queued, Cancel;
    var s := Step(Step(AFTER_CANCEL, Take(1)), ClearTaken(1));
    assert s.outcomes == map[] && s.queues == map[] && Extracting(s, 1);
    QueueStarts(1, "{");
  }

  lemma QueueStarts(id: nat, row: string)
    requires id > 0 && "{" <= row && Text.Trimmed(row)
    ensures Queued(map[], id, row) == map[id := [row]]
  {
    hide Text.Trim, Text.IsSpace;
    Text.TrimmedIsFixed(row);
    var none: seq<string> := [];
    assert none + [row] == [row];
  }

  // ---------------------------------------------------------------------------------------------
  // The store itself

  class JobStore {
    var nextId: nat
    var outcomes: map<nat, Outcome>
    var tokens: set<nat>
    var kinds: map<nat, nat>
    var queues: map<nat, seq<string>>
    var cancelled: set<nat>
    ghost var running: map<nat, nat>
    ghost var clearing: set<nat>

    ghost function State(): Jobs
      reads this
    {
      Jobs(nextId, outcomes, tokens, kinds, queues, running, cancelled, clearing)
    }

    constructor ()
      ensures State() == INITIAL
    {
      nextId := 1;
      outcomes, tokens, kinds, queues := map[], {}, map[], map[];
      cancelled, running, clearing := {}, map[], {};
    }

    method SubmitJob(kind: nat) returns (id: nat)
      modifies this
      ensures State() == Step(old(State()), Submit(kind)) && id == old(nextId)
    {
      id := nextId;
      nextId := nextId + 1;
      outcomes := outcomes[id := Pending];
      tokens := tokens + {id};
      kinds := kinds[id := kind];
      running := running[id := kind];
    }

    /** The completion block of a task. */
    method Complete(id: nat, json: string)
      requires id in running
      modifies this
      ensures State() == Step(old(State()), Finish(id, json))
    {
      tokens := tokens - {id};
      kinds := kinds - {id};
      if id in outcomes && outcomes[id].Pending? {
        outcomes := outcomes[id := Done(json)];
      }
      running := running - {id};
    }

    method TakeOutcome(id: nat) returns (r: Option<string>)
      modifies this
      ensures State() == Step(old(State()), Take(id)) && r == Delivered(old(State()), Take(id))
    {
      r := None;
      if id in outcomes {
        var outcome := outcomes[id];
        outcomes := outcomes - {id};
        match outcome {
          case Done(s) =>
            clearing := clearing + {id};
            r := Some(s);
          case Pending =>
            outcomes := outcomes[id := Pending];
            assert outcomes == old(outcomes);
        }
      }
    }

    method ClearExtractEvents(id: nat)
      requires id in clearing
      modifies this
      ensures State() == Step(old(State()), ClearTaken(id))
    {
      clearing := clearing - {id};
      if id == 0 {
        return;
      }
      queues := queues - {id};
    }

    /** `take_result` with nothing in between its two halves. */
    method TakeResult(id: nat) returns (r: Option<string>)
      modifies this
      ensures r == Delivered(old(State()), Take(id))
      ensures State() == if r.Some? then Step(Step(old(State()), Take(id)), ClearTaken(id)) else old(State())
    {
      r := TakeOutcome(id);
      if r.Some? {
        ClearExtractEvents(id);
      }
    }

    method CancelIds(ids: set<nat>)
      modifies this
      ensures nextId == old(nextId) && queues == old(queues) && running == old(running) && clearing == old(clearing)
      ensures kinds == old(kinds) - ids && tokens == old(tokens) - ids
      ensures cancelled == old(cancelled) + old(tokens) * ids
      ensures outcomes == CancelledOutcomes(old(outcomes), ids)
    {
      hide CancelledOutcomes;
      var left := ids;
      assert ids - left == {};
      NoneCancelled(outcomes);
      while left != {}
        invariant left <= ids
        invariant nextId == old(nextId) && queues == old(queues) && running == old(running) && clearing == old(clearing)
        invariant kinds == old(kinds) - (ids - left) && tokens == old(tokens) - (ids - left)
        invariant cancelled == old(cancelled) + old(tokens) * (ids - left)
        invariant outcomes == CancelledOutcomes(old(outcomes), ids - left)
        decreases left
      {
        var id :| id in left;
        assert ids - (left - {id}) == ids - left + {id};
        OneMoreCancelled(old(outcomes), ids - left, id);
        left := left - {id};
        kinds := kinds - {id};
        if id in tokens {
          tokens := tokens - {id};
          cancelled := cancelled + {id};
        }
        if id in outcomes && outcomes[id].Pending? {
          outcomes := outcomes[id := Done(CANCELLED)];
        }
      }
      assert ids - left == ids;
    }

    method CancelByKind(kind: nat)
      modifies this
      ensures State() == Step(old(State()), CancelKind(kind))
    {
      CancelIds(set id | id in kinds && kinds[id] == kind);
    }

    /** Spares live-sports jobs; the request to the root token is not part of this model. */
    method CancelEverything()
      modifies this
      ensures State() == Step(old(State()), CancelAll)
    {
      CancelIds(set id | id in kinds && kinds[id] != LIVE_SPORTS_FETCH);
    }

    method PushRow(id: nat, rowJson: string)
      requires Extracting(State(), id)
      modifies this`queues
      ensures State() == Step(old(State()), Push(id, rowJson))
    {
      hide Text.Trim, Text.IsSpace;
      if id == 0 {
        return;
      }
      var row := Text.Trim(rowJson);
      if !("{" <= row) {
        return;
      }
      var q := if id in queues then queues[id] else [];
      queues := queues[id := q];
      if |q| >= MAX_ROWS {
        return;
      }
      queues := queues[id := q + [row]];
    }

    method TakeRows(id: nat) returns (rows: seq<string>)
      modifies this`queues
      ensures State() == Step(old(State()), TakeEvents(id))
      ensures rows == if id != 0 && id in old(queues) then old(queues)[id] else []
    {
      rows := [];
      if id == 0 || id !in queues {
        return;
      }
      rows := queues[id];
      queues := queues[id := []];
    }
  }

  lemma NoneCancelled(outcomes: map<nat, Outcome>)
    ensures CancelledOutcomes(outcomes, {}) == outcomes
  {
  }

  lemma OneMoreCancelled(outcomes: map<nat, Outcome>, hit: set<nat>, id: nat)
    ensures var before := CancelledOutcomes(outcomes, hit);
      CancelledOutcomes(outcomes, hit + {id}) == if id in before && before[id].Pending? then before[id := Done(CANCELLED)] else before
  {
  }
}
