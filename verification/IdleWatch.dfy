/** The idle watcher: when the paired device that opened a LAN torrent goes idle the swarm is
    paused, and if it stays idle the download is stopped and deleted (crates/lan/src/idle_watch.rs). */
module IdleWatch {
  import opened Wrappers
  import Text

  const DEVICE_IDLE_SECS := 120
  const IDLE_PAUSE_GRACE_SECS := 120

  datatype Lease = Lease(device: string, hash: string, pausedAt: Option<nat>)

  datatype Swarm = Swarm(hash: string, paused: bool)

  /** `seen` is what `list_devices` reports: the paired devices and when each was last active. */
  datatype World = World(seen: map<string, nat>, lease: Option<Lease>, swarm: Option<Swarm>)

  datatype Action = Nothing | LeaseDropped | Resumed | Paused | Waited | Cleaned

  datatype Event =
    | SetLease(device: string, hash: string)
    | ClearLease
    | ClearIfHash(hash: string)
    | SwarmIs(swarm: Option<Swarm>)
    | Seen(device: string, at: nat)
    | Gone(device: string)
    | Tick(now: nat)

  function Since(past: nat, now: nat): nat { if now >= past then now - past else 0 }

  predicate SameHash(a: string, b: string) { Text.LowerAscii(a) == Text.LowerAscii(b) }

  /** Revoked, or not active for longer than the threshold. */
  predicate Idle(w: World, device: string, now: nat) {
    device !in w.seen || Since(w.seen[device], now) > DEVICE_IDLE_SECS
  }

  /** What a tick decides. */
  function Decide(w: World, now: nat): Action {
    if w.lease.None? then Nothing
    else
      var lease := w.lease.value;
      if w.swarm.None? || !SameHash(w.swarm.value.hash, lease.hash) then LeaseDropped
      else if !Idle(w, lease.device, now) then if lease.pausedAt.Some? then Resumed else Nothing
      else if lease.pausedAt.None? then Paused
      else if Since(lease.pausedAt.value, now) < IDLE_PAUSE_GRACE_SECS then Waited
      else Cleaned
  }

  function Act(w: World, action: Action, now: nat): World {
    match action
    case Nothing => w
    case Waited => w
    case LeaseDropped => w.(lease := None)
    case Resumed =>
      if w.lease.Some? && w.swarm.Some? then
        w.(swarm := Some(w.swarm.value.(paused := false)), lease := Some(w.lease.value.(pausedAt := None)))
      else w
    case Paused =>
      if w.lease.Some? && w.swarm.Some? then
        w.(swarm := Some(w.swarm.value.(paused := true)), lease := Some(w.lease.value.(pausedAt := Some(now))))
      else w
    case Cleaned => w.(swarm := None, lease := None)
  }

  function Step(w: World, ev: Event): World {
    match ev
    case SetLease(device, hash) =>
      if device == "" || hash == "" then w else w.(lease := Some(Lease(device, Text.LowerAscii(hash), None)))
    case ClearLease => w.(lease := None)
    case ClearIfHash(hash) =>
      if w.lease.Some? && SameHash(w.lease.value.hash, hash) then w.(lease := None) else w
    case SwarmIs(swarm) => w.(swarm := swarm)
    case Seen(device, at) => w.(seen := w.seen[device := at])
    case Gone(device) => w.(seen := w.seen - {device})
    case Tick(now) => Act(w, Decide(w, now), now)
  }

  function Run(w: World, evs: seq<Event>): World {
    if evs == [] then w else Step(Run(w, evs[..|evs| - 1]), evs[|evs| - 1])
  }

  // ---------------------------------------------------------------------------------------------
  // What a clean-up rests on

  /** Event i is the tick that paused lease `l`; since then the lease is the same and every tick
      found its owner idle or unpaired. */
  ghost predicate IdleSince(w: World, evs: seq<Event>, i: nat, l: Lease) {
    && i < |evs| && evs[i].Tick? && l.pausedAt == Some(evs[i].now)
    && Decide(Run(w, evs[..i]), evs[i].now) == Paused
    && (forall j :: i < j <= |evs| ==> Run(w, evs[..j]).lease == Some(l))
    && (forall j :: i <= j < |evs| && evs[j].Tick? ==> Idle(Run(w, evs[..j]), l.device, evs[j].now))
  }

  lemma {:induction false} PausedLeaseWasIdle(w: World, evs: seq<Event>) returns (i: nat)
    requires w.lease.Some? ==> w.lease.value.pausedAt.None?
    requires Run(w, evs).lease.Some? && Run(w, evs).lease.value.pausedAt.Some?
    ensures IdleSince(w, evs, i, Run(w, evs).lease.value)
  {
    var front, last := evs[..|evs| - 1], evs[|evs| - 1];
    var before, l := Run(w, front), Run(w, evs).lease.value;
    if before.lease == Some(l) {
      i := PausedLeaseWasIdle(w, front);
      assert front + [last] == evs;
      ExtendIdle(w, front, last, i, l);
    } else {
      assert last.Tick? && Decide(before, last.now) == Paused;
      i := |front|;
      assert evs[..i] == front && evs[..|evs|] == evs;
    }
  }

  lemma ExtendIdle(w: World, front: seq<Event>, last: Event, i: nat, l: Lease)
    requires IdleSince(w, front, i, l)
    requires Run(w, front + [last]).lease == Step(Run(w, front), last).lease == Some(l)
    requires Run(w, front).lease == Some(l)
    ensures IdleSince(w, front + [last], i, l)
  {
    hide Run, Decide, Idle, Step, Act;
    var evs := front + [last];
    TickKeepsPauseOnlyIdle(Run(w, front), last, l);
    SamePrefix(front, last, i);
    assert evs[..|evs|] == evs;
    forall j | i < j <= |evs| ensures Run(w, evs[..j]).lease == Some(l) {
      if j <= |front| {
        SamePrefix(front, last, j);
      }
    }
    forall j | i <= j < |evs| && evs[j].Tick? ensures Idle(Run(w, evs[..j]), l.device, evs[j].now) {
      SamePrefix(front, last, j);
      assert j < |front| ==> evs[j] == front[j];
      assert front[..|front|] == front;
    }
  }

  lemma SamePrefix(front: seq<Event>, last: Event, j: nat)
    requires j <= |front|
    ensures (front + [last])[..j] == front[..j]
  {
  }

  /** A tick that leaves a paused lease as it is found its owner idle. */
  lemma TickKeepsPauseOnlyIdle(before: World, ev: Event, l: Lease)
    requires before.lease == Some(l) && l.pausedAt.Some?
    ensures ev.Tick? && Step(before, ev).lease == Some(l) ==> Idle(before, l.device, ev.now)
  {
  }

  /** A swarm is cleaned only if some earlier tick paused it for its idle owner, at least the grace
      period ago, and every tick since found the owner idle or unpaired. */
  lemma CleanNeedsIdleSincePause(w: World, evs: seq<Event>, now: nat) returns (i: nat, l: Lease)
    requires w.lease.Some? ==> w.lease.value.pausedAt.None?
    requires Decide(Run(w, evs), now) == Cleaned
    ensures IdleSince(w, evs, i, l) && Run(w, evs).lease == Some(l)
    ensures evs[i].now + 120 <= now
    ensures Idle(Run(w, evs), l.device, now)
  {
    i := PausedLeaseWasIdle(w, evs);
    l := Run(w, evs).lease.value;
  }

  /** Setting a lease needs a device and a hash, folds the hash and forgets any pause; clearing takes the
      lease, by hash only one of that hash, in any case; nothing else of the three is touched. */
  lemma LeaseMoves(w: World, device: string, hash: string)
    ensures device != "" && hash != "" ==> Step(w, SetLease(device, hash)) == World(w.seen, Some(Lease(device, Text.LowerAscii(hash), None)), w.swarm)
    ensures device == "" || hash == "" ==> Step(w, SetLease(device, hash)) == w
    ensures Step(w, ClearLease) == World(w.seen, None, w.swarm)
    ensures w.lease.Some? && Text.LowerAscii(w.lease.value.hash) == Text.LowerAscii(hash) ==> Step(w, ClearIfHash(hash)) == World(w.seen, None, w.swarm)
    ensures w.lease.None? || Text.LowerAscii(w.lease.value.hash) != Text.LowerAscii(hash) ==> Step(w, ClearIfHash(hash)) == w
  {
    hide Text.LowerAscii;
  }

  /** A tick drops a lease whose swarm is gone or is another one, and does nothing without a lease. */
  lemma TickDropsLease(w: World, now: nat)
    ensures w.lease.None? ==> Step(w, Tick(now)) == w
    ensures w.lease.Some? && (w.swarm.None? || Text.LowerAscii(w.swarm.value.hash) != Text.LowerAscii(w.lease.value.hash))
      ==> Step(w, Tick(now)) == World(w.seen, None, w.swarm)
  {
    hide Text.LowerAscii;
  }

  /** The owner is unpaired, or was last active more than 120 seconds ago. */
  predicate Away(w: World, device: string, now: nat) { device !in w.seen || w.seen[device] + 120 < now }

  /** A tick that finds the owner away pauses the swarm of an unpaused lease and writes the time down;
      one that finds a paused lease's owner back resumes it, and nothing else on the lease changes. */
  lemma TickPausesAndResumes(w: World, now: nat)
    requires w.lease.Some? && w.swarm.Some? && Text.LowerAscii(w.swarm.value.hash) == Text.LowerAscii(w.lease.value.hash)
    ensures var l, s, after := w.lease.value, w.swarm.value, Step(w, Tick(now));
      && (Away(w, l.device, now) && l.pausedAt.None?
          ==> after == World(w.seen, Some(Lease(l.device, l.hash, Some(now))), Some(Swarm(s.hash, true))))
      && (!Away(w, l.device, now) && l.pausedAt.Some?
          ==> after == World(w.seen, Some(Lease(l.device, l.hash, None)), Some(Swarm(s.hash, false))))
      && (Away(w, l.device, now) && l.pausedAt.Some? ==> after == if now < l.pausedAt.value + 120 then w else World(w.seen, None, None))
      && (!Away(w, l.device, now) && l.pausedAt.None? ==> after == w)
  {
  }

  /** While a lease stays paused and no other swarm is started, the swarm found by the pausing tick
      is there and paused. */
  lemma {:induction false} SwarmStaysPaused(w: World, evs: seq<Event>, i: nat, l: Lease)
    requires IdleSince(w, evs, i, l)
    requires forall j :: i < j < |evs| ==> !evs[j].SwarmIs?
    ensures Run(w, evs[..i]).swarm.Some?
    ensures Run(w, evs).swarm == Some(Swarm(Run(w, evs[..i]).swarm.value.hash, true))
  {
    var front, last := evs[..|evs| - 1], evs[|evs| - 1];
    assert evs[..|evs|] == evs;
    if i == |front| {
      assert evs[..i] == front;
    } else {
      assert front[..i] == evs[..i];
      IdleBefore(w, evs, i, l);
      SwarmStaysPaused(w, front, i, l);
      KeptLeaseKeepsSwarm(Run(w, front), last, l);
    }
  }

  lemma IdleBefore(w: World, evs: seq<Event>, i: nat, l: Lease)
    requires IdleSince(w, evs, i, l) && i < |evs| - 1
    ensures IdleSince(w, evs[..|evs| - 1], i, l) && Run(w, evs[..|evs| - 1]).lease == Some(l)
  {
    hide Run, Decide, Idle;
    var front := evs[..|evs| - 1];
    assert forall j :: 0 <= j <= |front| ==> evs[..j] == front[..j];
    assert front[..|front|] == front;
  }

  lemma KeptLeaseKeepsSwarm(before: World, ev: Event, l: Lease)
    requires before.lease == Some(l) == Step(before, ev).lease && l.pausedAt.Some? && !ev.SwarmIs?
    ensures Step(before, ev).swarm == before.swarm
  {
  }

  // ---------------------------------------------------------------------------------------------
  // With a steady clock

  function LastTick(evs: seq<Event>): Option<nat> {
    if evs == [] then None
    else if evs[|evs| - 1].Tick? then Some(evs[|evs| - 1].now)
    else LastTick(evs[..|evs| - 1])
  }

  /** The latest clock reading. */
  function Clock(evs: seq<Event>): nat {
    if evs == [] then 0
    else
      var last := evs[|evs| - 1];
      if last.Tick? then last.now else if last.Seen? then last.at else Clock(evs[..|evs| - 1])
  }

  /** The clock never runs backwards and ticks are at most 120 seconds apart. */
  ghost predicate Paced(evs: seq<Event>) {
    evs == []
    || var front, last := evs[..|evs| - 1], evs[|evs| - 1];
       && Paced(front)
       && (last.Tick? ==> last.now >= Clock(front))
       && (last.Seen? ==> last.at >= Clock(front))
       && (last.Tick? && LastTick(front).Some? ==> last.now <= LastTick(front).value + 120)
  }

  lemma {:induction false} TickBeforeClock(evs: seq<Event>)
    requires Paced(evs) && LastTick(evs).Some?
    ensures LastTick(evs).value <= Clock(evs)
  {
    if !evs[|evs| - 1].Tick? {
      TickBeforeClock(evs[..|evs| - 1]);
    }
  }

  ghost predicate StaysPaired(w: World, evs: seq<Event>, i: nat, device: string) {
    forall j :: i <= j <= |evs| ==> device in Run(w, evs[..j]).seen
  }

  /** While a lease stays paused its owner was either not seen since well before the pause, or was
      seen after the last tick. */
  lemma {:induction false} PausedOwnerUnseen(w: World, evs: seq<Event>, i: nat, l: Lease)
    requires IdleSince(w, evs, i, l) && Paced(evs) && StaysPaired(w, evs, i, l.device)
    ensures LastTick(evs).Some? && l.device in Run(w, evs).seen
    ensures var seen := Run(w, evs).seen[l.device];
      seen + 120 < evs[i].now || seen >= LastTick(evs).value
    decreases |evs|
  {
    hide *;
    SomePause(w, evs, i, l);
    var front, last := evs[..|evs| - 1], evs[|evs| - 1];
    PauseParts(w, evs, i, l);
    SeenMoves(Run(w, front), last, l.device);
    TickRules(evs);
    if i < |front| {
      PauseShrinks(w, evs, i, l);
      PausedOwnerUnseen(w, front, i, l);
      TickBeforeClock(front);
      OwnerIdle(Run(w, front), l.device, if last.Tick? then last.now else 0);
    } else {
      OwnerIdle(Run(w, front), l.device, evs[i].now);
    }
  }

  lemma SomePause(w: World, evs: seq<Event>, i: nat, l: Lease)
    requires IdleSince(w, evs, i, l)
    ensures i < |evs| && evs[i].Tick?
  {
  }

  /** What the last event of a pause meets. */
  lemma PauseParts(w: World, evs: seq<Event>, i: nat, l: Lease)
    requires IdleSince(w, evs, i, l) && Paced(evs) && StaysPaired(w, evs, i, l.device)
    ensures var front, last := evs[..|evs| - 1], evs[|evs| - 1];
      && l.device in Run(w, front).seen && l.device in Run(w, evs).seen && Run(w, evs) == Step(Run(w, front), last)
      && (last.Tick? ==> Idle(Run(w, front), l.device, last.now)) && (i == |front| ==> last.Tick?)
  {
    hide Step, Decide, SameHash, Idle;
    var front := evs[..|evs| - 1];
    assert evs[..|evs|] == evs && evs[..|front|] == front;
    assert l.device in Run(w, evs[..|evs|]).seen && l.device in Run(w, evs[..|front|]).seen;
    assert evs[|front|].Tick? ==> Idle(Run(w, evs[..|front|]), l.device, evs[|front|].now);
  }

  lemma PauseShrinks(w: World, evs: seq<Event>, i: nat, l: Lease)
    requires IdleSince(w, evs, i, l) && Paced(evs) && StaysPaired(w, evs, i, l.device) && i < |evs| - 1
    ensures IdleSince(w, evs[..|evs| - 1], i, l) && Paced(evs[..|evs| - 1])
    ensures StaysPaired(w, evs[..|evs| - 1], i, l.device)
  {
    hide Run, Decide, Idle, LastTick, Clock;
    var front := evs[..|evs| - 1];
    assert forall j :: 0 <= j <= |front| ==> evs[..j] == front[..j];
  }

  lemma TickRules(evs: seq<Event>)
    requires evs != [] && Paced(evs)
    ensures var front, last := evs[..|evs| - 1], evs[|evs| - 1];
      && LastTick(evs) == (if last.Tick? then Some(last.now) else LastTick(front))
      && (last.Seen? ==> last.at >= Clock(front))
      && (last.Tick? && LastTick(front).Some? ==> last.now <= LastTick(front).value + 120)
  {
  }

  lemma OwnerIdle(w: World, device: string, now: nat)
    requires device in w.seen
    ensures Idle(w, device, now) <==> w.seen[device] + 120 < now
  {
  }

  /** Only activity of the device changes when a device that stays paired was last seen. */
  lemma SeenMoves(before: World, ev: Event, device: string)
    requires device in before.seen && device in Step(before, ev).seen
    ensures Step(before, ev).seen[device] == if ev.Seen? && ev.device == device then ev.at else before.seen[device]
  {
  }

  /** With the clock steady and the owner paired throughout, a clean-up means that the owner was
      unseen for more than 240 seconds. */
  lemma CleanMeansLongUnseen(w: World, evs: seq<Event>, now: nat, i: nat, l: Lease)
    requires Decide(Run(w, evs), now) == Cleaned
    requires IdleSince(w, evs, i, l) && Run(w, evs).lease == Some(l)
    requires Paced(evs + [Tick(now)]) && StaysPaired(w, evs, i, l.device)
    ensures l.device in Run(w, evs).seen
    ensures now > Run(w, evs).seen[l.device] + 240
  {
    assert (evs + [Tick(now)])[..|evs|] == evs && evs[..|evs|] == evs;
    PausedOwnerUnseen(w, evs, i, l);
  }

  /** The device was active after the last tick, and has not been unpaired since. */
  predicate ActiveSinceTick(evs: seq<Event>, device: string) {
    evs != []
    && var last := evs[|evs| - 1];
       match last
       case Seen(d, _) => d == device || ActiveSinceTick(evs[..|evs| - 1], device)
       case Gone(d) => d != device && ActiveSinceTick(evs[..|evs| - 1], device)
       case Tick(_) => false
       case _ => ActiveSinceTick(evs[..|evs| - 1], device)
  }

  lemma {:induction false} ActivityIsRecent(w: World, evs: seq<Event>, device: string)
    requires Paced(evs) && ActiveSinceTick(evs, device)
    ensures device in Run(w, evs).seen
    ensures LastTick(evs).Some? ==> Run(w, evs).seen[device] >= LastTick(evs).value
  {
    hide Decide, SameHash, Act;
    var front, last := evs[..|evs| - 1], evs[|evs| - 1];
    if LastTick(front).Some? {
      TickBeforeClock(front);
    }
    if !(last.Seen? && last.device == device) {
      ActivityIsRecent(w, front, device);
    }
  }

  lemma {:induction false} SomeTick(evs: seq<Event>, i: nat)
    requires i < |evs| && evs[i].Tick?
    ensures LastTick(evs).Some?
  {
    if i < |evs| - 1 {
      SomeTick(evs[..|evs| - 1], i);
    }
  }

  /** If the owner of a paused swarm has been active since the last tick, the next one resumes it. */
  lemma ActivityIsFollowedByResume(w: World, evs: seq<Event>, now: nat)
    requires w.lease.Some? ==> w.lease.value.pausedAt.None?
    requires Run(w, evs).lease.Some? && Run(w, evs).lease.value.pausedAt.Some?
    requires Run(w, evs).swarm.Some? && SameHash(Run(w, evs).swarm.value.hash, Run(w, evs).lease.value.hash)
    requires Paced(evs + [Tick(now)]) && ActiveSinceTick(evs, Run(w, evs).lease.value.device)
    ensures Decide(Run(w, evs), now) == Resumed
    ensures var after := Run(w, evs + [Tick(now)]);
      && after.lease == Some(Run(w, evs).lease.value.(pausedAt := None))
      && after.swarm == Some(Run(w, evs).swarm.value.(paused := false))
  {
    hide ActiveSinceTick;
    assert (evs + [Tick(now)])[..|evs|] == evs;
    var i := PausedLeaseWasIdle(w, evs);
    SomeTick(evs, i);
    ActivityIsRecent(w, evs, Run(w, evs).lease.value.device);
  }

  // ---------------------------------------------------------------------------------------------
  // The watcher

  class Watcher {
    var seen: map<string, nat>
    var lease: Option<Lease>
    var swarm: Option<Swarm>

    function Snapshot(): World
      reads this
    {
      World(seen, lease, swarm)
    }

    method Set(device: string, hash: string)
      modifies this`lease
      ensures Snapshot() == Step(old(Snapshot()), SetLease(device, hash))
    {
      if device == "" || hash == "" {
        return;
      }
      lease := Some(Lease(device, Text.LowerAscii(hash), None));
    }

    method Clear()
      modifies this`lease
      ensures Snapshot() == Step(old(Snapshot()), ClearLease)
    {
      lease := None;
    }

    method ClearHash(hash: string)
      modifies this`lease
      ensures Snapshot() == Step(old(Snapshot()), ClearIfHash(hash))
    {
      if lease.Some? && SameHash(lease.value.hash, hash) {
        lease := None;
      }
    }

    method SetIdlePausedAt(at: Option<nat>)
      modifies this`lease
      ensures lease == if old(lease).Some? then Some(old(lease).value.(pausedAt := at)) else None
    {
      if lease.Some? {
        lease := Some(lease.value.(pausedAt := at));
      }
    }

    /** One tick, taken as a whole. */
    method TickIdleWatch(now: nat)
      modifies this`lease, this`swarm
      ensures Snapshot() == Step(old(Snapshot()), Tick(now))
    {
      if lease.None? {
        return;
      }
      var held := lease.value;
      if swarm.None? {
        Clear();
        return;
      }
      if !SameHash(swarm.value.hash, held.hash) {
        ClearHash(held.hash);
        return;
      }
      var idle := if held.device in seen then Since(seen[held.device], now) > DEVICE_IDLE_SECS else true;
      if !idle {
        if held.pausedAt.Some? {
          swarm := Some(swarm.value.(paused := false));
          SetIdlePausedAt(None);
        }
        return;
      }
      if held.pausedAt.None? {
        swarm := Some(swarm.value.(paused := true));
        SetIdlePausedAt(Some(now));
        return;
      }
      if Since(held.pausedAt.value, now) < IDLE_PAUSE_GRACE_SECS {
        return;
      }
      CleanLeaseTorrent();
    }

    /** Stops the swarm and gives the lease up; history and cache files are not part of this model. */
    method CleanLeaseTorrent()
      modifies this`lease, this`swarm
      ensures lease == None && swarm == None
    {
      swarm := None;
      Clear();
    }
  }
}
