/** LAN pairing: one-time codes, device tokens and stream tickets (crates/lan/src/pairing.rs). */
module Pairing {
  import opened Wrappers

  // Milliseconds.
  const CODE_TTL := 300_000
  const STREAM_TICKET_TTL := 43_200_000

  datatype ActiveCode = ActiveCode(code: string, createdAt: nat, used: bool)

  datatype Device = Device(id: string, token: string, pairedAt: nat, lastSeen: nat, name: Option<string>)

  datatype Ticket = Ticket(deviceId: string, createdAt: nat)

  datatype State = State(
    code: Option<ActiveCode>,
    devices: map<string, Device>,
    tokenIndex: map<string, string>,
    tickets: map<string, Ticket>)

  const INITIAL := State(None, map[], map[], map[])

  function Elapsed(since: nat, now: nat): nat { if now >= since then now - since else 0 }

  datatype PairError = NoCode | Used | Expired | Invalid

  /** Calls, with the random text and the clock readings each of them draws. */
  datatype Event =
    | Refresh(code: string, now: nat)
    | Pair(code: string, device: string, name: Option<string>, token: string, now: nat, unix: nat)
    | Touch(token: string, unix: nat)
    | TouchTicket(ticket: string, unix: nat)
    | Mint(token: string, ticket: string, now: nat)
    | Validate(ticket: string, now: nat)
    | Restore(records: seq<Device>)
    | Revoke(device: string)

  function PairCheck(s: State, code: string, now: nat): Option<PairError> {
    if s.code.None? then Some(NoCode)
    else if s.code.value.used then Some(Used)
    else if Elapsed(s.code.value.createdAt, now) > CODE_TTL then Some(Expired)
    else if s.code.value.code != code then Some(Invalid)
    else None
  }

  function WithoutTicketsOf(tickets: map<string, Ticket>, device: string): map<string, Ticket> {
    map t | t in tickets && tickets[t].deviceId != device :: tickets[t]
  }

  /** The device and everything issued to it is gone. */
  function Dropped(s: State, device: string): State {
    if device in s.devices then
      s.(devices := s.devices - {device},
         tokenIndex := s.tokenIndex - {s.devices[device].token},
         tickets := WithoutTicketsOf(s.tickets, device))
    else s
  }

  function Seen(s: State, device: string, unix: nat): State {
    if device in s.devices then s.(devices := s.devices[device := s.devices[device].(lastSeen := unix)]) else s
  }

  predicate Kept(r: Device) { r.id != "" && r.token != "" }

  function RestoredDevices(records: seq<Device>): map<string, Device> {
    if records == [] then map[]
    else
      var m, r := RestoredDevices(records[..|records| - 1]), records[|records| - 1];
      if Kept(r) then m[r.id := r] else m
  }

  function RestoredIndex(records: seq<Device>): map<string, string> {
    if records == [] then map[]
    else
      var m, r := RestoredIndex(records[..|records| - 1]), records[|records| - 1];
      if Kept(r) then m[r.token := r.id] else m
  }

  function Step(s: State, ev: Event): State {
    match ev
    case Refresh(code, now) => s.(code := Some(ActiveCode(code, now, false)))
    case Pair(code, device, name, token, now, unix) =>
      if PairCheck(s, code, now).Some? then s
      else
        var d := Dropped(s, device);
        d.(tokenIndex := d.tokenIndex[token := device],
           devices := d.devices[device := Device(device, token, unix, unix, name)],
           code := Some(s.code.value.(used := true)))
    case Touch(token, unix) => if token in s.tokenIndex then Seen(s, s.tokenIndex[token], unix) else s
    case TouchTicket(ticket, unix) => if ticket in s.tickets then Seen(s, s.tickets[ticket].deviceId, unix) else s
    case Mint(token, ticket, now) =>
      if token in s.tokenIndex then s.(tickets := s.tickets[ticket := Ticket(s.tokenIndex[token], now)]) else s
    case Validate(ticket, now) =>
      if ticket in s.tickets && Elapsed(s.tickets[ticket].createdAt, now) > STREAM_TICKET_TTL then s.(tickets := s.tickets - {ticket}) else s
    case Restore(records) => s.(devices := RestoredDevices(records), tokenIndex := RestoredIndex(records))
    case Revoke(device) => Dropped(s, device)
  }

  function Accepts(s: State, ticket: string, now: nat): bool {
    ticket in s.tickets && Elapsed(s.tickets[ticket].createdAt, now) <= STREAM_TICKET_TTL
  }

  function Run(evs: seq<Event>): State {
    if evs == [] then INITIAL else Step(Run(evs[..|evs| - 1]), evs[|evs| - 1])
  }

  // ---------------------------------------------------------------------------------------------
  // Tokens and devices are inverse maps

  ghost predicate Inverse(s: State) {
    && (forall d <- s.devices :: s.devices[d].id == d && s.devices[d].token in s.tokenIndex && s.tokenIndex[s.devices[d].token] == d)
    && (forall t <- s.tokenIndex :: s.tokenIndex[t] in s.devices && s.devices[s.tokenIndex[t]].token == t)
  }

  /** Record i is the last of the kept ones with its device id; the last with its token. */
  predicate LastForId(records: seq<Device>, i: nat)
    requires i < |records|
  {
    Kept(records[i]) && forall j :: i < j < |records| && Kept(records[j]) ==> records[j].id != records[i].id
  }

  predicate LastForToken(records: seq<Device>, i: nat)
    requires i < |records|
  {
    Kept(records[i]) && forall j :: i < j < |records| && Kept(records[j]) ==> records[j].token != records[i].token
  }

  /** What is restored last for a device is also what is restored last for its token. */
  ghost predicate Coherent(records: seq<Device>) {
    forall i :: 0 <= i < |records| ==> (LastForId(records, i) <==> LastForToken(records, i))
  }

  /** The generated token is new, and restoring happens before any ticket exists. */
  ghost predicate Legal(s: State, ev: Event) {
    match ev
    case Pair(_, _, _, token, _, _) => token !in s.tokenIndex && token != ""
    case Mint(_, ticket, _) => ticket !in s.tickets
    case Restore(records) => s.tickets == map[] && Coherent(records)
    case _ => true
  }

  ghost predicate LegalRun(evs: seq<Event>) {
    forall n :: 0 <= n < |evs| ==> Legal(Run(evs[..n]), evs[n])
  }

  /** What a restored state holds, record by record. */
  lemma {:induction false} RestoredDeviceIs(records: seq<Device>, d: string)
    ensures d in RestoredDevices(records) <==> exists i :: 0 <= i < |records| && LastForId(records, i) && records[i].id == d
    ensures forall i :: 0 <= i < |records| && LastForId(records, i) && records[i].id == d ==> RestoredDevices(records)[d] == records[i]
  {
    if records != [] {
      var front, last := records[..|records| - 1], |records| - 1;
      RestoredDeviceIs(front, d);
      assert forall i :: 0 <= i < |front| ==> records[i] == front[i];
      if Kept(records[last]) && records[last].id == d {
        assert LastForId(records, last);
      } else {
        forall i | 0 <= i < |front| && records[i].id == d
          ensures LastForId(records, i) <==> LastForId(front, i)
        {
        }
      }
    }
  }

  lemma {:induction false} RestoredTokenIs(records: seq<Device>, t: string)
    ensures t in RestoredIndex(records) <==> exists i :: 0 <= i < |records| && LastForToken(records, i) && records[i].token == t
    ensures forall i :: 0 <= i < |records| && LastForToken(records, i) && records[i].token == t ==> RestoredIndex(records)[t] == records[i].id
  {
    if records != [] {
      var front, last := records[..|records| - 1], |records| - 1;
      RestoredTokenIs(front, t);
      assert forall i :: 0 <= i < |front| ==> records[i] == front[i];
      if Kept(records[last]) && records[last].token == t {
        assert LastForToken(records, last);
      } else {
        forall i | 0 <= i < |front| && records[i].token == t
          ensures LastForToken(records, i) <==> LastForToken(front, i)
        {
        }
      }
    }
  }

  lemma RestoredRecordIsLast(s: State, records: seq<Device>, i: nat)
    requires s.devices == RestoredDevices(records) && s.tokenIndex == RestoredIndex(records) && Inverse(s)
    requires i < |records|
    ensures LastForId(records, i) <==> LastForToken(records, i)
  {
    var r := records[i];
    RestoredDeviceIs(records, r.id);
    RestoredTokenIs(records, r.token);
    if LastForId(records, i) {
      assert s.devices[r.id] == r;
      var j :| 0 <= j < |records| && LastForToken(records, j) && records[j].token == r.token;
      assert records[j].id == r.id;
    }
    if LastForToken(records, i) {
      assert s.tokenIndex[r.token] == r.id;
      var j :| 0 <= j < |records| && LastForId(records, j) && records[j].id == r.id;
      assert records[j].token == r.token;
    }
  }

  /** Restoring gives inverse maps exactly when the records are coherent. */
  lemma RestoreInverseIff(s: State, records: seq<Device>)
    ensures Inverse(Step(s, Restore(records))) <==> Coherent(records)
  {
    var s' := Step(s, Restore(records));
    if Inverse(s') {
      forall i | 0 <= i < |records| ensures LastForId(records, i) <==> LastForToken(records, i) {
        RestoredRecordIsLast(s', records, i);
      }
    }
    if Coherent(records) {
      forall d <- s'.devices
        ensures s'.devices[d].id == d && s'.devices[d].token in s'.tokenIndex && s'.tokenIndex[s'.devices[d].token] == d
      {
        RestoredDeviceIs(records, d);
        var i :| 0 <= i < |records| && LastForId(records, i) && records[i].id == d;
        RestoredTokenIs(records, records[i].token);
        assert LastForToken(records, i);
      }
      forall t <- s'.tokenIndex
        ensures s'.tokenIndex[t] in s'.devices && s'.devices[s'.tokenIndex[t]].token == t
      {
        RestoredTokenIs(records, t);
        var i :| 0 <= i < |records| && LastForToken(records, i) && records[i].token == t;
        RestoredDeviceIs(records, records[i].id);
        assert LastForId(records, i);
      }
    }
  }

  /** Two devices stored with one token: the token then finds only the second. */
  lemma SharedTokenBreaksInverse(s: State)
    ensures var records := [Device("a", "t", 0, 0, None), Device("b", "t", 0, 0, None)];
      !Coherent(records) && !Inverse(Step(s, Restore(records)))
  {
    hide Inverse, Step;
    var records := [Device("a", "t", 0, 0, None), Device("b", "t", 0, 0, None)];
    assert LastForId(records, 0) by {
      assert forall j :: 0 < j < 2 ==> records[j].id == "b";
    }
    assert Kept(records[1]) && !LastForToken(records, 0);
    RestoreInverseIff(s, records);
  }

  // ---------------------------------------------------------------------------------------------
  // Runs

  lemma StepKeepsInverse(s: State, ev: Event)
    requires Inverse(s) && Legal(s, ev)
    ensures Inverse(Step(s, ev))
  {
    match ev
    case Pair(code, device, name, token, now, unix) => DropKeepsInverse(s, device);
    case Revoke(device) => DropKeepsInverse(s, device);
    case Restore(records) => RestoreInverseIff(s, records);
    case _ =>
  }

  lemma DropKeepsInverse(s: State, device: string)
    requires Inverse(s)
    ensures Inverse(Dropped(s, device)) && device !in Dropped(s, device).devices
    ensures forall t <- Dropped(s, device).tokenIndex :: t in s.tokenIndex
  {
  }

  /** The token a live ticket was minted with, told by history: the last mint of that ticket. */
  function MintedWith(evs: seq<Event>, ticket: string): Option<string> {
    if evs == [] then None
    else
      var front, last := evs[..|evs| - 1], evs[|evs| - 1];
      if last.Mint? && last.ticket == ticket && last.token in Run(front).tokenIndex then Some(last.token)
      else MintedWith(front, ticket)
  }

  /** Every live ticket's device is still paired, under the token the ticket was minted with. */
  ghost predicate TicketsBacked(s: State, evs: seq<Event>) {
    forall t <- s.tickets :: Backed(s, t, MintedWith(evs, t))
  }

  /** The ticket's device is paired under the token the ticket was minted with. */
  ghost predicate Backed(s: State, ticket: string, minted: Option<string>)
    requires ticket in s.tickets
  {
    var device := s.tickets[ticket].deviceId;
    device in s.devices && minted == Some(s.devices[device].token)
  }

  lemma StepKeepsTicketsBacked(evs: seq<Event>, ev: Event)
    requires Inverse(Run(evs)) && Legal(Run(evs), ev) && TicketsBacked(Run(evs), evs)
    ensures TicketsBacked(Run(evs + [ev]), evs + [ev])
  {
    hide Run, Step, MintedWith;
    var s, all := Run(evs), evs + [ev];
    OneMore(evs, ev);
    forall t | t in Step(s, ev).tickets
      ensures Backed(Step(s, ev), t, MintedWith(all, t))
    {
      MintGrows(evs, ev, t);
      assert t in s.tickets ==> Backed(s, t, MintedWith(evs, t));
      StepKeepsBacked(s, ev, t, MintedWith(evs, t));
    }
  }

  lemma MintGrows(evs: seq<Event>, ev: Event, ticket: string)
    ensures MintedWith(evs + [ev], ticket) == NextMint(Run(evs), ev, ticket, MintedWith(evs, ticket))
  {
    assert (evs + [ev])[..|evs|] == evs;
  }

  function NextMint(s: State, ev: Event, ticket: string, before: Option<string>): Option<string> {
    if ev.Mint? && ev.ticket == ticket && ev.token in s.tokenIndex then Some(ev.token) else before
  }

  lemma StepKeepsBacked(s: State, ev: Event, ticket: string, minted: Option<string>)
    requires Inverse(s) && Legal(s, ev) && ticket in Step(s, ev).tickets
    requires ticket in s.tickets ==> Backed(s, ticket, minted)
    ensures Backed(Step(s, ev), ticket, NextMint(s, ev, ticket, minted))
  {
    hide RestoredDevices, RestoredIndex, Coherent;
  }

  /** In every legal run tokens and devices stay inverse and every live ticket stays backed. */
  lemma {:induction false} RunKeepsPairing(evs: seq<Event>)
    requires LegalRun(evs)
    ensures Inverse(Run(evs)) && TicketsBacked(Run(evs), evs)
  {
    if evs != [] {
      var front, last := evs[..|evs| - 1], evs[|evs| - 1];
      forall n | 0 <= n < |front| ensures Legal(Run(front[..n]), front[n]) {
        assert front[..n] == evs[..n];
      }
      RunKeepsPairing(front);
      assert Legal(Run(evs[..|evs| - 1]), last);
      assert front + [last] == evs;
      StepKeepsInverse(Run(front), last);
      StepKeepsTicketsBacked(front, last);
    }
  }

  /** An accepted ticket belongs to a device still paired under the token it was minted with. */
  lemma AcceptedTicketIsBacked(evs: seq<Event>, ticket: string, now: nat)
    requires LegalRun(evs) && Accepts(Run(evs), ticket, now)
    ensures var d := Run(evs).tickets[ticket].deviceId;
      d in Run(evs).devices && MintedWith(evs, ticket) == Some(Run(evs).devices[d].token)
  {
    RunKeepsPairing(evs);
    assert Backed(Run(evs), ticket, MintedWith(evs, ticket));
  }

  /** The device is revoked, or paired again. */
  predicate Drops(s: State, ev: Event, device: string) {
    (ev == Revoke(device) || (ev.Pair? && ev.device == device && PairCheck(s, ev.code, ev.now).None?)) && device in s.devices
  }

  predicate MintedAgain(more: seq<Event>, ticket: string) {
    exists i :: 0 <= i < |more| && more[i].Mint? && more[i].ticket == ticket
  }

  lemma DropTakesTicket(s: State, ev: Event, ticket: string)
    requires ticket in s.tickets && Drops(s, ev, s.tickets[ticket].deviceId)
    ensures ticket !in Step(s, ev).tickets
  {
  }

  lemma StepKeepsRefused(s: State, ev: Event, ticket: string)
    requires ticket !in s.tickets && !(ev.Mint? && ev.ticket == ticket)
    ensures ticket !in Step(s, ev).tickets
  {
    hide RestoredDevices, RestoredIndex, PairCheck;
  }

  /** Once a device is revoked or paired again, no ticket it had is ever accepted any more, whatever
      else happens, a restore included, unless the same ticket is minted anew. */
  lemma {:induction false} RevokedTicketStaysRefused(evs: seq<Event>, ev: Event, more: seq<Event>, ticket: string, now: nat)
    requires ticket in Run(evs).tickets && Drops(Run(evs), ev, Run(evs).tickets[ticket].deviceId)
    requires !MintedAgain(more, ticket)
    ensures ticket !in Run(evs + [ev] + more).tickets && !Accepts(Run(evs + [ev] + more), ticket, now)
  {
    hide Run, Step, Drops;
    if more == [] {
      DropTakesTicket(Run(evs), ev, ticket);
      OneMore(evs, ev);
      assert evs + [ev] + more == evs + [ev];
    } else {
      var front, last := more[..|more| - 1], more[|more| - 1];
      assert forall i :: 0 <= i < |front| ==> front[i] == more[i];
      RevokedTicketStaysRefused(evs, ev, front, ticket, now);
      StepKeepsRefused(Run(evs + [ev] + front), last, ticket);
      OneMore(evs + [ev] + front, last);
      assert evs + [ev] + front + [last] == evs + [ev] + more;
    }
  }

  lemma OneMore(evs: seq<Event>, ev: Event)
    ensures Run(evs + [ev]) == Step(Run(evs), ev)
  {
    assert (evs + [ev])[..|evs|] == evs;
  }

  /** Restoring is the one call that does not drop tickets: afterwards every live ticket has its
      device paired under the same token exactly when the records restore that device so. */
  lemma RestoreKeepsTicketsIff(evs: seq<Event>, records: seq<Device>)
    requires TicketsBacked(Run(evs), evs)
    ensures TicketsBacked(Run(evs + [Restore(records)]), evs + [Restore(records)])
      <==> forall t <- Run(evs).tickets :: RestoresSameToken(Run(evs), records, Run(evs).tickets[t].deviceId)
  {
    hide RestoredDevices, RestoredIndex;
    var s, all := Run(evs), evs + [Restore(records)];
    assert all[..|evs|] == evs;
    assert Run(all) == Step(s, Restore(records));
    forall t <- s.tickets
      ensures MintedWith(all, t) == Some(s.devices[s.tickets[t].deviceId].token)
    {
      assert Backed(s, t, MintedWith(evs, t));
    }
    if TicketsBacked(Run(all), all) {
      forall t <- s.tickets ensures RestoresSameToken(s, records, s.tickets[t].deviceId) {
        assert t in Run(all).tickets && Backed(Run(all), t, MintedWith(all, t));
      }
    }
  }

  predicate RestoresSameToken(s: State, records: seq<Device>, d: string) {
    d in s.devices && d in RestoredDevices(records) && RestoredDevices(records)[d].token == s.devices[d].token
  }

  /** A ticket just minted is accepted for twelve hours, until its device is revoked or paired again,
      whatever else happens: checks within that time and a restore included. */
  lemma {:induction false} TicketLastsTwelveHours(evs: seq<Event>, token: string, ticket: string, minted: nat, more: seq<Event>, now: nat)
    requires token in Run(evs).tokenIndex
    requires forall ev <- more :: ev != Revoke(Run(evs).tokenIndex[token]) && !(ev.Pair? && ev.device == Run(evs).tokenIndex[token])
    requires forall ev <- more :: !(ev.Mint? && ev.ticket == ticket) && !(ev.Validate? && ev.ticket == ticket && ev.now > minted + 43_200_000)
    ensures Accepts(Run(evs + [Mint(token, ticket, minted)] + more), ticket, now) <==> now <= minted + 43_200_000
    ensures var s := Run(evs + [Mint(token, ticket, minted)] + more);
      ticket in s.tickets && s.tickets[ticket] == Ticket(Run(evs).tokenIndex[token], minted)
  {
    hide Run, Step;
    var first := evs + [Mint(token, ticket, minted)];
    if more == [] {
      OneMore(evs, Mint(token, ticket, minted));
      MintMakes(Run(evs), token, ticket, minted);
      assert first + more == first;
    } else {
      var front, last := more[..|more| - 1], more[|more| - 1];
      assert more == front + [last];
      TicketLastsTwelveHours(evs, token, ticket, minted, front, now);
      OneMore(first + front, last);
      assert first + front + [last] == first + more;
      StepKeepsTicket(Run(first + front), last, ticket);
    }
  }

  lemma MintMakes(s: State, token: string, ticket: string, now: nat)
    requires token in s.tokenIndex
    ensures Step(s, Mint(token, ticket, now)) == State(s.code, s.devices, s.tokenIndex, s.tickets[ticket := Ticket(s.tokenIndex[token], now)])
  {
  }

  lemma StepKeepsTicket(s: State, ev: Event, ticket: string)
    requires ticket in s.tickets && !(ev.Mint? && ev.ticket == ticket)
    requires ev != Revoke(s.tickets[ticket].deviceId) && !(ev.Pair? && ev.device == s.tickets[ticket].deviceId)
    requires !(ev.Validate? && ev.ticket == ticket && ev.now > s.tickets[ticket].createdAt + 43_200_000)
    ensures ticket in Step(s, ev).tickets && Step(s, ev).tickets[ticket] == s.tickets[ticket]
  {
    hide RestoredDevices, RestoredIndex, PairCheck;
  }

  /** What a successful pairing leaves: the device under its new token, seen now, its old token and
      tickets gone if it was paired before, the code used up, and nothing else changed. */
  lemma PairMakes(s: State, code: string, device: string, name: Option<string>, token: string, now: nat, unix: nat)
    requires PairCheck(s, code, now).None?
    ensures var after := Step(s, Pair(code, device, name, token, now, unix));
      && after.code == Some(ActiveCode(code, s.code.value.createdAt, true))
      && after.devices == s.devices[device := Device(device, token, unix, unix, name)]
      && (forall t :: t in after.tickets <==> t in s.tickets && !(device in s.devices && s.tickets[t].deviceId == device))
      && (forall t <- after.tickets :: after.tickets[t] == s.tickets[t])
      && token in after.tokenIndex && after.tokenIndex[token] == device
      && forall t :: t != token ==>
          (t in after.tokenIndex <==> t in s.tokenIndex && !(device in s.devices && t == s.devices[device].token))
          && (t in after.tokenIndex ==> after.tokenIndex[t] == s.tokenIndex[t])
  {
    var paired := Device(device, token, unix, unix, name);
    assert (s.devices - {device})[device := paired] == s.devices[device := paired];
  }

  /** Why a pairing fails, in the order of the checks; it then changes nothing. */
  lemma PairFails(s: State, code: string, device: string, name: Option<string>, token: string, now: nat, unix: nat)
    ensures PairCheck(s, code, now) == Some(NoCode) <==> s.code.None?
    ensures s.code.Some? ==>
      var c := s.code.value;
      && (PairCheck(s, code, now) == Some(Used) <==> c.used)
      && (PairCheck(s, code, now) == Some(Expired) <==> !c.used && now > c.createdAt + 300_000)
      && (PairCheck(s, code, now) == Some(Invalid) <==> !c.used && now <= c.createdAt + 300_000 && c.code != code)
    ensures PairCheck(s, code, now).Some? ==> Step(s, Pair(code, device, name, token, now, unix)) == s
  {
  }

  /** A request under a token or a ticket only moves when its device was last seen. */
  lemma TouchMoves(s: State, token: string, ticket: string, unix: nat)
    ensures token in s.tokenIndex ==> Step(s, Touch(token, unix)) == s.(devices := MovedAt(s.devices, s.tokenIndex[token], unix))
    ensures ticket in s.tickets ==> Step(s, TouchTicket(ticket, unix)) == s.(devices := MovedAt(s.devices, s.tickets[ticket].deviceId, unix))
    ensures token !in s.tokenIndex ==> Step(s, Touch(token, unix)) == s
    ensures ticket !in s.tickets ==> Step(s, TouchTicket(ticket, unix)) == s
  {
    assert forall d <- s.devices :: s.devices[d := s.devices[d]] == s.devices;
  }

  function MovedAt(devices: map<string, Device>, device: string, unix: nat): map<string, Device> {
    map d | d in devices :: if d == device then Device(devices[d].id, devices[d].token, devices[d].pairedAt, unix, devices[d].name) else devices[d]
  }

  // ---------------------------------------------------------------------------------------------
  // Pairing codes

  /** The code shown last, and when. */
  function LastCode(evs: seq<Event>): Option<(string, nat)> {
    if evs == [] then None
    else
      var last := evs[|evs| - 1];
      if last.Refresh? then Some((last.code, last.now)) else LastCode(evs[..|evs| - 1])
  }

  /** The successful pairings since the code was last refreshed. */
  function PairedSince(evs: seq<Event>): nat {
    if evs == [] then 0
    else
      var front, last := evs[..|evs| - 1], evs[|evs| - 1];
      if last.Refresh? then 0
      else PairedSince(front) + if last.Pair? && PairCheck(Run(front), last.code, last.now).None? then 1 else 0
  }

  /** A pairing succeeds exactly with the code shown last, within its time, and only as the first;
      so each code shown pairs at most one device. */
  lemma {:induction false} EachCodePairsOnce(evs: seq<Event>, code: string, now: nat)
    ensures PairCheck(Run(evs), code, now).None?
      <==> LastCode(evs).Some? && PairedSince(evs) == 0 && code == LastCode(evs).value.0 && now <= LastCode(evs).value.1 + 300_000
    ensures PairedSince(evs) <= 1
    ensures Run(evs).code == if LastCode(evs).None? then None
      else Some(ActiveCode(LastCode(evs).value.0, LastCode(evs).value.1, PairedSince(evs) == 1))
    ensures LastCode(evs).None? ==> PairedSince(evs) == 0
  {
    if evs != [] {
      var front, last := evs[..|evs| - 1], evs[|evs| - 1];
      EachCodePairsOnce(front, if last.Pair? then last.code else code, if last.Pair? then last.now else now);
    }
  }

  // ---------------------------------------------------------------------------------------------
  // Export and restore

  /** An export lists every device once, in whatever order the hash map yields. */
  ghost predicate Exports(records: seq<Device>, s: State) {
    && (forall i :: 0 <= i < |records| ==> records[i].id in s.devices && s.devices[records[i].id] == records[i])
    && (forall d <- s.devices :: exists i :: 0 <= i < |records| && records[i] == s.devices[d])
    && (forall i, j :: 0 <= i < j < |records| ==> records[i].id != records[j].id)
  }

  /** Restoring an export is the identity on devices and tokens exactly when no device has an
      empty id. */
  lemma RestoreOfExport(s: State, records: seq<Device>)
    requires Inverse(s) && Exports(records, s) && (forall d <- s.devices :: s.devices[d].token != "")
    ensures RestoredDevices(records) == s.devices - {""}
    ensures (Step(s, Restore(records)) == s) <==> "" !in s.devices
  {
    hide RestoredDevices, RestoredIndex, Exports, Inverse;
    forall d ensures d in RestoredDevices(records) <==> d in s.devices && d != ""
             ensures d in RestoredDevices(records) ==> RestoredDevices(records)[d] == s.devices[d]
    {
      ExportedDevice(s, records, d);
    }
    assert RestoredDevices(records) == s.devices - {""};
    if "" !in s.devices {
      assert s.devices - {""} == s.devices;
      forall t ensures t in RestoredIndex(records) <==> t in s.tokenIndex
               ensures t in s.tokenIndex ==> t in RestoredIndex(records) && RestoredIndex(records)[t] == s.tokenIndex[t]
      {
        ExportedToken(s, records, t);
      }
      assert RestoredIndex(records) == s.tokenIndex;
    }
  }

  lemma ExportedDevice(s: State, records: seq<Device>, d: string)
    requires Inverse(s) && Exports(records, s) && (forall d <- s.devices :: s.devices[d].token != "")
    ensures d in RestoredDevices(records) <==> d in s.devices && d != ""
    ensures d in RestoredDevices(records) ==> RestoredDevices(records)[d] == s.devices[d]
  {
    hide RestoredDevices;
    RestoredDeviceIs(records, d);
    if d in s.devices && d != "" {
      var i :| 0 <= i < |records| && records[i] == s.devices[d];
      assert LastForId(records, i);
    }
  }

  lemma ExportedToken(s: State, records: seq<Device>, t: string)
    requires Inverse(s) && Exports(records, s) && (forall d <- s.devices :: s.devices[d].token != "") && "" !in s.devices
    ensures t in RestoredIndex(records) <==> t in s.tokenIndex
    ensures t in s.tokenIndex ==> t in RestoredIndex(records) && RestoredIndex(records)[t] == s.tokenIndex[t]
  {
    hide RestoredIndex;
    RestoredTokenIs(records, t);
    if t in s.tokenIndex {
      var d := s.tokenIndex[t];
      var i :| 0 <= i < |records| && records[i] == s.devices[d];
      forall j | i < j < |records| && Kept(records[j]) ensures records[j].token != t {
        assert s.devices[records[j].id] == records[j] && records[j].id != d;
      }
      assert LastForToken(records, i);
    }
  }

  ghost predicate UnderOwnIds(devices: map<string, Device>) { forall d <- devices :: devices[d].id == d }

  /** The records are those of the devices no longer left, each once. */
  ghost predicate ExportedSoFar(devices: map<string, Device>, left: set<string>, records: seq<Device>) {
    && (forall r <- records :: r.id in devices && r.id !in left && devices[r.id] == r)
    && (forall d <- devices :: d in left || devices[d] in records)
    && (forall i, j :: 0 <= i < j < |records| ==> records[i].id != records[j].id)
  }

  lemma OneExported(devices: map<string, Device>, left: set<string>, records: seq<Device>, d: string)
    requires UnderOwnIds(devices) && d in left && d in devices && ExportedSoFar(devices, left, records)
    ensures ExportedSoFar(devices, left - {d}, records + [devices[d]])
  {
    var more := records + [devices[d]];
    assert forall r <- more :: r in records || r == devices[d];
    assert forall r <- records :: r in more;
    assert more[|records|] in more;
    forall i, j | 0 <= i < j < |more| ensures more[i].id != more[j].id {
      assert more[i] in records;
      assert j < |records| ==> more[j] == records[j];
    }
  }

  lemma NoneExported(devices: map<string, Device>)
    ensures ExportedSoFar(devices, devices.Keys, [])
  {
  }

  lemma InverseIsOwn(s: State)
    requires Inverse(s)
    ensures UnderOwnIds(s.devices)
  {
  }

  lemma AllExported(s: State, records: seq<Device>)
    requires ExportedSoFar(s.devices, {}, records)
    ensures Exports(records, s)
  {
    assert forall i :: 0 <= i < |records| ==> records[i] in records;
  }

  // ---------------------------------------------------------------------------------------------
  // The pairing state behind its lock

  class PairingState {
    var code: Option<ActiveCode>
    var devices: map<string, Device>
    var tokenIndex: map<string, string>
    var tickets: map<string, Ticket>

    function Snapshot(): State
      reads this
    {
      State(code, devices, tokenIndex, tickets)
    }

    constructor ()
      ensures Snapshot() == INITIAL
    {
      code, devices, tokenIndex, tickets := None, map[], map[], map[];
    }

    method RefreshCode(digits: string, now: nat)
      modifies this
      ensures Snapshot() == Step(old(Snapshot()), Refresh(digits, now))
    {
      code := Some(ActiveCode(digits, now, false));
    }

    method PairDevice(given: string, device: string, name: Option<string>, token: string, now: nat, unix: nat)
      returns (r: Result<string, PairError>)
      modifies this
      ensures Snapshot() == Step(old(Snapshot()), Pair(given, device, name, token, now, unix))
      ensures r == if PairCheck(old(Snapshot()), given, now).None? then Ok(token)
                   else Err(PairCheck(old(Snapshot()), given, now).value)
    {
      if code.None? {
        return Err(NoCode);
      }
      var active := code.value;
      if active.used {
        return Err(Used);
      }
      if Elapsed(active.createdAt, now) > CODE_TTL {
        return Err(Expired);
      }
      if active.code != given {
        return Err(Invalid);
      }
      var record := Device(device, token, unix, unix, name);
      if device in devices {
        var previous := devices[device];
        devices := devices - {device};
        tokenIndex := tokenIndex - {previous.token};
        tickets := WithoutTicketsOf(tickets, device);
      }
      tokenIndex := tokenIndex[token := device];
      devices := devices[device := record];
      code := Some(active.(used := true));
      r := Ok(token);
    }

    method TouchToken(token: string, unix: nat)
      modifies this`devices
      ensures Snapshot() == Step(old(Snapshot()), Touch(token, unix))
    {
      if token !in tokenIndex {
        return;
      }
      var device := tokenIndex[token];
      if device in devices {
        devices := devices[device := devices[device].(lastSeen := unix)];
      }
    }

    method TouchStreamTicket(ticket: string, unix: nat)
      modifies this`devices
      ensures Snapshot() == Step(old(Snapshot()), TouchTicket(ticket, unix))
    {
      if ticket !in tickets {
        return;
      }
      var device := tickets[ticket].deviceId;
      if device in devices {
        devices := devices[device := devices[device].(lastSeen := unix)];
      }
    }

    method MintStreamTicket(token: string, ticket: string, now: nat) returns (r: Result<string, PairError>)
      modifies this`tickets
      ensures Snapshot() == Step(old(Snapshot()), Mint(token, ticket, now))
      ensures r == if token in tokenIndex then Ok(ticket) else Err(Invalid)
    {
      if token !in tokenIndex {
        return Err(Invalid);
      }
      tickets := tickets[ticket := Ticket(tokenIndex[token], now)];
      r := Ok(ticket);
    }

    method ValidateStreamTicket(ticket: string, now: nat) returns (ok: bool)
      modifies this`tickets
      ensures Snapshot() == Step(old(Snapshot()), Validate(ticket, now))
      ensures ok == Accepts(old(Snapshot()), ticket, now)
    {
      if ticket !in tickets {
        return false;
      }
      if Elapsed(tickets[ticket].createdAt, now) > STREAM_TICKET_TTL {
        tickets := tickets - {ticket};
        return false;
      }
      ok := true;
    }

    method ExportDevices() returns (records: seq<Device>)
      ensures Inverse(Snapshot()) ==> Exports(records, Snapshot())
    {
      hide ExportedSoFar, UnderOwnIds, Exports, Inverse;
      records := [];
      var left := devices.Keys;
      assert ExportedSoFar(devices, left, []) by { NoneExported(devices); }
      while left != {}
        invariant left <= devices.Keys && (UnderOwnIds(devices) ==> ExportedSoFar(devices, left, records))
        decreases left
      {
        var d :| d in left;
        if UnderOwnIds(devices) {
          OneExported(devices, left, records, d);
        }
        left := left - {d};
        records := records + [devices[d]];
      }
      if Inverse(Snapshot()) {
        InverseIsOwn(Snapshot());
        AllExported(Snapshot(), records);
      }
    }

    method RestoreDevices(records: seq<Device>)
      modifies this
      ensures Snapshot() == Step(old(Snapshot()), Restore(records))
    {
      devices := map[];
      tokenIndex := map[];
      for i := 0 to |records|
        invariant devices == RestoredDevices(records[..i]) && tokenIndex == RestoredIndex(records[..i])
        invariant code == old(code) && tickets == old(tickets)
      {
        assert records[..i + 1][..i] == records[..i];
        var record := records[i];
        if record.id == "" || record.token == "" {
          continue;
        }
        tokenIndex := tokenIndex[record.token := record.id];
        devices := devices[record.id := record];
      }
      assert records[..|records|] == records;
    }

    method RevokeDevice(device: string) returns (ok: bool)
      modifies this
      ensures Snapshot() == Step(old(Snapshot()), Revoke(device)) && ok == (device in old(devices))
    {
      if device in devices {
        var record := devices[device];
        devices := devices - {device};
        tokenIndex := tokenIndex - {record.token};
        tickets := WithoutTicketsOf(tickets, device);
        ok := true;
      } else {
        ok := false;
      }
    }
  }
}
