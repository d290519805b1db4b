/** The mDNS browser's device table against the table a scan rebuilds from its events. */
module Discovery {
  import opened Common

  type Id = nat
  type Name = nat
  type Details = nat

  /** `details` stands for everything the records say about the device. */
  datatype Device = Device(id: Id, details: Details, lastSeen: nat)

  datatype Event = Added(device: Device) | Updated(device: Device) | Removed(id: Id)

  datatype Browser = Browser(known: map<Id, Device>, names: map<Name, Id>)

  const STALE_AFTER: nat := 360

  /** How records are merged into what is known, and which devices pass the filter. */
  datatype Rules = Rules(merge: (Option<Details>, Details) -> Details, passes: Details -> bool)

  datatype Input =
    | Resolved(name: Name, id: Id, hasAddress: bool, details: Details, now: nat)
    | ServiceRemoved(name: Name)
    | Prune(now: nat, pick: Id)

  function Resolve(rules: Rules, b: Browser, name: Name, id: Id, hasAddress: bool, details: Details, now: nat)
    : (r: (Browser, Option<Event>))
  {
    var named := b.(names := b.names[name := id]);
    if !hasAddress then (named, None) else
      var merged := rules.merge(if id in b.known then Some(b.known[id].details) else None, details);
      if !rules.passes(merged) then (named, None) else
        var device := Device(if id in b.known then b.known[id].id else id, merged, now);
        (named.(known := b.known[id := device]),
         Some(if id in b.known then Updated(device) else Added(device)))
  }

  function Withdraw(b: Browser, name: Name): (r: (Browser, Option<Event>)) {
    if name !in b.names then (b, None) else
      var id, names := b.names[name], b.names - {name};
      if id in names.Values then (b.(names := names), None)
      else (Browser(b.known - {id}, names), Some(Removed(id)))
  }

  predicate Stale(b: Browser, id: Id, now: nat) {
    id in b.known && now > b.known[id].lastSeen + STALE_AFTER
  }

  /** One tick of the prune timer drops one stale device, `pick`, if it is one. */
  function DropStale(b: Browser, now: nat, pick: Id): (r: (Browser, Option<Event>)) {
    if !Stale(b, pick, now) then (b, None)
    else (Browser(b.known - {pick}, map n | n in b.names && b.names[n] != pick :: b.names[n]), Some(Removed(pick)))
  }

  function Apply(rules: Rules, b: Browser, input: Input): (r: (Browser, Option<Event>)) {
    match input
    case Resolved(name, id, hasAddress, details, now) => Resolve(rules, b, name, id, hasAddress, details, now)
    case ServiceRemoved(name) => Withdraw(b, name)
    case Prune(now, pick) => DropStale(b, now, pick)
  }

  /** The scan's treatment of one event. */
  function Absorb(devices: map<Id, Device>, e: Event): map<Id, Device> {
    match e
    case Added(d) => devices[d.id := d]
    case Updated(d) => devices[d.id := d]
    case Removed(id) => devices - {id}
  }

  /** The table a scan has after these events. */
  function Scan(events: seq<Event>): map<Id, Device> {
    if events == [] then map[] else Absorb(Scan(events[..|events| - 1]), events[|events| - 1])
  }

  function Run(rules: Rules, b: Browser, events: seq<Event>, inputs: seq<Input>): (r: (Browser, seq<Event>))
    decreases |inputs|
  {
    if inputs == [] then (b, events) else
      var (c, e) := Apply(rules, b, inputs[0]);
      Run(rules, c, if e.Some? then events + [e.value] else events, inputs[1..])
  }

  // ---------------------------------------------------------------- agreement

  /** Devices are filed under their own id. */
  ghost predicate Keyed(b: Browser) {
    forall id :: id in b.known ==> b.known[id].id == id
  }

  /** An addition names an id the subscriber does not hold, an update one it does. */
  ghost predicate MayFollow(events: seq<Event>, e: Event) {
    match e
    case Added(d) => d.id !in Scan(events)
    case Updated(d) => d.id in Scan(events)
    case Removed(_) => true
  }

  ghost predicate Orderly(events: seq<Event>) {
    forall k :: 0 <= k < |events| ==> MayFollow(events[..k], events[k])
  }

  ghost predicate Agrees(b: Browser, events: seq<Event>) {
    Keyed(b) && Scan(events) == b.known && Orderly(events)
  }

  lemma EventSnoc(events: seq<Event>, e: Event)
    ensures Scan(events + [e]) == Absorb(Scan(events), e)
    ensures Orderly(events) && MayFollow(events, e) ==> Orderly(events + [e])
  {
    var all := events + [e];
    assert all[..|events|] == events && all[|events|] == e;
    forall k | 0 <= k < |events| ensures all[..k] == events[..k] && all[k] == events[k] {}
  }

  lemma StepAgrees(rules: Rules, b: Browser, events: seq<Event>, input: Input)
    requires Agrees(b, events)
    ensures var (c, e) := Apply(rules, b, input);
            Agrees(c, if e.Some? then events + [e.value] else events)
  {
    var (c, e) := Apply(rules, b, input);
    if e.Some? { EventSnoc(events, e.value); }
  }

  lemma {:induction false} RunAgrees(rules: Rules, b: Browser, events: seq<Event>, inputs: seq<Input>)
    requires Agrees(b, events)
    ensures Agrees(Run(rules, b, events, inputs).0, Run(rules, b, events, inputs).1)
    decreases |inputs|
  {
    if inputs != [] {
      StepAgrees(rules, b, events, inputs[0]);
      var (c, e) := Apply(rules, b, inputs[0]);
      RunAgrees(rules, c, if e.Some? then events + [e.value] else events, inputs[1..]);
    }
  }

  /** After every run of resolutions, removals and prunings, whatever the merging
      and filtering rules, a scan holds exactly the browser's devices, and no id is
      added while held nor updated while not. */
  lemma ScanReproducesBrowser(rules: Rules, inputs: seq<Input>)
    ensures var (b, events) := Run(rules, Browser(map[], map[]), [], inputs);
            Scan(events) == b.known && Orderly(events)
  {
    RunAgrees(rules, Browser(map[], map[]), [], inputs);
  }

  /** Between two additions of one id there is a removal of it. */
  lemma NoSecondAddition(events: seq<Event>, i: nat, j: nat)
    requires Orderly(events) && i < j < |events| && events[i].Added? && events[j].Added?
    requires events[i].device.id == events[j].device.id
    ensures exists k :: i < k < j && events[k] == Removed(events[i].device.id)
  {
    var id := events[i].device.id;
    EventSnoc(events[..i], events[i]);
    assert events[..i] + [events[i]] == events[..i + 1];
    assert MayFollow(events[..j], events[j]);
    if forall k :: i < k < j ==> events[k] != Removed(id) {
      StaysHeld(events, id, i + 1, j);
      assert false;
    }
  }

  lemma {:induction false} StaysHeld(events: seq<Event>, id: Id, from: nat, to: nat)
    requires from <= to <= |events| && id in Scan(events[..from])
    requires forall k :: from <= k < to ==> events[k] != Removed(id)
    ensures id in Scan(events[..to])
    decreases |events| - from
  {
    if from < to {
      EventSnoc(events[..from], events[from]);
      assert events[..from] + [events[from]] == events[..from + 1];
      StaysHeld(events, id, from + 1, to);
    }
  }

  // ----------------------------------------------- removals of what was never held

  /** A removal of an id the subscriber does not hold. */
  ghost predicate Spurious(events: seq<Event>, e: Event) {
    e.Removed? && e.id !in Scan(events)
  }

  /** The name is the last one that announces the device. */
  predicate LastName(b: Browser, name: Name, id: Id) {
    name in b.names && b.names[name] == id && id !in (b.names - {name}).Values
  }

  /** The last name goes of an id that is not known, such as one resolved without an address. */
  ghost predicate WithdrawsUnknown(b: Browser, input: Input) {
    && input.ServiceRemoved? && input.name in b.names
    && LastName(b, input.name, b.names[input.name]) && b.names[input.name] !in b.known
  }

  /** A step announces such a removal exactly then. */
  lemma SpuriousIff(rules: Rules, b: Browser, events: seq<Event>, input: Input)
    requires Agrees(b, events)
    ensures var e := Apply(rules, b, input).1;
            e.Some? && Spurious(events, e.value) <==> WithdrawsUnknown(b, input)
  {
  }

  ghost predicate NoneSpurious(events: seq<Event>) {
    forall k :: 0 <= k < |events| ==> !Spurious(events[..k], events[k])
  }

  ghost predicate WithdrawsUnknownAlong(rules: Rules, b: Browser, inputs: seq<Input>)
    decreases |inputs|
  {
    inputs != [] &&
      (WithdrawsUnknown(b, inputs[0]) || WithdrawsUnknownAlong(rules, Apply(rules, b, inputs[0]).0, inputs[1..]))
  }

  lemma SpuriousSnoc(events: seq<Event>, e: Event)
    ensures NoneSpurious(events + [e]) <==> NoneSpurious(events) && !Spurious(events, e)
  {
    var all := events + [e];
    assert all[..|events|] == events && all[|events|] == e;
    forall k | 0 <= k < |events| ensures all[..k] == events[..k] && all[k] == events[k] {}
  }

  /** What was announced stays announced. */
  lemma {:induction false} StaysSpurious(rules: Rules, b: Browser, events: seq<Event>, inputs: seq<Input>)
    requires !NoneSpurious(events)
    ensures !NoneSpurious(Run(rules, b, events, inputs).1)
    decreases |inputs|
  {
    hide NoneSpurious, Apply;
    if inputs != [] {
      var (c, e) := Apply(rules, b, inputs[0]);
      if e.Some? { SpuriousSnoc(events, e.value); }
      StaysSpurious(rules, c, if e.Some? then events + [e.value] else events, inputs[1..]);
    }
  }

  lemma {:induction false} NoneSpuriousFrom(rules: Rules, b: Browser, events: seq<Event>, inputs: seq<Input>)
    requires Agrees(b, events) && NoneSpurious(events)
    ensures NoneSpurious(Run(rules, b, events, inputs).1) <==> !WithdrawsUnknownAlong(rules, b, inputs)
    decreases |inputs|
  {
    hide NoneSpurious, Spurious, WithdrawsUnknown, Agrees, Apply;
    if inputs != [] {
      var (c, e) := Apply(rules, b, inputs[0]);
      var more := if e.Some? then events + [e.value] else events;
      StepAgrees(rules, b, events, inputs[0]);
      SpuriousIff(rules, b, events, inputs[0]);
      if e.Some? { SpuriousSnoc(events, e.value); }
      if NoneSpurious(more) {
        NoneSpuriousFrom(rules, c, more, inputs[1..]);
      } else {
        StaysSpurious(rules, c, more, inputs[1..]);
      }
    }
  }

  /** After every run each removal announced was of an id held exactly unless the last name
      of an unknown id was withdrawn. */
  lemma NoneSpuriousIff(rules: Rules, inputs: seq<Input>)
    ensures NoneSpurious(Run(rules, Browser(map[], map[]), [], inputs).1)
            <==> !WithdrawsUnknownAlong(rules, Browser(map[], map[]), inputs)
  {
    NoneSpuriousFrom(rules, Browser(map[], map[]), [], inputs);
  }

  /** A service resolved without an address and then removed: a removal and nothing else is announced. */
  lemma SpuriousExample(rules: Rules, name: Name, id: Id, details: Details)
    ensures var inputs := [Resolved(name, id, false, details, 0), ServiceRemoved(name)];
            Run(rules, Browser(map[], map[]), [], inputs).1 == [Removed(id)]
  {
    var first, second := Resolved(name, id, false, details, 0), ServiceRemoved(name);
    var start, b := Browser(map[], map[]), Browser(map[], map[name := id]);
    assert Apply(rules, start, first) == (b, None);
    assert b.names - {name} == map[];
    assert Apply(rules, b, second).1 == Some(Removed(id));
    assert [first, second][1..] == [second] && [second][1..] == [];
    assert Run(rules, start, [], [first, second]) == Run(rules, b, [], [second]);
    assert [] + [Removed(id)] == [Removed(id)];
  }

  // ------------------------------------------------------------------ staleness

  /** No time before t, no prune more than the timeout after it, and no service removed
      that is the device's last. */
  ghost predicate Undisturbed(rules: Rules, b: Browser, inputs: seq<Input>, id: Id, t: nat)
    decreases |inputs|
  {
    inputs != [] ==>
      && (match inputs[0]
          case Resolved(_, _, _, _, now) => now >= t
          case ServiceRemoved(name) => !LastName(b, name, id)
          case Prune(now, _) => now <= t + 360)
      && Undisturbed(rules, Apply(rules, b, inputs[0]).0, inputs[1..], id, t)
  }

  /** A device seen at time t or later survives any pruning in the following 360 seconds,
      whatever resolves or goes meanwhile, as long as one service announces it. */
  lemma {:induction false} RecentlySeenSurvives(
    rules: Rules, b: Browser, events: seq<Event>, inputs: seq<Input>, id: Id, t: nat)
    requires id in b.known && b.known[id].lastSeen >= t && Undisturbed(rules, b, inputs, id, t)
    ensures var c := Run(rules, b, events, inputs).0; id in c.known && c.known[id].lastSeen >= t
    decreases |inputs|
  {
    if inputs != [] {
      var (c, e) := Apply(rules, b, inputs[0]);
      RecentlySeenSurvives(rules, c, if e.Some? then events + [e.value] else events, inputs[1..], id, t);
    }
  }

  /** A resolution with an address that passes the filter files the device as seen now,
      merged with what was known; any resolution names the device and touches no other. */
  lemma ResolveEffect(rules: Rules, b: Browser, name: Name, id: Id, hasAddress: bool, details: Details, now: nat)
    requires Keyed(b)
    ensures var (c, e) := Resolve(rules, b, name, id, hasAddress, details, now);
            var merged := rules.merge(if id in b.known then Some(b.known[id].details) else None, details);
            && c.names == b.names[name := id]
            && (forall k :: k != id ==> (k in c.known <==> k in b.known) && (k in c.known ==> c.known[k] == b.known[k]))
            && (hasAddress && rules.passes(merged) ==>
                  && id in c.known && c.known[id] == Device(id, merged, now)
                  && e == Some(if id in b.known then Updated(c.known[id]) else Added(c.known[id])))
            && (!hasAddress || !rules.passes(merged) ==> c.known == b.known && e.None?)
  {
  }

  /** Seen at time t it is stale exactly from 361 seconds later on, as long as it is not seen again. */
  lemma {:induction false} StaleIff(
    rules: Rules, b: Browser, events: seq<Event>, inputs: seq<Input>, id: Id, t: nat, now: nat)
    requires id in b.known && b.known[id].lastSeen == t
    requires forall i :: 0 <= i < |inputs| && inputs[i].Resolved? ==> inputs[i].id != id
    ensures var c := Run(rules, b, events, inputs).0;
            id in c.known ==> c.known[id].lastSeen == t && (Stale(c, id, now) <==> now > t + 360)
    decreases |inputs|
  {
    if inputs != [] {
      var (c, e) := Apply(rules, b, inputs[0]);
      var more := if e.Some? then events + [e.value] else events;
      if id in c.known {
        StaleIff(rules, c, more, inputs[1..], id, t, now);
      } else {
        StaysUnknown(rules, c, more, inputs[1..], id);
      }
    }
  }

  lemma {:induction false} StaysUnknown(rules: Rules, b: Browser, events: seq<Event>, inputs: seq<Input>, id: Id)
    requires id !in b.known && forall i :: 0 <= i < |inputs| && inputs[i].Resolved? ==> inputs[i].id != id
    ensures id !in Run(rules, b, events, inputs).0.known
    decreases |inputs|
  {
    if inputs != [] {
      var (c, e) := Apply(rules, b, inputs[0]);
      StaysUnknown(rules, c, if e.Some? then events + [e.value] else events, inputs[1..], id);
    }
  }

  /** Pruning a stale device forgets it and every name of it and nothing else; a device that
      is not stale is left alone. */
  lemma PruneEffect(b: Browser, now: nat, pick: Id)
    ensures var (c, e) := DropStale(b, now, pick);
            if Stale(b, pick, now) then
              && c.known == b.known - {pick} && e == Some(Removed(pick)) && !Announced(c, pick)
              && (forall n :: n in b.names && b.names[n] != pick ==> n in c.names && c.names[n] == b.names[n])
              && (forall n :: n in c.names ==> n in b.names && c.names[n] == b.names[n])
            else c == b && e.None?
  {
  }

  /** A removed service takes its device away exactly when it was the last to announce it. */
  lemma WithdrawIff(b: Browser, name: Name, id: Id)
    requires id in b.known
    ensures var (c, e) := Withdraw(b, name);
            && c.names == b.names - {name}
            && (id !in c.known <==> LastName(b, name, id))
            && (id in c.known ==> c.known[id] == b.known[id])
            && (e == Some(Removed(id)) <==> LastName(b, name, id))
  {
    if name !in b.names { assert b.names - {name} == b.names; }
  }

  // ------------------------------------------------------- devices without services

  /** Some service still announces the device. */
  ghost predicate Announced(b: Browser, id: Id) {
    exists n :: n in b.names && b.names[n] == id
  }

  ghost predicate AllAnnounced(b: Browser) {
    forall id :: id in b.known ==> Announced(b, id)
  }

  /** The name was the only one of another known device. */
  ghost predicate Steals(b: Browser, input: Input) {
    && input.Resolved? && input.name in b.names && b.names[input.name] != input.id
    && b.names[input.name] in b.known
    && forall n :: n in b.names && n != input.name ==> b.names[n] != b.names[input.name]
  }

  /** Every known device keeps a service that announces it, so that losing its last
      service removes it, exactly until a service name resolves to a new id while
      being the old device's only one. */
  lemma AnnouncedIff(rules: Rules, b: Browser, input: Input)
    requires Keyed(b) && AllAnnounced(b)
    ensures AllAnnounced(Apply(rules, b, input).0) <==> !Steals(b, input)
  {
    var c := Apply(rules, b, input).0;
    match input
    case Resolved(name, id, _, _, _) => ResolveAnnounced(rules, b, input);
    case ServiceRemoved(name) =>
      forall k | k in c.known ensures Announced(c, k) {
        var n :| n in b.names && b.names[n] == k;
        if n == name {
          var m :| m in c.names && c.names[m] == k;
        } else {
          assert n in c.names && c.names[n] == k;
        }
      }
    case Prune(now, pick) =>
      forall k | k in c.known ensures Announced(c, k) {
        var n :| n in b.names && b.names[n] == k;
        assert n in c.names && c.names[n] == k;
      }
  }

  lemma ResolveAnnounced(rules: Rules, b: Browser, input: Input)
    requires input.Resolved? && AllAnnounced(b)
    ensures AllAnnounced(Apply(rules, b, input).0) <==> !Steals(b, input)
  {
    var c, name, id := Apply(rules, b, input).0, input.name, input.id;
    assert c.names == b.names[name := id];
    assert name in c.names && c.names[name] == id;
    if Steals(b, input) {
      var victim := b.names[name];
      assert victim in c.known && !Announced(c, victim);
    } else {
      forall k | k in c.known && k != id ensures Announced(c, k) {
        var n :| n in b.names && b.names[n] == k;
        if n == name {
          var m :| m in b.names && m != name && b.names[m] == b.names[name];
          assert m in c.names && c.names[m] == k;
        } else {
          assert n in c.names && c.names[n] == k;
        }
      }
    }
  }

  ghost predicate AnnouncedThroughout(rules: Rules, b: Browser, inputs: seq<Input>)
    decreases |inputs|
  {
    AllAnnounced(b) && (inputs != [] ==> AnnouncedThroughout(rules, Apply(rules, b, inputs[0]).0, inputs[1..]))
  }

  ghost predicate StealsAlong(rules: Rules, b: Browser, inputs: seq<Input>)
    decreases |inputs|
  {
    inputs != [] && (Steals(b, inputs[0]) || StealsAlong(rules, Apply(rules, b, inputs[0]).0, inputs[1..]))
  }

  lemma KeyedKept(rules: Rules, b: Browser, input: Input)
    requires Keyed(b)
    ensures Keyed(Apply(rules, b, input).0)
  {
  }

  /** Over whole runs: every known device is announced throughout exactly unless some
      resolution takes over a known device's only name. */
  lemma {:induction false} AnnouncedThroughoutIff(rules: Rules, b: Browser, inputs: seq<Input>)
    requires Keyed(b) && AllAnnounced(b)
    ensures AnnouncedThroughout(rules, b, inputs) <==> !StealsAlong(rules, b, inputs)
    decreases |inputs|
  {
    hide Apply, AllAnnounced, Steals, Keyed;
    if inputs != [] {
      var c := Apply(rules, b, inputs[0]).0;
      AnnouncedIff(rules, b, inputs[0]);
      KeyedKept(rules, b, inputs[0]);
      if AllAnnounced(c) { AnnouncedThroughoutIff(rules, c, inputs[1..]); }
    }
  }

  /** Once unannounced and not resolved again, a device leaves only by pruning: no removed
      service takes it away. */
  lemma UnannouncedStays(b: Browser, name: Name, id: Id)
    requires id in b.known && !Announced(b, id)
    ensures id in Withdraw(b, name).0.known && !Announced(Withdraw(b, name).0, id)
  {
  }

  /** One name resolving to two ids in turn leaves the first device known and unannounced. */
  lemma UnannouncedExample(rules: Rules, name: Name, one: Id, two: Id, details: Details)
    requires one != two && rules.passes(rules.merge(None, details))
    ensures var first, second := Resolved(name, one, true, details, 0), Resolved(name, two, true, details, 0);
            var b := Run(rules, Browser(map[], map[]), [], [first, second]).0;
            one in b.known && !Announced(b, one)
  {
    var start := Browser(map[], map[]);
    var first, second := Resolved(name, one, true, details, 0), Resolved(name, two, true, details, 0);
    var (b, e) := Apply(rules, start, first);
    var (c, f) := Apply(rules, b, second);
    assert [first, second][1..] == [second] && [second][1..] == [];
    assert Run(rules, start, [], [first, second]) == Run(rules, b, [] + [e.value], [second]);
    assert Run(rules, b, [] + [e.value], [second]).0 == c;
    assert c.names == map[name := two];
  }

  // --------------------------------------------------------------------- object

  class DeviceBrowser {
    const rules: Rules
    var knownDevices: map<Id, Device>
    var fullnameMap: map<Name, Id>

    ghost function View(): Browser
      reads this
    {
      Browser(knownDevices, fullnameMap)
    }

    constructor (rules: Rules)
      ensures View() == Browser(map[], map[]) && this.rules == rules
    {
      this.rules := rules;
      knownDevices := map[];
      fullnameMap := map[];
    }

    method HandleResolved(name: Name, id: Id, hasAddress: bool, details: Details, now: nat)
      returns (event: Option<Event>)
      modifies this
      ensures (View(), event) == Resolve(rules, old(View()), name, id, hasAddress, details, now)
    {
      fullnameMap := fullnameMap[name := id];
      if !hasAddress {
        return None;
      }
      var device: Device;
      if id in knownDevices {
        device := knownDevices[id];
        device := device.(details := rules.merge(Some(device.details), details));
      } else {
        device := Device(id, rules.merge(None, details), now);
      }
      if !rules.passes(device.details) {
        return None;
      }
      device := device.(lastSeen := now);
      event := Some(if id in knownDevices then Updated(device) else Added(device));
      knownDevices := knownDevices[id := device];
    }

    method HandleRemoved(name: Name) returns (event: Option<Event>)
      modifies this
      ensures (View(), event) == Withdraw(old(View()), name)
    {
      if name !in fullnameMap {
        return None;
      }
      var id := fullnameMap[name];
      fullnameMap := fullnameMap - {name};
      if id in fullnameMap.Values {
        return None;
      }
      knownDevices := knownDevices - {id};
      event := Some(Removed(id));
    }

    /** Drops the stale device the table happens to list first, if there is one. */
    method PruneOne(now: nat) returns (event: Option<Event>)
      modifies this
      ensures event.Some? <==> exists id :: Stale(old(View()), id, now)
      ensures event.None? ==> View() == old(View())
      ensures event.Some? ==>
                && event.value.Removed? && Stale(old(View()), event.value.id, now)
                && (View(), event) == DropStale(old(View()), now, event.value.id)
    {
      ghost var before := View();
      if id :| id in knownDevices && now > knownDevices[id].lastSeen + STALE_AFTER {
        assert Stale(before, id, now);
        knownDevices := knownDevices - {id};
        fullnameMap := map n | n in fullnameMap && fullnameMap[n] != id :: fullnameMap[n];
        event := Some(Removed(id));
      } else {
        event := None;
      }
    }
  }

  /** The scan's loop over the events it receives. */
  method CollectDevices(events: seq<Event>) returns (devices: map<Id, Device>)
    ensures devices == Scan(events)
  {
    devices := map[];
    for i := 0 to |events|
      invariant devices == Scan(events[..i])
    {
      EventSnoc(events[..i], events[i]);
      assert events[..i] + [events[i]] == events[..i + 1];
      match events[i] {
        case Added(device) => devices := devices[device.id := device];
        case Updated(device) => devices := devices[device.id := device];
        case Removed(id) => devices := devices - {id};
      }
    }
    assert events[..|events|] == events;
  }
}
