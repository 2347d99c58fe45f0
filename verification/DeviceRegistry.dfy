/**
 * The device lifecycle handlers of the subgraph (subgraph/src/device-registry-mapping.ts).
 *
 * `StatusAfter` reads a device's status off the event history alone. The stored entities and
 * the protocol's counters are compared with it over every stream of events.
 */
module DeviceRegistry {
  import opened Wrappers
  import opened Bytes
  import opened SubgraphStore

  datatype DeviceEvent =
    | DeviceRegistered(pubKeyHash: seq<Byte>, latE7: int, lonE7: int, registeredAt: int, operator: seq<Byte>)
    | DeviceRevoked(pubKeyHash: seq<Byte>, timestamp: int)
    | DeviceReactivated(pubKeyHash: seq<Byte>, timestamp: int)
    | DeviceSuspended(pubKeyHash: seq<Byte>, timestamp: int)
  {
    function Id(): string {
      HexId(pubKeyHash)
    }
  }

  // ---------- Reference: what the history says ----------

  /** None for a device never registered; registration counts once, later events set the status. */
  function StatusAfter(events: seq<DeviceEvent>, id: string): Option<DeviceStatus> {
    if events == [] then None
    else
      var before, e := StatusAfter(events[..|events| - 1], id), events[|events| - 1];
      if e.Id() != id then before
      else if e.DeviceRegistered? then (if before.None? then Some(Active) else before)
      else if before.None? then None
      else Some(match e case DeviceRevoked(_, _) => Revoked
                        case DeviceReactivated(_, _) => Active
                        case _ => Suspended)
  }

  /** The transitions the handlers' headings describe; events about unknown devices are ignored. */
  predicate LegalAfter(status: Option<DeviceStatus>, e: DeviceEvent) {
    match e
    case DeviceRegistered(_, _, _, _, _) => true
    case DeviceRevoked(_, _) => status != Some(Revoked)
    case DeviceReactivated(_, _) => status != Some(Active)
    case DeviceSuspended(_, _) => status != Some(Suspended) && status != Some(Revoked)
  }

  predicate LegalStream(events: seq<DeviceEvent>) {
    events == [] ||
    var init, e := events[..|events| - 1], events[|events| - 1];
    LegalStream(init) && LegalAfter(StatusAfter(init, e.Id()), e)
  }

  /** How often a counter is raised by an event that does not follow the lifecycle. */
  function Overcount(events: seq<DeviceEvent>, counter: DeviceStatus): nat {
    if events == [] then 0
    else
      var init, e := events[..|events| - 1], events[|events| - 1];
      var status := StatusAfter(init, e.Id());
      var over := match e
        case DeviceRegistered(_, _, _, _, _) => false
        case DeviceRevoked(_, _) => counter.Revoked? && status == Some(Revoked)
        case DeviceReactivated(_, _) => counter.Active? && status == Some(Active)
        case DeviceSuspended(_, _) =>
          || (counter.Suspended? && status == Some(Suspended))
          || (counter.Revoked? && status == Some(Revoked));
      Overcount(init, counter) + if over then 1 else 0
  }

  // ---------- What the handlers do to the store ----------

  function Handle(s: StoreState, e: DeviceEvent): StoreState {
    var id, p := e.Id(), s.Counters();
    if e.DeviceRegistered? then
      if id in s.devices then s
      else
        var device := Device(e.latE7, e.lonE7, e.registeredAt, e.operator, Active, None, None, None);
        s.(devices := s.devices[id := device],
           protocol := Some(p.(totalDevices := p.totalDevices + 1, activeDevices := p.activeDevices + 1)))
    else if id !in s.devices then s
    else
      var device, was := s.devices[id], s.devices[id].status;
      match e
      case DeviceRevoked(_, t) =>
        s.(devices := s.devices[id := device.(status := Revoked, revokedAt := Some(t))],
           protocol := Some(p.(
             activeDevices := p.activeDevices - (if was.Active? then 1 else 0),
             suspendedDevices := p.suspendedDevices - (if was.Suspended? then 1 else 0),
             revokedDevices := p.revokedDevices + 1)))
      case DeviceReactivated(_, t) =>
        s.(devices := s.devices[id := device.(status := Active, reactivatedAt := Some(t))],
           protocol := Some(p.(
             revokedDevices := p.revokedDevices - (if was.Revoked? then 1 else 0),
             suspendedDevices := p.suspendedDevices - (if was.Suspended? then 1 else 0),
             activeDevices := p.activeDevices + 1)))
      case DeviceSuspended(_, t) =>
        s.(devices := s.devices[id := device.(status := Suspended, suspendedAt := Some(t))],
           protocol := Some(p.(
             activeDevices := p.activeDevices - (if was.Active? then 1 else 0),
             suspendedDevices := p.suspendedDevices + 1)))
  }

  method HandleDeviceRegistered(store: Store, e: DeviceEvent)
    requires e.DeviceRegistered?
    modifies store
    ensures store.View() == Handle(old(store.View()), e)
  {
    var deviceId := HexId(e.pubKeyHash);
    if deviceId in store.devices {
      return;
    }
    var device := Device(e.latE7, e.lonE7, e.registeredAt, e.operator, Active, None, None, None);
    store.devices := store.devices[deviceId := device];
    var protocol := store.LoadOrCreateProtocol();
    protocol := protocol.(totalDevices := protocol.totalDevices + 1);
    protocol := protocol.(activeDevices := protocol.activeDevices + 1);
    store.protocol := Some(protocol);
  }

  method HandleDeviceRevoked(store: Store, e: DeviceEvent)
    requires e.DeviceRevoked?
    modifies store
    ensures store.View() == Handle(old(store.View()), e)
  {
    var deviceId := HexId(e.pubKeyHash);
    if deviceId !in store.devices {
      return;
    }
    var device := store.devices[deviceId];
    var prevStatus := device.status;
    store.devices := store.devices[deviceId := device.(status := Revoked, revokedAt := Some(e.timestamp))];
    var protocol := store.LoadOrCreateProtocol();
    if prevStatus == Active {
      protocol := protocol.(activeDevices := protocol.activeDevices - 1);
    } else if prevStatus == Suspended {
      protocol := protocol.(suspendedDevices := protocol.suspendedDevices - 1);
    }
    protocol := protocol.(revokedDevices := protocol.revokedDevices + 1);
    store.protocol := Some(protocol);
  }

  method HandleDeviceReactivated(store: Store, e: DeviceEvent)
    requires e.DeviceReactivated?
    modifies store
    ensures store.View() == Handle(old(store.View()), e)
  {
    var deviceId := HexId(e.pubKeyHash);
    if deviceId !in store.devices {
      return;
    }
    var device := store.devices[deviceId];
    var prevStatus := device.status;
    store.devices := store.devices[deviceId := device.(status := Active, reactivatedAt := Some(e.timestamp))];
    var protocol := store.LoadOrCreateProtocol();
    if prevStatus == Revoked {
      protocol := protocol.(revokedDevices := protocol.revokedDevices - 1);
    } else if prevStatus == Suspended {
      protocol := protocol.(suspendedDevices := protocol.suspendedDevices - 1);
    }
    protocol := protocol.(activeDevices := protocol.activeDevices + 1);
    store.protocol := Some(protocol);
  }

  method HandleDeviceSuspended(store: Store, e: DeviceEvent)
    requires e.DeviceSuspended?
    modifies store
    ensures store.View() == Handle(old(store.View()), e)
  {
    var deviceId := HexId(e.pubKeyHash);
    if deviceId !in store.devices {
      return;
    }
    var device := store.devices[deviceId];
    var prevStatus := device.status;
    store.devices := store.devices[deviceId := device.(status := Suspended, suspendedAt := Some(e.timestamp))];
    var protocol := store.LoadOrCreateProtocol();
    if prevStatus == Active {
      protocol := protocol.(activeDevices := protocol.activeDevices - 1);
    }
    protocol := protocol.(suspendedDevices := protocol.suspendedDevices + 1);
    store.protocol := Some(protocol);
  }

  function Run(events: seq<DeviceEvent>): StoreState {
    if events == [] then EMPTY_STORE else Handle(Run(events[..|events| - 1]), events[|events| - 1])
  }

  // ---------- Entities and counters over any stream ----------

  /** The entities are the registered devices, each in the status its history gives it. */
  lemma {:induction false} EntitiesFollowHistory(events: seq<DeviceEvent>, id: string)
    ensures StatusAfter(events, id)
         == if id in Run(events).devices then Some(Run(events).devices[id].status) else None
  {
    if events != [] {
      EntitiesFollowHistory(events[..|events| - 1], id);
    }
  }

  /** The first registration of a device. */
  function Registration(events: seq<DeviceEvent>, id: string): Option<DeviceEvent> {
    if events == [] then None
    else
      var first, e := Registration(events[..|events| - 1], id), events[|events| - 1];
      if first.None? && e.Id() == id && e.DeviceRegistered? then Some(e) else first
  }

  predicate Brings(e: DeviceEvent, status: DeviceStatus) {
    || (e.DeviceRevoked? && status.Revoked?)
    || (e.DeviceReactivated? && status.Active?)
    || (e.DeviceSuspended? && status.Suspended?)
  }

  /** When a registered device was last brought into a status by an event of its own. */
  function LastBrought(events: seq<DeviceEvent>, id: string, status: DeviceStatus): Option<int> {
    if events == [] then None
    else
      var init, e := events[..|events| - 1], events[|events| - 1];
      if e.Id() == id && Registration(init, id).Some? && Brings(e, status) then Some(e.timestamp)
      else LastBrought(init, id, status)
  }

  ghost predicate KeepsHistory(events: seq<DeviceEvent>, id: string, devices: map<string, Device>) {
    match Registration(events, id)
    case None => id !in devices
    case Some(e) =>
      && e.DeviceRegistered? && id in devices
      && var d := devices[id];
         && d.latE7 == e.latE7 && d.lonE7 == e.lonE7
         && d.registeredAt == e.registeredAt && d.registeredBy == e.operator
         && d.revokedAt == LastBrought(events, id, Revoked)
         && d.reactivatedAt == LastBrought(events, id, Active)
         && d.suspendedAt == LastBrought(events, id, Suspended)
  }

  lemma {:induction false} NeverBrought(events: seq<DeviceEvent>, id: string, status: DeviceStatus)
    requires Registration(events, id) == None
    ensures LastBrought(events, id, status) == None
  {
    if events != [] {
      NeverBrought(events[..|events| - 1], id, status);
    }
  }

  lemma HistorySnoc(events: seq<DeviceEvent>, e: DeviceEvent, id: string)
    ensures var first := Registration(events, id);
            && Registration(events + [e], id)
               == (if first.None? && e.Id() == id && e.DeviceRegistered? then Some(e) else first)
            && forall status ::
                 LastBrought(events + [e], id, status)
                 == (if e.Id() == id && first.Some? && Brings(e, status) then Some(e.timestamp)
                     else LastBrought(events, id, status))
  {
    assert (events + [e])[..|events|] == events;
  }

  lemma StepKeepsHistory(events: seq<DeviceEvent>, e: DeviceEvent, id: string, s: StoreState)
    requires KeepsHistory(events, id, s.devices)
    ensures KeepsHistory(events + [e], id, Handle(s, e).devices)
  {
    HistorySnoc(events, e, id);
    if Registration(events, id).None? {
      NeverBrought(events, id, Active);
      NeverBrought(events, id, Suspended);
      NeverBrought(events, id, Revoked);
    }
    hide Registration, LastBrought;
  }

  /** An entity keeps the data of its first registration and the times of its last transitions. */
  lemma {:induction false} EntityKeepsHistory(events: seq<DeviceEvent>, id: string)
    ensures KeepsHistory(events, id, Run(events).devices)
  {
    if events != [] {
      var init, e := events[..|events| - 1], events[|events| - 1];
      assert events == init + [e];
      EntityKeepsHistory(init, id);
      StepKeepsHistory(init, e, id, Run(init));
      hide KeepsHistory, Handle;
    }
  }

  function WithStatus(devices: map<string, Device>, status: DeviceStatus): set<string> {
    set id | id in devices && devices[id].status == status
  }

  lemma CountAfterSave(devices: map<string, Device>, id: string, device: Device, status: DeviceStatus)
    ensures |WithStatus(devices[id := device], status)|
         == |WithStatus(devices, status)|
            - (if id in devices && devices[id].status == status then 1 else 0)
            + (if device.status == status then 1 else 0)
  {
    var before, after := WithStatus(devices, status), WithStatus(devices[id := device], status);
    if device.status == status {
      assert after == before + {id};
    } else {
      assert after == before - {id};
    }
  }

  lemma {:induction false} StatusesPartition(devices: map<string, Device>)
    ensures |WithStatus(devices, Active)| + |WithStatus(devices, Suspended)| + |WithStatus(devices, Revoked)|
         == |devices|
  {
    var a, s, r := WithStatus(devices, Active), WithStatus(devices, Suspended), WithStatus(devices, Revoked);
    assert devices.Keys == a + s + r && a !! s && a !! r && s !! r;
    assert |a + s + r| == |a| + |s| + |r|;
  }

  function CounterOf(p: Protocol, status: DeviceStatus): int {
    match status
    case Active => p.activeDevices
    case Suspended => p.suspendedDevices
    case Revoked => p.revokedDevices
  }

  /** One event changes a counter as it changes the entities, or once too often against the lifecycle. */
  lemma StepCounts(s: StoreState, events: seq<DeviceEvent>, e: DeviceEvent, status: DeviceStatus)
    requires StatusAfter(events, e.Id()) == if e.Id() in s.devices then Some(s.devices[e.Id()].status) else None
    ensures CounterOf(Handle(s, e).Counters(), status) - CounterOf(s.Counters(), status)
         == |WithStatus(Handle(s, e).devices, status)| - |WithStatus(s.devices, status)|
            + Overcount(events + [e], status) - Overcount(events, status)
  {
    assert (events + [e])[..|events|] == events;
    var s' := Handle(s, e);
    if e.DeviceRegistered? <==> e.Id() !in s.devices {
      assert s'.devices == s.devices[e.Id() := s'.devices[e.Id()]];
      CountAfterSave(s.devices, e.Id(), s'.devices[e.Id()], status);
    } else {
      assert s' == s;
    }
  }

  /**
   * Over any stream at all: the total counts the entities, and each status counter is the true
   * number of entities in that status plus how often it was raised against the lifecycle.
   */
  lemma {:induction false} CountersOverAnyStream(events: seq<DeviceEvent>, status: DeviceStatus)
    ensures var s := Run(events);
            && s.Counters().totalDevices == |s.devices|
            && CounterOf(s.Counters(), status) == |WithStatus(s.devices, status)| + Overcount(events, status)
  {
    if events == [] {
      assert WithStatus(map[], status) == {};
    } else {
      var init, e := events[..|events| - 1], events[|events| - 1];
      assert events == init + [e];
      CountersOverAnyStream(init, status);
      EntitiesFollowHistory(init, e.Id());
      StepCounts(Run(init), init, e, status);
    }
  }

  lemma {:induction false} LegalIffNoOvercount(events: seq<DeviceEvent>)
    ensures LegalStream(events)
       <==> Overcount(events, Active) + Overcount(events, Suspended) + Overcount(events, Revoked) == 0
  {
    if events != [] {
      LegalIffNoOvercount(events[..|events| - 1]);
    }
  }

  /**
   * The status counters are right if and only if the stream follows the lifecycle, and exactly
   * then they add up to the total.
   */
  lemma CountersRightIffLegal(events: seq<DeviceEvent>)
    ensures var s := Run(events); var p := s.Counters();
            LegalStream(events)
            <==> p.activeDevices == |WithStatus(s.devices, Active)|
                 && p.suspendedDevices == |WithStatus(s.devices, Suspended)|
                 && p.revokedDevices == |WithStatus(s.devices, Revoked)|
    ensures var p := Run(events).Counters();
            LegalStream(events) <==> p.activeDevices + p.suspendedDevices + p.revokedDevices == p.totalDevices
  {
    CountersOverAnyStream(events, Active);
    CountersOverAnyStream(events, Suspended);
    CountersOverAnyStream(events, Revoked);
    LegalIffNoOvercount(events);
    StatusesPartition(Run(events).devices);
  }
}
