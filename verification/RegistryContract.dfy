/**
 * The on-chain device registry (contracts/src/DeviceRegistry.sol): the four operator functions,
 * their reverts, and the events they emit. Every history of calls emits a stream that follows
 * the lifecycle, so the subgraph's counters are right for it.
 */
module RegistryContract {
  import opened Wrappers
  import opened Bytes
  import opened SubgraphStore
  import opened DeviceRegistry
  import Eip712

  /** A stored device; the status Unknown is that of an entry never written. */
  datatype Entry = Entry(latE7: int, lonE7: int, registeredAt: int, status: DeviceStatus)

  datatype Call =
    | RegisterDevice(publicKey: seq<Byte>, latE7: int, lonE7: int)
    | RevokeDevice(publicKey: seq<Byte>)
    | ReactivateDevice(publicKey: seq<Byte>)
    | SuspendDevice(publicKey: seq<Byte>)

  /** Who calls, whether that account is an operator, and the time of the block. */
  datatype Message = Message(sender: seq<Byte>, isOperator: bool, timestamp: nat)

  datatype ContractState = ContractState(devices: map<seq<Byte>, Entry>, deviceCount: nat, log: seq<DeviceEvent>)

  const NEW_CONTRACT: ContractState := ContractState(map[], 0, [])

  const P256_PUBKEY_LENGTH: nat := 64
  const MAX_LAT_E7: int := 900_000_000
  const MAX_LON_E7: int := 1_800_000_000

  predicate ValidCoordinates(latE7: int, lonE7: int) {
    -MAX_LAT_E7 <= latE7 <= MAX_LAT_E7 && -MAX_LON_E7 <= lonE7 <= MAX_LON_E7
  }

  /** The status a call finds, None for Unknown. */
  function StatusOf(s: ContractState, hash: seq<Byte>): Option<DeviceStatus> {
    if hash in s.devices then Some(s.devices[hash].status) else None
  }

  predicate Reverts(k: Eip712.Keccak, s: ContractState, call: Call, msg: Message) {
    var status := StatusOf(s, k(call.publicKey));
    || !msg.isOperator
    || match call
       case RegisterDevice(publicKey, latE7, lonE7) =>
         |publicKey| != P256_PUBKEY_LENGTH || !ValidCoordinates(latE7, lonE7) || status != None
       case RevokeDevice(_) => status == None || status == Some(Revoked)
       case ReactivateDevice(_) => status == None || status == Some(Active)
       case SuspendDevice(_) => status != Some(Active)
  }

  function WithNewStatus(s: ContractState, hash: seq<Byte>, status: DeviceStatus, event: DeviceEvent): ContractState
    requires hash in s.devices
  {
    s.(devices := s.devices[hash := s.devices[hash].(status := status)], log := s.log + [event])
  }

  /** What a call leaves; a call that reverts leaves everything as it was. */
  function Execute(k: Eip712.Keccak, s: ContractState, call: Call, msg: Message): ContractState {
    var hash := k(call.publicKey);
    if Reverts(k, s, call, msg) then s
    else
      match call
      case RegisterDevice(_, latE7, lonE7) =>
        var registeredAt := msg.timestamp % TWO_64;
        ContractState(s.devices[hash := Entry(latE7, lonE7, registeredAt, Active)],
                      (s.deviceCount + 1) % TWO_256,
                      s.log + [DeviceRegistered(hash, latE7, lonE7, registeredAt, msg.sender)])
      case RevokeDevice(_) => WithNewStatus(s, hash, Revoked, DeviceRevoked(hash, msg.timestamp))
      case ReactivateDevice(_) => WithNewStatus(s, hash, Active, DeviceReactivated(hash, msg.timestamp))
      case SuspendDevice(_) => WithNewStatus(s, hash, Suspended, DeviceSuspended(hash, msg.timestamp))
  }

  class Registry {
    const keccak256: Eip712.Keccak
    var devices: map<seq<Byte>, Entry>
    var deviceCount: nat
    var log: seq<DeviceEvent>

    function View(): ContractState
      reads this
    {
      ContractState(devices, deviceCount, log)
    }

    constructor (k: Eip712.Keccak)
      ensures keccak256 == k && View() == NEW_CONTRACT
    {
      keccak256 := k;
      devices, deviceCount, log := map[], 0, [];
    }

    method RegisterDevice(publicKey: seq<Byte>, latE7: int, lonE7: int, msg: Message) returns (r: Result<(), string>)
      modifies this
      ensures r.Err? <==> Reverts(keccak256, old(View()), Call.RegisterDevice(publicKey, latE7, lonE7), msg)
      ensures View() == Execute(keccak256, old(View()), Call.RegisterDevice(publicKey, latE7, lonE7), msg)
      ensures r.Err? <==>
        || !msg.isOperator || |publicKey| != 64
        || !(-900_000_000 <= latE7 <= 900_000_000 && -1_800_000_000 <= lonE7 <= 1_800_000_000)
        || keccak256(publicKey) in old(devices)
      ensures r.Err? ==> View() == old(View())
      ensures r.Ok? ==>
        var hash, time := keccak256(publicKey), msg.timestamp % 0x1_0000_0000_0000_0000;
        && devices == old(devices)[hash := Entry(latE7, lonE7, time, Active)]
        && log == old(log) + [DeviceRegistered(hash, latE7, lonE7, time, msg.sender)]
    {
      if !msg.isOperator {
        return Err("AccessControlUnauthorizedAccount");
      }
      if |publicKey| != P256_PUBKEY_LENGTH {
        return Err("InvalidPubkeyLength");
      }
      if !ValidCoordinates(latE7, lonE7) {
        return Err("InvalidCoordinates");
      }
      var pubKeyHash := keccak256(publicKey);
      if pubKeyHash in devices {
        return Err("DeviceAlreadyRegistered");
      }
      var registeredAt := msg.timestamp % TWO_64;
      devices := devices[pubKeyHash := Entry(latE7, lonE7, registeredAt, Active)];
      deviceCount := (deviceCount + 1) % TWO_256;
      log := log + [DeviceRegistered(pubKeyHash, latE7, lonE7, registeredAt, msg.sender)];
      r := Ok(());
    }

    method RevokeDevice(publicKey: seq<Byte>, msg: Message) returns (r: Result<(), string>)
      modifies this
      ensures r.Err? <==> Reverts(keccak256, old(View()), Call.RevokeDevice(publicKey), msg)
      ensures View() == Execute(keccak256, old(View()), Call.RevokeDevice(publicKey), msg)
      ensures r.Err? <==>
        || !msg.isOperator || keccak256(publicKey) !in old(devices)
        || old(devices)[keccak256(publicKey)].status.Revoked?
      ensures r.Err? ==> View() == old(View())
      ensures r.Ok? ==>
        var hash := keccak256(publicKey);
        && devices == old(devices)[hash := old(devices)[hash].(status := Revoked)]
        && log == old(log) + [DeviceRevoked(hash, msg.timestamp)] && deviceCount == old(deviceCount)
    {
      if !msg.isOperator {
        return Err("AccessControlUnauthorizedAccount");
      }
      var pubKeyHash := keccak256(publicKey);
      if pubKeyHash !in devices {
        return Err("DeviceNotFound");
      }
      if devices[pubKeyHash].status == Revoked {
        return Err("DeviceNotActive");
      }
      devices := devices[pubKeyHash := devices[pubKeyHash].(status := Revoked)];
      log := log + [DeviceRevoked(pubKeyHash, msg.timestamp)];
      r := Ok(());
    }

    method ReactivateDevice(publicKey: seq<Byte>, msg: Message) returns (r: Result<(), string>)
      modifies this
      ensures r.Err? <==> Reverts(keccak256, old(View()), Call.ReactivateDevice(publicKey), msg)
      ensures View() == Execute(keccak256, old(View()), Call.ReactivateDevice(publicKey), msg)
      ensures r.Err? <==>
        || !msg.isOperator || keccak256(publicKey) !in old(devices)
        || old(devices)[keccak256(publicKey)].status.Active?
      ensures r.Err? ==> View() == old(View())
      ensures r.Ok? ==>
        var hash := keccak256(publicKey);
        && devices == old(devices)[hash := old(devices)[hash].(status := Active)]
        && log == old(log) + [DeviceReactivated(hash, msg.timestamp)] && deviceCount == old(deviceCount)
    {
      if !msg.isOperator {
        return Err("AccessControlUnauthorizedAccount");
      }
      var pubKeyHash := keccak256(publicKey);
      if pubKeyHash !in devices {
        return Err("DeviceNotFound");
      }
      if devices[pubKeyHash].status == Active {
        return Err("DeviceAlreadyActive");
      }
      devices := devices[pubKeyHash := devices[pubKeyHash].(status := Active)];
      log := log + [DeviceReactivated(pubKeyHash, msg.timestamp)];
      r := Ok(());
    }

    method SuspendDevice(publicKey: seq<Byte>, msg: Message) returns (r: Result<(), string>)
      modifies this
      ensures r.Err? <==> Reverts(keccak256, old(View()), Call.SuspendDevice(publicKey), msg)
      ensures View() == Execute(keccak256, old(View()), Call.SuspendDevice(publicKey), msg)
      ensures r.Err? <==>
        || !msg.isOperator || keccak256(publicKey) !in old(devices)
        || !old(devices)[keccak256(publicKey)].status.Active?
      ensures r.Err? ==> View() == old(View())
      ensures r.Ok? ==>
        var hash := keccak256(publicKey);
        && devices == old(devices)[hash := old(devices)[hash].(status := Suspended)]
        && log == old(log) + [DeviceSuspended(hash, msg.timestamp)] && deviceCount == old(deviceCount)
    {
      if !msg.isOperator {
        return Err("AccessControlUnauthorizedAccount");
      }
      var pubKeyHash := keccak256(publicKey);
      if pubKeyHash !in devices || devices[pubKeyHash].status != Active {
        return Err("DeviceNotActive");
      }
      devices := devices[pubKeyHash := devices[pubKeyHash].(status := Suspended)];
      log := log + [DeviceSuspended(pubKeyHash, msg.timestamp)];
      r := Ok(());
    }
  }

  // ---------- Every history of calls ----------

  function History(k: Eip712.Keccak, calls: seq<(Call, Message)>): ContractState {
    if calls == [] then NEW_CONTRACT
    else
      var last := calls[|calls| - 1];
      Execute(k, History(k, calls[..|calls| - 1]), last.0, last.1)
  }

  lemma StatusAfterSnoc(events: seq<DeviceEvent>, e: DeviceEvent, id: string)
    ensures e.Id() != id ==> StatusAfter(events + [e], id) == StatusAfter(events, id)
    ensures LegalStream(events + [e]) <==> LegalStream(events) && LegalAfter(StatusAfter(events, e.Id()), e)
  {
    assert (events + [e])[..|events|] == events;
  }

  /** The events of a history give each device the status the contract stores for it. */
  lemma {:induction false} LogTellsStatus(k: Eip712.Keccak, calls: seq<(Call, Message)>, hash: seq<Byte>)
    ensures StatusAfter(History(k, calls).log, HexId(hash)) == StatusOf(History(k, calls), hash)
  {
    if calls != [] {
      var init, last := calls[..|calls| - 1], calls[|calls| - 1];
      var s, s' := History(k, init), History(k, calls);
      LogTellsStatus(k, init, hash);
      if !Reverts(k, s, last.0, last.1) {
        var e := s'.log[|s.log|];
        assert s'.log == s.log + [e] && s'.log[..|s.log|] == s.log;
        HexIdInjective(hash, k(last.0.publicKey));
        hide HexId;
        StatusAfterSnoc(s.log, e, HexId(hash));
      }
    }
  }

  /** Every stream of events the contract can emit follows the lifecycle. */
  lemma {:induction false} LogIsLegal(k: Eip712.Keccak, calls: seq<(Call, Message)>)
    ensures LegalStream(History(k, calls).log)
  {
    if calls != [] {
      var init, last := calls[..|calls| - 1], calls[|calls| - 1];
      var s, s' := History(k, init), History(k, calls);
      LogIsLegal(k, init);
      if !Reverts(k, s, last.0, last.1) {
        var e := s'.log[|s.log|];
        assert s'.log == s.log + [e];
        LogTellsStatus(k, init, k(last.0.publicKey));
        hide HexId;
        StatusAfterSnoc(s.log, e, e.Id());
      }
    }
  }

  lemma {:induction false} LogIdsAreStored(k: Eip712.Keccak, calls: seq<(Call, Message)>, id: string)
    requires StatusAfter(History(k, calls).log, id).Some?
    ensures exists hash :: hash in History(k, calls).devices && HexId(hash) == id
  {
    if calls != [] {
      var init, last := calls[..|calls| - 1], calls[|calls| - 1];
      var s, s' := History(k, init), History(k, calls);
      var hash := k(last.0.publicKey);
      if Reverts(k, s, last.0, last.1) {
        LogIdsAreStored(k, init, id);
      } else {
        var e := s'.log[|s.log|];
        assert s'.log == s.log + [e];
        assert e.Id() == HexId(hash) && hash in s'.devices;
        hide HexId;
        if HexId(hash) != id {
          StatusAfterSnoc(s.log, e, id);
          LogIdsAreStored(k, init, id);
          var stored :| stored in s.devices && HexId(stored) == id;
          assert stored in s'.devices;
        }
      }
    }
  }

  lemma {:induction false} IdsCount(hashes: set<seq<Byte>>)
    ensures |set hash | hash in hashes :: HexId(hash)| == |hashes|
  {
    if hashes != {} {
      var hash :| hash in hashes;
      var rest := hashes - {hash};
      IdsCount(rest);
      var ids := set other | other in rest :: HexId(other);
      forall other <- rest ensures HexId(other) != HexId(hash) {
        HexIdInjective(other, hash);
      }
      assert (set h | h in hashes :: HexId(h)) == ids + {HexId(hash)};
    }
  }

  function StoredWith(s: ContractState, status: DeviceStatus): set<seq<Byte>> {
    set hash | hash in s.devices && s.devices[hash].status == status
  }

  /** As many entities as stored devices in each status. */
  lemma EntitiesAreStored(k: Eip712.Keccak, calls: seq<(Call, Message)>, status: DeviceStatus)
    ensures |WithStatus(Run(History(k, calls).log).devices, status)| == |StoredWith(History(k, calls), status)|
  {
    var s, entities := History(k, calls), Run(History(k, calls).log).devices;
    var stored := StoredWith(s, status);
    IdsCount(stored);
    var ids := set hash | hash in stored :: HexId(hash);
    forall id
      ensures id in WithStatus(entities, status) <==> id in ids
    {
      EntitiesFollowHistory(s.log, id);
      if StatusAfter(s.log, id).Some? {
        LogIdsAreStored(k, calls, id);
        var hash :| hash in s.devices && HexId(hash) == id;
        LogTellsStatus(k, calls, hash);
      }
      if id in ids {
        var hash :| hash in stored && HexId(hash) == id;
        LogTellsStatus(k, calls, hash);
      }
    }
    assert WithStatus(entities, status) == ids;
  }

  lemma StoredPartition(s: ContractState)
    ensures |StoredWith(s, Active)| + |StoredWith(s, Suspended)| + |StoredWith(s, Revoked)| == |s.devices|
  {
    var a, p, r := StoredWith(s, Active), StoredWith(s, Suspended), StoredWith(s, Revoked);
    assert s.devices.Keys == a + p + r && a !! p && a !! r && p !! r;
    assert |a + p + r| == |a| + |p| + |r|;
  }

  lemma CountOneMore(n: nat)
    ensures (n % TWO_256 + 1) % TWO_256 == (n + 1) % TWO_256
  {
  }

  lemma RegistrationAddsDevice(k: Eip712.Keccak, s: ContractState, call: Call, msg: Message)
    ensures var s' := Execute(k, s, call, msg);
            if call.RegisterDevice? && !Reverts(k, s, call, msg)
            then |s'.devices| == |s.devices| + 1 && s'.deviceCount == (s.deviceCount + 1) % TWO_256
            else |s'.devices| == |s.devices| && s'.deviceCount == s.deviceCount
  {
    var hash, s' := k(call.publicKey), Execute(k, s, call, msg);
    if !Reverts(k, s, call, msg) {
      assert s'.devices.Keys == s.devices.Keys + {hash};
      assert |s'.devices.Keys| == |s'.devices| && |s.devices.Keys| == |s.devices|;
    }
  }

  lemma {:induction false} DeviceCountIsTrue(k: Eip712.Keccak, calls: seq<(Call, Message)>)
    ensures History(k, calls).deviceCount == |History(k, calls).devices| % TWO_256
  {
    if calls != [] {
      var init, last := calls[..|calls| - 1], calls[|calls| - 1];
      DeviceCountIsTrue(k, init);
      RegistrationAddsDevice(k, History(k, init), last.0, last.1);
      CountOneMore(|History(k, init).devices|);
      hide Execute, Reverts;
    }
  }

  /**
   * For every on-chain history the subgraph counts right: each counter is the number of devices
   * the contract stores in that status, and they add up to the total.
   */
  lemma ChainCountersAreRight(k: Eip712.Keccak, calls: seq<(Call, Message)>)
    ensures var s := History(k, calls); var p := Run(s.log).Counters();
            && p.activeDevices == |StoredWith(s, Active)|
            && p.suspendedDevices == |StoredWith(s, Suspended)|
            && p.revokedDevices == |StoredWith(s, Revoked)|
            && p.activeDevices + p.suspendedDevices + p.revokedDevices == p.totalDevices == |s.devices|
            && s.deviceCount == p.totalDevices % TWO_256
  {
    var s := History(k, calls);
    LogIsLegal(k, calls);
    CountersRightIffLegal(s.log);
    EntitiesAreStored(k, calls, Active);
    EntitiesAreStored(k, calls, Suspended);
    EntitiesAreStored(k, calls, Revoked);
    StoredPartition(s);
    DeviceCountIsTrue(k, calls);
  }
}
