/**
 * The entity store the subgraph's handlers load from and save to, with the shared helpers of
 * subgraph/src/utils.ts. Entities are values: a handler loads one, changes its copy, saves it.
 */
module SubgraphStore {
  import opened Wrappers
  import opened Bytes
  import opened Text

  datatype DeviceStatus = Active | Revoked | Suspended

  datatype Device = Device(
    latE7: int, lonE7: int, registeredAt: int, registeredBy: seq<Byte>, status: DeviceStatus,
    revokedAt: Option<int>, reactivatedAt: Option<int>, suspendedAt: Option<int>)

  datatype Submission = Submission(
    deviceIdBytes: seq<Byte>, timestamp: int, blockNumber: int, blockTimestamp: nat,
    gapFromPrevious: int, postDisconnection: bool, txHash: seq<Byte>)

  datatype Protocol = Protocol(
    totalDevices: int, activeDevices: int, revokedDevices: int, suspendedDevices: int,
    totalSubmissions: int, totalPostDisconnections: int)

  datatype DailyStat = DailyStat(
    dayStartTs: nat, deviceIdBytes: seq<Byte>, submissionCount: int, postDisconnectionCount: int)

  const NEW_PROTOCOL: Protocol := Protocol(0, 0, 0, 0, 0, 0)

  const SECONDS_PER_DAY: int := 86400

  /** The store as a value; `protocol` is the singleton entity "0" once it exists. */
  datatype StoreState = StoreState(
    devices: map<string, Device>, protocol: Option<Protocol>,
    submissions: map<string, Submission>, dailyStats: map<string, DailyStat>)
  {
    function Counters(): Protocol {
      if protocol.Some? then protocol.value else NEW_PROTOCOL
    }
  }

  const EMPTY_STORE: StoreState := StoreState(map[], None, map[], map[])

  class Store {
    var devices: map<string, Device>
    var protocol: Option<Protocol>
    var submissions: map<string, Submission>
    var dailyStats: map<string, DailyStat>

    function View(): StoreState
      reads this
    {
      StoreState(devices, protocol, submissions, dailyStats)
    }

    constructor ()
      ensures View() == EMPTY_STORE
    {
      devices, protocol, submissions, dailyStats := map[], None, map[], map[];
    }

    /** Creates and saves the singleton on first use. */
    method LoadOrCreateProtocol() returns (p: Protocol)
      modifies this`protocol
      ensures p == old(View()).Counters()
      ensures View() == old(View()).(protocol := Some(p))
    {
      match protocol {
        case None =>
          p := NEW_PROTOCOL;
          protocol := Some(p);
        case Some(existing) =>
          p := existing;
      }
    }
  }

  /** `Bytes.toHexString()`. */
  function HexId(bytes: seq<Byte>): string {
    "0x" + Hex(bytes)
  }

  lemma HexIdInjective(a: seq<Byte>, b: seq<Byte>)
    ensures HexId(a) == HexId(b) <==> a == b
  {
    HexRoundTrip(a);
    HexRoundTrip(b);
    assert HexId(a)[2..] == Hex(a) && HexId(b)[2..] == Hex(b);
  }

  function GetDayStartTs(timestamp: nat): nat {
    timestamp / SECONDS_PER_DAY * SECONDS_PER_DAY
  }

  function MakeDailyStatId(dayStartTs: nat, deviceId: string): string {
    Numeral(dayStartTs, 10) + "-" + deviceId
  }

  /** The start of the UTC day: the last multiple of 86400 not after the moment. */
  lemma DayStart(timestamp: nat, day: nat)
    ensures GetDayStartTs(timestamp) <= timestamp < GetDayStartTs(timestamp) + 86400
    ensures GetDayStartTs(timestamp) == day * 86400 <==> day * 86400 <= timestamp < (day + 1) * 86400
  {
  }

  /** The id as text: the day's start in decimal, a dash, and the device in hexadecimal behind 0x. */
  lemma DailyStatIdText(day: nat, device: seq<Byte>)
    ensures var id, d := MakeDailyStatId(day, HexId(device)), Decimal(day);
            id[..|d|] == d && id[|d|..|d| + 3] == "-0x" && id[|d| + 3..] == Hex(device)
  {
    var id, d := MakeDailyStatId(day, HexId(device)), Decimal(day);
    assert id == d + "-0x" + Hex(device);
  }

  lemma {:induction false} PrefixesBeforeDash(a: string, b: string, x: string, y: string)
    requires AllDigits(a, 10) && AllDigits(b, 10)
    requires a + "-" + x == b + "-" + y
    ensures a == b && x == y
  {
    var s := a + "-" + x;
    assert s[|a|] == '-' && (b + "-" + y)[|b|] == '-';
    assert forall i :: 0 <= i < |a| ==> s[i] == a[i];
    assert forall i :: 0 <= i < |b| ==> s[i] == b[i];
    assert a == s[..|a|] && b == s[..|b|];
    assert x == s[|a| + 1..] && y == s[|b| + 1..];
  }

  /** Day and device can be read off the id of a daily statistic. */
  lemma DailyStatIdInjective(dayA: nat, deviceA: seq<Byte>, dayB: nat, deviceB: seq<Byte>)
    ensures MakeDailyStatId(dayA, HexId(deviceA)) == MakeDailyStatId(dayB, HexId(deviceB))
       <==> dayA == dayB && deviceA == deviceB
  {
    NumeralRoundTrip(dayA, 10);
    NumeralRoundTrip(dayB, 10);
    HexIdInjective(deviceA, deviceB);
    if MakeDailyStatId(dayA, HexId(deviceA)) == MakeDailyStatId(dayB, HexId(deviceB)) {
      PrefixesBeforeDash(Numeral(dayA, 10), Numeral(dayB, 10), HexId(deviceA), HexId(deviceB));
    }
  }
}
