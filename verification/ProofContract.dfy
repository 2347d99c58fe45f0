/**
 * The on-chain proof registry (contracts/src/EnergyProofRegistryV3.sol): `submitProof` with its
 * checks in order, the used session keys and last timestamps it stores, and the events it emits.
 * Device authorization, P-256 and proof verification are answers given with each call.
 */
module ProofContract {
  import opened Wrappers
  import opened Bytes
  import opened ProofSubmissions
  import Canonical
  import Eip712
  import Wire

  /** One transaction: the arguments, the chain's state, and what the other contracts answer. */
  datatype Transaction = Transaction(
    pubInputs: Eip712.PublicInputs, payloadHash: seq<Byte>, signature: seq<Byte>, devicePubkey: seq<Byte>,
    paused: bool, isOperator: bool, authorized: bool, signatureValid: bool, proofValid: bool,
    blockNumber: int, blockTimestamp: nat, txHash: seq<Byte>)

  datatype ContractState = ContractState(
    usedSessionKeys: set<seq<Byte>>, lastSubmissionTimestamp: map<seq<Byte>, nat>, log: seq<ProofSubmitted>)

  const NEW_CONTRACT: ContractState := ContractState({}, map[], [])

  const MAX_GAP_SECONDS: nat := 48 * 3600
  const MAX_EPOCH_FUTURE_DRIFT: nat := 300

  /** Arguments that the call decoder lets through: each value within the width of its type. */
  predicate Decodes(p: Eip712.PublicInputs) {
    && Canonical.IsU64(p.deviceId) && Canonical.IsU64(p.sessionId) && Canonical.IsU64(p.epochStartTs)
    && Canonical.IsI64(p.latE7) && Canonical.IsI64(p.lonE7)
    && Canonical.IsU64(p.lightLevel) && Canonical.IsU64(p.tamperFlag)
    && |p.payloadHash| == 32 && Canonical.IsU64(p.totalEnergyMWh)
  }

  /** Whatever the decoder lets through has a struct hash: exactly the encodable inputs within 64 bits. */
  lemma DecodesIffEncodableInWidth(p: Eip712.PublicInputs)
    ensures Decodes(p) <==>
      && Eip712.Encodable(p)
      && p.deviceId <= 0xFFFF_FFFF_FFFF_FFFF && p.sessionId <= 0xFFFF_FFFF_FFFF_FFFF
      && p.epochStartTs <= 0xFFFF_FFFF_FFFF_FFFF
      && -0x8000_0000_0000_0000 <= p.latE7 <= 0x7FFF_FFFF_FFFF_FFFF
      && -0x8000_0000_0000_0000 <= p.lonE7 <= 0x7FFF_FFFF_FFFF_FFFF
      && p.lightLevel <= 0xFFFF_FFFF_FFFF_FFFF && p.tamperFlag <= 0xFFFF_FFFF_FFFF_FFFF
      && p.totalEnergyMWh <= 0xFFFF_FFFF_FFFF_FFFF
  {
  }

  /** The key the server files the job under: the same 16 bytes, hashed. */
  function SessionKey(k: Eip712.Keccak, p: Eip712.PublicInputs): seq<Byte> {
    k(Wire.SessionKeyPreimage(p.deviceId, p.sessionId))
  }

  function DeviceIdBytes(p: Eip712.PublicInputs): seq<Byte>
    requires Decodes(p)
  {
    ToBytes(p.deviceId, 32)
  }

  /** A mapping entry never written reads as 0. */
  function LastTimestamp(s: ContractState, device: seq<Byte>): nat {
    if device in s.lastSubmissionTimestamp then s.lastSubmissionTimestamp[device] else 0
  }

  function Gap(previous: nat, epochStartTs: int): int {
    if previous == 0 then 0 else epochStartTs - previous
  }

  predicate Reverts(k: Eip712.Keccak, s: ContractState, t: Transaction) {
    || !Decodes(t.pubInputs) || t.paused || !t.isOperator
    || |t.signature| != 64 || |t.devicePubkey| != 64
    || t.pubInputs.epochStartTs > t.blockTimestamp + MAX_EPOCH_FUTURE_DRIFT
    || t.pubInputs.payloadHash != t.payloadHash
    || SessionKey(k, t.pubInputs) in s.usedSessionKeys
    || (var previous := LastTimestamp(s, DeviceIdBytes(t.pubInputs));
        previous != 0 && t.pubInputs.epochStartTs <= previous)
    || !t.authorized || !t.signatureValid || !t.proofValid
  }

  function EventOf(k: Eip712.Keccak, s: ContractState, t: Transaction): ProofSubmitted
    requires Decodes(t.pubInputs)
  {
    var device, ts := DeviceIdBytes(t.pubInputs), t.pubInputs.epochStartTs;
    var gap := Gap(LastTimestamp(s, device), ts);
    ProofSubmitted(SessionKey(k, t.pubInputs), device, ts, gap, gap > MAX_GAP_SECONDS,
                   t.blockNumber, t.blockTimestamp, t.txHash)
  }

  /** What a call leaves; a call that reverts leaves everything as it was. */
  function Execute(k: Eip712.Keccak, s: ContractState, t: Transaction): ContractState {
    if Reverts(k, s, t) then s
    else
      ContractState(s.usedSessionKeys + {SessionKey(k, t.pubInputs)},
                    s.lastSubmissionTimestamp[DeviceIdBytes(t.pubInputs) := t.pubInputs.epochStartTs],
                    s.log + [EventOf(k, s, t)])
  }

  class ProofRegistry {
    const keccak256: Eip712.Keccak
    var usedSessionKeys: set<seq<Byte>>
    var lastSubmissionTimestamp: map<seq<Byte>, nat>
    var log: seq<ProofSubmitted>

    function View(): ContractState
      reads this
    {
      ContractState(usedSessionKeys, lastSubmissionTimestamp, log)
    }

    constructor (k: Eip712.Keccak)
      ensures keccak256 == k && View() == NEW_CONTRACT
    {
      keccak256 := k;
      usedSessionKeys, lastSubmissionTimestamp, log := {}, map[], [];
    }

    method SubmitProof(t: Transaction) returns (r: Result<(), string>)
      modifies this
      ensures r.Err? <==> Reverts(keccak256, old(View()), t)
      ensures View() == Execute(keccak256, old(View()), t)
      ensures r.Err? ==> View() == old(View())
      ensures r.Ok? ==>
        var p, key := t.pubInputs, keccak256(Wire.SessionKeyPreimage(t.pubInputs.deviceId, t.pubInputs.sessionId));
        var device, previous := ToBytes(p.deviceId, 32), LastTimestamp(old(View()), ToBytes(p.deviceId, 32));
        && Decodes(p) && !t.paused && t.isOperator && t.authorized && t.signatureValid && t.proofValid
        && |t.signature| == 64 && |t.devicePubkey| == 64 && p.payloadHash == t.payloadHash
        && p.epochStartTs <= t.blockTimestamp + 300
        && key !in old(usedSessionKeys) && usedSessionKeys == old(usedSessionKeys) + {key}
        && (previous == 0 || p.epochStartTs > previous)
        && lastSubmissionTimestamp == old(lastSubmissionTimestamp)[device := p.epochStartTs]
        && log == old(log) + [ProofSubmitted(
             key, device, p.epochStartTs, if previous == 0 then 0 else p.epochStartTs - previous,
             previous != 0 && p.epochStartTs - previous > 172_800, t.blockNumber, t.blockTimestamp, t.txHash)]
      ensures r.Err? && Decodes(t.pubInputs) && !t.paused && t.isOperator
              && |t.signature| == 64 && |t.devicePubkey| == 64
              && t.pubInputs.payloadHash == t.payloadHash && t.authorized && t.signatureValid && t.proofValid ==>
        var p, previous := t.pubInputs, LastTimestamp(old(View()), ToBytes(t.pubInputs.deviceId, 32));
        || p.epochStartTs > t.blockTimestamp + 300
        || keccak256(Wire.SessionKeyPreimage(p.deviceId, p.sessionId)) in old(usedSessionKeys)
        || (previous != 0 && p.epochStartTs <= previous)
    {
      var p := t.pubInputs;
      if !Decodes(p) {
        return Err("");
      }
      if t.paused {
        return Err("EnforcedPause");
      }
      if !t.isOperator {
        return Err("AccessControlUnauthorizedAccount");
      }
      if |t.signature| != 64 {
        return Err("InvalidSignatureLength");
      }
      if |t.devicePubkey| != 64 {
        return Err("InvalidPubkeyLength");
      }
      if p.epochStartTs > t.blockTimestamp + MAX_EPOCH_FUTURE_DRIFT {
        return Err("EpochInFuture");
      }
      if p.payloadHash != t.payloadHash {
        return Err("PayloadHashMismatch");
      }
      var sessionKey := SessionKey(keccak256, p);
      if sessionKey in usedSessionKeys {
        return Err("SessionKeyAlreadyUsed");
      }
      var deviceIdBytes32 := DeviceIdBytes(p);
      var previousTimestamp := LastTimestamp(View(), deviceIdBytes32);
      var gap, postDisconnection := 0, false;
      if previousTimestamp != 0 {
        if p.epochStartTs <= previousTimestamp {
          return Err("InvalidTimestamp");
        }
        gap := p.epochStartTs - previousTimestamp;
        postDisconnection := gap > MAX_GAP_SECONDS;
      }
      if !t.authorized {
        return Err("DeviceNotActive");
      }
      if !t.signatureValid {
        return Err("InvalidP256Signature");
      }
      if !t.proofValid {
        return Err("InvalidZKProof");
      }
      usedSessionKeys := usedSessionKeys + {sessionKey};
      lastSubmissionTimestamp := lastSubmissionTimestamp[deviceIdBytes32 := p.epochStartTs];
      log := log + [ProofSubmitted(sessionKey, deviceIdBytes32, p.epochStartTs, gap, postDisconnection,
                                   t.blockNumber, t.blockTimestamp, t.txHash)];
      r := Ok(());
    }
  }

  // ---------- Every history of transactions ----------

  function History(k: Eip712.Keccak, txs: seq<Transaction>): ContractState {
    if txs == [] then NEW_CONTRACT else Execute(k, History(k, txs[..|txs| - 1]), txs[|txs| - 1])
  }

  /** A session key is stored as used exactly if it was submitted, and is never submitted twice. */
  lemma {:induction false} SessionsAreDistinct(k: Eip712.Keccak, txs: seq<Transaction>)
    ensures History(k, txs).usedSessionKeys == SessionKeys(History(k, txs).log)
    ensures DistinctSessions(History(k, txs).log)
  {
    if txs != [] {
      var init, t := txs[..|txs| - 1], txs[|txs| - 1];
      var s, s' := History(k, init), History(k, txs);
      SessionsAreDistinct(k, init);
      if !Reverts(k, s, t) {
        var e := EventOf(k, s, t);
        assert s'.log == s.log + [e] && s'.log[..|s.log|] == s.log;
        hide SessionKey, DeviceIdBytes;
        forall i | 0 <= i < |s.log|
          ensures s.log[i].sessionKey != e.sessionKey
        {
          SessionKeysListed(s.log, s.log[i].sessionKey);
        }
      }
    }
  }

  /** So the subgraph holds exactly one Submission entity for every submission it counted. */
  lemma ChainSubmissionsAreCounted(k: Eip712.Keccak, txs: seq<Transaction>)
    ensures var log := History(k, txs).log;
            |Run(log).submissions| == Run(log).Counters().totalSubmissions == |log|
  {
    SessionsAreDistinct(k, txs);
    SubmissionsMatchCounterIff(History(k, txs).log);
    StatisticsAddUp(History(k, txs).log);
  }

  // ---------- Gaps ----------

  /** The timestamp of the device's last event, 0 if there is none. */
  function LastOf(events: seq<ProofSubmitted>, device: seq<Byte>): int {
    if events == [] then 0
    else if events[|events| - 1].deviceId == device then events[|events| - 1].timestamp
    else LastOf(events[..|events| - 1], device)
  }

  function FirstOf(events: seq<ProofSubmitted>, device: seq<Byte>): Option<int> {
    if events == [] then None
    else
      var first := FirstOf(events[..|events| - 1], device);
      if first.None? && events[|events| - 1].deviceId == device then Some(events[|events| - 1].timestamp) else first
  }

  /** The first timestamp of the device that is not 0, or 0. */
  function FirstPositive(events: seq<ProofSubmitted>, device: seq<Byte>): int {
    if events == [] then 0
    else
      var first := FirstPositive(events[..|events| - 1], device);
      if first == 0 && events[|events| - 1].deviceId == device then events[|events| - 1].timestamp else first
  }

  function GapSum(events: seq<ProofSubmitted>, device: seq<Byte>): int {
    if events == [] then 0
    else
      var e := events[|events| - 1];
      GapSum(events[..|events| - 1], device) + if e.deviceId == device then e.gapFromPrevious else 0
  }

  /** The last event of a history against those before it. */
  ghost predicate FollowsOn(before: seq<ProofSubmitted>, e: ProofSubmitted) {
    var previous := LastOf(before, e.deviceId);
    && e.timestamp >= 0
    && (previous != 0 ==> e.timestamp > previous)
    && e.gapFromPrevious == (if previous == 0 then 0 else e.timestamp - previous)
    && (e.postDisconnection <==> e.gapFromPrevious > 172_800)
  }

  ghost predicate WellSpaced(events: seq<ProofSubmitted>) {
    forall i :: 0 <= i < |events| ==> FollowsOn(events[..i], events[i])
  }

  lemma WellSpacedSnoc(events: seq<ProofSubmitted>, e: ProofSubmitted)
    requires WellSpaced(events) && FollowsOn(events, e)
    ensures WellSpaced(events + [e])
  {
    hide FollowsOn;
    forall i | 0 <= i <= |events|
      ensures FollowsOn((events + [e])[..i], (events + [e])[i])
    {
      assert (events + [e])[..i] == events[..i];
      assert events[..|events|] == events;
    }
  }

  lemma {:induction false} LastIsStored(k: Eip712.Keccak, txs: seq<Transaction>, device: seq<Byte>)
    ensures LastOf(History(k, txs).log, device) == LastTimestamp(History(k, txs), device)
  {
    if txs != [] {
      var init, t := txs[..|txs| - 1], txs[|txs| - 1];
      var s, s' := History(k, init), History(k, txs);
      LastIsStored(k, init, device);
      if !Reverts(k, s, t) {
        assert s'.log == s.log + [EventOf(k, s, t)] && s'.log[..|s.log|] == s.log;
        hide SessionKey, DeviceIdBytes;
      }
    }
  }

  /**
   * In every on-chain history each event follows on the device's previous one: later, with the
   * true gap, and marked as a disconnection exactly for more than 48 hours. Only an event at time
   * 0 is not remembered.
   */
  lemma {:induction false} EventsAreWellSpaced(k: Eip712.Keccak, txs: seq<Transaction>)
    ensures WellSpaced(History(k, txs).log)
  {
    if txs != [] {
      var init, t := txs[..|txs| - 1], txs[|txs| - 1];
      var s, s' := History(k, init), History(k, txs);
      EventsAreWellSpaced(k, init);
      if !Reverts(k, s, t) {
        var e := EventOf(k, s, t);
        LastIsStored(k, init, e.deviceId);
        assert s'.log == s.log + [e];
        hide SessionKey, DeviceIdBytes, WellSpaced;
        WellSpacedSnoc(s.log, e);
      }
    }
  }

  lemma {:induction false} GapsTelescope(events: seq<ProofSubmitted>, device: seq<Byte>)
    requires WellSpaced(events)
    ensures GapSum(events, device) == LastOf(events, device) - FirstPositive(events, device)
    ensures 0 <= FirstPositive(events, device) <= LastOf(events, device)
    ensures FirstPositive(events, device) == 0 <==> LastOf(events, device) == 0
    ensures match FirstOf(events, device)
            case None => LastOf(events, device) == 0
            case Some(first) => first != 0 ==> FirstPositive(events, device) == first
  {
    if events != [] {
      var init, e := events[..|events| - 1], events[|events| - 1];
      forall i | 0 <= i < |init| ensures FollowsOn(init[..i], init[i]) {
        assert init[..i] == events[..i];
      }
      GapsTelescope(init, device);
      assert FollowsOn(init, e);
      hide WellSpaced;
    }
  }

  /**
   * Over any on-chain history the gaps of a device add up to the time between its first and last
   * submission, if and only if the first was not at time 0 or all of them were.
   */
  lemma GapsAddUpIff(k: Eip712.Keccak, txs: seq<Transaction>, device: seq<Byte>)
    requires FirstOf(History(k, txs).log, device).Some?
    ensures var log := History(k, txs).log; var first := FirstOf(log, device).value;
            && GapSum(log, device) == LastOf(log, device) - FirstPositive(log, device)
            && (GapSum(log, device) == LastOf(log, device) - first <==> first != 0 || LastOf(log, device) == 0)
  {
    EventsAreWellSpaced(k, txs);
    GapsTelescope(History(k, txs).log, device);
  }

  /** The contract's session key of a payload is the server's id of the job, as text. */
  lemma SameSessionKey(k: Eip712.Keccak, p: Eip712.PublicInputs, payload: Canonical.Payload)
    requires Decodes(p) && Canonical.InRange(payload)
    requires SessionKey(k, p) == k(Wire.SessionKeyPreimage(payload.deviceId, payload.sessionId))
    ensures (p.deviceId == payload.deviceId && p.sessionId == payload.sessionId)
         || Eip712.Collide(k, Wire.SessionKeyPreimage(p.deviceId, p.sessionId),
                           Wire.SessionKeyPreimage(payload.deviceId, payload.sessionId))
  {
    Wire.SessionKeysIdentifySessions(payload.(deviceId := p.deviceId, sessionId := p.sessionId), payload);
  }
}
