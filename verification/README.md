# InfraVeritas Energy: a verified model

InfraVeritas moves signed energy measurements from an edge device to a blockchain. The device
packs 100 readings into a canonical form, hashes and signs it, and sends it over HTTP. The
aggregator checks the request, queues it as a job, and a single-flight worker turns each job into
a zero-knowledge proof and a transaction, retrying what may succeed later. Weather providers are
polled to flag implausible claims, a subgraph counts what happened on chain, and vendored Solidity
templates supply the storage containers.

This project models the logic of those parts in Dafny and proves what they are for:

- **Queue and worker.** The drain loop is a state machine whose steps interleave at its `await`
  points with enqueues and with pipeline runs that end in any way. Over every schedule: single
  flight, no lost wake-up, at most three claims a job, termination, first come first served, frozen
  settled records, one true announcement for each settled job. The queue and worker objects, updated in place,
  carry out exactly the steps of that machine.
- **Storage containers.** Each refines a plain mathematical object over any history of calls:
  checkpoints answer from the log of pushes, the set is a set, the map is a map. The square root
  they split by is proved exact for every 256-bit number.
- **Payload chain.** Text on the wire, two canonical encoders in two languages, two sponge loops,
  the Noir circuit run on the prepared inputs, and the EIP-712 pre-images: round trips, agreement of
  the two sides, and binding statements that need no assumption on the hash functions (equal inputs,
  or a collision in hand).
- **On-chain histories.** The device registry and the proof registry as state machines over their
  transactions: what they emit is what the subgraph needs to count right.
- **Folds with a simple meaning.** Subgraph counters against counts over the event history, the
  weather median against its majority, group headers against the list they were inserted into.

Run `dafny verify dfyconfig.toml` to check everything.

## Files

| file | models |
|---|---|
| `Queue.dfy` | aggregator/src/queue/index.ts |
| `Api.dfy` | aggregator/src/api/server.ts: the handler of `POST /submissions`, and its jobs through every run of the worker |
| `WorkerProtocol.dfy`, `WorkerRuns.dfy`, `ErrorRouting.dfy`, `Worker.dfy` | aggregator/src/worker/index.ts: the state machine and its invariant, what holds over runs, which errors are bad data, the worker object |
| `Checkpoints.dfy`, `EnumerableSet.dfy`, `EnumerableMap.dfy` | the templates of those names under contracts/lib/openzeppelin-contracts/scripts/generate/templates |
| `Math.dfy` | contracts/lib/openzeppelin-contracts/contracts/utils/math/Math.sol: average, binary logarithm, square root |
| `Arithmetic.dfy`, `Bytes.dfy`, `Text.dfy` | products and quotients; big-endian bytes and 64-bit words; decimal and hexadecimal text |
| `Canonical.dfy` | aggregator/src/verify/canonical.ts, edge/hal/canonical.py |
| `Poseidon.dfy` | aggregator/src/verify/poseidon.ts, edge/hal/poseidon.py |
| `Wire.dfy` | edge/network/client.py (request encoding), aggregator/src/api/server.ts (schema and parsing) |
| `Witness.dfy`, `Circuit.dfy` | aggregator/src/prover/witness.ts, zk/circuits/v08/src/main.nr |
| `Eip712.dfy` | edge/hal/eip712.py |
| `GroupHeaders.dfy` | contracts/lib/forge-std/scripts/vm.py (ordering and group headers) |
| `Ensemble.dfy`, `Anomaly.dfy` | aggregator/src/validation/weather/ensemble.ts, aggregator/src/validation/anomaly.ts |
| `SubgraphStore.dfy`, `DeviceRegistry.dfy`, `ProofSubmissions.dfy` | subgraph/src/utils.ts, subgraph/src/device-registry-mapping.ts, subgraph/src/v3-mapping.ts |
| `RegistryContract.dfy`, `ProofContract.dfy` | contracts/src/DeviceRegistry.sol, contracts/src/EnergyProofRegistryV3.sol (`submitProof`) |
| `Wrappers.dfy` | `Option` and `Result` |

Lemmas on what stands where (`CanonicalLayout`, `StructLayout`, `DomainLayout`, `OneBlock`, `HeaderText` and others)
give positions, constants and texts in numbers and letters, so that no definition rests on itself.
Two styles of member appear in the table. A class or array method is proved against a function on
values (`QueueState.Fail`, `Words`, `Sponge`); the lemmas then prove what that function means
against an independent reference (an event history, a log of pushes, a decoder, a count).

## Where the code falls short of what is said of it

In each case the model follows the code, and a lemma says exactly when the promise is met.

- The worker's header says alert codes "fail terminal". The code passes them to the same retrying
  operation as transient errors (`ChainErrorsAreRouted`, `RetriedIff`).
- `claim()` treats the empty id as an empty list: the job is dropped from the list and the drain
  stops on top of whatever stands behind it. All work is done at rest if and only if no empty id was
  ever enqueued (`NoLostWakeUp`, `EmptyIdIsLost`). The server's ids are hash text and never empty, so
  nothing it accepts is lost (`AcceptedJobsAreSettled`).
- The comment on `_upperBinaryLookup` promises the last index whose key is not greater, or `high`. The
  code returns the first index whose key is greater: the documented index exactly on an empty section
  (`UpperDocumentedIff`), and another one already for a single checkpoint (`UpperDocumentationFails`).
- `_encode_address` promises a 32-byte slot, but `bytes.fromhex` skips white space, so text of 40
  characters with spaces yields a shorter one (`AddressSlotIff`). Two accepted addresses share a slot
  exactly if their digits agree without white space (`SameAddressSlotIff`); so different texts can
  share a digest without any collision (`SpacedAddressesShareDigest`), and that is all that escapes
  the digest (`DigestBinds`).
- The two canonical encoders agree on values in range. Beyond that the Python one raises, while the
  TypeScript one wraps, and collides exactly on congruent payloads (`CanonicalCollisionsAreCongruences`).
- The sponge does not absorb the length. Two messages are absorbed as the same blocks exactly if they
  fill as many blocks and the longer continues the shorter with zeros (`BlocksEqualIff`). Canonical
  payloads have one fixed length, where this means equality (`BlocksInjective`).
- The witness brings negative coordinates into the field modulo its size, the canonical form modulo
  2^64, and the circuit compares the two. It accepts a payload in range with a valid signature exactly
  if no coordinate is negative (`GenerateWitness`): nothing south of the equator or west of Greenwich
  can be proved, although the server accepts it.
- The status counters of the subgraph are right exactly on streams that follow the lifecycle, and
  drift by a stated amount on all others (`CountersRightIffLegal`, `CountersOverAnyStream`). The
  registry contract emits only such streams (`LogIsLegal`, `ChainCountersAreRight`).
- The proof registry takes a stored time of 0 for "no submission yet". Its gaps add up to the time
  between a device's first and last submission exactly if the first was not at time 0, or all were
  (`GapsAddUpIff`).
- `group("")` raises in vm.py, so header insertion stops at the first entry without a group name
  (`PrefixWithGroupHeaders`).

## Model

| member | source | states |
|---|---|---|
| `SubmissionQueue.InMemoryQueue.Enqueue` | aggregator/src/queue/index.ts:49-64 | Refused exactly on a taken id and then nothing changes; otherwise a fresh pending record of that id and data with no attempts, the id at the tail, and exactly one "enqueued" event. |
| `SubmissionQueue.InMemoryQueue.Claim` | aggregator/src/queue/index.ts:71-80 | Takes the head off the list; hands out its own record as processing with one more attempt, or nothing for an empty list, an empty id or an unknown id. |
| `SubmissionQueue.InMemoryQueue.Complete` | aggregator/src/queue/index.ts:82-89 | Status, result and event of that record only; an earlier error stays; an unknown id is ignored. |
| `SubmissionQueue.InMemoryQueue.Fail` | aggregator/src/queue/index.ts:92-104 | Back to the tail of the list while attempts are left, otherwise failed and announced; the error is kept either way. |
| `SubmissionQueue.InMemoryQueue.Quarantine` | aggregator/src/queue/index.ts:107-114 | Terminal, with error and event, whatever the number of attempts. |
| `SubmissionQueue.InMemoryQueue.Get` | aggregator/src/queue/index.ts:116-118 | Nothing exactly for an id the queue does not hold; otherwise a record that carries this id and shows what the queue holds under it. |
| `SubmissionQueue.InMemoryQueue.Size` | aggregator/src/queue/index.ts:120-130 | The scan counts exactly the records with status processing. |
| `WorkerProtocol.ClaimNextInv` | aggregator/src/worker/index.ts:106-113 | From any sound queue with nobody at work, the head of the drain loop leads to a state of the invariant. |
| `WorkerProtocol.EnqueueInv` | aggregator/src/queue/index.ts:49-64 | Enqueueing a new id keeps the list duplicate-free and equal to the pending ids, at any moment. |
| `WorkerProtocol.SettleInv` | aggregator/src/worker/index.ts:123-141 | However the awaited run ends, the queue is sound again with nothing in flight. |
| `WorkerProtocol.NextInv` | aggregator/src/worker/index.ts:95-142 | One inductive invariant for every step: no duplicates in the list, list = pending ids, pending below 3 attempts, failed at exactly 3, results exactly on complete jobs, one job processing, list empty at rest. |
| `WorkerProtocol.RunInv` | aggregator/src/worker/index.ts:95-142 | Hence every run keeps it. |
| `WorkerRuns.ReachableInv` | aggregator/src/worker/index.ts:86-114 | Every state reachable from an empty queue and an idle worker satisfies it. |
| `WorkerRuns.RecordsAreKept` | aggregator/src/queue/index.ts:71-114 | Over any run no record disappears or gets other data, and a settled record never changes again. |
| `WorkerRuns.AttemptsAreClaims` | aggregator/src/queue/index.ts:71-80 | Each attempt counter grows by the number of claims of that id. |
| `WorkerRuns.AcceptedAreRecords` | aggregator/src/queue/index.ts:49-64 | The records are exactly the accepted ids, each accepted once. |
| `WorkerRuns.ClaimsBoundedByRecords` | aggregator/src/queue/index.ts:92-104 | A run that ends in a sound state has made at most three claims for each record it leaves. |
| `WorkerRuns.ClaimsAreBounded` | aggregator/src/worker/index.ts:102-142 | n accepted jobs cause at most 3n claims, whatever the pipeline does; each attempt counter is its number of claims. |
| `WorkerRuns.StepsFollowClaims` | aggregator/src/worker/index.ts:106-110 | Every claim costs the worker two further steps, no more: exact accounting over any run. |
| `WorkerRuns.DrainTerminates` | aggregator/src/worker/index.ts:102-114 | A run with n accepted jobs has at most 6n worker steps, and a processing worker always has exactly one next step: it comes to rest. |
| `WorkerRuns.SingleFlight` | aggregator/src/worker/index.ts:15-16 | The records in status processing are exactly the job being awaited, none when the worker rests. |
| `WorkerRuns.NoLostWakeUp` | aggregator/src/worker/index.ts:95-114 | In a resting state nothing is pending and every record is settled, if and only if no empty id was ever accepted; failed means three attempts. |
| `WorkerRuns.EmptyIdIsLost` | aggregator/src/queue/index.ts:72-73 | The concrete failure: a job with an empty id stays pending with no attempts for ever. |
| `WorkerRuns.PendingLengthIsTrue` | aggregator/src/queue/index.ts:120-130 | The reported totals are the true counts, short by one exactly if an empty id was dropped. |
| `WorkerRuns.Fairness` | aggregator/src/queue/index.ts:49-104 | The id at index k of the list is taken by exactly the (k+1)-th next claim, whatever is enqueued or retried meanwhile. |
| `WorkerRuns.FirstAttemptsInOrder` | aggregator/src/queue/index.ts:49-80 | First claims in order, followed by the untried ids in line, are the accepted ids in order of acceptance. |
| `WorkerRuns.AcceptedAreAnnounced` | aggregator/src/queue/index.ts:62 | Over any run the "enqueued" events name exactly the accepted ids, in order of acceptance; these events are all the worker wakes on. |
| `WorkerRuns.AnnouncedExactlyOnce` | aggregator/src/queue/index.ts:37-43 | The number of closing events of an id is 1 once it is settled and 0 before; retries announce nothing. |
| `WorkerRuns.EventsStayTrue` | aggregator/src/queue/index.ts:82-114 | Every event ever emitted agrees, with its result or error, with the record at the end of the run. |
| `WorkerRuns.RetriedIff` | aggregator/src/worker/index.ts:244-277 | A job whose run throws returns to the tail exactly if the error is not bad data and attempts are left; quarantined exactly on bad data; failed exactly at three attempts. |
| `WorkerRuns.ErrorIsKept` | aggregator/src/worker/index.ts:244-277 | The record keeps the message and the chain's own code, or one of the two worker codes according to where the job went. |
| `WorkerRuns.CompletionKeepsEarlierError` | aggregator/src/queue/index.ts:82-89 | A completed job shows its result and still the error of its last failed attempt, present exactly if it was tried more than once. |
| `WorkerRuns.AlertCodesAreNotBadData` | aggregator/src/worker/index.ts:256-260 | The two alert codes fall into neither documented class and so are retried, against the header at lines 23-24. |
| `ErrorRouting.ChainErrorsAreRouted` | aggregator/src/worker/index.ts:245-262 | In every state in which a run can throw: seven codes, written out, quarantine the job at once; any other code sends it back to the list until it has had three attempts. |
| `ErrorRouting.CircuitFailuresAreQuarantined` | aggregator/src/worker/index.ts:264-274 | One of three phrases, in any letter case and anywhere in the message of another error, quarantines the job. |
| `ErrorRouting.OtherErrorsAreRetried` | aggregator/src/worker/index.ts:264-276 | Conversely a quarantined message contains such a phrase, and every other one is retried up to three attempts. |
| `SubmissionWorkers.SubmissionWorker.HandleError` | aggregator/src/worker/index.ts:244-277 | The branches over the two code sets and the circuit pattern perform the queue operation the protocol prescribes. |
| `SubmissionWorkers.SubmissionWorker.FinishOne` | aggregator/src/worker/index.ts:123-141 | The end of `processOne` is the protocol's settling step for any outcome. |
| `SubmissionWorkers.SubmissionWorker.ClaimOrRest` | aggregator/src/worker/index.ts:107-112 | From the head of the loop to the next suspension, or out of the loop with the flag reset: exactly the protocol's claim. |
| `SubmissionWorkers.SubmissionWorker.Wake` | aggregator/src/worker/index.ts:102-109 | A drain as far as it runs before its caller goes on is exactly one protocol step, and no step at all while another drain runs. |
| `SubmissionWorkers.SubmissionWorker.ResumeDrain` | aggregator/src/worker/index.ts:109-113 | Going on after the await is exactly one protocol step. |
| `SubmissionWorkers.SubmissionWorker.EnqueueJob` | aggregator/src/worker/index.ts:95-99 | An enqueue as far as it runs before it returns, the first claim inside `emit` included, is exactly one protocol step; refused exactly on a taken id. |
| `SubmissionWorkers.SubmissionWorker.Suspended` | aggregator/src/worker/index.ts:95-103 | Enqueues during a suspension are protocol steps; the drains they wake return at once. |
| `SubmissionWorkers.SubmissionWorker.NextJob` | aggregator/src/worker/index.ts:107-108 | The claim at the head of the loop is one protocol step, with at most three claims for each record so far. |
| `SubmissionWorkers.SubmissionWorker.Turn` | aggregator/src/worker/index.ts:109-142 | One turn of the loop from its await to the next claim is a run of the protocol that forgets no claim. |
| `SubmissionWorkers.SubmissionWorker.ServeAll` | aggregator/src/worker/index.ts:106-110 | The loop ends whatever the outcomes and arrivals are, and is a run of the protocol from a drain to rest. |
| `SubmissionWorkers.SubmissionWorker.DrainQueue` | aggregator/src/worker/index.ts:102-114 | A drain called on any pending list is a run of the protocol, ends at rest, and leaves every job complete, quarantined or failed after three attempts unless an empty id was enqueued; called during another drain it does nothing. |
| `SubmissionWorkers.SubmissionWorker.EnqueueAndDrain` | aggregator/src/worker/index.ts:95-114 | All that one enqueue sets off, to the end of the drain it starts: on a resting worker a run with the enqueue as its first step, at rest in the end with every job settled unless an empty id was enqueued; on a busy worker only the extended queue. |
| `SubmissionWorkers.SubmissionWorker.WakeUp` | aggregator/src/queue/index.ts:61-62 | Claiming inside `emit` is the same as enqueueing first and draining then. |
| `SubmissionWorkers.SubmissionWorker.DrainInv` | aggregator/src/worker/index.ts:106-110 | A drain leads to sound states only, even when started on a list nobody was serving. |
| `Checkpoints.StoredIsSorted` | contracts/lib/openzeppelin-contracts/scripts/generate/templates/Checkpoints.js:147-174 | Over any history of pushes the stored keys are strictly increasing and end with the last accepted key. |
| `Checkpoints.LastPush` | contracts/lib/openzeppelin-contracts/scripts/generate/templates/Checkpoints.js:147-174 | A push is rejected, overwrites the last entry, or appends a greater key, with the matching effect on log and array. |
| `Checkpoints.UpperAgrees` | contracts/lib/openzeppelin-contracts/scripts/generate/templates/Checkpoints.js:62-70 | The entry before the upper bound is the value of the last accepted push with a key at most the one asked for. |
| `Checkpoints.LowerAgrees` | contracts/lib/openzeppelin-contracts/scripts/generate/templates/Checkpoints.js:52-60 | The entry at the lower bound is the final value under the smallest pushed key at least the one asked for. |
| `Checkpoints.LatestAgrees` | contracts/lib/openzeppelin-contracts/scripts/generate/templates/Checkpoints.js:99-105 | The last stored value is that of the last accepted push. |
| `Checkpoints.PastIsImmutable` | contracts/lib/openzeppelin-contracts/scripts/generate/templates/Checkpoints.js:158-161 | No later push changes an answer about keys before the last accepted one. |
| `Checkpoints.Trace.Push` | contracts/lib/openzeppelin-contracts/scripts/generate/templates/Checkpoints.js:36-50 | Reverts exactly on a key before the last accepted one, changing nothing; else returns the previous and the new value and extends the log. |
| `Checkpoints.Trace.LowerLookup` | contracts/lib/openzeppelin-contracts/scripts/generate/templates/Checkpoints.js:52-60 | The answer read off the log of pushes, 0 if there is none. |
| `Checkpoints.Trace.UpperLookup` | contracts/lib/openzeppelin-contracts/scripts/generate/templates/Checkpoints.js:62-70 | The answer read off the log of pushes, 0 if there is none. |
| `Checkpoints.Trace.UpperLookupRecent` | contracts/lib/openzeppelin-contracts/scripts/generate/templates/Checkpoints.js:72-97 | The same answer as `UpperLookup`, splitting at the root that the vendored library computes. |
| `Checkpoints.Trace.Latest` | contracts/lib/openzeppelin-contracts/scripts/generate/templates/Checkpoints.js:99-105 | The value of the last accepted push, or 0. |
| `Checkpoints.Trace.UpperBinaryLookup` | contracts/lib/openzeppelin-contracts/scripts/generate/templates/Checkpoints.js:183-198 | The first index of any section whose key is greater, or the section's end. |
| `Checkpoints.Trace.LowerBinaryLookup` | contracts/lib/openzeppelin-contracts/scripts/generate/templates/Checkpoints.js:200-222 | The first index of any section whose key is not smaller, or the section's end, as documented. |
| `Checkpoints.UpperDocumentedIff` | contracts/lib/openzeppelin-contracts/scripts/generate/templates/Checkpoints.js:176-198 | The index documented for the upper search is the returned one exactly on an empty section, and otherwise the one before it when there is one. |
| `Checkpoints.UpperDocumentationFails` | contracts/lib/openzeppelin-contracts/scripts/generate/templates/Checkpoints.js:176-198 | A concrete array: one checkpoint, asked for its own key, gives 1 where the documentation says 0. |
| `SolidityMath.AndXor` | contracts/lib/openzeppelin-contracts/contracts/utils/math/Math.sol:96-99 | Twice the carries plus the carry-less sum is the sum. |
| `SolidityMath.Average` | contracts/lib/openzeppelin-contracts/contracts/utils/math/Math.sol:96-99 | The bit formula is the midpoint rounded down. |
| `SolidityMath.Log2` | contracts/lib/openzeppelin-contracts/contracts/utils/math/Math.sol:268-304 | The cascade of shifts finds the exponent of the greatest power of two not above the number. |
| `SolidityMath.GuessBelowRoot` | contracts/lib/openzeppelin-contracts/contracts/utils/math/Math.sol:226-236 | The first guess is at most the root and more than half of it. |
| `SolidityMath.NewtonStep` | contracts/lib/openzeppelin-contracts/contracts/utils/math/Math.sol:243-249 | A step never falls below the root, and its excess is bounded by the square of the distance before. |
| `SolidityMath.QuadraticStep` | contracts/lib/openzeppelin-contracts/contracts/utils/math/Math.sol:238-241 | From within one k-th of the root (plus 2) to within one 2k²-th: precision doubles with every step. |
| `SolidityMath.Improve` | contracts/lib/openzeppelin-contracts/contracts/utils/math/Math.sol:243-249 | One unchecked 256-bit step does not wrap and improves the precision so. |
| `SolidityMath.LastStep` | contracts/lib/openzeppelin-contracts/contracts/utils/math/Math.sol:249-250 | Once the squared distance is at most the root, one more step and the smaller factor give the root. |
| `SolidityMath.Sqrt` | contracts/lib/openzeppelin-contracts/contracts/utils/math/Math.sol:215-252 | Seven steps give the root rounded down for every 256-bit number. |
| `EnumerableSets.ArrayListsElements` | contracts/lib/openzeppelin-contracts/scripts/generate/templates/EnumerableSet.js:61-67 | The array lists the set's elements, each exactly once. |
| `EnumerableSets.AddRefinesSet` | contracts/lib/openzeppelin-contracts/scripts/generate/templates/EnumerableSet.js:75-85 | Adding is set union and keeps positions the array's inverse plus one. |
| `EnumerableSets.RemoveRefinesSet` | contracts/lib/openzeppelin-contracts/scripts/generate/templates/EnumerableSet.js:93-125 | Swap and pop is set difference and keeps positions the array's inverse plus one. |
| `EnumerableSets.SetIsItsHistory` | contracts/lib/openzeppelin-contracts/scripts/generate/templates/EnumerableSet.js:75-125 | After any sequence of calls a value is in the array once exactly if the last call about it added it. |
| `EnumerableSets.Set.Add` | contracts/lib/openzeppelin-contracts/scripts/generate/templates/EnumerableSet.js:75-85 | Set union in place; true exactly if the set changed. |
| `EnumerableSets.Set.Remove` | contracts/lib/openzeppelin-contracts/scripts/generate/templates/EnumerableSet.js:93-125 | Set difference in place; true exactly if the set changed. |
| `EnumerableSets.Set.SwapAndPop` | contracts/lib/openzeppelin-contracts/scripts/generate/templates/EnumerableSet.js:103-119 | The in-place removal, skipping the swap for the last value, has the effect of swap and pop. |
| `EnumerableSets.Set.Contains` | contracts/lib/openzeppelin-contracts/scripts/generate/templates/EnumerableSet.js:130-132 | A position other than 0 means membership, both ways. |
| `EnumerableSets.Set.Length` | contracts/lib/openzeppelin-contracts/scripts/generate/templates/EnumerableSet.js:137-139 | The cardinality of the set. |
| `EnumerableSets.Set.At` | contracts/lib/openzeppelin-contracts/scripts/generate/templates/EnumerableSet.js:151-153 | Reverts exactly past the cardinality; otherwise the element with that position, so distinct indices give distinct elements. |
| `EnumerableMaps.SetRefinesMap` | contracts/lib/openzeppelin-contracts/scripts/generate/templates/EnumerableMap.js:83-90 | Setting is map update and leaves no value outside the key set. |
| `EnumerableMaps.RemoveRefinesMap` | contracts/lib/openzeppelin-contracts/scripts/generate/templates/EnumerableMap.js:97-100 | Removal deletes the key from the map and zeroes its slot. |
| `EnumerableMaps.MapIsItsHistory` | contracts/lib/openzeppelin-contracts/scripts/generate/templates/EnumerableMap.js:83-157 | After any sequence of calls a key holds what was last set under it, zero values included, and slots of absent keys are zero. |
| `EnumerableMaps.EnumerableMap.Put` | contracts/lib/openzeppelin-contracts/scripts/generate/templates/EnumerableMap.js:83-90 | Map update in place; true exactly for a new key. |
| `EnumerableMaps.EnumerableMap.Remove` | contracts/lib/openzeppelin-contracts/scripts/generate/templates/EnumerableMap.js:97-100 | Map removal in place; true exactly for a present key. |
| `EnumerableMaps.EnumerableMap.Contains` | contracts/lib/openzeppelin-contracts/scripts/generate/templates/EnumerableMap.js:105-107 | Membership in the plain map. |
| `EnumerableMaps.EnumerableMap.Length` | contracts/lib/openzeppelin-contracts/scripts/generate/templates/EnumerableMap.js:112-114 | The number of entries of the plain map. |
| `EnumerableMaps.EnumerableMap.At` | contracts/lib/openzeppelin-contracts/scripts/generate/templates/EnumerableMap.js:126-129 | Reverts exactly past the size; otherwise an entry of the plain map, another one for each index. |
| `EnumerableMaps.EnumerableMap.TryGet` | contracts/lib/openzeppelin-contracts/scripts/generate/templates/EnumerableMap.js:135-142 | The shortcut on the value answers presence and value correctly, for zero values too. |
| `EnumerableMaps.EnumerableMap.Get` | contracts/lib/openzeppelin-contracts/scripts/generate/templates/EnumerableMap.js:151-157 | Reverts exactly on absent keys, otherwise the value in the plain map. |
| `EnumerableMaps.EnumerableMap.Keys` | contracts/lib/openzeppelin-contracts/scripts/generate/templates/EnumerableMap.js:167-169 | Every key of the plain map, exactly once. |
| `Bytes.FromToBytes` | aggregator/src/prover/witness.ts:87-93 | Big-endian bytes of a value that fits read back as that value. |
| `Bytes.ToFromBytes` | aggregator/src/verify/canonical.ts:155-171 | Every byte string is the fixed-length writing of the number it reads as. |
| `Bytes.ByteAt` | aggregator/src/verify/canonical.ts:161-164 | Byte i of n is the digit of weight 256^(n-1-i). |
| `Bytes.DecodeEncodeWords` | aggregator/src/verify/canonical.ts:117-129 | Unpacking undoes packing, for any sequence of 64-bit words. |
| `Bytes.EncodeDecodeWords` | aggregator/src/verify/canonical.ts:117-129 | Packing undoes unpacking, for any whole number of words. |
| `Bytes.WordAt` | aggregator/src/verify/canonical.ts:91-98 | The words stand one after the other, eight bytes each. |
| `Bytes.WordByteAt` | aggregator/src/verify/canonical.ts:57-58 | Byte i of a word is w / 256^(7-i) modulo 256. |
| `Canonical.SetWord` | aggregator/src/verify/canonical.ts:75-89 | Writes the low 64 bits big-endian at the offset and leaves everything before it alone. |
| `Canonical.Canonicalize` | aggregator/src/verify/canonical.ts:65-106 | The buffer written through a moving offset is the packing of the payload's words; fails exactly without 100 readings. |
| `Canonical.PackMetadata` | edge/hal/canonical.py:52-59 | Seven words, or an exception exactly if a value is out of its signed or unsigned range. |
| `Canonical.EdgeCanonicalize` | edge/hal/canonical.py:32-69 | Succeeds exactly on 100 readings with all values in range, and then yields the bytes of the TypeScript encoder. |
| `Canonical.CanonicalRoundTrip` | aggregator/src/verify/canonical.ts:54-64 | For every payload in range the form is 2456 bytes and decodes to that payload, signs included. |
| `Canonical.CanonicalLayout` | aggregator/src/verify/canonical.ts:75-98 | The number in each slot of the 2456 bytes: seven metadata fields, negative coordinates plus 2^64, and three numbers a reading from byte 56 on. |
| `Canonical.WordsInRange` | aggregator/src/verify/canonical.ts:59-60 | An integer fits its unsigned or signed slot, with the bounds in numbers, exactly if the slot reads back as it. |
| `Canonical.CanonicalCollisionsAreCongruences` | aggregator/src/verify/canonical.ts:65-106 | On integers of any size two payloads get the same bytes exactly if they agree modulo 2^64 in every field. |
| `Canonical.ReadingWordsAt` | aggregator/src/verify/canonical.ts:91-98 | The three words of reading i stand at 3i, 3i+1 and 3i+2 of the reading words. |
| `Canonical.BytesToFieldElements` | aggregator/src/verify/canonical.ts:117-129 | Fails exactly on a ragged length; otherwise the elements pack back to the input bytes. |
| `Canonical.BigintToBytesBE` | aggregator/src/verify/canonical.ts:155-171 | Succeeds exactly if the value is non-negative and fits, and then reads back as the value. |
| `Canonical.BytesToBigIntBE` | aggregator/src/prover/witness.ts:87-93 | The value of the bytes, below 256 to their number. |
| `Canonical.ComputePayloadHash` | aggregator/src/verify/canonical.ts:140-152 | Fails exactly without 100 readings; otherwise 32 bytes that read back as the sponge digest of the words, so the digest never overflows. |
| `Canonical.EdgeComputePayloadHash` | edge/hal/canonical.py:72-76 | The aggregator's 32 bytes, exactly on payloads in range. |
| `Canonical.HashBindsPayload` | aggregator/src/verify/canonical.ts:131-139 | Two payloads in range with one hash are equal, or their words differ in some block and are a collision of the sponge. |
| `Poseidon.PoseidonSponge` | aggregator/src/verify/poseidon.ts:55-84 | For integers of any sign, the in-place loop with JavaScript's remainder is the fold of the permutation over zero-filled blocks of four; it permutes ceil(n/4) times. |
| `Poseidon.AddInPlace` | aggregator/src/verify/poseidon.ts:71-74 | Adding to a cell with a remainder that may be negative adds in the field; cells stay in the field for non-negative elements. |
| `Poseidon.EdgePoseidonSponge` | edge/hal/poseidon.py:16-29 | The Python loop computes the same digest, for integers of any sign. |
| `Poseidon.OneBlock` | aggregator/src/verify/poseidon.ts:48-53 | For one to four elements and any permutation: residues behind a first cell of 0, zeros for what is missing, and the digest is cell 1 of the permuted state. |
| `Poseidon.IdentityDigest` | aggregator/src/verify/poseidon.ts:71-83 | Under the identity permutation the digest is the sum of the elements at indices 0, 4, 8 and so on, in the field. |
| `Poseidon.BlocksCount` | aggregator/src/verify/poseidon.ts:48-53 | A message of n elements has ceil(n/4) blocks. |
| `Poseidon.BlocksEqualIff` | aggregator/src/verify/poseidon.ts:48-53 | Two messages have the same blocks exactly if they fill as many and the longer continues the shorter with zeros. |
| `Poseidon.BlocksInjective` | aggregator/src/verify/poseidon.ts:48-53 | Messages of one length are told apart by their blocks. |
| `Poseidon.TrailingZeroIsPadding` | aggregator/src/verify/poseidon.ts:71-82 | A zero appended inside the last block never changes the digest. |
| `Poseidon.EmptyMessage` | aggregator/src/verify/poseidon.ts:59-83 | The empty message has digest 0 under every permutation. |
| `Text.NumeralRoundTrip` | aggregator/src/prover/witness.ts:78-84 | Printing and reading a natural number in base 10 or 16 is the identity. |
| `Text.DecimalRoundTrip` | edge/network/client.py:255-266 | Printing and reading an integer is the identity, and a sign appears exactly on negative ones. |
| `Text.LastDigit` | edge/network/client.py:255-266 | The last character of a numeral is the figure, or letter from a to f, of the remainder; the rest is the numeral of the quotient. |
| `Text.HexRoundTrip` | edge/network/client.py:271-272 | Printing bytes as hexadecimal and reading them back is the identity. |
| `Text.HexDigitsOf` | edge/network/client.py:271-272 | Each byte gives the figure of its high half and then that of its low half. |
| `Wire.HexToBytes` | aggregator/src/api/server.ts:128-134 | On any text each pair of characters becomes what `parseInt` makes of it, an odd last one is dropped; lower-case digits are decoded. |
| `Wire.FigureValues` | aggregator/src/api/server.ts:131 | The hexadecimal digits of either case, by value. |
| `Wire.PairMeaning` | aggregator/src/api/server.ts:131 | What `parseInt` makes of any two characters: two digits, one before another character, one behind space or sign, or no number. |
| `Wire.U64Text` | aggregator/src/api/server.ts:43-55 | The schema accepts a printed integer exactly if it is an unsigned 64-bit value. |
| `Wire.CoordinateText` | aggregator/src/api/server.ts:57-80 | The schemas accept a printed coordinate exactly within 90 and 180 degrees. |
| `Wire.TamperText` | aggregator/src/api/server.ts:82-85 | The schema accepts a printed flag exactly if it is 0 or 1. |
| `Wire.WireRoundTrip` | edge/network/client.py:232-273 | The server accepts the client's request exactly if there are 100 readings and all values are in its ranges, and then parses the same integers, signature and key. |
| `Wire.FieldsCarryTheirValues` | edge/network/client.py:253-273 | Each value, signature and key travels under its own name. |
| `Wire.AcceptedIsInRange` | aggregator/src/api/server.ts:97-112 | Any accepted request, whoever wrote it, parses to a payload in range with a signature and key of 64 bytes. |
| `Wire.SubmitAndHash` | aggregator/src/worker/index.ts:144-145 | What the worker hashes for an accepted request of the client is the edge's very bytes; the request is accepted exactly on the server's ranges. |
| `Wire.SessionKeysIdentifySessions` | aggregator/src/api/server.ts:154-161 | For accepted payloads the hashed text of the job id is the same exactly for the same device and session. |
| `Wire.SessionKeyBytes` | aggregator/src/api/server.ts:156-159 | The sixteen bytes are the device id and then the session id, most significant byte first. |
| `SubmissionApi.AcceptedJobIsSound` | aggregator/src/api/server.ts:239-247 | The job made of an accepted request is filed under its own non-empty key, in range, with 64-byte signature and key. |
| `SubmissionApi.JobCarriesWhatWasSent` | aggregator/src/api/server.ts:229-245 | The job of a client's request carries the very payload, signature and key that were sent, under the hexadecimal hash of its session. |
| `SubmissionApi.PostSubmission` | aggregator/src/api/server.ts:220-253 | Refuses malformed requests, then exactly the known keys, changing nothing; otherwise puts that one job at the tail and keeps every job sound. |
| `SubmissionApi.DuplicateIsReplay` | aggregator/src/api/server.ts:229-237 | Two payloads with one key are of one device and session, or their 16-byte pre-images collide under keccak. |
| `SubmissionApi.ServerRunsAreSound` | aggregator/src/api/server.ts:239-247 | Over every schedule in which only the server enqueues, every record keeps a sound job. |
| `SubmissionApi.AcceptedJobsAreSettled` | aggregator/src/worker/index.ts:95-114 | In every such schedule a resting worker has settled all jobs: nothing the server accepted is lost. |
| `Witness.ComputeTotalEnergy` | aggregator/src/prover/witness.ts:69-75 | The accumulating loop is the sum of the products. |
| `Witness.EnergyOfReading` | aggregator/src/prover/witness.ts:72 | One reading contributes voltage times current. |
| `Witness.EnergyAddsUp` | aggregator/src/prover/witness.ts:69-75 | The total of readings one after the other is the sum of the totals. |
| `Witness.FieldEnergyIsEnergy` | aggregator/src/prover/witness.ts:62-68 | On every prefix the circuit's sum over fields 7+3i and 8+3i, reduced at each step, equals the integer sum. |
| `Witness.CircuitEnergyAgrees` | aggregator/src/prover/witness.ts:62-75 | For every payload in range the two totals are equal and below 2^135, hence below the field size. |
| `Witness.FieldHexMeaning` | aggregator/src/prover/witness.ts:78-84 | The text denotes the value, reduced if negative; it is a reduced element exactly for values below the field size. |
| `Witness.FieldHexInjective` | aggregator/src/prover/witness.ts:78-84 | Below the field size, texts are equal exactly if the values are equal in the field. |
| `Witness.PrepareWitnessInputs` | aggregator/src/prover/witness.ts:99-140 | Fails exactly on wrong lengths; otherwise hash, energy and all 307 fields denote the sponge digest, the circuit's sum and the canonical words, and the key is split in halves. |
| `Witness.MetadataRepeatsCanonicalIff` | aggregator/src/prover/witness.ts:126-135 | The metadata inputs repeat the first seven canonical fields exactly if no coordinate is negative. |
| `Circuit.SumProducts` | zk/circuits/v08/src/main.nr:69-74 | The loop over the fields is the sum of products in the field. |
| `Circuit.Execute` | zk/circuits/v08/src/main.nr:17-76 | The assertions in order hold exactly if hash, seven metadata fields, signature and energy all check out. |
| `Circuit.PreparedIsReadable` | aggregator/src/prover/witness.ts:125-139 | For a payload in range every prepared text reads as a field element; hash, energy and canonical fields as the digest, the sum and the words the circuit recomputes. |
| `Circuit.MetadataAgreesIff` | zk/circuits/v08/src/main.nr:40-50 | Read back, the metadata equals the canonical fields exactly if no coordinate is negative. |
| `Circuit.GenerateWitness` | aggregator/src/prover/witness.ts:155-165 | For a payload in range the circuit accepts exactly if lengths are right, no coordinate is negative and the signature verifies over the payload hash. |
| `Eip712.UintSlotValue` | edge/hal/eip712.py:118-122 | An unsigned slot reads back as its value. |
| `Eip712.IntSlotValue` | edge/hal/eip712.py:125-127 | A signed slot reads back as its value, sign included. |
| `Eip712.SlotRanges` | edge/hal/eip712.py:118-127 | The accepted ranges in numbers; a negative value is written as its two's complement in 256 bits. |
| `Eip712.AddressSlotIff` | edge/hal/eip712.py:137-144 | A 32-byte slot exactly for 40 hexadecimal digits; a shorter one exactly if white space is among them and nothing else is wrong. |
| `Eip712.AddressSlotBytes` | edge/hal/eip712.py:144 | Twelve zero bytes and then the bytes the digits spell. |
| `Eip712.PrefixAndCase` | edge/hal/eip712.py:139-141 | A prefix in either case and letter case make no difference. |
| `Eip712.SameAddressSlotIff` | edge/hal/eip712.py:137-144 | Two accepted addresses share a slot exactly if their digits agree without white space, prefix and case. |
| `Eip712.SpacedAddressesClash` | edge/hal/eip712.py:137-144 | For any 38 digits, two spaces before or behind them are different addresses with one slot of 31 bytes. |
| `Eip712.StructPreimage` | edge/hal/eip712.py:209-239 | The pre-image exists exactly for encodable inputs and is 320 bytes of full slots. |
| `Eip712.StructRoundTrip` | edge/hal/eip712.py:227-238 | A reader gets all nine fields back from the struct pre-image. |
| `Eip712.StructLayout` | edge/hal/eip712.py:227-239 | The ten slots in order, the first the hash of the type string, which is written out. |
| `Eip712.DomainPreimage` | edge/hal/eip712.py:180-206 | 160 bytes exactly if the chain id fits 256 bits and the address is 40 digits. |
| `Eip712.DomainRoundTrip` | edge/hal/eip712.py:199-206 | A domain pre-image exists exactly for a fitting chain id and an accepted address, and tells the chain id and the whole address slot, short ones included. |
| `Eip712.DomainLayout` | edge/hal/eip712.py:199-206 | The first slots are the hashes of the type string, of "InfraVeritas Energy" and of "1", then the chain id and the address. |
| `Eip712.StructsEqualIff` | edge/hal/eip712.py:209-239 | Struct pre-images are equal exactly for equal inputs. |
| `Eip712.DomainsEqualIff` | edge/hal/eip712.py:180-206 | Domain pre-images are equal exactly for one chain id and addresses with the same digits, white space left out. |
| `Eip712.DomainTellsAddress` | edge/hal/eip712.py:199-206 | An address of 40 digits can be read off its pre-image, up to case and prefix. |
| `Eip712.DigestBinds` | edge/hal/eip712.py:242-270 | For all accepted inputs: equal fields, chain and address digits without white space give equal digests; equal digests come from such inputs, or a pair of the pre-images at hand collides under keccak. |
| `Eip712.DigestLayout` | edge/hal/eip712.py:268-270 | The digest hashes 66 bytes: 0x19, 0x01, the hash of the domain pre-image and the hash of the struct pre-image. |
| `Eip712.DigestBindsAddress` | edge/hal/eip712.py:242-270 | Over addresses of 40 digits the digest binds the address itself, or a pair of pre-images collides. |
| `Eip712.SpacedAddressesShareDigest` | edge/hal/eip712.py:242-270 | Two different spaced addresses give one digest although no pair of pre-images collides. |
| `GroupHeaders.CompareIsAnOrder` | contracts/lib/forge-std/scripts/vm.py:125-134 | Antisymmetric and transitive; zero exactly if group, status, safety and id agree. |
| `GroupHeaders.BeforeIff` | contracts/lib/forge-std/scripts/vm.py:125-134 | Text order: the first difference decides, and a prefix comes first. |
| `GroupHeaders.ComparePriority` | contracts/lib/forge-std/scripts/vm.py:125-134 | Group decides first, then status, then safety, then id. |
| `GroupHeaders.CheatcodeList.PrefixWithGroupHeaders` | contracts/lib/forge-std/scripts/vm.py:138-150 | Inserting into the list being iterated ends on every list and yields each entry after a header if it is the first of its group; with an unnamed group it raises there, headers so far kept. |
| `GroupHeaders.ErasingHeadersRestores` | contracts/lib/forge-std/scripts/vm.py:138-150 | Erasing the first entry of each group gives the input back; there is one header for each distinct group. |
| `GroupHeaders.HeaderBeforeFirstMember` | contracts/lib/forge-std/scripts/vm.py:146-149 | The first entry of a group is the header made from, and standing directly before, the group's first member. |
| `GroupHeaders.HeaderText` | contracts/lib/forge-std/scripts/vm.py:146-158 | A header has no description, the comment with the group's title as its declaration, and everything else from the entry. |
| `GroupHeaders.HeadersKeepOrder` | contracts/lib/forge-std/scripts/vm.py:125-150 | On a sorted list the groups stay in order after insertion. |
| `GroupHeaders.HeadersCoverGroups` | contracts/lib/forge-std/scripts/vm.py:125-150 | On a sorted list nothing of another group stands between a header and its last member. |
| `Ensemble.SortIsUnique` | aggregator/src/validation/weather/ensemble.ts:170 | Any two sorted permutations are equal, so the way of sorting is irrelevant. |
| `Ensemble.ResponseOrderIsIrrelevant` | aggregator/src/validation/weather/ensemble.ts:140-194 | The whole result depends only on the multiset of responses. |
| `Ensemble.MajorityDecides` | aggregator/src/validation/weather/ensemble.ts:199-209 | If more than half of the responses lie within bounds, so does the ensemble value, for odd and even numbers. |
| `Ensemble.ValueIsMiddle` | aggregator/src/validation/weather/ensemble.ts:199-209 | Twice the value is the sum of the two middle reports of any sorted permutation, which are one for an odd number. |
| `Ensemble.DeviationIsRootMeanSquare` | aggregator/src/validation/weather/ensemble.ts:211-216 | The square of the deviation is the mean squared distance of the reports from their mean. |
| `Ensemble.StatusIsExact` | aggregator/src/validation/weather/ensemble.ts:144-193 | Unavailable without reports, degraded with one; with more, divergent exactly if the deviation reaches the night threshold in the dark, or the threshold's share of the value in daylight. |
| `Ensemble.DefaultThresholds` | aggregator/src/validation/weather/ensemble.ts:79-80 | By default these are 50 W/m2 and 30 percent. |
| `Ensemble.DarkMajority` | aggregator/src/validation/weather/ensemble.ts:174-180 | With a majority of exact zeros the value is 0 and divergence is judged by the absolute threshold alone. |
| `Ensemble.StdDevBound` | aggregator/src/validation/weather/ensemble.ts:211-216 | The deviation lies between 0 and the spread of the values. |
| `Ensemble.AgreementIsRecognised` | aggregator/src/validation/weather/ensemble.ts:181-184 | Responses closer together than the threshold times the lowest are never called divergent. |
| `Anomaly.EvaluateAnomaly` | aggregator/src/validation/anomaly.ts:77-126 | Each of the six flags exactly on its condition, with the thresholds in numbers, and once; review required exactly on tampering or inconsistent energy. |
| `Anomaly.MajorityLightIsConsistent` | aggregator/src/validation/anomaly.ts:97-110 | If more than half of the providers report at least 10 W/m2, energy is never called inconsistent. |
| `Anomaly.MajorityDarkIsFlagged` | aggregator/src/validation/anomaly.ts:97-110 | Under a dark majority a substantial claim is flagged exactly if the sources are not divergent. |
| `Anomaly.HalfIsNotEnough` | aggregator/src/validation/anomaly.ts:97-110 | The bound is sharp: with exactly half reporting light the flag can be raised. |
| `SubgraphStore.Store.LoadOrCreateProtocol` | subgraph/src/utils.ts:18-31 | The singleton exists afterwards with the counters it had, all zero at first, and nothing else changes. |
| `SubgraphStore.DayStart` | subgraph/src/utils.ts:37-40 | The day start is a given multiple of 86400 exactly for the moments of that day. |
| `SubgraphStore.HexIdInjective` | subgraph/src/v3-mapping.ts:24 | Two byte strings have one id exactly if they are equal. |
| `SubgraphStore.DailyStatIdInjective` | subgraph/src/utils.ts:45-47 | Two statistics have one id exactly if day and device agree. |
| `SubgraphStore.DailyStatIdText` | subgraph/src/utils.ts:45-47 | The id is the day's start in decimal, a dash, and the device in hexadecimal behind 0x. |
| `DeviceRegistry.HandleDeviceRegistered` | subgraph/src/device-registry-mapping.ts:32-53 | The new store: a repeated registration changes nothing. |
| `DeviceRegistry.HandleDeviceRevoked` | subgraph/src/device-registry-mapping.ts:58-79 | The new store: an unknown device changes nothing, otherwise entity and counters move from the previous status. |
| `DeviceRegistry.HandleDeviceReactivated` | subgraph/src/device-registry-mapping.ts:84-105 | The new store, as above. |
| `DeviceRegistry.HandleDeviceSuspended` | subgraph/src/device-registry-mapping.ts:110-129 | The new store, as above; a revoked device does not leave the revoked counter. |
| `DeviceRegistry.EntitiesFollowHistory` | subgraph/src/device-registry-mapping.ts:32-129 | Over any stream the entities are the registered devices, in the status their history gives them. |
| `DeviceRegistry.EntityKeepsHistory` | subgraph/src/device-registry-mapping.ts:32-129 | An entity keeps the place, time and operator of its first registration and the times of its last transitions. |
| `DeviceRegistry.CountersOverAnyStream` | subgraph/src/device-registry-mapping.ts:32-129 | Over any stream the total counts the entities, and each counter is the true number plus how often it was raised against the lifecycle. |
| `DeviceRegistry.LegalIffNoOvercount` | subgraph/src/device-registry-mapping.ts:55-109 | A stream follows the lifecycle exactly if nothing is overcounted. |
| `DeviceRegistry.CountersRightIffLegal` | subgraph/src/device-registry-mapping.ts:32-129 | The three counters equal the entity counts exactly on legal streams, and exactly then they sum to the total. |
| `RegistryContract.Registry.RegisterDevice` | contracts/src/DeviceRegistry.sol:137-164 | Reverts exactly for a non-operator, a wrong key length, coordinates out of bounds or a known device; otherwise stores, counts and announces it. |
| `RegistryContract.Registry.RevokeDevice` | contracts/src/DeviceRegistry.sol:168-181 | Reverts exactly for a non-operator, an unknown or an already revoked device. |
| `RegistryContract.Registry.ReactivateDevice` | contracts/src/DeviceRegistry.sol:184-197 | Reverts exactly for a non-operator, an unknown or an active device. |
| `RegistryContract.Registry.SuspendDevice` | contracts/src/DeviceRegistry.sol:201-211 | Reverts exactly for a non-operator or a device that is not active. |
| `RegistryContract.LogTellsStatus` | contracts/src/DeviceRegistry.sol:137-211 | Over every history of calls the events give each device the status the contract stores. |
| `RegistryContract.LogIsLegal` | contracts/src/DeviceRegistry.sol:137-211 | Every stream of events the contract can emit follows the lifecycle. |
| `RegistryContract.EntitiesAreStored` | subgraph/src/device-registry-mapping.ts:32-129 | In each status the subgraph holds as many entities as the contract stores devices. |
| `RegistryContract.DeviceCountIsTrue` | contracts/src/DeviceRegistry.sol:159-161 | The unchecked counter is the number of stored devices modulo 2^256. |
| `RegistryContract.ChainCountersAreRight` | subgraph/src/device-registry-mapping.ts:32-129 | For every on-chain history each counter of the subgraph is the number of devices the contract stores in that status, and they add up to its device count. |
| `ProofSubmissions.HandleProofSubmitted` | subgraph/src/v3-mapping.ts:23-64 | The whole new store: submission, daily statistic and global counters. |
| `ProofSubmissions.SubmissionIsItsEvent` | subgraph/src/v3-mapping.ts:27-36 | Over any history the Submission under a session key holds the last event with that key, field by field, and none without one. |
| `ProofSubmissions.StatisticsCountTheirDay` | subgraph/src/v3-mapping.ts:38-55 | For every history, day and device: the statistic exists exactly if there were such events and counts exactly those. |
| `ProofSubmissions.StatisticsAddUp` | subgraph/src/v3-mapping.ts:57-63 | The statistics sum to the global counters, which count all events and all post-disconnections. |
| `ProofSubmissions.SubmissionsMatchCounterIff` | subgraph/src/v3-mapping.ts:27-36 | As many submission entities as counted submissions exactly if no session key recurs. |
| `ProofContract.DecodesIffEncodableInWidth` | contracts/src/EnergyProofRegistryV3.sol:20-30 | The arguments that decode are the encodable inputs within 64 bits, bounds in numbers. |
| `ProofContract.ProofRegistry.SubmitProof` | contracts/src/EnergyProofRegistryV3.sol:269-375 | The checks in order revert exactly when one fails and leave everything as it was; otherwise key, timestamp and event are written together. |
| `ProofContract.SessionsAreDistinct` | contracts/src/EnergyProofRegistryV3.sol:302-308 | Over every history the used keys are those submitted, and none is submitted twice. |
| `ProofContract.ChainSubmissionsAreCounted` | subgraph/src/v3-mapping.ts:23-64 | For every on-chain history the subgraph holds one Submission entity for each submission it counted. |
| `ProofContract.LastIsStored` | contracts/src/EnergyProofRegistryV3.sol:364 | The stored timestamp is that of the device's last event, 0 before the first. |
| `ProofContract.EventsAreWellSpaced` | contracts/src/EnergyProofRegistryV3.sol:310-323 | Each event is later than the device's previous one, carries the true gap, and is marked exactly for more than 48 hours; only a previous time of 0 is not remembered. |
| `ProofContract.GapsTelescope` | contracts/src/EnergyProofRegistryV3.sol:310-323 | The gaps of a device add up to the time from its first non-zero timestamp to its last. |
| `ProofContract.GapsAddUpIff` | contracts/src/EnergyProofRegistryV3.sol:310-323 | They add up to the time from the first submission exactly if that was not at time 0, or all were. |
| `ProofContract.SameSessionKey` | contracts/src/EnergyProofRegistryV3.sol:303-305 | The contract's key equals the server's exactly for one device and session, unless two 16-byte pre-images collide. |

## Left out

- The body of `process()` (pre-check, proving, chain submission, validation): the model lets every run end with any result or error. A run that never settles is a schedule without its settling step.
- Timestamps of job records, listeners and loggers that throw, more than one worker on a queue, and changes a caller makes through the record objects the queue hands out.
- `SubmissionWorkers.SubmissionWorker.EnqueueAndDrain` returns when the drain it starts is over; the source's call returns at that drain's first suspension, which is what `EnqueueJob` models.
- Poseidon's permutation, keccak-256, P-256 and the proving library are arbitrary functions or absent; round constants are not part of this model. The library's `F.e` is taken to give the residue of an integer, and Noir to refuse text that is no field element.
- `Eip712.AddressSlotIff` reads characters as ASCII: case folding of other letters is not modelled; the same holds for headings in vm.py.
- JSON, HTTP, rate limiting, and the wording of schema errors; Python's limit on the length of printed integers.
- `Checkpoints.Trace.Push` works on natural numbers of any size; Solidity's key and value widths, gas and raw storage access are not modelled. A revert is an error result with unchanged state.
- The typed wrappers generated around the set and the map, and the templates' one-line accessors `latestCheckpoint`, `length` and `at` of checkpoints: they would only add easy members.
- `Ensemble.MajorityDecides` and the rest of the ensemble are over real numbers, without rounding or not-a-number; tracing of single providers is not modelled, and z-score and drift are inputs to `Anomaly.EvaluateAnomaly`.
- The sort call in vm.py: only the order it establishes is modelled; parsing and printing of the interface are not.
- 32-bit overflow of the subgraph's counters, and what the indexer does when an immutable Submission is saved twice (modelled as an overwrite).
- Persistence in SQL, the weather HTTP clients and the chain client.
- Of the contracts: roles and pausing are answers given with each call, as are device authorization and the two verifiers in `submitProof`; initializers, setters, upgrades, view functions, on-chain EIP-712 and the encoding for the proof verifier are not modelled.
