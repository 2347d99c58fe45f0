/**
 * The single-flight submission worker (aggregator/src/worker/index.ts) as a state machine
 * whose steps interleave at the `await` points of `drain()`.
 *
 * `drain()` is either not running (`Idle`), suspended inside `await this.processOne(job)`
 * (`Awaiting`), or about to go round its loop after that promise settled (`Resuming`).
 * The environment chooses every step: who enqueues what and when, and how each run of the
 * pipeline ends. A step that is not possible in the current state changes nothing, so every
 * sequence of steps is a schedule.
 */
module WorkerProtocol {
  import opened Wrappers
  import opened SubmissionQueue

  /** What `process()` may throw: a chain error with a code, or anything else as a message. */
  datatype WorkerError = ChainSubmissionError(code: string, message: string) | OtherError(message: string)

  datatype Outcome<R> = Success(result: R) | Thrown(error: WorkerError)

  datatype Disposition = ToQuarantine(error: JobError) | ToFail(error: JobError)

  const QUARANTINE_CODES: set<string> := {
    "DeviceNotActive", "InvalidP256Signature", "InvalidZKProof", "PayloadHashMismatch",
    "InvalidPubkeyLength", "InvalidSignatureLength", "SessionKeyAlreadyUsed"
  }

  const RETRY_CODES: set<string> := {
    "EpochInFuture", "EnforcedPause", "InvalidTimestamp", "TX_REVERTED", "UNKNOWN"
  }

  /** The three alternatives of the circuit-failure pattern, in lower case. */
  const CIRCUIT_FAILURES: seq<string> := ["cannot satisfy constraint", "verify_signature", "assertion failed"]

  function LowerChar(c: char): char {
    if 'A' <= c <= 'Z' then (c as int + 32) as char else c
  }

  predicate StartsWithIgnoreCase(text: string, word: string) {
    |word| <= |text| && forall i :: 0 <= i < |word| ==> LowerChar(text[i]) == word[i]
  }

  predicate ContainsIgnoreCase(text: string, word: string) {
    exists i :: 0 <= i <= |text| && StartsWithIgnoreCase(text[i..], word)
  }

  predicate IsCircuitFailure(message: string) {
    exists w <- CIRCUIT_FAILURES :: ContainsIgnoreCase(message, w)
  }

  /** `handleError`: retry codes and all remaining codes take the same queue operation. */
  function HandleError(error: WorkerError): Disposition {
    match error
    case ChainSubmissionError(code, message) =>
      if code in QUARANTINE_CODES then ToQuarantine(JobError(code, message))
      else if code in RETRY_CODES then ToFail(JobError(code, message))
      else ToFail(JobError(code, message))
    case OtherError(message) =>
      if IsCircuitFailure(message) then ToQuarantine(JobError("CircuitConstraintFailed", message))
      else ToFail(JobError("WorkerError", message))
  }

  /** The queue operation that ends `processOne`. */
  function SettleQueue<T, R>(q: QueueState<T, R>, id: string, outcome: Outcome<R>): QueueState<T, R> {
    match outcome
    case Success(result) => q.Complete(id, result)
    case Thrown(error) =>
      match HandleError(error)
      case ToQuarantine(e) => q.Quarantine(id, e)
      case ToFail(e) => q.Fail(id, e, MAX_ATTEMPTS)
  }

  datatype Control = Idle | Awaiting(id: string) | Resuming

  datatype System<T, R> = System(queue: QueueState<T, R>, control: Control) {
    /** The worker's `isProcessing` flag. */
    predicate IsProcessing() {
      !control.Idle?
    }
  }

  datatype Step<T, R> =
    | Enqueue(id: string, data: T)   // a caller enqueues a job; a taken id is refused
    | Drain                          // a caller runs drain() directly
    | Settle(outcome: Outcome<R>)    // the awaited pipeline run ends
    | Resume                         // the drain loop goes on after the await

  function Start<T, R>(): System<T, R> {
    System(EmptyQueue(), Idle)
  }

  /** The head of the drain loop: claim a job and suspend on it, or leave the loop. */
  function ClaimNext<T, R>(q: QueueState<T, R>): System<T, R> {
    match q.Claim()
    case (q', Some(id)) => System(q', Awaiting(id))
    case (q', None) => System(q', Idle)
  }

  /** The worker listens for "enqueued" events only: it hears those a queue operation has added. */
  predicate HearsEnqueued<T, R>(before: QueueState<T, R>, after: QueueState<T, R>) {
    |before.emitted| < |after.emitted| && after.emitted[|before.emitted|].EnqueuedEvent?
  }

  /** Listeners run inside `emit`, so an idle worker claims before `enqueue` returns. */
  function Next<T, R>(s: System<T, R>, step: Step<T, R>): System<T, R> {
    match step
    case Enqueue(id, data) =>
      if id in s.queue.records then s
      else
        var q := s.queue.Enqueue(id, data);
        if HearsEnqueued(s.queue, q) && !s.IsProcessing() then ClaimNext(q) else s.(queue := q)
    case Drain =>
      if s.IsProcessing() then s else ClaimNext(s.queue)
    case Settle(outcome) =>
      if s.control.Awaiting? then System(SettleQueue(s.queue, s.control.id, outcome), Resuming) else s
    case Resume =>
      if s.control.Resuming? then ClaimNext(s.queue) else s
  }

  function Run<T, R>(s: System<T, R>, steps: seq<Step<T, R>>): System<T, R>
    decreases |steps|
  {
    if steps == [] then s else Run(Next(s, steps[0]), steps[1..])
  }

  /** The id claimed by a step, if it claims one. */
  function ClaimedBy<T, R>(s: System<T, R>, step: Step<T, R>): seq<string> {
    var s' := Next(s, step);
    if !s.control.Awaiting? && s'.control.Awaiting? then [s'.control.id] else []
  }

  /** All claims of a run, in order. */
  function Claims<T, R>(s: System<T, R>, steps: seq<Step<T, R>>): seq<string>
    decreases |steps|
  {
    if steps == [] then [] else ClaimedBy(s, steps[0]) + Claims(Next(s, steps[0]), steps[1..])
  }

  /** The id a step adds to the queue, if it adds one. */
  function Added<T, R>(s: System<T, R>, step: Step<T, R>): seq<string> {
    if step.Enqueue? && step.id !in s.queue.records then [step.id] else []
  }

  /** The ids a run adds to the queue, in order. */
  function Accepted<T, R>(s: System<T, R>, steps: seq<Step<T, R>>): seq<string>
    decreases |steps|
  {
    if steps == [] then [] else Added(s, steps[0]) + Accepted(Next(s, steps[0]), steps[1..])
  }

  lemma {:induction false} RunConcat<T, R>(s: System<T, R>, a: seq<Step<T, R>>, b: seq<Step<T, R>>)
    ensures Run(s, a + b) == Run(Run(s, a), b)
    ensures Claims(s, a + b) == Claims(s, a) + Claims(Run(s, a), b)
    ensures Accepted(s, a + b) == Accepted(s, a) + Accepted(Run(s, a), b)
    decreases |a|
  {
    hide Next, ClaimedBy, Added;
    if a == [] {
      assert a + b == b;
    } else {
      assert (a + b)[1..] == a[1..] + b;
      RunConcat(Next(s, a[0]), a[1..], b);
    }
  }

  // ---------- The invariant of every reachable state ----------

  /** How status, attempts, error and result of one record hang together. */
  ghost predicate JobOk<T, R>(job: Job<T, R>) {
    && (job.result.Some? <==> job.status.Complete?)
    && match job.status
       case Pending => job.attempts < 3 && (job.error.Some? <==> job.attempts > 0)
       case Processing => 1 <= job.attempts <= 3 && (job.error.Some? <==> job.attempts > 1)
       case Complete => 1 <= job.attempts <= 3 && (job.error.Some? <==> job.attempts > 1)
       case Failed => job.attempts == 3 && job.error.Some?
       case Quarantined => 1 <= job.attempts <= 3 && job.error.Some?
  }

  ghost predicate NoDuplicates(ids: seq<string>) {
    forall i, j :: 0 <= i < j < |ids| ==> ids[i] != ids[j]
  }

  /** The queue's part of the invariant while `inFlight` is the job handed to the worker, if any. */
  ghost predicate QueueInv<T, R>(q: QueueState<T, R>, inFlight: Option<string>) {
    && NoDuplicates(q.pending)
    && (forall id <- q.pending :: id in q.records && q.records[id].status.Pending?)
    && (forall id <- q.records :: JobOk(q.records[id]))
    && (forall id <- q.records :: q.records[id].status.Pending? && id != "" ==> id in q.pending)
    && (forall id <- q.records :: q.records[id].status.Processing? <==> inFlight == Some(id))
    && (inFlight.Some? ==> inFlight.value in q.records)
    && ("" in q.records ==> q.records[""].status.Pending? && q.records[""].attempts == 0)
  }

  function InFlight<T, R>(s: System<T, R>): Option<string> {
    if s.control.Awaiting? then Some(s.control.id) else None
  }

  ghost predicate Inv<T, R>(s: System<T, R>) {
    && QueueInv(s.queue, InFlight(s))
    && (s.control.Idle? && "" !in s.queue.records ==> s.queue.pending == [])
  }

  /** What is left of the list when its head is taken. */
  lemma WithoutHead(ids: seq<string>)
    requires NoDuplicates(ids) && ids != []
    ensures NoDuplicates(ids[1..])
    ensures forall id :: id in ids[1..] <==> id in ids && id != ids[0]
  {
    assert ids == [ids[0]] + ids[1..];
  }

  lemma ClaimedJobOk<T, R>(job: Job<T, R>)
    requires JobOk(job) && job.status.Pending?
    ensures JobOk(job.(status := Processing, attempts := job.attempts + 1))
  {
  }

  lemma ClaimNextInv<T, R>(q: QueueState<T, R>)
    requires QueueInv(q, None)
    ensures Inv(ClaimNext(q))
  {
    if q.pending != [] {
      var id := q.pending[0];
      assert id in q.pending;
      WithoutHead(q.pending);
      ClaimedJobOk(q.records[id]);
      hide JobOk, NoDuplicates;
    }
  }

  lemma EnqueueInv<T, R>(q: QueueState<T, R>, inFlight: Option<string>, id: string, data: T)
    requires QueueInv(q, inFlight) && id !in q.records
    ensures QueueInv(q.Enqueue(id, data), inFlight)
  {
    var q' := q.Enqueue(id, data);
    assert forall k <- q'.pending :: k in q.pending || k == id;
    assert forall k <- q.pending :: k in q'.pending;
    assert id == q'.pending[|q.pending|];
  }

  /** Giving the job in flight a resting status, and its id a place in the list if that is pending. */
  lemma ReplaceInv<T, R>(q: QueueState<T, R>, q': QueueState<T, R>, id: string, job: Job<T, R>)
    requires QueueInv(q, Some(id))
    requires JobOk(job) && !job.status.Processing?
    requires q'.records == q.records[id := job]
    requires q'.pending == q.pending + if job.status.Pending? then [id] else []
    ensures QueueInv(q', None)
  {
    hide JobOk;
    assert id !in q.pending;
    assert forall k <- q'.pending :: k in q.pending || k == id;
    assert forall k <- q.pending :: k in q'.pending;
    if job.status.Pending? {
      assert id == q'.pending[|q.pending|];
    }
  }

  lemma SettleInv<T, R>(q: QueueState<T, R>, id: string, outcome: Outcome<R>)
    requires QueueInv(q, Some(id))
    ensures QueueInv(SettleQueue(q, id, outcome), None)
  {
    var q' := SettleQueue(q, id, outcome);
    assert JobOk(q.records[id]);
    hide QueueInv;
    assert q.pending + [] == q.pending;
    ReplaceInv(q, q', id, q'.records[id]);
  }

  lemma NextInv<T, R>(s: System<T, R>, step: Step<T, R>)
    requires Inv(s)
    ensures Inv(Next(s, step))
  {
    match step
    case Enqueue(id, data) =>
      if id !in s.queue.records {
        EnqueueInv(s.queue, InFlight(s), id, data);
        if !s.IsProcessing() {
          ClaimNextInv(s.queue.Enqueue(id, data));
        }
      }
    case Drain =>
      if !s.IsProcessing() {
        ClaimNextInv(s.queue);
      }
    case Settle(outcome) =>
      if s.control.Awaiting? {
        SettleInv(s.queue, s.control.id, outcome);
      }
    case Resume =>
      if s.control.Resuming? {
        ClaimNextInv(s.queue);
      }
  }

  lemma {:induction false} RunInv<T, R>(s: System<T, R>, steps: seq<Step<T, R>>)
    requires Inv(s)
    ensures Inv(Run(s, steps))
    decreases |steps|
  {
    if steps != [] {
      NextInv(s, steps[0]);
      RunInv(Next(s, steps[0]), steps[1..]);
    }
  }
}
