/**
 * The worker object (aggregator/src/worker/index.ts) working on an `InMemoryQueue`: its
 * methods carry out the steps of `WorkerProtocol`, so everything proved about runs holds of
 * the queue they leave behind.
 */
module SubmissionWorkers {
  import opened Wrappers
  import opened SubmissionQueue
  import opened WorkerProtocol
  import opened WorkerRuns

  /** One call of `enqueue` made by the server while the worker is suspended. */
  datatype Arrival<T> = Arrival(id: string, data: T)

  function Arrived<T, R>(arrivals: seq<Arrival<T>>): seq<Step<T, R>> {
    if arrivals == [] then []
    else Arrived(arrivals[..|arrivals| - 1])
         + [Step.Enqueue(arrivals[|arrivals| - 1].id, arrivals[|arrivals| - 1].data)]
  }

  function Total<T>(traffic: seq<seq<Arrival<T>>>): nat {
    if traffic == [] then 0 else |traffic[0]| + Total(traffic[1..])
  }

  lemma RunSnoc<T, R>(s: System<T, R>, steps: seq<Step<T, R>>, step: Step<T, R>)
    ensures Run(s, steps + [step]) == Next(Run(s, steps), step)
    ensures Claims(s, steps + [step]) == Claims(s, steps) + ClaimedBy(Run(s, steps), step)
  {
    RunConcat(s, steps, [step]);
    assert Claims(Run(s, steps), [step]) == ClaimedBy(Run(s, steps), step);
  }

  /** A state in which a drain may be called: nobody works on a job, any number may be pending. */
  ghost predicate Startable<T, R>(s: System<T, R>) {
    s.control.Idle? && QueueInv(s.queue, None)
  }

  /** Nothing is pending and every job is complete, quarantined, or failed after three attempts. */
  ghost predicate AllSettled<T, R>(q: QueueState<T, R>) {
    && q.pending == []
    && forall id <- q.records ::
         && q.records[id].status.Terminal()
         && (q.records[id].status.Failed? ==> q.records[id].attempts == 3)
  }

  class SubmissionWorker<T, R> {
    const queue: InMemoryQueue<T, R>
    var isProcessing: bool

    constructor (queue: InMemoryQueue<T, R>)
      ensures this.queue == queue && !isProcessing
    {
      this.queue := queue;
      isProcessing := false;
    }

    method HandleError(jobId: string, error: WorkerError)
      requires queue.Valid()
      modifies queue`pending, queue`emitted, queue.records.Values
      ensures queue.Valid()
      ensures queue.View() == SettleQueue(old(queue.View()), jobId, Thrown(error))
    {
      match error {
        case ChainSubmissionError(code, message) =>
          if code in QUARANTINE_CODES {
            queue.Quarantine(jobId, code, message);
          } else if code in RETRY_CODES {
            queue.Fail(jobId, code, message);
          } else {
            queue.Fail(jobId, code, message);
          }
        case OtherError(message) =>
          if IsCircuitFailure(message) {
            queue.Quarantine(jobId, "CircuitConstraintFailed", message);
          } else {
            queue.Fail(jobId, "WorkerError", message);
          }
      }
    }

    /** The rest of `processOne` once the pipeline run has ended with `outcome`. */
    method FinishOne(jobId: string, outcome: Outcome<R>)
      requires queue.Valid()
      modifies queue`pending, queue`emitted, queue.records.Values
      ensures queue.Valid()
      ensures queue.View() == SettleQueue(old(queue.View()), jobId, outcome)
    {
      match outcome {
        case Success(result) => queue.Complete(jobId, result);
        case Thrown(error) => HandleError(jobId, error);
      }
    }

    // ---------- One event-loop turn at a time ----------

    /** From the head of the drain loop to its next suspension, or out of the loop. */
    method ClaimOrRest() returns (job: Option<JobRecord<T, R>>)
      requires queue.Valid() && isProcessing
      modifies this`isProcessing, queue`pending, queue.records.Values
      ensures queue.Valid() && (isProcessing <==> job.Some?)
      ensures System(queue.View(), ControlOf(job)) == ClaimNext(old(queue.View()))
    {
      job := queue.Claim();
      if job.None? {
        ghost var final := queue.View();
        isProcessing := false;
        assert queue.View() == final;
      }
    }

    static function ControlOf(job: Option<JobRecord<T, R>>): Control {
      if job.Some? then Awaiting(job.value.id) else Idle
    }

    /** `drain()` up to its first suspension, which is where its caller goes on. */
    method Wake(ghost control: Control) returns (ghost next: Control)
      requires queue.Valid() && (isProcessing <==> !control.Idle?)
      modifies this`isProcessing, queue`pending, queue.records.Values
      ensures queue.Valid() && (isProcessing <==> !next.Idle?)
      ensures System(queue.View(), next) == Next(System(old(queue.View()), control), Step.Drain)
    {
      if isProcessing {
        return control;
      }
      ghost var start := queue.View();
      isProcessing := true;
      assert queue.View() == start;
      var job := ClaimOrRest();
      next := ControlOf(job);
    }

    /** The drain loop goes on after its await. */
    method ResumeDrain() returns (ghost next: Control)
      requires queue.Valid() && isProcessing
      modifies this`isProcessing, queue`pending, queue.records.Values
      ensures queue.Valid() && (isProcessing <==> !next.Idle?)
      ensures System(queue.View(), next) == Next(System(old(queue.View()), Resuming), Resume)
    {
      var job := ClaimOrRest();
      next := ControlOf(job);
    }

    /**
     * `enqueue` with the worker listening, exactly as far as it runs before it returns: the event
     * wakes the drain inside `emit`, and an idle worker has claimed a job by then. The record
     * returned may therefore already be processing.
     */
    method EnqueueJob(id: string, data: T, ghost control: Control)
      returns (r: Result<JobRecord<T, R>, string>, ghost next: Control)
      requires queue.Valid() && (isProcessing <==> !control.Idle?)
      modifies this`isProcessing, queue, queue.records.Values
      ensures queue.Valid() && (isProcessing <==> !next.Idle?)
      ensures r.Err? <==> id in old(queue.records)
      ensures System(queue.View(), next) == Next(System(old(queue.View()), control), Step.Enqueue(id, data))
      ensures r.Ok? ==> id in queue.records && r.value == queue.records[id]
    {
      next := control;
      var heard := |queue.emitted|;
      r := queue.Enqueue(id, data);
      if |queue.emitted| > heard && queue.emitted[heard].EnqueuedEvent? {
        next := Wake(control);
      }
    }

    // ---------- Whole drains ----------

    /** Enqueues that happen while the drain loop is suspended: each wakes a drain that returns at once. */
    method Suspended(arrivals: seq<Arrival<T>>, ghost control: Control)
      requires queue.Valid() && isProcessing && !control.Idle?
      modifies queue
      ensures queue.Valid()
      ensures System(queue.View(), control) == Run(System(old(queue.View()), control), Arrived(arrivals))
      ensures |queue.records| <= |old(queue.records)| + |arrivals|
      ensures forall id <- queue.records ::
                fresh(queue.records[id]) || (id in old(queue.records) && queue.records[id] == old(queue.records)[id])
    {
      for k := 0 to |arrivals|
        invariant queue.Valid() && isProcessing
        invariant System(queue.View(), control) == Run(System(old(queue.View()), control), Arrived(arrivals[..k]))
        invariant |queue.records| <= |old(queue.records)| + k
        invariant forall id <- queue.records ::
                    || fresh(queue.records[id])
                    || (id in old(queue.records) && queue.records[id] == old(queue.records)[id])
      {
        ghost var step: Step<T, R> := Step.Enqueue(arrivals[k].id, arrivals[k].data);
        RunSnoc(System(old(queue.View()), control), Arrived(arrivals[..k]), step);
        assert arrivals[..k + 1][..k] == arrivals[..k];
        var r := queue.Enqueue(arrivals[k].id, arrivals[k].data);
      }
      assert arrivals[..|arrivals|] == arrivals;
    }

    /**
     * One call of `drain()`. `outcomes(k)` is how the k-th pipeline run ends, and `traffic` what
     * is enqueued at each suspension: during a pipeline run, and between its end and the next
     * turn of the loop. Whatever is pending at the call, the call is a run of the protocol, ends
     * whatever the outcomes are, and leaves every job settled; a call made while another drain
     * runs does nothing.
     */
    method DrainQueue(traffic: seq<seq<Arrival<T>>>, outcomes: nat -> Outcome<R>) returns (ghost steps: seq<Step<T, R>>)
      requires queue.Valid()
      requires !isProcessing ==> QueueInv(queue.View(), None)
      modifies this`isProcessing, queue, queue.records.Values
      ensures queue.Valid()
      ensures old(isProcessing) ==> isProcessing && queue.View() == old(queue.View())
      ensures !old(isProcessing) ==>
                && !isProcessing
                && [Step.Drain] <= steps
                && System(queue.View(), Idle) == Run(System(old(queue.View()), Idle), steps)
                && Inv(System(queue.View(), Idle))
                && ("" !in queue.records ==> AllSettled(queue.View()))
    {
      steps := [];
      if isProcessing {
        return;
      }
      ghost var start := System(queue.View(), Idle);
      isProcessing := true;
      steps := ServeAll(start, traffic, outcomes);
      ghost var final := queue.View();
      isProcessing := false;
      assert queue.View() == final;
      DrainInv(start, steps);
      if "" !in queue.records {
        RestIsSettled(final);
      }
    }

    /** The loop of `drain()`. */
    method ServeAll(ghost start: System<T, R>, traffic: seq<seq<Arrival<T>>>, outcomes: nat -> Outcome<R>)
      returns (ghost steps: seq<Step<T, R>>)
      requires queue.Valid() && isProcessing
      requires Startable(start) && start.queue == queue.View()
      modifies queue, queue.records.Values
      ensures queue.Valid() && isProcessing
      ensures [Step.Drain] <= steps && Run(start, steps) == System(queue.View(), Idle)
    {
      steps := [];
      assert start == System(queue.View(), Idle);
      assert Run(start, []) == start && Claims(start, []) == [];
      hide Run, Claims, Startable;
      var rest, runs := traffic, 0;
      while true
        invariant queue.Valid() && isProcessing
        invariant if runs == 0 then steps == [] else [Step.Drain] <= steps
        invariant Run(start, steps) == System(queue.View(), if runs == 0 then Idle else Resuming)
        invariant forall id <- queue.records ::
                    fresh(queue.records[id]) || queue.records[id] in old(queue.records.Values)
        decreases 3 * (|queue.records| + Total(rest)) - |Claims(start, steps)|
      {
        var job;
        job, steps := NextJob(start, steps, if runs == 0 then Step.Drain else Resume);
        if job.None? {
          return;
        }
        steps := Turn(start, steps, job.value.id, rest, outcomes(runs));
        rest := if |rest| <= 2 then [] else rest[2..];
        runs := runs + 1;
      }
    }

    /**
     * `enqueue` with the worker listening: listeners run inside `emit`, so an idle worker starts
     * to drain at once, and the job is the first step of the run that follows.
     */
    method EnqueueAndDrain(id: string, data: T, traffic: seq<seq<Arrival<T>>>, outcomes: nat -> Outcome<R>)
      returns (r: Result<JobRecord<T, R>, string>, ghost steps: seq<Step<T, R>>)
      requires queue.Valid()
      requires !isProcessing ==> Inv(System(queue.View(), Idle))
      modifies this`isProcessing, queue, queue.records.Values
      ensures queue.Valid() && isProcessing == old(isProcessing)
      ensures r.Err? <==> id in old(queue.records)
      ensures r.Err? ==> queue.View() == old(queue.View())
      ensures r.Ok? && old(isProcessing) ==> queue.View() == old(queue.View()).Enqueue(id, data)
      ensures r.Ok? && !old(isProcessing) ==>
                && [Step.Enqueue(id, data)] <= steps
                && System(queue.View(), Idle) == Run(System(old(queue.View()), Idle), steps)
                && Inv(System(queue.View(), Idle))
                && ("" !in queue.records ==> AllSettled(queue.View()))
    {
      steps := [];
      ghost var before := queue.View();
      r := queue.Enqueue(id, data);
      if r.Err? {
        return;
      }
      ghost var enqueued := queue.View();
      if !isProcessing {
        EnqueueInv(before, None, id, data);
      }
      hide QueueInv;
      steps := DrainQueue(traffic, outcomes);
      if !isProcessing {
        WakeUp(before, id, data, steps);
        steps := [Step.Enqueue(id, data)] + steps[1..];
      }
    }

    /** Waking an idle worker is the same as enqueueing first and draining then. */
    lemma WakeUp(q: QueueState<T, R>, id: string, data: T, steps: seq<Step<T, R>>)
      requires id !in q.records && [Step.Drain] <= steps
      ensures Run(System(q, Idle), [Step.Enqueue(id, data)] + steps[1..])
           == Run(System(q.Enqueue(id, data), Idle), steps)
    {
      var woken := [Step.Enqueue(id, data)] + steps[1..];
      assert woken[1..] == steps[1..];
      assert Next(System(q, Idle), woken[0]) == Next(System(q.Enqueue(id, data), Idle), steps[0]);
    }

    /** After its first claim a drain is in a state that is sound, whatever was pending before. */
    lemma DrainInv(start: System<T, R>, steps: seq<Step<T, R>>)
      requires Startable(start) && [Step.Drain] <= steps
      ensures Inv(Run(start, steps))
    {
      ClaimNextInv(start.queue);
      RunInv(ClaimNext(start.queue), steps[1..]);
    }

    lemma RestIsSettled(q: QueueState<T, R>)
      requires Inv(System(q, Idle)) && "" !in q.records
      ensures AllSettled(q)
    {
      forall id <- q.records
        ensures JobOk(q.records[id])
      {
      }
    }

    /** The claim at the head of the drain loop. */
    method NextJob(ghost start: System<T, R>, ghost before: seq<Step<T, R>>, ghost turn: Step<T, R>)
      returns (job: Option<JobRecord<T, R>>, ghost steps: seq<Step<T, R>>)
      requires queue.Valid() && Startable(start)
      requires if turn.Drain? then before == [] else [Step.Drain] <= before
      requires Run(start, before) == System(queue.View(), if turn.Drain? then Idle else Resuming)
      requires turn.Drain? || turn.Resume?
      modifies queue`pending, queue.records.Values
      ensures queue.Valid() && steps == before + [turn]
      ensures Run(start, steps) == System(queue.View(), if job.Some? then Awaiting(job.value.id) else Idle)
      ensures |Claims(start, steps)| == |Claims(start, before)| + if job.Some? then 1 else 0
      ensures |Claims(start, steps)| <= 3 * |queue.records|
    {
      hide QueueInv, Inv, SettleQueue, HearsEnqueued, Startable;
      job := queue.Claim();
      RunSnoc(start, before, turn);
      steps := before + [turn];
      DrainInv(start, steps);
      ClaimsBoundedByRecords(start, steps);
      assert queue.View().records.Keys == queue.records.Keys;
    }

    /** One turn of the drain loop from its `await` to the next claim. */
    method Turn(ghost start: System<T, R>, ghost before: seq<Step<T, R>>, id: string,
                traffic: seq<seq<Arrival<T>>>, outcome: Outcome<R>)
      returns (ghost steps: seq<Step<T, R>>)
      requires queue.Valid() && isProcessing && before != []
      requires Run(start, before) == System(queue.View(), Awaiting(id))
      modifies queue, queue.records.Values
      ensures queue.Valid() && isProcessing && before <= steps
      ensures Run(start, steps) == System(queue.View(), Resuming)
      ensures Claims(start, before) <= Claims(start, steps)
      ensures |queue.records| + Total(if |traffic| <= 2 then [] else traffic[2..])
           <= |old(queue.records)| + Total(traffic)
      ensures forall k <- queue.records :: fresh(queue.records[k]) || queue.records[k] in old(queue.records.Values)
    {
      hide SettleQueue, Accepted, Arrived, Run, Claims;
      var during := if traffic == [] then [] else traffic[0];
      Suspended(during, Awaiting(id));
      RunConcat(start, before, Arrived(during));
      steps := before + Arrived(during);

      FinishOne(id, outcome);
      RunSnoc(start, steps, Settle(outcome));
      steps := steps + [Settle(outcome)];

      var after := if |traffic| < 2 then [] else traffic[1];
      Suspended(after, Resuming);
      RunConcat(start, steps, Arrived(after));
      steps := steps + Arrived(after);
      assert |traffic| >= 2 ==> traffic[1..][1..] == traffic[2..];
    }
  }
}
