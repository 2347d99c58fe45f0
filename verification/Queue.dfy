/**
 * The in-memory submission queue (aggregator/src/queue/index.ts).
 *
 * `QueueState` is the value the queue object denotes: every record by id, the FIFO list of
 * pending ids, and the events handed to listeners so far. The class `InMemoryQueue` keeps
 * its records as objects that are updated in place; each of its methods is specified by the
 * operation of the same name on `QueueState`.
 */
module SubmissionQueue {
  import opened Wrappers

  datatype JobStatus = Pending | Processing | Complete | Failed | Quarantined {
    predicate Terminal() {
      Complete? || Failed? || Quarantined?
    }
  }

  datatype JobError = JobError(code: string, message: string)

  datatype QueueEvent<R> =
    | EnqueuedEvent(id: string)
    | CompletedEvent(id: string, result: R)
    | FailedEvent(id: string, error: JobError)
    | QuarantinedEvent(id: string, error: JobError)

  /** What one record holds at one moment. */
  datatype Job<T, R> =
    Job(data: T, status: JobStatus, attempts: nat, result: Option<R>, error: Option<JobError>)

  const MAX_ATTEMPTS: nat := 3

  datatype QueueState<T, R> =
    QueueState(records: map<string, Job<T, R>>, pending: seq<string>, emitted: seq<QueueEvent<R>>)
  {
    function Enqueue(id: string, data: T): QueueState<T, R>
    {
      QueueState(records[id := Job(data, Pending, 0, None, None)], pending + [id], emitted + [EnqueuedEvent(id)])
    }

    /** The empty id is taken off the list like any other but never claimed. */
    function Claim(): (QueueState<T, R>, Option<string>)
    {
      if pending == [] then (this, None)
      else
        var id := pending[0];
        var rest := this.(pending := pending[1..]);
        if id == "" || id !in records then (rest, None)
        else
          var job := records[id];
          (rest.(records := records[id := job.(status := Processing, attempts := job.attempts + 1)]), Some(id))
    }

    function Complete(id: string, result: R): QueueState<T, R>
    {
      if id !in records then this
      else
        this.(records := records[id := records[id].(status := JobStatus.Complete, result := Some(result))],
              emitted := emitted + [CompletedEvent(id, result)])
    }

    function Fail(id: string, error: JobError, maxAttempts: nat): QueueState<T, R>
    {
      if id !in records then this
      else
        var job := records[id].(error := Some(error));
        if job.attempts < maxAttempts then
          this.(records := records[id := job.(status := Pending)], pending := pending + [id])
        else
          this.(records := records[id := job.(status := Failed)], emitted := emitted + [FailedEvent(id, error)])
    }

    function Quarantine(id: string, error: JobError): QueueState<T, R>
    {
      if id !in records then this
      else
        this.(records := records[id := records[id].(status := Quarantined, error := Some(error))],
              emitted := emitted + [QuarantinedEvent(id, error)])
    }
  }

  datatype QueueSize = QueueSize(total: nat, pending: nat, processing: nat)

  function EmptyQueue<T, R>(): QueueState<T, R> {
    QueueState(map[], [], [])
  }

  class JobRecord<T, R> {
    const id: string
    const data: T
    var status: JobStatus
    var attempts: nat
    var result: Option<R>
    var error: Option<JobError>

    constructor (id: string, data: T)
      ensures this.id == id && Snapshot() == Job(data, Pending, 0, None, None)
    {
      this.id, this.data := id, data;
      status, attempts, result, error := Pending, 0, None, None;
    }

    function Snapshot(): Job<T, R>
      reads this
    {
      Job(data, status, attempts, result, error)
    }
  }

  class InMemoryQueue<T, R> {
    var records: map<string, JobRecord<T, R>>
    var pending: seq<string>
    var emitted: seq<QueueEvent<R>>

    /** Each record is filed under its own id, so no two ids share a record. */
    ghost predicate Valid()
      reads this, records.Values
    {
      forall id <- records :: records[id].id == id
    }

    ghost function View(): QueueState<T, R>
      reads this, records.Values
    {
      QueueState(map id | id in records :: records[id].Snapshot(), pending, emitted)
    }

    constructor ()
      ensures Valid() && View() == EmptyQueue() && fresh(records.Values)
    {
      records, pending, emitted := map[], [], [];
    }

    method Enqueue(id: string, data: T) returns (r: Result<JobRecord<T, R>, string>)
      requires Valid()
      modifies this
      ensures Valid()
      ensures r.Err? <==> id in old(records)
      ensures r.Err? ==> View() == old(View()) && records == old(records)
      ensures r.Ok? ==> View() == old(View()).Enqueue(id, data)
      ensures r.Ok? ==> fresh(r.value) && records == old(records)[id := r.value]
      ensures r.Ok? ==> r.value.id == id && r.value.Snapshot() == Job(data, Pending, 0, None, None)
      ensures pending == if r.Ok? then old(pending) + [id] else old(pending)
      ensures emitted == if r.Ok? then old(emitted) + [EnqueuedEvent(id)] else old(emitted)
    {
      if id in records {
        return Err("Job " + id + " already exists");
      }
      var record := new JobRecord(id, data);
      records := records[id := record];
      pending := pending + [id];
      emitted := emitted + [EnqueuedEvent(id)];
      r := Ok(record);
    }

    method Claim() returns (job: Option<JobRecord<T, R>>)
      requires Valid()
      modifies this`pending, records.Values
      ensures Valid()
      ensures View() == old(View()).Claim().0
      ensures match old(View()).Claim().1
              case None => job == None
              case Some(id) => id in records && job == Some(records[id])
    {
      if pending == [] {
        return None;
      }
      var id := pending[0];
      pending := pending[1..];
      if id == "" || id !in records {
        return None;
      }
      var record := records[id];
      record.status := Processing;
      record.attempts := record.attempts + 1;
      job := Some(record);
    }

    method Complete(id: string, result: R)
      requires Valid()
      modifies this`emitted, records.Values
      ensures Valid()
      ensures View() == old(View()).Complete(id, result)
    {
      if id !in records {
        return;
      }
      var record := records[id];
      record.status := JobStatus.Complete;
      record.result := Some(result);
      emitted := emitted + [CompletedEvent(id, result)];
    }

    method Fail(id: string, code: string, message: string, maxAttempts: nat := MAX_ATTEMPTS)
      requires Valid()
      modifies this`pending, this`emitted, records.Values
      ensures Valid()
      ensures View() == old(View()).Fail(id, JobError(code, message), maxAttempts)
    {
      if id !in records {
        return;
      }
      var record := records[id];
      record.error := Some(JobError(code, message));
      if record.attempts < maxAttempts {
        record.status := Pending;
        pending := pending + [id];
      } else {
        record.status := Failed;
        emitted := emitted + [FailedEvent(id, JobError(code, message))];
      }
    }

    method Quarantine(id: string, code: string, message: string)
      requires Valid()
      modifies this`emitted, records.Values
      ensures Valid()
      ensures View() == old(View()).Quarantine(id, JobError(code, message))
    {
      if id !in records {
        return;
      }
      var record := records[id];
      record.status := Quarantined;
      record.error := Some(JobError(code, message));
      emitted := emitted + [QuarantinedEvent(id, JobError(code, message))];
    }

    /** The record found carries this very id and shows what the queue holds under it. */
    method Get(id: string) returns (record: Option<JobRecord<T, R>>)
      requires Valid()
      ensures record.None? <==> id !in View().records
      ensures record.Some? ==> record.value.id == id && record.value.Snapshot() == View().records[id]
    {
      record := if id in records then Some(records[id]) else None;
    }

    /** The scan over all records counts exactly those with status processing. */
    method Size() returns (size: QueueSize)
      ensures size.total == |records| && size.pending == |pending|
      ensures size.processing == |set id | id in records && records[id].status == Processing|
    {
      var processing := 0;
      var rest := records.Keys;
      while rest != {}
        invariant rest <= records.Keys
        invariant processing == |set id | id in records && id !in rest && records[id].status == Processing|
        decreases rest
      {
        var id :| id in rest;
        ghost var before := set k | k in records && k !in rest && records[k].status == Processing;
        rest := rest - {id};
        ghost var after := set k | k in records && k !in rest && records[k].status == Processing;
        if records[id].status == Processing {
          assert after == before + {id};
          processing := processing + 1;
        } else {
          assert after == before;
        }
      }
      assert (set id | id in records && id !in rest && records[id].status == Processing)
          == (set id | id in records && records[id].status == Processing);
      size := QueueSize(|records|, |pending|, processing);
    }
  }
}
