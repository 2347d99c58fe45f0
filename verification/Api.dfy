/**
 * `POST /submissions` (aggregator/src/api/server.ts): the schema check, the session key that is
 * the job id, the refusal of a known key, and the job put on the queue. What the handler puts
 * there is followed through every run of the worker.
 */
module SubmissionApi {
  import opened Wrappers
  import opened Bytes
  import opened Canonical
  import opened Wire
  import opened SubmissionQueue
  import opened WorkerProtocol
  import WorkerRuns
  import SubmissionWorkers
  import SubgraphStore
  import Text
  import Eip712

  datatype SubmissionJob = SubmissionJob(
    sessionKey: string, payload: Payload, signature: seq<Byte>, pubkey: seq<Byte>)

  datatype Reply =
    | Queued(sessionKey: string)                  // 202
    | ValidationFailed                            // 400
    | DuplicateSessionKey(sessionKey: string)     // 409

  /** `computeSessionKey`, as hexadecimal text. */
  function SessionKey(k: Eip712.Keccak, payload: Payload): string {
    SubgraphStore.HexId(k(SessionKeyPreimage(payload.deviceId, payload.sessionId)))
  }

  function JobOf(k: Eip712.Keccak, req: Request): SubmissionJob
    requires SubmissionSchema(req)
  {
    var payload := ParsePayload(req.payload);
    SubmissionJob(SessionKey(k, payload), payload, Text.HexBytes(req.signature), Text.HexBytes(req.publicKey))
  }

  /** A job as the worker may rely on it: filed under its own key, in range, with full signature and key. */
  ghost predicate SoundJob(k: Eip712.Keccak, id: string, job: SubmissionJob) {
    && id == job.sessionKey == SessionKey(k, job.payload) && id != ""
    && WireRange(job.payload)
    && |job.signature| == 64 && |job.pubkey| == 64
  }

  ghost predicate SoundJobs<R>(k: Eip712.Keccak, q: QueueState<SubmissionJob, R>) {
    forall id <- q.records :: SoundJob(k, id, q.records[id].data)
  }

  lemma AcceptedJobIsSound(k: Eip712.Keccak, req: Request)
    requires SubmissionSchema(req)
    ensures SoundJob(k, JobOf(k, req).sessionKey, JobOf(k, req))
  {
    AcceptedIsInRange(req);
  }

  /**
   * Refuses malformed requests, then known session keys, and changes nothing in either case;
   * otherwise puts exactly one sound job at the tail. The queue's own refusal is never reached.
   */
  method PostSubmission<R>(queue: InMemoryQueue<SubmissionJob, R>, k: Eip712.Keccak, req: Request)
    returns (reply: Reply)
    requires queue.Valid()
    modifies queue
    ensures queue.Valid()
    ensures reply.ValidationFailed? <==> !SubmissionSchema(req)
    ensures SubmissionSchema(req) ==> reply.sessionKey == JobOf(k, req).sessionKey
    ensures reply.DuplicateSessionKey? ==> reply.sessionKey in old(queue.records)
    ensures reply.Queued? ==>
              && reply.sessionKey !in old(queue.records)
              && queue.View() == old(queue.View()).Enqueue(reply.sessionKey, JobOf(k, req))
    ensures !reply.Queued? ==> queue.View() == old(queue.View())
    ensures old(SoundJobs(k, queue.View())) ==> SoundJobs(k, queue.View())
  {
    if !SubmissionSchema(req) {
      return ValidationFailed;
    }
    AcceptedJobIsSound(k, req);
    var payload := ParsePayload(req.payload);
    var sessionKey := SessionKey(k, payload);
    hide SoundJob, SubmissionSchema, ParsePayload, SessionKey, Text.HexBytes;
    var known := queue.Get(sessionKey);
    if known.Some? {
      return DuplicateSessionKey(sessionKey);
    }
    var signature := HexToBytes(req.signature);
    var pubkey := HexToBytes(req.publicKey);
    assert signature == Text.HexBytes(req.signature) && pubkey == Text.HexBytes(req.publicKey) by {
      SchemaHex(req);
    }
    var r := queue.Enqueue(sessionKey, SubmissionJob(sessionKey, payload, signature, pubkey));
    reply := Queued(sessionKey);
  }

  lemma SchemaHex(req: Request)
    requires SubmissionSchema(req)
    ensures Text.IsLowerHex(req.signature) && Text.IsLowerHex(req.publicKey)
    ensures |req.signature| == |req.publicKey| == 128
  {
  }

  /** The job of a client's request carries the very payload, signature and key that were sent. */
  lemma JobCarriesWhatWasSent(k: Eip712.Keccak, p: Payload, signature: seq<Byte>, publicKey: seq<Byte>)
    requires WireRange(p) && |signature| == |publicKey| == 64
    ensures var req := EncodeRequest(p, signature, publicKey).value;
            && SubmissionSchema(req)
            && JobOf(k, req) == SubmissionJob("0x" + Text.Hex(k(SessionKeyPreimage(p.deviceId, p.sessionId))),
                                              p, signature, publicKey)
  {
    WireRoundTrip(p, signature, publicKey);
    hide SubmissionSchema, ParsePayload, WireRange, Text.Hex, Text.HexBytes;
  }

  /** A known key is a known session, or the two 16-byte pre-images are a keccak collision. */
  lemma DuplicateIsReplay(k: Eip712.Keccak, p: Payload, q: Payload)
    requires InRange(p) && InRange(q)
    requires SessionKey(k, p) == SessionKey(k, q)
    ensures (p.deviceId == q.deviceId && p.sessionId == q.sessionId)
         || Eip712.Collide(k, SessionKeyPreimage(p.deviceId, p.sessionId), SessionKeyPreimage(q.deviceId, q.sessionId))
  {
    SessionKeysIdentifySessions(p, q);
    SubgraphStore.HexIdInjective(k(SessionKeyPreimage(p.deviceId, p.sessionId)),
                                 k(SessionKeyPreimage(q.deviceId, q.sessionId)));
  }

  // ---------- Every schedule in which the server is the only one to enqueue ----------

  ghost predicate FromServer<R>(k: Eip712.Keccak, steps: seq<Step<SubmissionJob, R>>) {
    forall i :: 0 <= i < |steps| && steps[i].Enqueue? ==>
      exists req :: SubmissionSchema(req) && steps[i] == Step.Enqueue(JobOf(k, req).sessionKey, JobOf(k, req))
  }

  lemma StepKeepsSoundJobs<R>(k: Eip712.Keccak, s: System<SubmissionJob, R>, step: Step<SubmissionJob, R>)
    requires Inv(s) && SoundJobs(k, s.queue) && FromServer(k, [step])
    ensures SoundJobs(k, Next(s, step).queue)
  {
    var q, q' := s.queue, Next(s, step).queue;
    if step.Enqueue? {
      assert [step][0] == step;
      var req :| SubmissionSchema(req) && step == Step.Enqueue(JobOf(k, req).sessionKey, JobOf(k, req));
      AcceptedJobIsSound(k, req);
    }
    hide SoundJob, JobOf, SubmissionSchema;
    forall id <- q'.records
      ensures SoundJob(k, id, q'.records[id].data)
    {
      WorkerRuns.StepOnRecord(s, step, id);
      if id !in q.records {
        assert id in Added(s, step);
        NewRecordData(s, step, id);
      }
    }
  }

  lemma NewRecordData<T, R>(s: System<T, R>, step: Step<T, R>, id: string)
    requires Inv(s) && id !in s.queue.records && id in Next(s, step).queue.records && id in Added(s, step)
    ensures step.Enqueue? && step.id == id && Next(s, step).queue.records[id].data == step.data
  {
    EnqueueInv(s.queue, InFlight(s), id, step.data);
    WorkerRuns.ClaimNextOnRecord(s.queue.Enqueue(id, step.data), id);
  }

  lemma {:induction false} ServerRunsAreSound<R>(k: Eip712.Keccak, s: System<SubmissionJob, R>,
                                                 steps: seq<Step<SubmissionJob, R>>)
    requires Inv(s) && SoundJobs(k, s.queue) && FromServer(k, steps)
    ensures SoundJobs(k, Run(s, steps).queue)
    decreases |steps|
  {
    if steps != [] {
      assert FromServer(k, steps[..1]) && steps[..1] == [steps[0]];
      assert FromServer(k, steps[1..]);
      StepKeepsSoundJobs(k, s, steps[0]);
      NextInv(s, steps[0]);
      ServerRunsAreSound(k, Next(s, steps[0]), steps[1..]);
    }
  }

  /**
   * What the server accepts is never lost: in every schedule in which jobs come from requests,
   * a resting worker has settled every one of them, and each is still the sound job it was.
   */
  lemma AcceptedJobsAreSettled<R>(k: Eip712.Keccak, steps: seq<Step<SubmissionJob, R>>)
    requires FromServer(k, steps) && !Run(Start(), steps).IsProcessing()
    ensures SubmissionWorkers.AllSettled(Run(Start(), steps).queue)
    ensures SoundJobs(k, Run(Start(), steps).queue)
  {
    WorkerRuns.StartInv<SubmissionJob, R>();
    ServerRunsAreSound(k, Start(), steps);
    WorkerRuns.AcceptedAreRecords(Start(), steps);
    WorkerRuns.NoLostWakeUp(steps);
    hide Run, Accepted;
    assert "" !in Run(Start(), steps).queue.records;
    assert forall id <- Accepted(Start(), steps) :: id in Run(Start(), steps).queue.records.Keys;
  }
}
