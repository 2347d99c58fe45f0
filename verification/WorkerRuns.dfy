/**
 * What holds over whole runs of the queue and its worker: every schedule of enqueues,
 * pipeline outcomes and loop resumptions, starting from an empty queue and an idle worker.
 */
module WorkerRuns {
  import opened Wrappers
  import opened SubmissionQueue
  import opened WorkerProtocol

  lemma StartInv<T, R>()
    ensures Inv(Start<T, R>())
  {
  }

  lemma ReachableInv<T, R>(steps: seq<Step<T, R>>)
    ensures Inv(Run(Start(), steps))
  {
    StartInv<T, R>();
    RunInv(Start(), steps);
  }

  // ---------- Records are kept, settled records are frozen ----------

  function AttemptsOf<T, R>(q: QueueState<T, R>, id: string): nat {
    if id in q.records then q.records[id].attempts else 0
  }

  ghost predicate KeepsRecord<T, R>(q: QueueState<T, R>, q': QueueState<T, R>, id: string) {
    id in q.records ==>
      && id in q'.records
      && q'.records[id].data == q.records[id].data
      && (q.records[id].status.Terminal() ==> q'.records[id] == q.records[id])
  }

  lemma ClaimNextOnRecord<T, R>(q: QueueState<T, R>, id: string)
    ensures QueueInv(q, None) ==> KeepsRecord(q, ClaimNext(q).queue, id)
    ensures ClaimNext(q).queue.records.Keys == q.records.Keys
    ensures AttemptsOf(ClaimNext(q).queue, id)
         == AttemptsOf(q, id) + if ClaimNext(q).control == Awaiting(id) then 1 else 0
  {
    assert q.pending != [] ==> q.pending[0] in q.pending;
  }

  lemma SettleOnRecord<T, R>(q: QueueState<T, R>, key: string, outcome: Outcome<R>, id: string)
    ensures QueueInv(q, Some(key)) ==> KeepsRecord(q, SettleQueue(q, key, outcome), id)
    ensures SettleQueue(q, key, outcome).records.Keys == q.records.Keys
    ensures AttemptsOf(SettleQueue(q, key, outcome), id) == AttemptsOf(q, id)
  {
  }

  lemma StepOnRecord<T, R>(s: System<T, R>, step: Step<T, R>, id: string)
    ensures Inv(s) ==> KeepsRecord(s.queue, Next(s, step).queue, id)
    ensures AttemptsOf(Next(s, step).queue, id)
         == AttemptsOf(s.queue, id) + if ClaimedBy(s, step) == [id] then 1 else 0
    ensures Next(s, step).queue.records.Keys == s.queue.records.Keys + set k | k in Added(s, step)
  {
    match step
    case Enqueue(key, data) =>
      if key !in s.queue.records {
        if Inv(s) {
          EnqueueInv(s.queue, InFlight(s), key, data);
        }
        ClaimNextOnRecord(s.queue.Enqueue(key, data), id);
      }
    case Drain =>
      ClaimNextOnRecord(s.queue, id);
    case Settle(outcome) =>
      if s.control.Awaiting? {
        SettleOnRecord(s.queue, s.control.id, outcome, id);
      }
    case Resume =>
      ClaimNextOnRecord(s.queue, id);
  }

  /** No record is ever lost or given other data, and a settled record never changes again. */
  lemma {:induction false} RecordsAreKept<T, R>(s: System<T, R>, steps: seq<Step<T, R>>, id: string)
    requires Inv(s)
    ensures KeepsRecord(s.queue, Run(s, steps).queue, id)
    decreases |steps|
  {
    if steps != [] {
      NextInv(s, steps[0]);
      StepOnRecord(s, steps[0], id);
      RecordsAreKept(Next(s, steps[0]), steps[1..], id);
    }
  }

  // ---------- Attempts are claims ----------

  lemma {:induction false} AttemptsAreClaims<T, R>(s: System<T, R>, steps: seq<Step<T, R>>, id: string)
    ensures AttemptsOf(Run(s, steps).queue, id) == AttemptsOf(s.queue, id) + multiset(Claims(s, steps))[id]
    decreases |steps|
  {
    if steps != [] {
      StepOnRecord(s, steps[0], id);
      AttemptsAreClaims(Next(s, steps[0]), steps[1..], id);
      assert multiset(ClaimedBy(s, steps[0]))[id] == if ClaimedBy(s, steps[0]) == [id] then 1 else 0;
    }
  }

  lemma NoDuplicatesConcat(a: seq<string>, b: seq<string>, known: set<string>)
    requires NoDuplicates(a) && NoDuplicates(b)
    requires forall id <- a :: id in known
    requires forall id <- b :: id !in known
    ensures NoDuplicates(a + b)
  {
    forall i, j | 0 <= i < j < |a + b|
      ensures (a + b)[i] != (a + b)[j]
    {
      if i < |a| <= j {
        assert a[i] in a && b[j - |a|] in b;
      }
    }
  }

  lemma {:induction false} AcceptedAreRecords<T, R>(s: System<T, R>, steps: seq<Step<T, R>>)
    ensures Run(s, steps).queue.records.Keys == s.queue.records.Keys + set id | id in Accepted(s, steps)
    ensures forall id <- Accepted(s, steps) :: id !in s.queue.records
    ensures NoDuplicates(Accepted(s, steps))
    decreases |steps|
  {
    hide Next;
    if steps != [] {
      var s1 := Next(s, steps[0]);
      StepOnRecord(s, steps[0], "");
      AcceptedAreRecords(s1, steps[1..]);
      var first, rest := Added(s, steps[0]), Accepted(s1, steps[1..]);
      assert forall id <- first :: id in s1.queue.records.Keys;
      NoDuplicatesConcat(first, rest, s1.queue.records.Keys);
    }
  }

  lemma {:induction false} SequenceBound(ids: seq<string>, keys: set<string>)
    requires forall id :: multiset(ids)[id] <= if id in keys then MAX_ATTEMPTS else 0
    ensures |ids| <= MAX_ATTEMPTS * |keys|
    decreases keys
  {
    if keys == {} {
      assert multiset(ids) == multiset{};
      assert |ids| == |multiset(ids)|;
    } else {
      var key :| key in keys;
      var others := Without(ids, {key});
      WithoutCounts(ids, key);
      forall id
        ensures multiset(others)[id] <= if id in keys - {key} then MAX_ATTEMPTS else 0
      {
        assert multiset(ids)[id] <= if id in keys then MAX_ATTEMPTS else 0;
      }
      SequenceBound(others, keys - {key});
    }
  }

  lemma ClaimsBoundedByRecords<T, R>(s: System<T, R>, steps: seq<Step<T, R>>)
    requires Inv(Run(s, steps))
    ensures |Claims(s, steps)| <= 3 * |Run(s, steps).queue.records|
  {
    var q := Run(s, steps).queue;
    forall id
      ensures multiset(Claims(s, steps))[id] <= if id in q.records.Keys then MAX_ATTEMPTS else 0
    {
      AttemptsAreClaims(s, steps, id);
      if id in q.records {
        assert JobOk(q.records[id]);
      }
    }
    SequenceBound(Claims(s, steps), q.records.Keys);
  }

  lemma {:induction false} DistinctCount(ids: seq<string>)
    requires NoDuplicates(ids)
    ensures |set id | id in ids| == |ids|
  {
    if ids != [] {
      DistinctCount(ids[1..]);
      assert (set id | id in ids) == {ids[0]} + set id | id in ids[1..];
    }
  }

  /**
   * Draining terminates: whatever `process` does, n accepted jobs are claimed at most 3n times,
   * and each record's attempt counter is the number of its claims.
   */
  lemma ClaimsAreBounded<T, R>(steps: seq<Step<T, R>>)
    ensures |Claims(Start(), steps)| <= 3 * |Accepted(Start(), steps)|
    ensures var s := Run(Start(), steps);
            forall id <- s.queue.records :: s.queue.records[id].attempts == multiset(Claims(Start(), steps))[id]
  {
    var s := Run(Start(), steps);
    ReachableInv(steps);
    AcceptedAreRecords(Start(), steps);
    DistinctCount(Accepted(Start(), steps));
    ClaimsBoundedByRecords(Start(), steps);
    assert s.queue.records.Keys == set id | id in Accepted(Start(), steps);
    forall id <- s.queue.records
      ensures s.queue.records[id].attempts == multiset(Claims(Start(), steps))[id]
    {
      AttemptsAreClaims(Start(), steps, id);
    }
  }

  /** The steps in which the worker itself moves. */
  function WorkerSteps<T, R>(s: System<T, R>, steps: seq<Step<T, R>>): nat
    decreases |steps|
  {
    if steps == [] then 0
    else
      var moves := (steps[0].Settle? && s.control.Awaiting?) || (steps[0].Resume? && s.control.Resuming?);
      (if moves then 1 else 0) + WorkerSteps(Next(s, steps[0]), steps[1..])
  }

  function StepsOwed(control: Control): nat {
    match control
    case Idle => 0
    case Resuming => 1
    case Awaiting(_) => 2
  }

  lemma {:induction false} StepsFollowClaims<T, R>(s: System<T, R>, steps: seq<Step<T, R>>)
    ensures WorkerSteps(s, steps) + StepsOwed(Run(s, steps).control)
         == StepsOwed(s.control) + 2 * |Claims(s, steps)|
    decreases |steps|
  {
    if steps != [] {
      StepsFollowClaims(Next(s, steps[0]), steps[1..]);
    }
  }

  /**
   * A run with n accepted jobs has at most 6n worker steps, and a worker that is processing
   * always has a next one: so once every promise settles, the worker comes to rest.
   */
  lemma DrainTerminates<T, R>(steps: seq<Step<T, R>>, outcome: Outcome<R>)
    ensures WorkerSteps(Start(), steps) + StepsOwed(Run(Start(), steps).control)
         <= 6 * |Accepted(Start(), steps)|
    ensures var s := Run(Start(), steps);
            s.IsProcessing() <==> WorkerSteps(s, [Settle(outcome)]) + WorkerSteps(s, [Resume]) == 1
  {
    ClaimsAreBounded(steps);
    StepsFollowClaims(Start(), steps);
  }

  // ---------- Single flight, no lost wake-up ----------

  /** At most one record is processing: the one the worker awaits. */
  lemma SingleFlight<T, R>(steps: seq<Step<T, R>>)
    ensures var s := Run(Start(), steps);
            var processing := set id | id in s.queue.records && s.queue.records[id].status.Processing?;
            && processing == (if s.control.Awaiting? then {s.control.id} else {})
            && (!s.IsProcessing() ==> processing == {})
  {
    ReachableInv(steps);
  }

  /**
   * Whenever the worker is at rest, all work is done: nothing is pending and every record is
   * complete, quarantined, or failed after exactly three attempts. This holds in a resting
   * state if and only if no caller ever enqueued the empty id.
   */
  lemma NoLostWakeUp<T, R>(steps: seq<Step<T, R>>)
    requires !Run(Start(), steps).IsProcessing()
    ensures var q := Run(Start(), steps).queue;
            (q.pending == [] && forall id <- q.records :: q.records[id].status.Terminal())
            <==> "" !in Accepted(Start(), steps)
    ensures var q := Run(Start(), steps).queue;
            forall id <- q.records :: q.records[id].status.Failed? ==> q.records[id].attempts == 3
  {
    ReachableInv(steps);
    AcceptedAreRecords(Start(), steps);
    var q := Run(Start(), steps).queue;
    forall id <- q.records
      ensures JobOk(q.records[id])
    {
    }
  }

  function PendingIds<T, R>(q: QueueState<T, R>): set<string> {
    set id | id in q.records && q.records[id].status.Pending?
  }

  lemma ListedArePending<T, R>(q: QueueState<T, R>, inFlight: Option<string>)
    requires QueueInv(q, inFlight)
    ensures (set id | id in q.pending) + (if "" in q.records then {""} else {}) == PendingIds(q)
  {
  }

  /**
   * The numbers `size()` reports: the length of the pending list is the true number of pending
   * records, short by one exactly if an empty id was enqueued and has been dropped from the list.
   */
  lemma PendingLengthIsTrue<T, R>(steps: seq<Step<T, R>>)
    ensures var q := Run(Start(), steps).queue;
            |q.pending| == |PendingIds(q)| - if "" in q.records && "" !in q.pending then 1 else 0
    ensures |Run(Start(), steps).queue.records| == |Accepted(Start(), steps)|
  {
    var s := Run(Start(), steps);
    ReachableInv(steps);
    AcceptedAreRecords(Start(), steps);
    DistinctCount(Accepted(Start(), steps));
    DistinctCount(s.queue.pending);
    ListedArePending(s.queue, InFlight(s));
    var q, listed := s.queue, set id | id in s.queue.pending;
    assert q.records.Keys == set id | id in Accepted(Start(), steps);
    hide Inv, QueueInv, PendingIds, Run, Accepted;
    if "" in q.records && "" !in q.pending {
      assert "" !in listed && |listed + {""}| == |listed| + 1;
    } else if "" in q.records {
      assert "" in listed && listed + {""} == listed;
    }
  }

  /** The job of an empty id stays pending for ever, and the worker goes to sleep on top of it. */
  lemma EmptyIdIsLost<T, R>(data: T, steps: seq<Step<T, R>>)
    ensures var s := Next<T, R>(Start(), Step.Enqueue("", data));
            s.control == Idle && s.queue.pending == []
    ensures var s := Run<T, R>(Next(Start(), Step.Enqueue("", data)), steps);
            && "" in s.queue.records
            && s.queue.records[""].status == Pending
            && s.queue.records[""].attempts == 0
  {
    var s := Next<T, R>(Start(), Step.Enqueue("", data));
    StartInv<T, R>();
    NextInv<T, R>(Start(), Step.Enqueue("", data));
    RecordsAreKept(s, steps, "");
    RunInv(s, steps);
  }

  // ---------- Fairness ----------

  function Without(ids: seq<string>, left: set<string>): seq<string> {
    if ids == [] then []
    else (if ids[0] in left then [] else [ids[0]]) + Without(ids[1..], left)
  }

  lemma {:induction false} WithoutSnoc(ids: seq<string>, id: string, left: set<string>)
    ensures Without(ids + [id], left) == Without(ids, left) + if id in left then [] else [id]
    decreases |ids|
  {
    if ids == [] {
      assert Without([id][1..], left) == [];
    } else {
      assert (ids + [id])[1..] == ids[1..] + [id];
      WithoutSnoc(ids[1..], id, left);
    }
  }

  lemma {:induction false} WithoutAgrees(ids: seq<string>, a: set<string>, b: set<string>)
    requires forall id <- ids :: id in a <==> id in b
    ensures Without(ids, a) == Without(ids, b)
  {
    if ids != [] {
      assert ids[0] in ids;
      forall id <- ids[1..] ensures id in a <==> id in b { assert id in ids; }
      WithoutAgrees(ids[1..], a, b);
    }
  }

  lemma {:induction false} WithoutCounts(ids: seq<string>, key: string)
    ensures |Without(ids, {key})| + multiset(ids)[key] == |ids|
    ensures forall id :: multiset(Without(ids, {key}))[id] == if id == key then 0 else multiset(ids)[id]
  {
    if ids != [] {
      WithoutCounts(ids[1..], key);
      assert ids == [ids[0]] + ids[1..];
    }
  }

  /** The ids the worker will claim; an empty id is skipped over. */
  function Claimable(ids: seq<string>): seq<string> {
    Without(ids, {""})
  }

  lemma ClaimTakesFirst<T, R>(q: QueueState<T, R>)
    requires forall id <- q.pending :: id in q.records
    ensures Claimable(q.pending)
         == (match q.Claim().1 case Some(id) => [id] case None => []) + Claimable(q.Claim().0.pending)
  {
    if q.pending != [] {
      assert q.pending[0] in q.pending;
    }
  }

  lemma StepIsFair<T, R>(s: System<T, R>, step: Step<T, R>)
    requires Inv(s)
    ensures Claimable(s.queue.pending) <= ClaimedBy(s, step) + Claimable(Next(s, step).queue.pending)
  {
    hide Without;
    var q := s.queue;
    match step
    case Enqueue(id, data) =>
      if id !in q.records {
        WithoutSnoc(q.pending, id, {""});
        ClaimTakesFirst(q.Enqueue(id, data));
      }
    case Drain =>
      ClaimTakesFirst(q);
    case Settle(outcome) =>
      if s.control.Awaiting? {
        WithoutSnoc(q.pending, s.control.id, {""});
      }
    case Resume =>
      ClaimTakesFirst(q);
  }

  /**
   * First come, first served, with no requirement on the schedule: the pending list of any
   * moment, read in order, is what the worker claims next, whatever is enqueued or retried
   * meanwhile. So the id at index k is taken by exactly the (k+1)-th next claim.
   */
  lemma {:induction false} Fairness<T, R>(s: System<T, R>, steps: seq<Step<T, R>>)
    requires Inv(s)
    ensures Claimable(s.queue.pending) <= Claims(s, steps) + Claimable(Run(s, steps).queue.pending)
    ensures forall k :: 0 <= k < |Claims(s, steps)| && k < |Claimable(s.queue.pending)|
              ==> Claims(s, steps)[k] == Claimable(s.queue.pending)[k]
    decreases |steps|
  {
    if steps != [] {
      var s1 := Next(s, steps[0]);
      StepIsFair(s, steps[0]);
      NextInv(s, steps[0]);
      Fairness(s1, steps[1..]);
      PrefixChain(Claimable(s.queue.pending), ClaimedBy(s, steps[0]), Claimable(s1.queue.pending),
                  Claims(s1, steps[1..]), Claimable(Run(s, steps).queue.pending));
    }
  }

  lemma PrefixChain(p: seq<string>, c: seq<string>, p1: seq<string>, r: seq<string>, rest: seq<string>)
    requires p <= c + p1 && p1 <= r + rest
    ensures p <= (c + r) + rest
    ensures forall k :: 0 <= k < |c + r| && k < |p| ==> (c + r)[k] == p[k]
  {
    assert c + p1 <= c + (r + rest);
    assert (c + r) + rest == c + (r + rest);
  }

  // ---------- First attempts come in the order of enqueueing ----------

  function FirstSeen(ids: seq<string>): seq<string> {
    if ids == [] then []
    else
      var init, last := ids[..|ids| - 1], ids[|ids| - 1];
      FirstSeen(init) + if last in init then [] else [last]
  }

  lemma FirstSeenSnoc(ids: seq<string>, id: string)
    ensures FirstSeen(ids + [id]) == FirstSeen(ids) + if id in ids then [] else [id]
  {
    assert (ids + [id])[..|ids|] == ids;
  }

  function Tried<T, R>(q: QueueState<T, R>): set<string> {
    set id | id in q.records && q.records[id].attempts > 0
  }

  /** Pending ids the worker has not tried yet. */
  function Untried<T, R>(q: QueueState<T, R>): seq<string> {
    Without(q.pending, Tried(q) + {""})
  }

  /** Ids claimed so far by first claim, then the untried ids in line. */
  function Line<T, R>(q: QueueState<T, R>, claims: seq<string>): seq<string> {
    FirstSeen(claims) + Untried(q)
  }

  lemma ClaimUntried<T, R>(q: QueueState<T, R>)
    requires QueueInv(q, None) && q.pending != []
    ensures var id := q.pending[0];
            Untried(q) == (if id in Tried(q) + {""} then [] else [id]) + Untried(ClaimNext(q).queue)
  {
    var rest := q.pending[1..];
    assert q.pending[0] in q.pending && q.pending[0] !in rest;
    assert forall k <- rest :: k in q.pending;
    WithoutAgrees(rest, Tried(q) + {""}, Tried(ClaimNext(q).queue) + {""});
  }

  function ClaimOf<T, R>(s: System<T, R>): seq<string> {
    if s.control.Awaiting? then [s.control.id] else []
  }

  lemma ClaimKeepsLine<T, R>(q: QueueState<T, R>, claims: seq<string>)
    requires QueueInv(q, None)
    requires q.pending != [] ==> (q.pending[0] in claims <==> AttemptsOf(q, q.pending[0]) > 0)
    ensures Line(ClaimNext(q).queue, claims + ClaimOf(ClaimNext(q))) == Line(q, claims)
  {
    if q.pending == [] || q.pending[0] == "" {
      assert claims + [] == claims;
      if q.pending != [] { ClaimUntried(q); }
    } else {
      var id := q.pending[0];
      assert id in q.pending;
      assert ClaimOf(ClaimNext(q)) == [id];
      ClaimUntried(q);
      FirstSeenSnoc(claims, id);
    }
  }

  lemma EnqueueExtendsLine<T, R>(q: QueueState<T, R>, id: string, data: T, claims: seq<string>)
    requires id !in q.records
    ensures Line(q.Enqueue(id, data), claims) == Line(q, claims) + Claimable([id])
  {
    assert Tried(q.Enqueue(id, data)) == Tried(q);
    WithoutSnoc(q.pending, id, Tried(q) + {""});
    WithoutSnoc([], id, {""});
    assert [] + [id] == [id];
  }

  lemma SettleKeepsLine<T, R>(q: QueueState<T, R>, id: string, outcome: Outcome<R>, claims: seq<string>)
    requires QueueInv(q, Some(id))
    ensures Line(SettleQueue(q, id, outcome), claims) == Line(q, claims)
  {
    assert JobOk(q.records[id]);
    assert Tried(SettleQueue(q, id, outcome)) == Tried(q);
    WithoutSnoc(q.pending, id, Tried(q) + {""});
  }

  ghost predicate ClaimsAreTries<T, R>(q: QueueState<T, R>, claims: seq<string>) {
    forall id :: id in claims <==> AttemptsOf(q, id) > 0
  }

  lemma StepExtendsLine<T, R>(s: System<T, R>, step: Step<T, R>, claims: seq<string>)
    requires Inv(s) && ClaimsAreTries(s.queue, claims)
    ensures Line(Next(s, step).queue, claims + ClaimedBy(s, step))
         == Line(s.queue, claims) + Claimable(Added(s, step))
  {
    assert Claimable([]) == [];
    hide FirstSeen, Without, JobOk, NoDuplicates;
    assert claims + [] == claims;
    match step
    case Enqueue(id, data) =>
      if id !in s.queue.records {
        EnqueueExtendsLine(s.queue, id, data, claims);
        assert Added(s, step) == [id];
        if s.IsProcessing() {
          assert claims + ClaimedBy(s, step) == claims;
        } else {
          var q := s.queue.Enqueue(id, data);
          EnqueueInv(s.queue, InFlight(s), id, data);
          assert AttemptsOf(q, q.pending[0]) == AttemptsOf(s.queue, q.pending[0]);
          ClaimKeepsLine(q, claims);
        }
      }
    case Settle(outcome) =>
      if s.control.Awaiting? {
        SettleKeepsLine(s.queue, s.control.id, outcome, claims);
      }
    case Drain =>
      if s.control.Idle? {
        ClaimKeepsLine(s.queue, claims);
      }
    case Resume =>
      if s.control.Resuming? {
        ClaimKeepsLine(s.queue, claims);
      }
  }

  lemma ClaimableConcat(a: seq<string>, b: seq<string>)
    requires |b| <= 1
    ensures Claimable(a + b) == Claimable(a) + Claimable(b)
  {
    if b == [] {
      assert a + b == a;
    } else {
      assert b == [b[0]];
      WithoutSnoc(a, b[0], {""});
      WithoutSnoc([], b[0], {""});
      assert [] + b == b;
    }
  }

  /**
   * First attempts follow the order of enqueueing: the ids ever claimed, in order of their first
   * claim, followed by the untried ids still in line, are exactly the accepted (non-empty) ids.
   */
  lemma {:induction false} FirstAttemptsInOrder<T, R>(steps: seq<Step<T, R>>)
    ensures Claimable(Accepted(Start(), steps))
         == FirstSeen(Claims(Start(), steps)) + Untried(Run(Start(), steps).queue)
    decreases |steps|
  {
    if steps != [] {
      var init, last := steps[..|steps| - 1], steps[|steps| - 1];
      assert steps == init + [last];
      FirstAttemptsInOrder(init);
      RunConcat(Start(), init, [last]);
      var s := Run(Start(), init);
      ReachableInv(init);
      forall id
        ensures id in Claims(Start(), init) <==> AttemptsOf(s.queue, id) > 0
      {
        AttemptsAreClaims(Start(), init, id);
      }
      StepExtendsLine(s, last, Claims(Start(), init));
      assert Claims(s, [last]) == ClaimedBy(s, last) && Accepted(s, [last]) == Added(s, last);
      ClaimableConcat(Accepted(Start(), init), Added(s, last));
    }
  }

  // ---------- Every accepted job is announced, in order ----------

  function EnqueuedIds<R>(events: seq<QueueEvent<R>>): seq<string> {
    if events == [] then []
    else
      var last := events[|events| - 1];
      EnqueuedIds(events[..|events| - 1]) + if last.EnqueuedEvent? then [last.id] else []
  }

  lemma EnqueuedIdsSnoc<R>(events: seq<QueueEvent<R>>, event: QueueEvent<R>)
    ensures EnqueuedIds(events + [event]) == EnqueuedIds(events) + if event.EnqueuedEvent? then [event.id] else []
  {
    assert (events + [event])[..|events|] == events;
  }

  lemma StepAnnouncesAdded<T, R>(s: System<T, R>, step: Step<T, R>)
    ensures EnqueuedIds(Next(s, step).queue.emitted) == EnqueuedIds(s.queue.emitted) + Added(s, step)
  {
    hide EnqueuedIds;
    var q, q' := s.queue, Next(s, step).queue;
    if step.Enqueue? && step.id !in q.records {
      assert q'.emitted == q.emitted + [EnqueuedEvent(step.id)];
      EnqueuedIdsSnoc(q.emitted, EnqueuedEvent(step.id));
    } else if q'.emitted != q.emitted {
      var event := q'.emitted[|q.emitted|];
      assert q'.emitted == q.emitted + [event] && !event.EnqueuedEvent?;
      EnqueuedIdsSnoc(q.emitted, event);
    }
  }

  lemma {:induction false} EnqueuedEventsFrom<T, R>(s: System<T, R>, steps: seq<Step<T, R>>)
    ensures EnqueuedIds(Run(s, steps).queue.emitted) == EnqueuedIds(s.queue.emitted) + Accepted(s, steps)
    decreases |steps|
  {
    hide Next, Added, EnqueuedIds;
    if steps != [] {
      StepAnnouncesAdded(s, steps[0]);
      EnqueuedEventsFrom(Next(s, steps[0]), steps[1..]);
    }
  }

  /** The "enqueued" events of a run name exactly the accepted ids, in the order of acceptance. */
  lemma AcceptedAreAnnounced<T, R>(steps: seq<Step<T, R>>)
    ensures EnqueuedIds(Run<T, R>(Start(), steps).queue.emitted) == Accepted<T, R>(Start(), steps)
  {
    EnqueuedEventsFrom<T, R>(Start(), steps);
    assert EnqueuedIds(Start<T, R>().queue.emitted) == [];
  }

  // ---------- Every job's end is announced once ----------

  predicate Announces<R>(event: QueueEvent<R>, id: string) {
    !event.EnqueuedEvent? && event.id == id
  }

  function Announcements<R>(events: seq<QueueEvent<R>>, id: string): nat {
    if events == [] then 0
    else Announcements(events[..|events| - 1], id) + if Announces(events[|events| - 1], id) then 1 else 0
  }

  lemma AnnouncementsSnoc<R>(events: seq<QueueEvent<R>>, event: QueueEvent<R>, id: string)
    ensures Announcements(events + [event], id) == Announcements(events, id) + if Announces(event, id) then 1 else 0
  {
    assert (events + [event])[..|events|] == events;
  }

  function EndsOf<T, R>(q: QueueState<T, R>, id: string): nat {
    if id in q.records && q.records[id].status.Terminal() then 1 else 0
  }

  lemma SettleAnnounces<T, R>(q: QueueState<T, R>, key: string, outcome: Outcome<R>, id: string)
    requires QueueInv(q, Some(key))
    ensures Announcements(SettleQueue(q, key, outcome).emitted, id) - Announcements(q.emitted, id)
         == EndsOf(SettleQueue(q, key, outcome), id) - EndsOf(q, id)
  {
    var q' := SettleQueue(q, key, outcome);
    if q'.emitted != q.emitted {
      var event := q'.emitted[|q.emitted|];
      assert q'.emitted == q.emitted + [event];
      AnnouncementsSnoc(q.emitted, event, id);
    }
  }

  lemma StepAnnounces<T, R>(s: System<T, R>, step: Step<T, R>, id: string)
    requires Inv(s)
    ensures Announcements(Next(s, step).queue.emitted, id) - Announcements(s.queue.emitted, id)
         == EndsOf(Next(s, step).queue, id) - EndsOf(s.queue, id)
  {
    hide Announcements, JobOk;
    var q := s.queue;
    match step
    case Enqueue(key, data) =>
      if key !in q.records {
        AnnouncementsSnoc(q.emitted, EnqueuedEvent(key), id);
        EnqueueInv(q, InFlight(s), key, data);
        ClaimNextEnds(q.Enqueue(key, data), id);
      }
    case Drain =>
      ClaimNextEnds(q, id);
    case Settle(outcome) =>
      if s.control.Awaiting? {
        SettleAnnounces(q, s.control.id, outcome, id);
      }
    case Resume =>
      ClaimNextEnds(q, id);
  }

  lemma ClaimNextEnds<T, R>(q: QueueState<T, R>, id: string)
    ensures ClaimNext(q).queue.emitted == q.emitted
    ensures QueueInv(q, None) ==> EndsOf(ClaimNext(q).queue, id) == EndsOf(q, id)
  {
    assert q.pending != [] ==> q.pending[0] in q.pending;
  }

  /** A job's end (completed, failed or quarantined) is announced exactly once, retries never. */
  lemma {:induction false} AnnouncedExactlyOnce<T, R>(s: System<T, R>, steps: seq<Step<T, R>>, id: string)
    requires Inv(s)
    requires Announcements(s.queue.emitted, id) == EndsOf(s.queue, id)
    ensures Announcements(Run(s, steps).queue.emitted, id) == EndsOf(Run(s, steps).queue, id)
    decreases |steps|
  {
    if steps != [] {
      StepAnnounces(s, steps[0], id);
      NextInv(s, steps[0]);
      AnnouncedExactlyOnce(Next(s, steps[0]), steps[1..], id);
    }
  }

  /** What an event says still holds of the record it is about. */
  ghost predicate HoldsOf<T, R>(event: QueueEvent<R>, q: QueueState<T, R>) {
    && event.id in q.records
    && var job := q.records[event.id];
       match event
       case EnqueuedEvent(_) => true
       case CompletedEvent(_, result) => job.status.Complete? && job.result == Some(result)
       case FailedEvent(_, error) => job.status.Failed? && job.error == Some(error) && job.attempts == 3
       case QuarantinedEvent(_, error) => job.status.Quarantined? && job.error == Some(error)
  }

  lemma NewEventsHold<T, R>(s: System<T, R>, step: Step<T, R>, event: QueueEvent<R>)
    requires Inv(s)
    requires event in Next(s, step).queue.emitted && event !in s.queue.emitted
    ensures HoldsOf(event, Next(s, step).queue)
  {
    if step.Settle? {
      var q, id := s.queue, s.control.id;
      assert JobOk(q.records[id]);
      assert event == SettleQueue(q, id, step.outcome).emitted[|q.emitted|];
    }
  }

  /** What was announced stays true: every event of a run agrees with the records at its end. */
  lemma {:induction false} EventsStayTrue<T, R>(s: System<T, R>, steps: seq<Step<T, R>>)
    requires Inv(s) && forall event <- s.queue.emitted :: HoldsOf(event, s.queue)
    ensures forall event <- Run(s, steps).queue.emitted :: HoldsOf(event, Run(s, steps).queue)
    decreases |steps|
  {
    if steps != [] {
      var s1 := Next(s, steps[0]);
      NextInv(s, steps[0]);
      forall event <- s1.queue.emitted
        ensures HoldsOf(event, s1.queue)
      {
        if event in s.queue.emitted {
          assert HoldsOf(event, s.queue);
          StepOnRecord(s, steps[0], event.id);
        } else {
          NewEventsHold(s, steps[0], event);
        }
      }
      EventsStayTrue(s1, steps[1..]);
    }
  }

  // ---------- Error routing ----------

  /** Errors that mean bad data: the only ones that are never retried. */
  predicate BadData(error: WorkerError) {
    match error
    case ChainSubmissionError(code, _) => code in QUARANTINE_CODES
    case OtherError(message) => IsCircuitFailure(message)
  }

  /**
   * When an awaited run throws, the job goes back to the tail of the list exactly when the
   * error is not bad data and fewer than three attempts were made. In particular an operator
   * or re-entrancy alert is retried like a transient error, although the worker's header
   * calls it terminal.
   */
  lemma RetriedIff<T, R>(steps: seq<Step<T, R>>, error: WorkerError)
    requires Run<T, R>(Start(), steps).control.Awaiting?
    ensures var s := Run(Start(), steps);
            var s' := Next(s, Settle(Thrown(error)));
            var id := s.control.id;
            && id in s.queue.records && id in s'.queue.records
            && var attempts, status := s.queue.records[id].attempts, s'.queue.records[id].status;
               && (status.Pending? <==> !BadData(error) && attempts < 3)
               && (status.Pending? <==> s'.queue.pending == s.queue.pending + [id])
               && (status.Quarantined? <==> BadData(error))
               && (status.Failed? <==> !BadData(error) && attempts == 3)
  {
    ReachableInv(steps);
    var s := Run(Start(), steps);
    assert JobOk(s.queue.records[s.control.id]);
    assert |s.queue.pending + [s.control.id]| != |s.queue.pending|;
  }

  /** The reason kept with a job whose run threw: the chain's own code, or one of the worker's two. */
  lemma ErrorIsKept<T, R>(steps: seq<Step<T, R>>, error: WorkerError)
    requires Run<T, R>(Start(), steps).control.Awaiting?
    ensures var s := Run(Start(), steps);
            var id, kept := s.control.id, Next(s, Settle(Thrown(error))).queue.records;
            && id in kept && kept[id].error.Some? && kept[id].error.value.message == error.message
            && (error.ChainSubmissionError? ==> kept[id].error.value.code == error.code)
            && (error.OtherError? ==>
                  kept[id].error.value.code
                  == if kept[id].status.Quarantined? then "CircuitConstraintFailed" else "WorkerError")
  {
    ReachableInv(steps);
    assert "CircuitConstraintFailed"[0] != "WorkerError"[0];
  }

  /** A success is kept with its result, beside the error of an earlier attempt if there was one. */
  lemma CompletionKeepsEarlierError<T, R>(steps: seq<Step<T, R>>, result: R)
    requires Run<T, R>(Start(), steps).control.Awaiting?
    ensures var s := Run(Start(), steps);
            var id, kept := s.control.id, Next(s, Settle(Success(result))).queue.records;
            && id in s.queue.records && id in kept
            && kept[id].status.Complete? && kept[id].result == Some(result)
            && kept[id].error == s.queue.records[id].error
            && (kept[id].error.Some? <==> kept[id].attempts > 1)
  {
    ReachableInv(steps);
    var s := Run(Start(), steps);
    assert JobOk(s.queue.records[s.control.id]);
  }

  lemma AlertCodesAreNotBadData(message: string)
    ensures forall code :: code in {"AccessControlUnauthorizedAccount", "ReentrancyGuardReentrantCall"}
              ==> !BadData(ChainSubmissionError(code, message)) && code !in RETRY_CODES
  {
  }
}
