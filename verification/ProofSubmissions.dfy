/**
 * The proof-submission handler of the subgraph (subgraph/src/v3-mapping.ts): one Submission
 * entity per event, a statistic per UTC day and device, and global counters. The statistics
 * are compared with counts over the event history.
 */
module ProofSubmissions {
  import opened Wrappers
  import opened Bytes
  import opened SubgraphStore

  datatype ProofSubmitted = ProofSubmitted(
    sessionKey: seq<Byte>, deviceId: seq<Byte>, timestamp: int, gapFromPrevious: int, postDisconnection: bool,
    blockNumber: int, blockTimestamp: nat, txHash: seq<Byte>)

  // ---------- Reference: counts over the history ----------

  predicate Concerns(e: ProofSubmitted, day: nat, device: seq<Byte>) {
    day <= e.blockTimestamp < day + 86400 && e.deviceId == device
  }

  function CountFor(events: seq<ProofSubmitted>, day: nat, device: seq<Byte>, onlyPost: bool): nat {
    if events == [] then 0
    else
      var e := events[|events| - 1];
      CountFor(events[..|events| - 1], day, device, onlyPost)
      + if Concerns(e, day, device) && (onlyPost ==> e.postDisconnection) then 1 else 0
  }

  function CountPost(events: seq<ProofSubmitted>): nat {
    if events == [] then 0
    else CountPost(events[..|events| - 1]) + if events[|events| - 1].postDisconnection then 1 else 0
  }

  // ---------- The handler ----------

  function DailyId(e: ProofSubmitted): string {
    MakeDailyStatId(GetDayStartTs(e.blockTimestamp), HexId(e.deviceId))
  }

  function Handle(s: StoreState, e: ProofSubmitted): StoreState {
    var id, p := DailyId(e), s.Counters();
    var one := if e.postDisconnection then 1 else 0;
    var daily := if id in s.dailyStats then s.dailyStats[id]
                 else DailyStat(GetDayStartTs(e.blockTimestamp), e.deviceId, 0, 0);
    s.(submissions := s.submissions[HexId(e.sessionKey) :=
         Submission(e.deviceId, e.timestamp, e.blockNumber, e.blockTimestamp, e.gapFromPrevious,
                    e.postDisconnection, e.txHash)],
       dailyStats := s.dailyStats[id := daily.(submissionCount := daily.submissionCount + 1,
                                               postDisconnectionCount := daily.postDisconnectionCount + one)],
       protocol := Some(p.(totalSubmissions := p.totalSubmissions + 1,
                           totalPostDisconnections := p.totalPostDisconnections + one)))
  }

  method HandleProofSubmitted(store: Store, e: ProofSubmitted)
    modifies store
    ensures store.View() == Handle(old(store.View()), e)
  {
    var sessionKey := HexId(e.sessionKey);
    var submission := Submission(e.deviceId, e.timestamp, e.blockNumber, e.blockTimestamp, e.gapFromPrevious,
                                 e.postDisconnection, e.txHash);
    store.submissions := store.submissions[sessionKey := submission];

    var dayStartTs := GetDayStartTs(e.blockTimestamp);
    var dailyId := MakeDailyStatId(dayStartTs, HexId(e.deviceId));
    var daily := DailyStat(dayStartTs, e.deviceId, 0, 0);
    if dailyId in store.dailyStats {
      daily := store.dailyStats[dailyId];
    }
    daily := daily.(submissionCount := daily.submissionCount + 1);
    if e.postDisconnection {
      daily := daily.(postDisconnectionCount := daily.postDisconnectionCount + 1);
    }
    store.dailyStats := store.dailyStats[dailyId := daily];

    var protocol := store.LoadOrCreateProtocol();
    protocol := protocol.(totalSubmissions := protocol.totalSubmissions + 1);
    if e.postDisconnection {
      protocol := protocol.(totalPostDisconnections := protocol.totalPostDisconnections + 1);
    }
    store.protocol := Some(protocol);
  }

  function Run(events: seq<ProofSubmitted>): StoreState {
    if events == [] then EMPTY_STORE else Handle(Run(events[..|events| - 1]), events[|events| - 1])
  }

  // ---------- Every statistic counts its own day and device ----------

  /** An event updates the statistic of a day start and device exactly if it falls on that day. */
  lemma SameIdIffConcerns(e: ProofSubmitted, day: nat, device: seq<Byte>)
    requires day % 86400 == 0
    ensures DailyId(e) == MakeDailyStatId(day, HexId(device)) <==> Concerns(e, day, device)
  {
    DailyStatIdInjective(GetDayStartTs(e.blockTimestamp), e.deviceId, day, device);
    DayStart(e.blockTimestamp, day / 86400);
  }

  /**
   * For every history and every UTC day and device: the statistic exists exactly if there was
   * such an event, and its two counters are the numbers of such events.
   */
  lemma {:induction false} StatisticsCountTheirDay(events: seq<ProofSubmitted>, day: nat, device: seq<Byte>)
    requires day % 86400 == 0
    ensures var id := MakeDailyStatId(day, HexId(device));
            var stats := Run(events).dailyStats;
            && (id in stats <==> CountFor(events, day, device, false) > 0)
            && (id in stats ==> stats[id] == DailyStat(day, device, CountFor(events, day, device, false),
                                                       CountFor(events, day, device, true)))
            && (id !in stats ==> CountFor(events, day, device, true) == 0)
  {
    if events != [] {
      var init, e := events[..|events| - 1], events[|events| - 1];
      StatisticsCountTheirDay(init, day, device);
      SameIdIffConcerns(e, day, device);
      DailyStatIdInjective(GetDayStartTs(e.blockTimestamp), e.deviceId, day, device);
    }
  }

  // ---------- What an entity holds ----------

  function LastFor(events: seq<ProofSubmitted>, key: seq<Byte>): Option<ProofSubmitted> {
    if events == [] then None
    else if events[|events| - 1].sessionKey == key then Some(events[|events| - 1])
    else LastFor(events[..|events| - 1], key)
  }

  /** The Submission under a session key holds the last event with that key, field by field. */
  lemma {:induction false} SubmissionIsItsEvent(events: seq<ProofSubmitted>, key: seq<Byte>)
    ensures var submissions := Run(events).submissions;
            match LastFor(events, key)
            case None => HexId(key) !in submissions
            case Some(e) =>
              && HexId(key) in submissions
              && var s := submissions[HexId(key)];
                 && s.deviceIdBytes == e.deviceId && s.timestamp == e.timestamp
                 && s.blockNumber == e.blockNumber && s.blockTimestamp == e.blockTimestamp
                 && s.gapFromPrevious == e.gapFromPrevious && s.postDisconnection == e.postDisconnection
                 && s.txHash == e.txHash
  {
    if events != [] {
      SubmissionIsItsEvent(events[..|events| - 1], key);
      HexIdInjective(key, events[|events| - 1].sessionKey);
      hide HexId, DailyId;
    }
  }

  // ---------- Nothing is lost or counted twice ----------

  ghost function Sum(counts: map<string, int>): int {
    if counts == map[] then 0
    else
      var id :| id in counts;
      counts[id] + Sum(counts - {id})
  }

  lemma {:induction false} SumWithout(counts: map<string, int>, id: string)
    requires id in counts
    ensures Sum(counts) == counts[id] + Sum(counts - {id})
    decreases |counts|
  {
    var first :| first in counts && Sum(counts) == counts[first] + Sum(counts - {first});
    if first != id {
      SumWithout(counts - {first}, id);
      SumWithout(counts - {id}, first);
      assert counts - {first} - {id} == counts - {id} - {first};
    }
  }

  lemma SumAfterSave(counts: map<string, int>, id: string, n: int)
    ensures Sum(counts[id := n]) == Sum(counts) + n - if id in counts then counts[id] else 0
  {
    SumWithout(counts[id := n], id);
    if id in counts {
      SumWithout(counts, id);
      assert counts[id := n] - {id} == counts - {id};
    } else {
      assert counts[id := n] - {id} == counts;
    }
  }

  ghost function SubmissionCounts(stats: map<string, DailyStat>): map<string, int> {
    map id | id in stats :: stats[id].submissionCount
  }

  ghost function PostCounts(stats: map<string, DailyStat>): map<string, int> {
    map id | id in stats :: stats[id].postDisconnectionCount
  }

  lemma StepAddsUp(s: StoreState, e: ProofSubmitted)
    ensures var s' := Handle(s, e);
            && Sum(SubmissionCounts(s'.dailyStats)) == Sum(SubmissionCounts(s.dailyStats)) + 1
            && Sum(PostCounts(s'.dailyStats)) == Sum(PostCounts(s.dailyStats)) + (if e.postDisconnection then 1 else 0)
  {
    var before, after, id := s.dailyStats, Handle(s, e).dailyStats, DailyId(e);
    hide DailyId, Sum;
    assert after == before[id := after[id]];
    SumAfterSave(SubmissionCounts(before), id, after[id].submissionCount);
    SumAfterSave(PostCounts(before), id, after[id].postDisconnectionCount);
    assert SubmissionCounts(after) == SubmissionCounts(before)[id := after[id].submissionCount];
    assert PostCounts(after) == PostCounts(before)[id := after[id].postDisconnectionCount];
  }

  /** The statistics add up to the global counters, which count all events. */
  lemma {:induction false} StatisticsAddUp(events: seq<ProofSubmitted>)
    ensures var s := Run(events);
            && Sum(SubmissionCounts(s.dailyStats)) == s.Counters().totalSubmissions == |events|
            && Sum(PostCounts(s.dailyStats)) == s.Counters().totalPostDisconnections == CountPost(events)
  {
    if events == [] {
      assert SubmissionCounts(map[]) == map[] && PostCounts(map[]) == map[];
    } else {
      StatisticsAddUp(events[..|events| - 1]);
      StepAddsUp(Run(events[..|events| - 1]), events[|events| - 1]);
    }
  }

  ghost predicate DistinctSessions(events: seq<ProofSubmitted>) {
    forall i, j :: 0 <= i < j < |events| ==> events[i].sessionKey != events[j].sessionKey
  }

  function SessionKeys(events: seq<ProofSubmitted>): set<seq<Byte>> {
    if events == [] then {} else SessionKeys(events[..|events| - 1]) + {events[|events| - 1].sessionKey}
  }

  lemma {:induction false} SessionKeysListed(events: seq<ProofSubmitted>, key: seq<Byte>)
    ensures key in SessionKeys(events) <==> exists i :: 0 <= i < |events| && events[i].sessionKey == key
  {
    if events != [] {
      var init, n := events[..|events| - 1], |events| - 1;
      SessionKeysListed(init, key);
      assert forall i :: 0 <= i < n ==> init[i] == events[i];
      if key == events[n].sessionKey {
        assert events[n].sessionKey == key;
      }
    }
  }

  lemma {:induction false} DistinctIffAllCounted(events: seq<ProofSubmitted>)
    ensures |SessionKeys(events)| <= |events|
    ensures |SessionKeys(events)| == |events| <==> DistinctSessions(events)
  {
    if events != [] {
      var init, last := events[..|events| - 1], events[|events| - 1];
      DistinctIffAllCounted(init);
      SessionKeysListed(init, last.sessionKey);
      assert forall i :: 0 <= i < |init| ==> init[i] == events[i];
      assert SessionKeys(events) == SessionKeys(init) + {last.sessionKey};
      assert DistinctSessions(events) <==> DistinctSessions(init) && last.sessionKey !in SessionKeys(init);
    }
  }

  lemma {:induction false} EntitiesAreSessions(events: seq<ProofSubmitted>, key: seq<Byte>)
    ensures HexId(key) in Run(events).submissions <==> key in SessionKeys(events)
    ensures |Run(events).submissions| == |SessionKeys(events)|
  {
    if events != [] {
      var init, last := events[..|events| - 1], events[|events| - 1];
      EntitiesAreSessions(init, key);
      EntitiesAreSessions(init, last.sessionKey);
      HexIdInjective(key, last.sessionKey);
      hide HexId;
      var before, after := Run(init).submissions, Run(events).submissions;
      assert after.Keys == before.Keys + {HexId(last.sessionKey)};
      assert |after.Keys| == |after| && |before.Keys| == |before|;
      assert SessionKeys(events) == SessionKeys(init) + {last.sessionKey};
      if last.sessionKey in SessionKeys(init) {
        assert after.Keys == before.Keys && SessionKeys(events) == SessionKeys(init);
      } else {
        assert |after.Keys| == |before.Keys| + 1 && |SessionKeys(events)| == |SessionKeys(init)| + 1;
      }
    }
  }

  /** There are as many Submission entities as counted submissions exactly if no session key recurs. */
  lemma SubmissionsMatchCounterIff(events: seq<ProofSubmitted>)
    ensures |Run(events).submissions| <= Run(events).Counters().totalSubmissions
    ensures |Run(events).submissions| == Run(events).Counters().totalSubmissions <==> DistinctSessions(events)
  {
    StatisticsAddUp(events);
    EntitiesAreSessions(events, []);
    DistinctIffAllCounted(events);
  }
}
