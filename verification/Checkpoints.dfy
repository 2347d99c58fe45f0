/**
 * One instance of the Checkpoints library template
 * (contracts/lib/openzeppelin-contracts/scripts/generate/templates/Checkpoints.js).
 *
 * A history is the sequence of all pushes ever attempted. The lookups are proved against
 * reference answers read off that history, which know nothing of the stored array.
 */
module Checkpoints {
  import opened Wrappers
  import Bytes
  import SolidityMath

  datatype Checkpoint = Checkpoint(key: nat, value: nat)

  // ---------- Reference: answers read off a history of pushes ----------

  /** The key of the last accepted push; every key is accepted while there is none. */
  function LastKey(accepted: seq<Checkpoint>): Option<nat> {
    if accepted == [] then None else Some(accepted[|accepted| - 1].key)
  }

  /** A push is accepted unless its key lies before the last accepted one. */
  function Accepted(history: seq<Checkpoint>): seq<Checkpoint> {
    if history == [] then []
    else
      var before, push := Accepted(history[..|history| - 1]), history[|history| - 1];
      if LastKey(before).Some? && push.key < LastKey(before).value then before else before + [push]
  }

  /** The value of the last push whose key is at most `key`, or 0. */
  function LastAtMost(pushes: seq<Checkpoint>, key: nat): nat {
    if pushes == [] then 0
    else
      var push := pushes[|pushes| - 1];
      if push.key <= key then push.value else LastAtMost(pushes[..|pushes| - 1], key)
  }

  /** The smallest pushed key that is at least `key`. */
  function LeastKeyFrom(pushes: seq<Checkpoint>, key: nat): Option<nat> {
    if pushes == [] then None
    else
      var rest := LeastKeyFrom(pushes[..|pushes| - 1], key);
      var last := pushes[|pushes| - 1].key;
      if key <= last && (rest.None? || last < rest.value) then Some(last) else rest
  }

  /** The value of the last push made under exactly this key. */
  function FinalValue(pushes: seq<Checkpoint>, key: nat): nat {
    if pushes == [] then 0
    else
      var push := pushes[|pushes| - 1];
      if push.key == key then push.value else FinalValue(pushes[..|pushes| - 1], key)
  }

  function FirstAtLeast(pushes: seq<Checkpoint>, key: nat): nat {
    match LeastKeyFrom(pushes, key)
    case None => 0
    case Some(k) => FinalValue(pushes, k)
  }

  // ---------- What the stored array becomes ----------

  /** `_insert` on the value of the array: None where the source reverts. */
  function Insert(ckpts: seq<Checkpoint>, key: nat, value: nat): Option<seq<Checkpoint>> {
    var n := |ckpts|;
    if n > 0 && key < ckpts[n - 1].key then None
    else if n > 0 && key == ckpts[n - 1].key then Some(ckpts[n - 1 := Checkpoint(key, value)])
    else Some(ckpts + [Checkpoint(key, value)])
  }

  function Stored(history: seq<Checkpoint>): seq<Checkpoint> {
    if history == [] then []
    else
      var before, push := Stored(history[..|history| - 1]), history[|history| - 1];
      match Insert(before, push.key, push.value)
      case None => before
      case Some(after) => after
  }

  ghost predicate StrictlyIncreasing(ckpts: seq<Checkpoint>) {
    forall i, j :: 0 <= i < j < |ckpts| ==> ckpts[i].key < ckpts[j].key
  }

  ghost predicate UpperBound(ckpts: seq<Checkpoint>, key: nat, pos: nat) {
    && pos <= |ckpts|
    && (forall i :: 0 <= i < pos ==> ckpts[i].key <= key)
    && (forall i :: pos <= i < |ckpts| ==> key < ckpts[i].key)
  }

  ghost predicate LowerBound(ckpts: seq<Checkpoint>, key: nat, pos: nat) {
    && pos <= |ckpts|
    && (forall i :: 0 <= i < pos ==> ckpts[i].key < key)
    && (forall i :: pos <= i < |ckpts| ==> key <= ckpts[i].key)
  }

  /** The first index of a section [low, high) whose key is greater, or its end. */
  ghost predicate FirstGreater(ckpts: seq<Checkpoint>, key: nat, low: nat, high: nat, pos: nat) {
    && low <= pos <= high <= |ckpts|
    && (forall i :: low <= i < pos ==> ckpts[i].key <= key)
    && (forall i :: pos <= i < high ==> key < ckpts[i].key)
  }

  /** The first index of a section [low, high) whose key is not smaller, or its end. */
  ghost predicate FirstNotSmaller(ckpts: seq<Checkpoint>, key: nat, low: nat, high: nat, pos: nat) {
    && low <= pos <= high <= |ckpts|
    && (forall i :: low <= i < pos ==> ckpts[i].key < key)
    && (forall i :: pos <= i < high ==> key <= ckpts[i].key)
  }

  /** As documented for `_upperBinaryLookup`: the last index whose key is not greater, or the section's end. */
  ghost predicate LastNotGreater(ckpts: seq<Checkpoint>, key: nat, low: nat, high: nat, pos: nat)
    requires low <= high <= |ckpts|
  {
    if exists i :: low <= i < high && ckpts[i].key <= key then
      && low <= pos < high && ckpts[pos].key <= key
      && forall i :: pos < i < high ==> key < ckpts[i].key
    else pos == high
  }

  /** The documented index is the returned one exactly on an empty section. */
  lemma UpperDocumentedIff(ckpts: seq<Checkpoint>, key: nat, low: nat, high: nat, pos: nat)
    requires FirstGreater(ckpts, key, low, high, pos)
    ensures LastNotGreater(ckpts, key, low, high, pos) <==> low == high
    ensures low < pos ==> LastNotGreater(ckpts, key, low, high, pos - 1)
  {
    if pos > low {
      assert ckpts[pos - 1].key <= key;
    }
  }

  /** One checkpoint suffices: asked for its own key, the search returns 1, not the documented 0. */
  lemma UpperDocumentationFails(key: nat, value: nat)
    ensures var ckpts := [Checkpoint(key, value)];
            && StrictlyIncreasing(ckpts) && FirstGreater(ckpts, key, 0, 1, 1)
            && LastNotGreater(ckpts, key, 0, 1, 0) && !LastNotGreater(ckpts, key, 0, 1, 1)
  {
    UpperDocumentedIff([Checkpoint(key, value)], key, 0, 1, 1);
  }

  lemma InsertKeepsSorted(ckpts: seq<Checkpoint>, key: nat, value: nat)
    requires StrictlyIncreasing(ckpts)
    ensures match Insert(ckpts, key, value)
            case None => ckpts != [] && key < ckpts[|ckpts| - 1].key
            case Some(after) => StrictlyIncreasing(after) && LastKey(after) == Some(key)
  {
  }

  /** Keys of the stored array stay strictly increasing, and its last key is the last accepted one. */
  lemma {:induction false} StoredIsSorted(history: seq<Checkpoint>)
    ensures StrictlyIncreasing(Stored(history))
    ensures LastKey(Stored(history)) == LastKey(Accepted(history))
  {
    if history != [] {
      var before, push := history[..|history| - 1], history[|history| - 1];
      StoredIsSorted(before);
      InsertKeepsSorted(Stored(before), push.key, push.value);
    }
  }

  datatype Effect = Rejected | Overwrote | Appended

  /** What the last push of a history did to the array and to the accepted pushes. */
  lemma LastPush(history: seq<Checkpoint>) returns (effect: Effect)
    requires history != []
    ensures var before, push := history[..|history| - 1], history[|history| - 1];
            var ckpts, n := Stored(before), |Stored(before)|;
            && StrictlyIncreasing(ckpts)
            && match effect
               case Rejected => Stored(history) == ckpts && Accepted(history) == Accepted(before)
               case Overwrote =>
                 && n > 0 && ckpts[n - 1].key == push.key
                 && Stored(history) == ckpts[n - 1 := push] && Accepted(history) == Accepted(before) + [push]
               case Appended =>
                 && (forall i :: 0 <= i < n ==> ckpts[i].key < push.key)
                 && Stored(history) == ckpts + [push] && Accepted(history) == Accepted(before) + [push]
  {
    var before, push := history[..|history| - 1], history[|history| - 1];
    StoredIsSorted(before);
    var last := LastKey(Stored(before));
    effect := if last.None? || last.value < push.key then Appended
              else if last.value == push.key then Overwrote else Rejected;
  }

  // ---------- The two descriptions agree on any history ----------

  /** A search position in the array after a push, carried back to the array before it. */
  function Before(ckpts: seq<Checkpoint>, pos: nat): nat {
    if pos > |ckpts| then |ckpts| else pos
  }

  lemma BoundsBeforeOverwrite(ckpts: seq<Checkpoint>, push: Checkpoint, key: nat, pos: nat)
    requires ckpts != [] && ckpts[|ckpts| - 1].key == push.key
    ensures UpperBound(ckpts[|ckpts| - 1 := push], key, pos) ==> UpperBound(ckpts, key, pos)
    ensures LowerBound(ckpts[|ckpts| - 1 := push], key, pos) ==> LowerBound(ckpts, key, pos)
  {
    var after := ckpts[|ckpts| - 1 := push];
    assert forall i :: 0 <= i < |ckpts| ==> after[i].key == ckpts[i].key;
  }

  lemma BoundsBeforeAppend(ckpts: seq<Checkpoint>, push: Checkpoint, key: nat, pos: nat)
    ensures UpperBound(ckpts + [push], key, pos) ==> UpperBound(ckpts, key, Before(ckpts, pos))
    ensures LowerBound(ckpts + [push], key, pos) ==> LowerBound(ckpts, key, Before(ckpts, pos))
  {
    assert forall i :: 0 <= i < |ckpts| ==> (ckpts + [push])[i] == ckpts[i];
  }

  ghost predicate UpperAnswer(pushes: seq<Checkpoint>, ckpts: seq<Checkpoint>, key: nat, pos: nat)
    requires pos <= |ckpts|
  {
    LastAtMost(pushes, key) == if pos == 0 then 0 else ckpts[pos - 1].value
  }

  lemma UpperAfterPush(pushes: seq<Checkpoint>, ckpts: seq<Checkpoint>, push: Checkpoint, key: nat, pos: nat)
    requires UpperBound(ckpts, key, pos) && UpperAnswer(pushes, ckpts, key, pos)
    ensures |ckpts| > 0 && ckpts[|ckpts| - 1].key == push.key ==>
              UpperAnswer(pushes + [push], ckpts[|ckpts| - 1 := push], key, pos)
    ensures (forall i :: 0 <= i < |ckpts| ==> ckpts[i].key < push.key) ==>
              UpperAnswer(pushes + [push], ckpts + [push], key, if push.key <= key then |ckpts| + 1 else pos)
  {
    assert (pushes + [push])[..|pushes|] == pushes;
  }

  lemma {:induction false} UpperAgrees(history: seq<Checkpoint>, key: nat, pos: nat)
    requires UpperBound(Stored(history), key, pos)
    ensures UpperAnswer(Accepted(history), Stored(history), key, pos)
  {
    if history != [] {
      var before, push := history[..|history| - 1], history[|history| - 1];
      var ckpts := Stored(before);
      var effect := LastPush(history);
      match effect {
        case Rejected =>
          UpperAgrees(before, key, pos);
        case Overwrote =>
          BoundsBeforeOverwrite(ckpts, push, key, pos);
          UpperAgrees(before, key, pos);
          UpperAfterPush(Accepted(before), ckpts, push, key, pos);
        case Appended =>
          BoundsBeforeAppend(ckpts, push, key, pos);
          UpperAgrees(before, key, Before(ckpts, pos));
          UpperAfterPush(Accepted(before), ckpts, push, key, Before(ckpts, pos));
          assert (ckpts + [push])[|ckpts|] == push;
      }
    }
  }

  ghost predicate LowerAnswer(pushes: seq<Checkpoint>, ckpts: seq<Checkpoint>, key: nat, pos: nat)
    requires pos <= |ckpts|
  {
    if pos == |ckpts| then LeastKeyFrom(pushes, key) == None
    else
      && LeastKeyFrom(pushes, key) == Some(ckpts[pos].key)
      && FinalValue(pushes, ckpts[pos].key) == ckpts[pos].value
  }

  lemma LowerAfterPush(pushes: seq<Checkpoint>, ckpts: seq<Checkpoint>, push: Checkpoint, key: nat, pos: nat)
    requires StrictlyIncreasing(ckpts)
    requires LowerBound(ckpts, key, pos) && LowerAnswer(pushes, ckpts, key, pos)
    ensures |ckpts| > 0 && ckpts[|ckpts| - 1].key == push.key ==>
              LowerAnswer(pushes + [push], ckpts[|ckpts| - 1 := push], key, pos)
    ensures (forall i :: 0 <= i < |ckpts| ==> ckpts[i].key < push.key) ==>
              LowerAnswer(pushes + [push], ckpts + [push], key,
                          if pos == |ckpts| && push.key < key then pos + 1 else pos)
  {
    assert (pushes + [push])[..|pushes|] == pushes;
  }

  lemma {:induction false} LowerAgrees(history: seq<Checkpoint>, key: nat, pos: nat)
    requires LowerBound(Stored(history), key, pos)
    ensures LowerAnswer(Accepted(history), Stored(history), key, pos)
  {
    if history != [] {
      var before, push := history[..|history| - 1], history[|history| - 1];
      var ckpts := Stored(before);
      var effect := LastPush(history);
      match effect {
        case Rejected =>
          LowerAgrees(before, key, pos);
        case Overwrote =>
          BoundsBeforeOverwrite(ckpts, push, key, pos);
          LowerAgrees(before, key, pos);
          LowerAfterPush(Accepted(before), ckpts, push, key, pos);
        case Appended =>
          BoundsBeforeAppend(ckpts, push, key, pos);
          LowerAgrees(before, key, Before(ckpts, pos));
          LowerAfterPush(Accepted(before), ckpts, push, key, Before(ckpts, pos));
          assert (ckpts + [push])[|ckpts|] == push;
      }
    }
  }

  /** Later pushes, accepted or not, never change an answer about keys before the last accepted one. */
  lemma {:induction false} PastIsImmutable(history: seq<Checkpoint>, later: seq<Checkpoint>, key: nat)
    requires LastKey(Accepted(history)).Some? && key < LastKey(Accepted(history)).value
    ensures LastAtMost(Accepted(history + later), key) == LastAtMost(Accepted(history), key)
    ensures LastKey(Accepted(history + later)).Some? && key < LastKey(Accepted(history + later)).value
    decreases |later|
  {
    if later == [] {
      assert history + later == history;
    } else {
      var init, push := later[..|later| - 1], later[|later| - 1];
      PastIsImmutable(history, init, key);
      assert (history + later)[..|history + later| - 1] == history + init;
      var before := Accepted(history + init);
      assert (before + [push])[..|before|] == before;
    }
  }

  class Trace {
    var checkpoints: seq<Checkpoint>
    /** Every push ever attempted on this trace. */
    ghost var history: seq<Checkpoint>

    ghost predicate Valid()
      reads this
    {
      checkpoints == Stored(history)
    }

    constructor ()
      ensures Valid() && history == []
    {
      checkpoints, history := [], [];
    }

    /** Reverts exactly on keys before the last accepted one; else returns the previous and the new value. */
    method Push(key: nat, value: nat) returns (r: Result<(nat, nat), string>)
      requires Valid()
      modifies this
      ensures Valid() && history == old(history) + [Checkpoint(key, value)]
      ensures r.Err? <==> LastKey(Accepted(old(history))).Some? && key < LastKey(Accepted(old(history))).value
      ensures r.Err? ==> checkpoints == old(checkpoints)
      ensures r.Ok? ==> Accepted(history) == Accepted(old(history)) + [Checkpoint(key, value)]
      ensures r.Ok? ==> r.value == (LatestOf(Accepted(old(history))), value)
    {
      StoredIsSorted(history);
      LatestAgrees(history);
      ghost var before := history;
      history := history + [Checkpoint(key, value)];
      assert history[..|before|] == before;
      var pos := |checkpoints|;
      if pos > 0 {
        var last := checkpoints[pos - 1];
        if last.key > key {
          return Err("CheckpointUnorderedInsertion");
        }
        if last.key == key {
          checkpoints := checkpoints[pos - 1 := last.(value := value)];
        } else {
          checkpoints := checkpoints + [Checkpoint(key, value)];
        }
        return Ok((last.value, value));
      } else {
        checkpoints := checkpoints + [Checkpoint(key, value)];
        return Ok((0, value));
      }
    }

    /** The answer is the value of the last accepted push under the smallest key at or after `key`. */
    method LowerLookup(key: nat) returns (value: nat)
      requires Valid()
      ensures value == FirstAtLeast(Accepted(history), key)
    {
      StoredIsSorted(history);
      var len := |checkpoints|;
      var pos := LowerBinaryLookup(key, 0, len);
      LowerAgrees(history, key, pos);
      value := if pos == len then 0 else checkpoints[pos].value;
    }

    /** The answer is the value of the last accepted push with a key at or before `key`. */
    method UpperLookup(key: nat) returns (value: nat)
      requires Valid()
      ensures value == LastAtMost(Accepted(history), key)
    {
      StoredIsSorted(history);
      var len := |checkpoints|;
      var pos := UpperBinaryLookup(key, 0, len);
      UpperAgrees(history, key, pos);
      value := if pos == 0 then 0 else checkpoints[pos - 1].value;
    }

    /** The split leaves aside only what cannot hold the answer; an array's length is a 256-bit number. */
    method UpperLookupRecent(key: nat) returns (value: nat)
      requires Valid() && |checkpoints| < Bytes.TWO_256
      ensures value == LastAtMost(Accepted(history), key)
    {
      StoredIsSorted(history);
      var len := |checkpoints|;
      var low, high := 0, len;
      if len > 5 {
        var root := SolidityMath.Sqrt(len);
        RootInside(len, root);
        var mid := len - root;
        if key < checkpoints[mid].key {
          high := mid;
        } else {
          low := mid + 1;
        }
      }
      var pos := UpperBinaryLookup(key, low, high);
      UpperAgrees(history, key, pos);
      value := if pos == 0 then 0 else checkpoints[pos - 1].value;
    }

    method Latest() returns (value: nat)
      requires Valid()
      ensures value == LatestOf(Accepted(history))
    {
      LatestAgrees(history);
      var pos := |checkpoints|;
      value := if pos == 0 then 0 else checkpoints[pos - 1].value;
    }

    /** The first index of the section whose key is greater, or `high`; for any section of the array. */
    method UpperBinaryLookup(key: nat, low0: nat, high0: nat) returns (pos: nat)
      requires StrictlyIncreasing(checkpoints) && high0 <= |checkpoints|
      ensures if low0 <= high0 then FirstGreater(checkpoints, key, low0, high0, pos) else pos == high0
    {
      hide StrictlyIncreasing, SolidityMath.Average;
      var low: nat, high: nat := low0, high0;
      while low < high
        invariant low0 <= low && high <= high0 && (low <= high || (low == low0 && high == high0))
        invariant forall i :: low0 <= i < low ==> checkpoints[i].key <= key
        invariant forall i :: high <= i < high0 ==> key < checkpoints[i].key
      {
        var mid := SolidityMath.Average(low, high);
        KeysAround(checkpoints, mid);
        if checkpoints[mid].key > key {
          high := mid;
        } else {
          low := mid + 1;
        }
      }
      return high;
    }

    /** The first index of the section whose key is not smaller, or `high`, as documented. */
    method LowerBinaryLookup(key: nat, low0: nat, high0: nat) returns (pos: nat)
      requires StrictlyIncreasing(checkpoints) && high0 <= |checkpoints|
      ensures if low0 <= high0 then FirstNotSmaller(checkpoints, key, low0, high0, pos) else pos == high0
    {
      hide StrictlyIncreasing, SolidityMath.Average;
      var low: nat, high: nat := low0, high0;
      while low < high
        invariant low0 <= low && high <= high0 && (low <= high || (low == low0 && high == high0))
        invariant forall i :: low0 <= i < low ==> checkpoints[i].key < key
        invariant forall i :: high <= i < high0 ==> key <= checkpoints[i].key
      {
        var mid := SolidityMath.Average(low, high);
        KeysAround(checkpoints, mid);
        if checkpoints[mid].key < key {
          low := mid + 1;
        } else {
          high := mid;
        }
      }
      return high;
    }
  }

  lemma KeysAround(ckpts: seq<Checkpoint>, mid: nat)
    requires StrictlyIncreasing(ckpts) && mid < |ckpts|
    ensures forall i :: 0 <= i < mid ==> ckpts[i].key < ckpts[mid].key
    ensures forall i :: mid < i < |ckpts| ==> ckpts[mid].key < ckpts[i].key
  {
  }

  lemma RootInside(n: nat, root: nat)
    requires n > 0 && root * root <= n < (root + 1) * (root + 1)
    ensures 1 <= root <= n
  {
    assert (n + 1) * (n + 1) > n;
    SolidityMath.SquaresOrder(n + 1, root);
  }

  function LatestOf(pushes: seq<Checkpoint>): nat {
    if pushes == [] then 0 else pushes[|pushes| - 1].value
  }

  lemma {:induction false} LatestAgrees(history: seq<Checkpoint>)
    ensures LatestOf(Stored(history)) == LatestOf(Accepted(history))
  {
    if history != [] {
      StoredIsSorted(history);
      StoredIsSorted(history[..|history| - 1]);
      LatestAgrees(history[..|history| - 1]);
    }
  }
}
