/**
 * The generic Set of the EnumerableSet library template
 * (contracts/lib/openzeppelin-contracts/scripts/generate/templates/EnumerableSet.js): an array
 * of values and the position of each value in it, plus one. Position 0 means absent, which is
 * also what an untouched or deleted slot of a Solidity mapping reads as.
 */
module EnumerableSets {
  import opened Wrappers

  /** A storage word; only its equality and the zero word matter here. */
  datatype Bytes32 = Bytes32(word: nat)

  const ZERO := Bytes32(0)

  datatype SetState = SetState(values: seq<Bytes32>, positions: map<Bytes32, nat>) {
    function Position(value: Bytes32): nat {
      if value in positions then positions[value] else 0
    }

    /** Positions are exactly the array's inverse plus one; so the array has no duplicates. */
    ghost predicate Valid() {
      && (forall i :: 0 <= i < |values| ==> values[i] in positions && positions[values[i]] == i + 1)
      && (forall v <- positions :: v in values)
    }

    /** The mathematical set the structure stands for. */
    ghost function Elements(): set<Bytes32> {
      positions.Keys
    }

    function Add(value: Bytes32): SetState {
      if Position(value) != 0 then this
      else SetState(values + [value], positions[value := |values| + 1])
    }

    /** Swap and pop: the last value takes the place of the removed one. */
    function Remove(value: Bytes32): SetState
      requires Position(value) <= |values|
    {
      var position := Position(value);
      if position == 0 then this
      else
        var last := values[|values| - 1];
        SetState(values[position - 1 := last][..|values| - 1], positions[last := position] - {value})
    }
  }

  /** The array lists the elements, each exactly once. */
  lemma ArrayListsElements(s: SetState)
    requires s.Valid()
    ensures forall v :: v in s.values <==> v in s.Elements()
    ensures |s.values| == |s.Elements()|
    ensures forall v :: multiset(s.values)[v] == if v in s.Elements() then 1 else 0
  {
    DistinctValues(s.values);
    assert s.Elements() == set v | v in s.values;
  }

  lemma {:induction false} DistinctValues(values: seq<Bytes32>)
    requires forall i, j :: 0 <= i < j < |values| ==> values[i] != values[j]
    ensures |set v | v in values| == |values|
    ensures forall v :: multiset(values)[v] == if v in values then 1 else 0
  {
    if values != [] {
      var rest := values[1..];
      DistinctValues(rest);
      assert values == [values[0]] + rest;
      assert values[0] !in rest;
      assert (set v | v in values) == {values[0]} + set v | v in rest;
      assert multiset(values) == multiset{values[0]} + multiset(rest);
    }
  }

  lemma AddRefinesSet(s: SetState, value: Bytes32)
    requires s.Valid()
    ensures s.Add(value).Valid()
    ensures s.Add(value).Elements() == s.Elements() + {value}
  {
  }

  lemma RemoveRefinesSet(s: SetState, value: Bytes32)
    requires s.Valid()
    ensures s.Remove(value).Valid()
    ensures s.Remove(value).Elements() == s.Elements() - {value}
  {
    if value in s.positions {
      var s', position, n := s.Remove(value), s.positions[value], |s.values|;
      var last := s.values[n - 1];
      assert value in s.values;
      assert s.values[position - 1] == value;
      forall i | 0 <= i < n - 1
        ensures s'.values[i] in s'.positions && s'.positions[s'.values[i]] == i + 1
      {
        assert s'.values[i] == if i == position - 1 then last else s.values[i];
      }
      forall v <- s'.positions
        ensures v in s'.values
      {
        if v == last {
          assert s'.values[position - 1] == v;
        } else {
          var i :| 0 <= i < n && s.values[i] == v;
          assert s'.values[i] == v;
        }
      }
    }
  }

  class Set {
    var values: seq<Bytes32>
    var positions: map<Bytes32, nat>

    ghost function View(): SetState
      reads this
    {
      SetState(values, positions)
    }

    ghost predicate Valid()
      reads this
    {
      View().Valid()
    }

    constructor ()
      ensures Valid() && View() == SetState([], map[])
    {
      values, positions := [], map[];
    }

    method Add(value: Bytes32) returns (added: bool)
      requires Valid()
      modifies this
      ensures Valid() && View() == old(View()).Add(value)
      ensures View().Elements() == old(View()).Elements() + {value}
      ensures added <==> View().Elements() != old(View()).Elements()
    {
      AddRefinesSet(View(), value);
      var present := Contains(value);
      if !present {
        values := values + [value];
        positions := positions[value := |values|];
        added := true;
      } else {
        added := false;
      }
    }

    method Remove(value: Bytes32) returns (removed: bool)
      requires Valid()
      modifies this
      ensures Valid() && View() == old(View()).Remove(value)
      ensures View().Elements() == old(View()).Elements() - {value}
      ensures removed <==> View().Elements() != old(View()).Elements()
    {
      ghost var before := View();
      removed := value in positions && positions[value] != 0;
      if removed {
        assert value in values;
        SwapAndPop(value);
      }
      assert View() == before.Remove(value);
      RemoveRefinesSet(before, value);
    }

    /** The body of the removal, for a value that is present. */
    method SwapAndPop(value: Bytes32)
      requires Valid() && value in positions
      requires 1 <= positions[value] <= |values| && values[positions[value] - 1] == value
      modifies this
      ensures View() == old(View()).Remove(value)
    {
      var position := positions[value];
      var valueIndex, lastIndex := position - 1, |values| - 1;
      if valueIndex != lastIndex {
        var lastValue := values[lastIndex];
        values := values[valueIndex := lastValue];
        positions := positions[lastValue := position];
      }
      values := values[..lastIndex];
      positions := positions - {value};
      assert values == old(View()).Remove(value).values;
      assert positions == old(View()).Remove(value).positions;
    }

    method Contains(value: Bytes32) returns (present: bool)
      requires Valid()
      ensures present <==> value in View().Elements()
      ensures present <==> View().Position(value) != 0
    {
      present := value in positions && positions[value] != 0;
    }

    method Length() returns (length: nat)
      requires Valid()
      ensures length == |View().Elements()|
    {
      ArrayListsElements(View());
      length := |values|;
    }

    /** Reverts past the end; otherwise enumerates the elements without repetition. */
    method At(index: nat) returns (r: Result<Bytes32, string>)
      requires Valid()
      ensures r.Err? <==> index >= |View().Elements()|
      ensures r.Ok? ==> r.value in View().Elements() && View().Position(r.value) == index + 1
    {
      ArrayListsElements(View());
      r := if index < |values| then Ok(values[index]) else Err("index out of bounds");
    }
  }

  // ---------- Any history of calls ----------

  datatype SetCall = AddCall(value: Bytes32) | RemoveCall(value: Bytes32)

  function ApplySet(s: SetState, call: SetCall): SetState
    requires s.Position(call.value) <= |s.values|
  {
    if call.AddCall? then s.Add(call.value) else s.Remove(call.value)
  }

  /** The last call about a value decides: it is in the set iff that call added it. */
  predicate LastAdded(calls: seq<SetCall>, value: Bytes32) {
    calls != [] &&
    var last := calls[|calls| - 1];
    if last.value == value then last.AddCall? else LastAdded(calls[..|calls| - 1], value)
  }

  ghost function RunSet(calls: seq<SetCall>): (s: SetState)
    ensures s.Valid()
  {
    if calls == [] then SetState([], map[])
    else
      var before := RunSet(calls[..|calls| - 1]);
      AddRefinesSet(before, calls[|calls| - 1].value);
      RemoveRefinesSet(before, calls[|calls| - 1].value);
      ApplySet(before, calls[|calls| - 1])
  }

  /** After any sequence of calls the structure holds exactly the values last added, each once. */
  lemma {:induction false} SetIsItsHistory(calls: seq<SetCall>, value: Bytes32)
    ensures value in RunSet(calls).Elements() <==> LastAdded(calls, value)
    ensures multiset(RunSet(calls).values)[value] == if LastAdded(calls, value) then 1 else 0
  {
    if calls != [] {
      var before, call := RunSet(calls[..|calls| - 1]), calls[|calls| - 1];
      SetIsItsHistory(calls[..|calls| - 1], value);
      AddRefinesSet(before, call.value);
      RemoveRefinesSet(before, call.value);
    }
    ArrayListsElements(RunSet(calls));
  }
}
