/**
 * The generic Bytes32ToBytes32Map of the EnumerableMap library template
 * (contracts/lib/openzeppelin-contracts/scripts/generate/templates/EnumerableMap.js): an
 * enumerable set of keys beside a mapping of values. `tryGet` and `get` look at the value
 * first and ask the key set only when it is zero, which is right only because a value is
 * never left behind outside the key set.
 */
module EnumerableMaps {
  import opened Wrappers
  import opened EnumerableSets

  datatype MapState = MapState(keys: SetState, values: map<Bytes32, Bytes32>) {
    /** A slot of a Solidity mapping reads as zero until written. */
    function Slot(key: Bytes32): Bytes32 {
      if key in values then values[key] else ZERO
    }

    ghost predicate Valid() {
      && keys.Valid()
      && forall k :: k !in keys.Elements() ==> Slot(k) == ZERO
    }

    /** The plain map the structure stands for. */
    ghost function Contents(): map<Bytes32, Bytes32> {
      map k | k in keys.Elements() :: Slot(k)
    }

    function Set(key: Bytes32, value: Bytes32): MapState {
      MapState(keys.Add(key), values[key := value])
    }

    function Remove(key: Bytes32): MapState
      requires keys.Position(key) <= |keys.values|
    {
      MapState(keys.Remove(key), values - {key})
    }
  }

  lemma SetRefinesMap(m: MapState, key: Bytes32, value: Bytes32)
    requires m.Valid()
    ensures m.Set(key, value).Valid()
    ensures m.Set(key, value).Contents() == m.Contents()[key := value]
  {
    AddRefinesSet(m.keys, key);
    SlotsAfterSet(m, key, value);
    var m' := m.Set(key, value);
    assert m'.keys.Elements() == m.keys.Elements() + {key};
    hide SetState.Valid, SetState.Elements, SetState.Add, MapState.Slot, MapState.Set;
    assert m'.Valid();
    assert m'.Contents().Keys == m.Contents().Keys + {key};
  }

  lemma SlotsAfterSet(m: MapState, key: Bytes32, value: Bytes32)
    ensures forall k :: m.Set(key, value).Slot(k) == if k == key then value else m.Slot(k)
    ensures m.Set(key, value).keys == m.keys.Add(key)
  {
  }

  lemma RemoveRefinesMap(m: MapState, key: Bytes32)
    requires m.Valid()
    ensures m.Remove(key).Valid()
    ensures m.Remove(key).Contents() == m.Contents() - {key}
  {
    RemoveRefinesSet(m.keys, key);
  }

  class EnumerableMap {
    const keys: Set
    var values: map<Bytes32, Bytes32>

    ghost function View(): MapState
      reads this, keys
    {
      MapState(keys.View(), values)
    }

    ghost predicate Valid()
      reads this, keys
    {
      View().Valid()
    }

    ghost function Contents(): map<Bytes32, Bytes32>
      reads this, keys
    {
      View().Contents()
    }

    constructor ()
      ensures Valid() && Contents() == map[] && View() == MapState(SetState([], map[]), map[]) && fresh(keys)
    {
      keys := new Set();
      values := map[];
    }

    method Put(key: Bytes32, value: Bytes32) returns (added: bool)
      requires Valid()
      modifies this, keys
      ensures Valid() && View() == old(View()).Set(key, value)
      ensures Contents() == old(Contents())[key := value]
      ensures added <==> key !in old(Contents())
    {
      SetRefinesMap(View(), key, value);
      values := values[key := value];
      added := keys.Add(key);
    }

    method Remove(key: Bytes32) returns (removed: bool)
      requires Valid()
      modifies this, keys
      ensures Valid() && View() == old(View()).Remove(key)
      ensures Contents() == old(Contents()) - {key}
      ensures removed <==> key in old(Contents())
    {
      RemoveRefinesMap(View(), key);
      values := values - {key};
      removed := keys.Remove(key);
    }

    method Contains(key: Bytes32) returns (present: bool)
      requires Valid()
      ensures present <==> key in Contents()
    {
      present := keys.Contains(key);
    }

    method Length() returns (length: nat)
      requires Valid()
      ensures length == |Contents()|
    {
      length := keys.Length();
      assert Contents().Keys == View().keys.Elements();
    }

    /** Reverts past the end; otherwise an entry of the map, a different one at each index. */
    method At(index: nat) returns (r: Result<(Bytes32, Bytes32), string>)
      requires Valid()
      ensures r.Err? <==> index >= |Contents()|
      ensures r.Ok? ==> r.value.0 in Contents() && r.value.1 == Contents()[r.value.0]
      ensures r.Ok? ==> View().keys.Position(r.value.0) == index + 1
    {
      assert Contents().Keys == View().keys.Elements();
      var key := keys.At(index);
      match key {
        case Err(e) => r := Err(e);
        case Ok(k) => r := Ok((k, if k in values then values[k] else ZERO));
      }
    }

    /** The shortcut on the value is right: present keys with a zero value included. */
    method TryGet(key: Bytes32) returns (present: bool, value: Bytes32)
      requires Valid()
      ensures present <==> key in Contents()
      ensures value == if key in Contents() then Contents()[key] else ZERO
    {
      value := if key in values then values[key] else ZERO;
      if value == ZERO {
        present := Contains(key);
      } else {
        present := true;
      }
    }

    /** Reverts exactly on absent keys. */
    method Get(key: Bytes32) returns (r: Result<Bytes32, string>)
      requires Valid()
      ensures r == if key in Contents() then Ok(Contents()[key]) else Err("EnumerableMapNonexistentKey")
    {
      var value := if key in values then values[key] else ZERO;
      var present := Contains(key);
      if value == ZERO && !present {
        return Err("EnumerableMapNonexistentKey");
      }
      r := Ok(value);
    }

    method Keys() returns (listed: seq<Bytes32>)
      requires Valid()
      ensures |listed| == |Contents()|
      ensures forall k :: multiset(listed)[k] == if k in Contents() then 1 else 0
    {
      ArrayListsElements(View().keys);
      assert Contents().Keys == View().keys.Elements();
      listed := keys.values;
    }
  }

  // ---------- Any history of calls ----------

  datatype MapCall = SetCall(key: Bytes32, value: Bytes32) | RemoveCall(key: Bytes32)

  /** The last call about a key decides: its value if that call set it, absent otherwise. */
  function LastSet(calls: seq<MapCall>, key: Bytes32): Option<Bytes32> {
    if calls == [] then None
    else
      var last := calls[|calls| - 1];
      if last.key != key then LastSet(calls[..|calls| - 1], key)
      else if last.SetCall? then Some(last.value)
      else None
  }

  ghost function RunMap(calls: seq<MapCall>): (m: MapState)
    ensures m.Valid()
  {
    if calls == [] then MapState(SetState([], map[]), map[])
    else
      var before, call := RunMap(calls[..|calls| - 1]), calls[|calls| - 1];
      RemoveRefinesMap(before, call.key);
      match call
      case SetCall(key, value) =>
        SetRefinesMap(before, key, value);
        before.Set(key, value)
      case RemoveCall(key) =>
        before.Remove(key)
  }

  /** After any sequence of calls a key holds exactly what was last set under it, a zero value too. */
  lemma {:induction false} MapIsItsHistory(calls: seq<MapCall>, key: Bytes32)
    ensures var contents := RunMap(calls).Contents();
            LastSet(calls, key) == if key in contents then Some(contents[key]) else None
    ensures LastSet(calls, key) == None ==> RunMap(calls).Slot(key) == ZERO
  {
    if calls != [] {
      var before, call := RunMap(calls[..|calls| - 1]), calls[|calls| - 1];
      MapIsItsHistory(calls[..|calls| - 1], key);
      RemoveRefinesMap(before, call.key);
      if call.SetCall? {
        SetRefinesMap(before, call.key, call.value);
      }
    }
  }
}
