/**
 * The pool registry's value-level operations: reading an add request, splicing a
 * pool out by position and replacing one pool's bounds.
 */
module Registry {
  import opened Wrappers
  import opened Text
  import opened Alerts

  datatype AddError = WrongLineCount | InvalidBounds

  /** The decimals every added pool gets. */
  const DefaultDecimals: int := 6

  /**
   * The pool an add request describes: four or five lines, id, name, min, max and an
   * optional invert flag; min and max must parse as numbers.
   */
  function NewPool(lines: seq<string>, parseFloat: string -> Option<real>): (r: Result<PoolConfig, AddError>)
    ensures r.Ok? <==> 4 <= |lines| <= 5 && parseFloat(lines[2]).Some? && parseFloat(lines[3]).Some?
    ensures !(4 <= |lines| <= 5) ==> r == Err(WrongLineCount)
    ensures 4 <= |lines| <= 5 && r.Err? ==> r.error == InvalidBounds
    ensures r.Ok? ==>
              && r.value.id == Trim(lines[0])
              && r.value.name == Trim(lines[1])
              && r.value.min == parseFloat(lines[2]).value
              && r.value.max == parseFloat(lines[3]).value
              && r.value.decimals0 == 6 && r.value.decimals1 == 6
              && (r.value.invert <==> |lines| == 5 && Lower(lines[4]) == "true")
  {
    if |lines| < 4 || |lines| > 5 then Err(WrongLineCount)
    else
      var min := parseFloat(lines[2]);
      var max := parseFloat(lines[3]);
      var invert := if |lines| == 5 && lines[4] != "" then IsTrueFlag(lines[4]) else false;
      if min.None? || max.None? then Err(InvalidBounds)
      else Ok(PoolConfig(Trim(lines[0]), Trim(lines[1]), min.value, max.value,
                         DefaultDecimals, DefaultDecimals, invert))
  }

  /** `pools.splice(index, 1)`: drop one pool, keeping the others in order. */
  function RemoveAt(pools: seq<PoolConfig>, index: nat): (r: seq<PoolConfig>)
    requires index < |pools|
    ensures |r| == |pools| - 1
    ensures forall k | 0 <= k < index :: r[k] == pools[k]
    ensures forall k | index <= k < |r| :: r[k] == pools[k + 1]
    ensures multiset(r) + multiset{pools[index]} == multiset(pools)
  {
    assert pools == pools[..index] + [pools[index]] + pools[index + 1..];
    pools[..index] + pools[index + 1..]
  }

  /** Removing a pool loses no id but possibly its own. */
  lemma RemoveAtIds(pools: seq<PoolConfig>, index: nat)
    requires index < |pools|
    ensures Ids(pools) == Ids(RemoveAt(pools, index)) + {pools[index].id}
  {
    var r := RemoveAt(pools, index);
    forall id | id in Ids(pools)
      ensures id in Ids(r) + {pools[index].id}
    {
      var k :| 0 <= k < |pools| && pools[k].id == id;
      if k < index {
        assert r[k] == pools[k];
      } else if k > index {
        assert r[k - 1] == pools[k];
      }
    }
    forall id | id in Ids(r)
      ensures id in Ids(pools)
    {
      var k :| 0 <= k < |r| && r[k].id == id;
      if k < index {
        assert pools[k] == r[k];
      } else {
        assert pools[k + 1] == r[k];
      }
    }
  }

  /** The edit step: pool `index` gets new bounds and keeps everything else. */
  function SetBounds(pools: seq<PoolConfig>, index: nat, min: real, max: real): (r: seq<PoolConfig>)
    requires index < |pools|
    ensures |r| == |pools|
    ensures r[index] == PoolConfig(pools[index].id, pools[index].name, min, max,
                                   pools[index].decimals0, pools[index].decimals1, pools[index].invert)
    ensures forall k | 0 <= k < |pools| && k != index :: r[k] == pools[k]
    ensures Ids(r) == Ids(pools)
  {
    var r := pools[index := pools[index].(min := min, max := max)];
    assert forall k | 0 <= k < |r| :: r[k].id == pools[k].id;
    r
  }
}
