/**
 * World state of the game state contract: one list of per-region records,
 * updated by upsert on the region id. No signature is required.
 */
module GameWorld {
  import opened Common

  datatype WorldState = WorldState(regionId: string, stateData: Bytes64, lastUpdated: nat)

  /** `position(|ws| ws.region_id == region)`: the first index holding the region. */
  function Position(worlds: seq<WorldState>, region: string): (r: Option<nat>)
    ensures r.Some? ==> r.value < |worlds| && worlds[r.value].regionId == region
    ensures r.Some? ==> forall j :: 0 <= j < r.value ==> worlds[j].regionId != region
    ensures r.None? <==> forall j :: 0 <= j < |worlds| ==> worlds[j].regionId != region
    decreases |worlds|
  {
    if |worlds| == 0 then None
    else if worlds[0].regionId == region then Some(0)
    else
      match Position(worlds[1..], region)
      case Some(k) => Some(k + 1)
      case None => None
  }

  /**
   * `update_world_state`: the record `{region, data, now}` replaces the
   * region's first record in place, or is appended when the region has
   * none. The list grows exactly when the region was absent, and every
   * other position keeps its record.
   */
  function UpdateWorldState(worlds: seq<WorldState>, env: Env, region: string, data: Bytes64): (r: seq<WorldState>)
    ensures var record := WorldState(region, data, env.now);
      && (Position(worlds, region).Some? ==>
            var i := Position(worlds, region).value;
            && |r| == |worlds|
            && r[i] == record
            && (forall j :: 0 <= j < |worlds| && j != i ==> r[j] == worlds[j]))
      && (Position(worlds, region).None? ==> |r| == |worlds| + 1 && r[..|worlds|] == worlds && r[|worlds|] == record)
  {
    var record := WorldState(region, data, env.now);
    match Position(worlds, region)
    case Some(i) => worlds[i := record]
    case None => worlds + [record]
  }

  /** No region id occurs twice. */
  predicate RegionsUnique(worlds: seq<WorldState>) {
    forall i, j :: 0 <= i < j < |worlds| ==> worlds[i].regionId != worlds[j].regionId
  }

  /** The record a reader finds for a region: the first one holding it. */
  function Lookup(worlds: seq<WorldState>, region: string): Option<WorldState> {
    match Position(worlds, region)
    case Some(i) => Some(worlds[i])
    case None => None
  }

  /**
   * The upsert behaves as a map update on region ids: the list keeps each
   * region at most once, the updated region reads back as the new record,
   * and every other region reads back as before.
   */
  lemma UpdateIsMapPut(worlds: seq<WorldState>, env: Env, region: string, data: Bytes64, other: string)
    requires RegionsUnique(worlds)
    requires other != region
    ensures var r := UpdateWorldState(worlds, env, region, data);
      && RegionsUnique(r)
      && Lookup(r, region) == Some(WorldState(region, data, env.now))
      && Lookup(r, other) == Lookup(worlds, other)
  {
    UpdateKeepsUnique(worlds, env, region, data);
    UpdateReadsBack(worlds, env, region, data);
    UpdateKeepsOthers(worlds, env, region, data, other);
  }

  /** The upsert never puts a region id into the list twice. */
  lemma UpdateKeepsUnique(worlds: seq<WorldState>, env: Env, region: string, data: Bytes64)
    requires RegionsUnique(worlds)
    ensures RegionsUnique(UpdateWorldState(worlds, env, region, data))
  {
    var r := UpdateWorldState(worlds, env, region, data);
    var p := Position(worlds, region);
    forall i, j | 0 <= i < j < |r| ensures r[i].regionId != r[j].regionId {
      if p.Some? {
        if i != p.value && j != p.value {
          assert r[i] == worlds[i] && r[j] == worlds[j];
        } else if i == p.value {
          assert r[j] == worlds[j];
        } else {
          assert r[i] == worlds[i];
        }
      } else if j < |worlds| {
        assert r[i] == worlds[i] && r[j] == worlds[j];
      } else {
        assert r[i] == worlds[i];
      }
    }
  }

  /** After the upsert the region reads back as the new record. */
  lemma UpdateReadsBack(worlds: seq<WorldState>, env: Env, region: string, data: Bytes64)
    ensures Lookup(UpdateWorldState(worlds, env, region, data), region) == Some(WorldState(region, data, env.now))
  {
    var r := UpdateWorldState(worlds, env, region, data);
    var p := Position(worlds, region);
    var i := if p.Some? then p.value else |worlds|;
    assert r[i].regionId == region;
    forall j | 0 <= j < i ensures r[j].regionId != region {
      assert r[j] == worlds[j];
    }
    PositionIsFirst(r, region, i);
  }

  /** The first index holding a region is what `Position` finds. */
  lemma PositionIsFirst(worlds: seq<WorldState>, region: string, i: nat)
    requires i < |worlds| && worlds[i].regionId == region
    requires forall j :: 0 <= j < i ==> worlds[j].regionId != region
    ensures Position(worlds, region) == Some(i)
  {
    var q := Position(worlds, region);
    assert q.Some?;
  }

  /** The upsert leaves every other region's record where a reader finds it. */
  lemma UpdateKeepsOthers(worlds: seq<WorldState>, env: Env, region: string, data: Bytes64, other: string)
    requires other != region
    ensures Lookup(UpdateWorldState(worlds, env, region, data), other) == Lookup(worlds, other)
  {
    var r := UpdateWorldState(worlds, env, region, data);
    var q := Position(worlds, other);
    if q.Some? {
      forall j | 0 <= j < q.value ensures r[j].regionId != other {
        assert r[j] == worlds[j] || r[j].regionId == region;
      }
      assert r[q.value] == worlds[q.value];
      PositionIsFirst(r, other, q.value);
    } else {
      forall j | 0 <= j < |r| ensures r[j].regionId != other {
        if j < |worlds| {
          assert r[j] == worlds[j] || r[j].regionId == region;
        }
      }
    }
  }
}
