/**
 * The game asset registry: assets keyed by a 32-byte id, each with an owner,
 * metadata and an append-only ownership history, plus the per-owner id
 * lists, the global id list in registration order and the asset counter.
 */
module AssetRegistry {
  import opened Common
  import opened IdIndex

  type Bytes = seq<byte>
  type AssetId = Bytes32

  datatype AssetMetadata = AssetMetadata(name: Bytes, itemType: Bytes, attributes: map<Bytes, Bytes>)

  datatype OwnershipRecord = OwnershipRecord(previousOwner: Address, timestamp: nat, reason: Bytes)

  datatype GameAsset = GameAsset(
    id: AssetId,
    owner: Address,
    metadata: AssetMetadata,
    history: seq<OwnershipRecord>)

  datatype AssetError =
    | AlreadyInitialized
    | Unauthorized
    | InvalidInput
    | AssetNotFound
    | AssetAlreadyRegistered
    | OperationNotAllowed
  {
    /** The `u32` discriminant the contract reports. */
    function Code(): nat {
      match this
      case AlreadyInitialized => 1
      case Unauthorized => 2
      case InvalidInput => 3
      case AssetNotFound => 4
      case AssetAlreadyRegistered => 5
      case OperationNotAllowed => 6
    }
  }

  /**
   * The contract's storage, one field per `DataKey` variant. `None` and a
   * missing map key stand for an unset storage entry.
   */
  datatype State = State(
    admin: Option<Address>,
    assets: map<AssetId, GameAsset>,
    userAssets: map<Address, seq<AssetId>>,
    allAssetIds: Option<seq<AssetId>>,
    assetCount: Option<nat>)

  const Fresh: State := State(None, map[], map[], None, None)

  // ---------------------------------------------------------------------
  // Storage layer
  // ---------------------------------------------------------------------

  /** `GameAssetStorage::get_admin`: traps when no admin is stored. */
  function StoredAdmin(s: State): (r: Result<Address, AssetError>)
    ensures r.Ok? <==> s.admin.Some?
    ensures r.Ok? ==> r.value == s.admin.value
    ensures !r.Ok? ==> r == Abort(MissingKey)
  {
    match s.admin
    case Some(a) => Ok(a)
    case None => Abort(MissingKey)
  }

  function HasAsset(s: State, id: AssetId): bool {
    id in s.assets
  }

  /** `set_asset` stores the record under its own id; a later `get_asset` of that id reads it back. */
  function SetAsset(s: State, asset: GameAsset): (r: State)
    ensures HasAsset(r, asset.id) && GetAsset(r, asset.id) == Ok(asset)
    ensures forall id :: id != asset.id ==> (HasAsset(r, id) <==> HasAsset(s, id))
    ensures forall id :: id != asset.id && HasAsset(s, id) ==> GetAsset(r, id) == GetAsset(s, id)
    ensures r.admin == s.admin && r.userAssets == s.userAssets
    ensures r.allAssetIds == s.allAssetIds && r.assetCount == s.assetCount
  {
    s.(assets := s.assets[asset.id := asset])
  }

  /** `get_asset`: traps on an unknown id. */
  function GetAsset(s: State, id: AssetId): (r: Result<GameAsset, AssetError>)
    ensures r.Ok? <==> HasAsset(s, id)
    ensures !r.Ok? ==> r == Abort(MissingKey)
  {
    if id in s.assets then Ok(s.assets[id]) else Abort(MissingKey)
  }

  /** `get_user_assets`: the owner's id list, empty when the key was never written. */
  function GetUserAssets(s: State, owner: Address): (r: seq<AssetId>)
    ensures owner !in s.userAssets ==> r == []
  {
    if owner in s.userAssets then s.userAssets[owner] else []
  }

  /** `add_user_asset`: the owner's list becomes `AddUnique` of it; every other list is untouched. */
  function AddUserAsset(s: State, owner: Address, id: AssetId): (r: State)
    ensures GetUserAssets(r, owner) == AddUnique(GetUserAssets(s, owner), id)
    ensures forall o :: o != owner ==> GetUserAssets(r, o) == GetUserAssets(s, o)
    ensures r.userAssets == s.userAssets[owner := AddUnique(GetUserAssets(s, owner), id)]
    ensures r.admin == s.admin && r.assets == s.assets
    ensures r.allAssetIds == s.allAssetIds && r.assetCount == s.assetCount
  {
    var ids := GetUserAssets(s, owner);
    if id in ids then s else s.(userAssets := s.userAssets[owner := ids + [id]])
  }

  /** `remove_user_asset`: the owner's list loses the first occurrence of `id`; every other list is untouched. */
  function RemoveUserAsset(s: State, owner: Address, id: AssetId): (r: State)
    ensures GetUserAssets(r, owner) == RemoveFirst(GetUserAssets(s, owner), id)
    ensures forall o :: o != owner ==> GetUserAssets(r, o) == GetUserAssets(s, o)
    ensures id in GetUserAssets(s, owner) ==> r.userAssets == s.userAssets[owner := RemoveFirst(GetUserAssets(s, owner), id)]
    ensures id !in GetUserAssets(s, owner) ==> r == s
    ensures r.admin == s.admin && r.assets == s.assets
    ensures r.allAssetIds == s.allAssetIds && r.assetCount == s.assetCount
  {
    var ids := GetUserAssets(s, owner);
    if id in ids then s.(userAssets := s.userAssets[owner := RemoveFirst(ids, id)]) else s
  }

  /** `get_all_asset_ids`: empty when the key was never written. */
  function GetAllAssetIds(s: State): (r: seq<AssetId>)
    ensures s.allAssetIds.None? ==> r == []
  {
    s.allAssetIds.GetOr([])
  }

  /** `add_asset_id`: an idempotent append to the global list. */
  function AddAssetId(s: State, id: AssetId): (r: State)
    ensures GetAllAssetIds(r) == AddUnique(GetAllAssetIds(s), id)
    ensures r.admin == s.admin && r.assets == s.assets
    ensures r.userAssets == s.userAssets && r.assetCount == s.assetCount
  {
    var ids := GetAllAssetIds(s);
    if id in ids then s else s.(allAssetIds := Some(ids + [id]))
  }

  /** `get_asset_count`: 0 when the key was never written. */
  function GetAssetCount(s: State): (r: nat)
    ensures s.assetCount.None? ==> r == 0
  {
    s.assetCount.GetOr(0)
  }

  /** `increment_asset_count`: raises the count by exactly one. */
  function IncrementAssetCount(s: State): (r: State)
    ensures GetAssetCount(r) == GetAssetCount(s) + 1
    ensures r.admin == s.admin && r.assets == s.assets
    ensures r.userAssets == s.userAssets && r.allAssetIds == s.allAssetIds
  {
    s.(assetCount := Some(GetAssetCount(s) + 1))
  }

  // ---------------------------------------------------------------------
  // Contract entry points
  // ---------------------------------------------------------------------

  /** `initialize`: refuses a second initialisation; otherwise only the admin changes. */
  function Initialize(s: State, admin: Address): (r: Result<State, AssetError>)
    ensures s.admin.Some? ==> r == Err(AlreadyInitialized)
    ensures s.admin.None? ==> r.Ok? && r.value.admin == Some(admin)
    ensures r.Ok? ==> r.value.(admin := s.admin) == s
  {
    if s.admin.Some? then Err(AlreadyInitialized) else Ok(s.(admin := Some(admin)))
  }

  /** `change_admin`: the stored admin must exist and sign; only the admin changes. */
  function ChangeAdmin(s: State, env: Env, newAdmin: Address): (r: Result<State, AssetError>)
    ensures s.admin.None? ==> r == Abort(MissingKey)
    ensures s.admin.Some? && s.admin.value !in env.signers ==> r == Abort(AuthFailed(s.admin.value))
    ensures r.Ok? <==> s.admin.Some? && s.admin.value in env.signers
    ensures r.Ok? ==> r.value == s.(admin := Some(newAdmin))
  {
    var admin :- StoredAdmin(s);
    var _ :- RequireAuth(env, admin);
    Ok(s.(admin := Some(newAdmin)))
  }

  /** `get_admin`: reports `AlreadyInitialized` (sic) when no admin is stored. */
  function GetAdmin(s: State): (r: Result<Address, AssetError>)
    ensures s.admin.None? ==> r == Err(AlreadyInitialized)
    ensures s.admin.Some? ==> r == Ok(s.admin.value)
  {
    if s.admin.None? then Err(AlreadyInitialized) else StoredAdmin(s)
  }

  /**
   * `register_asset`: the admin must exist and sign, name and item type must
   * be non-empty, and the id must be unused; all three checks precede any
   * write. On success the asset is stored with an empty history, indexed
   * under its owner and in the global list, and counted.
   */
  function RegisterAsset(
    s: State, env: Env, owner: Address, id: AssetId,
    name: Bytes, itemType: Bytes, attributes: map<Bytes, Bytes>): (r: Result<State, AssetError>)
    ensures s.admin.None? ==> r == Abort(MissingKey)
    ensures s.admin.Some? && s.admin.value !in env.signers ==> r == Abort(AuthFailed(s.admin.value))
    ensures s.admin.Some? && s.admin.value in env.signers && (|name| == 0 || |itemType| == 0) ==> r == Err(InvalidInput)
    ensures s.admin.Some? && s.admin.value in env.signers && |name| > 0 && |itemType| > 0 && id in s.assets ==>
      r == Err(AssetAlreadyRegistered)
    ensures r.Ok? <==> s.admin.Some? && s.admin.value in env.signers && |name| > 0 && |itemType| > 0 && id !in s.assets
    ensures r.Ok? ==>
      && r.value.assets == s.assets[id := GameAsset(id, owner, AssetMetadata(name, itemType, attributes), [])]
      && GetUserAssets(r.value, owner) == AddUnique(GetUserAssets(s, owner), id)
      && (forall o :: o != owner ==> GetUserAssets(r.value, o) == GetUserAssets(s, o))
      && GetAllAssetIds(r.value) == AddUnique(GetAllAssetIds(s), id)
      && GetAssetCount(r.value) == GetAssetCount(s) + 1
      && r.value.admin == s.admin
  {
    var admin :- StoredAdmin(s);
    var _ :- RequireAuth(env, admin);
    if |name| == 0 || |itemType| == 0 then Err(InvalidInput)
    else if HasAsset(s, id) then Err(AssetAlreadyRegistered)
    else
      Ok(RegisterWrites(s, GameAsset(id, owner, AssetMetadata(name, itemType, attributes), [])))
  }

  /** The storage writes of a registration, in the order `register_asset` makes them. */
  function RegisterWrites(s: State, asset: GameAsset): (r: State)
    ensures r.assets == s.assets[asset.id := asset]
    ensures r.userAssets == s.userAssets[asset.owner := AddUnique(GetUserAssets(s, asset.owner), asset.id)]
    ensures GetAllAssetIds(r) == AddUnique(GetAllAssetIds(s), asset.id)
    ensures GetAssetCount(r) == GetAssetCount(s) + 1
    ensures r.admin == s.admin
  {
    var s1 := SetAsset(s, asset);
    var s2 := AddUserAsset(s1, asset.owner, asset.id);
    var s3 := AddAssetId(s2, asset.id);
    IncrementAssetCount(s3)
  }

  /**
   * `transfer_asset`: `from` must sign, the asset must exist and `from` must
   * own it. On success the stored record (written under its own id) gets the
   * new owner and one more history entry, and the id moves from `from`'s list
   * to `to`'s list.
   */
  function TransferAsset(
    s: State, env: Env, from: Address, to: Address, id: AssetId, reason: Bytes): (r: Result<State, AssetError>)
    ensures from !in env.signers ==> r == Abort(AuthFailed(from))
    ensures from in env.signers && id !in s.assets ==> r == Err(AssetNotFound)
    ensures from in env.signers && id in s.assets && s.assets[id].owner != from ==> r == Err(Unauthorized)
    ensures r.Ok? <==> from in env.signers && id in s.assets && s.assets[id].owner == from
    ensures r.Ok? ==> r.value.admin == s.admin && r.value.allAssetIds == s.allAssetIds && r.value.assetCount == s.assetCount
    ensures r.Ok? ==> forall o :: o != from && o != to ==> GetUserAssets(r.value, o) == GetUserAssets(s, o)
  {
    var _ :- RequireAuth(env, from);
    if !HasAsset(s, id) then Err(AssetNotFound)
    else
      var asset := s.assets[id];
      if asset.owner != from then Err(Unauthorized)
      else
        var record := OwnershipRecord(from, env.now, reason);
        var moved := asset.(history := asset.history + [record], owner := to);
        var s1 := SetAsset(s, moved);
        var s2 := RemoveUserAsset(s1, from, id);
        Ok(AddUserAsset(s2, to, id))
  }

  /**
   * `update_metadata`: the asset must exist; the caller must be the admin or
   * the current owner, and must sign. The metadata is replaced wholesale.
   */
  function UpdateMetadata(
    s: State, env: Env, user: Address, id: AssetId,
    name: Bytes, itemType: Bytes, attributes: map<Bytes, Bytes>): (r: Result<State, AssetError>)
    ensures id !in s.assets ==> r == Err(AssetNotFound)
    ensures id in s.assets && s.admin.None? ==> r == Abort(MissingKey)
    ensures id in s.assets && s.admin.Some? && s.admin.value != user && s.assets[id].owner != user ==> r == Err(Unauthorized)
    ensures r.Ok? <==>
      id in s.assets && s.admin.Some? && (s.admin.value == user || s.assets[id].owner == user) && user in env.signers
    ensures r.Ok? ==> r.value.admin == s.admin && r.value.userAssets == s.userAssets
    ensures r.Ok? ==> r.value.allAssetIds == s.allAssetIds && r.value.assetCount == s.assetCount
  {
    if !HasAsset(s, id) then Err(AssetNotFound)
    else
      var asset := s.assets[id];
      var admin :- StoredAdmin(s);
      if admin == user || asset.owner == user then
        var _ :- RequireAuth(env, user);
        Ok(SetAsset(s, asset.(metadata := AssetMetadata(name, itemType, attributes))))
      else Err(Unauthorized)
  }

  /** `get_asset_info` / `get_asset`: the stored record, or `AssetNotFound`. */
  function GetAssetInfo(s: State, id: AssetId): (r: Result<GameAsset, AssetError>)
    ensures r.Ok? <==> HasAsset(s, id)
    ensures r.Ok? ==> r.value == s.assets[id]
    ensures !r.Ok? ==> r == Err(AssetNotFound)
  {
    if !HasAsset(s, id) then Err(AssetNotFound) else GetAsset(s, id)
  }

  /** `get_asset_metadata`: the stored metadata, or `AssetNotFound`. */
  function GetAssetMetadata(s: State, id: AssetId): (r: Result<AssetMetadata, AssetError>)
    ensures r.Ok? <==> HasAsset(s, id)
    ensures r.Ok? ==> r.value == s.assets[id].metadata
    ensures !r.Ok? ==> r == Err(AssetNotFound)
  {
    var asset :- GetAssetInfo(s, id);
    Ok(asset.metadata)
  }

  /** `get_asset_history`: the stored ownership history, or `AssetNotFound`. */
  function GetAssetHistory(s: State, id: AssetId): (r: Result<seq<OwnershipRecord>, AssetError>)
    ensures r.Ok? <==> HasAsset(s, id)
    ensures r.Ok? ==> r.value == s.assets[id].history
    ensures !r.Ok? ==> r == Err(AssetNotFound)
  {
    var asset :- GetAssetInfo(s, id);
    Ok(asset.history)
  }

  /** The listed ids that have a stored record, in list order (the `has_asset` filter). */
  function StoredIds(ids: seq<AssetId>, assets: map<AssetId, GameAsset>): (r: seq<AssetId>)
    ensures |r| <= |ids|
    ensures forall id :: id in r <==> id in ids && id in assets
    ensures (forall id :: id in ids ==> id in assets) ==> r == ids
  {
    if |ids| == 0 then []
    else
      var rest := StoredIds(ids[1..], assets);
      assert forall id :: id in ids <==> id == ids[0] || id in ids[1..];
      if ids[0] in assets then [ids[0]] + rest else rest
  }

  /**
   * The records of those listed ids that are stored, in list order: one
   * record per stored listed id, each the record stored under that id; an
   * unstored id contributes nothing.
   */
  function RecordsOf(ids: seq<AssetId>, assets: map<AssetId, GameAsset>): (r: seq<GameAsset>)
    ensures |r| == |StoredIds(ids, assets)| <= |ids|
    ensures forall k :: 0 <= k < |r| ==> StoredIds(ids, assets)[k] in assets && r[k] == assets[StoredIds(ids, assets)[k]]
  {
    if |ids| == 0 then []
    else
      var rest := RecordsOf(ids[1..], assets);
      if ids[0] in assets then [assets[ids[0]]] + rest else rest
  }

  /** A record is fetched exactly when it is stored under some listed id. */
  lemma RecordsOfMembers(ids: seq<AssetId>, assets: map<AssetId, GameAsset>)
    ensures forall a :: a in RecordsOf(ids, assets) <==> exists id :: id in ids && id in assets && assets[id] == a
  {
    var r := RecordsOf(ids, assets);
    var stored := StoredIds(ids, assets);
    forall a ensures a in r <==> exists id :: id in ids && id in assets && assets[id] == a {
      if a in r {
        var k :| 0 <= k < |r| && r[k] == a;
        assert stored[k] in stored;
      }
      if exists id :: id in ids && id in assets && assets[id] == a {
        var id :| id in ids && id in assets && assets[id] == a;
        assert id in stored;
        var k :| 0 <= k < |stored| && stored[k] == id;
        assert r[k] == a;
      }
    }
  }

  /**
   * `get_user_assets` (contract): the records stored under the owner's
   * listed ids, in list order, skipping listed ids without a record.
   */
  function GetUserAssetRecords(s: State, owner: Address): (r: seq<GameAsset>)
    ensures var stored := StoredIds(GetUserAssets(s, owner), s.assets);
      && |r| == |stored|
      && forall k :: 0 <= k < |r| ==> stored[k] in s.assets && r[k] == s.assets[stored[k]]
    ensures forall a :: a in r <==> exists id :: id in GetUserAssets(s, owner) && id in s.assets && s.assets[id] == a
  {
    RecordsOfMembers(GetUserAssets(s, owner), s.assets);
    RecordsOf(GetUserAssets(s, owner), s.assets)
  }

  /** `get_all_assets(skip, limit)`: a window of the global id list in registration order. */
  function GetAllAssets(s: State, skip: nat, limit: nat): (r: seq<AssetId>)
    ensures skip >= |GetAllAssetIds(s)| ==> r == []
    ensures skip < |GetAllAssetIds(s)| ==> r == GetAllAssetIds(s)[skip..Min(skip + limit, |GetAllAssetIds(s)|)]
  {
    Paginate(GetAllAssetIds(s), skip, limit)
  }

  // ---------------------------------------------------------------------
  // Invariant of reachable states
  // ---------------------------------------------------------------------

  /** The counter equals the length of the global id list. */
  ghost predicate CountMatchesList(s: State) {
    GetAssetCount(s) == |GetAllAssetIds(s)|
  }

  /** The global list enumerates exactly the stored ids, each once. */
  ghost predicate ListEnumeratesAssets(s: State) {
    && NoDup(GetAllAssetIds(s))
    && forall id :: id in GetAllAssetIds(s) <==> id in s.assets
  }

  /** Every record is stored under its own id. */
  ghost predicate RecordsKeyedById(s: State) {
    forall id :: id in s.assets ==> s.assets[id].id == id
  }

  /** Each owner's list holds, each once, exactly the ids of the assets that owner owns. */
  ghost predicate OwnerListsExact(s: State) {
    && (forall o :: NoDup(GetUserAssets(s, o)))
    && (forall o, id :: id in GetUserAssets(s, o) <==> id in s.assets && s.assets[id].owner == o)
  }

  /** The indexes agree with the records. */
  ghost predicate Valid(s: State) {
    && CountMatchesList(s)
    && ListEnumeratesAssets(s)
    && RecordsKeyedById(s)
    && OwnerListsExact(s)
  }

  lemma FreshValid()
    ensures Valid(Fresh)
  {
  }

  /**
   * The invariant only looks at which ids are stored, under which id and
   * owner each record sits, and at the three indexes; anything else (admin,
   * metadata, history) may change freely.
   */
  lemma SameShapeValid(s: State, t: State)
    requires Valid(s)
    requires t.userAssets == s.userAssets && t.allAssetIds == s.allAssetIds && t.assetCount == s.assetCount
    requires t.assets.Keys == s.assets.Keys
    requires forall id :: id in t.assets ==> t.assets[id].id == s.assets[id].id && t.assets[id].owner == s.assets[id].owner
    ensures Valid(t)
  {
    forall o ensures GetUserAssets(t, o) == GetUserAssets(s, o) {
    }
  }

  lemma InitializePreservesValid(s: State, admin: Address)
    requires Valid(s)
    ensures Initialize(s, admin).Ok? ==> Valid(Initialize(s, admin).value)
  {
    if Initialize(s, admin).Ok? {
      SameShapeValid(s, Initialize(s, admin).value);
    }
  }

  lemma ChangeAdminPreservesValid(s: State, env: Env, newAdmin: Address)
    requires Valid(s)
    ensures ChangeAdmin(s, env, newAdmin).Ok? ==> Valid(ChangeAdmin(s, env, newAdmin).value)
  {
    if ChangeAdmin(s, env, newAdmin).Ok? {
      SameShapeValid(s, ChangeAdmin(s, env, newAdmin).value);
    }
  }

  /** Storing a new record and appending its id to the global list and its owner's list keeps the invariant. */
  lemma InsertPreservesValid(s: State, t: State, a: GameAsset)
    requires Valid(s) && a.id !in s.assets
    requires t.assets == s.assets[a.id := a]
    requires GetAllAssetIds(t) == GetAllAssetIds(s) + [a.id]
    requires GetAssetCount(t) == GetAssetCount(s) + 1
    requires GetUserAssets(t, a.owner) == GetUserAssets(s, a.owner) + [a.id]
    requires forall o :: o != a.owner ==> GetUserAssets(t, o) == GetUserAssets(s, o)
    ensures Valid(t)
  {
    assert a.id !in GetAllAssetIds(s);
    assert a.id !in GetUserAssets(s, a.owner);
    assert ListEnumeratesAssets(t);
    forall o ensures NoDup(GetUserAssets(t, o)) && forall x :: x in GetUserAssets(t, o) <==> x in t.assets && t.assets[x].owner == o {
      if o != a.owner {
        assert a.id !in GetUserAssets(s, o);
      }
    }
  }

  /**
   * Registering keeps the indexes consistent: the new id is appended once to
   * the global list and to its owner's list, and the count still equals the
   * number of listed ids.
   */
  lemma RegisterPreservesValid(
    s: State, env: Env, owner: Address, id: AssetId,
    name: Bytes, itemType: Bytes, attributes: map<Bytes, Bytes>)
    requires Valid(s)
    ensures var r := RegisterAsset(s, env, owner, id, name, itemType, attributes);
      r.Ok? ==>
        && Valid(r.value)
        && GetAllAssetIds(r.value) == GetAllAssetIds(s) + [id]
        && GetUserAssets(r.value, owner) == GetUserAssets(s, owner) + [id]
  {
    var r := RegisterAsset(s, env, owner, id, name, itemType, attributes);
    if r.Ok? {
      assert id !in GetAllAssetIds(s);
      assert id !in GetUserAssets(s, owner);
      InsertPreservesValid(s, r.value, GameAsset(id, owner, AssetMetadata(name, itemType, attributes), []));
    }
  }

  /** After the owner-list moves of a transfer, the lists are exact for the new owner. */
  lemma MovePreservesOwnerLists(s: State, t: State, id: AssetId, from: Address, to: Address)
    requires OwnerListsExact(s)
    requires id in s.assets && s.assets[id].owner == from
    requires t.assets.Keys == s.assets.Keys && id in t.assets
    requires t.assets[id].owner == to
    requires forall x :: x in s.assets && x != id ==> t.assets[x].owner == s.assets[x].owner
    requires from != to ==> GetUserAssets(t, from) == RemoveFirst(GetUserAssets(s, from), id)
    requires from != to ==> GetUserAssets(t, to) == AddUnique(GetUserAssets(s, to), id)
    requires from == to ==> GetUserAssets(t, to) == AddUnique(RemoveFirst(GetUserAssets(s, from), id), id)
    requires forall o :: o != from && o != to ==> GetUserAssets(t, o) == GetUserAssets(s, o)
    ensures OwnerListsExact(t)
  {
    forall o ensures NoDup(GetUserAssets(t, o)) && forall x :: x in GetUserAssets(t, o) <==> x in t.assets && t.assets[x].owner == o {
      MoveListAt(s, t, id, from, to, o);
    }
  }

  /** One owner's list after a move holds exactly that owner's assets, once each. */
  lemma MoveListAt(s: State, t: State, id: AssetId, from: Address, to: Address, o: Address)
    requires OwnerListsExact(s)
    requires id in s.assets && s.assets[id].owner == from
    requires t.assets.Keys == s.assets.Keys && id in t.assets
    requires t.assets[id].owner == to
    requires forall x :: x in s.assets && x != id ==> t.assets[x].owner == s.assets[x].owner
    requires from != to ==> GetUserAssets(t, from) == RemoveFirst(GetUserAssets(s, from), id)
    requires from != to ==> GetUserAssets(t, to) == AddUnique(GetUserAssets(s, to), id)
    requires from == to ==> GetUserAssets(t, to) == AddUnique(RemoveFirst(GetUserAssets(s, from), id), id)
    requires o != from && o != to ==> GetUserAssets(t, o) == GetUserAssets(s, o)
    ensures NoDup(GetUserAssets(t, o))
    ensures forall x :: x in GetUserAssets(t, o) <==> x in t.assets && t.assets[x].owner == o
  {
    if o == to {
      MoveListGainer(s, t, id, from, to);
    } else if o == from {
      LostListExact(s, t, id, from);
    } else {
      MoveListBystander(s, t, id, from, to, o);
    }
  }

  /** The receiving owner's list after a move, also when the asset stays with its owner. */
  lemma MoveListGainer(s: State, t: State, id: AssetId, from: Address, to: Address)
    requires OwnerListsExact(s)
    requires id in s.assets && s.assets[id].owner == from
    requires t.assets.Keys == s.assets.Keys && id in t.assets
    requires t.assets[id].owner == to
    requires forall x :: x in s.assets && x != id ==> t.assets[x].owner == s.assets[x].owner
    requires from != to ==> GetUserAssets(t, from) == RemoveFirst(GetUserAssets(s, from), id)
    requires from != to ==> GetUserAssets(t, to) == AddUnique(GetUserAssets(s, to), id)
    requires from == to ==> GetUserAssets(t, to) == AddUnique(RemoveFirst(GetUserAssets(s, from), id), id)
    ensures NoDup(GetUserAssets(t, to))
    ensures forall x :: x in GetUserAssets(t, to) <==> x in t.assets && t.assets[x].owner == to
  {
    if from == to {
      RemoveFirstNoDup(GetUserAssets(s, from), id);
      GainedListExact(s, t, id, to, RemoveFirst(GetUserAssets(s, from), id));
    } else {
      GainedListExact(s, t, id, to, GetUserAssets(s, to));
    }
  }

  /** An owner on neither side of a move keeps a list that is still exact. */
  lemma MoveListBystander(s: State, t: State, id: AssetId, from: Address, to: Address, o: Address)
    requires OwnerListsExact(s)
    requires id in s.assets && s.assets[id].owner == from
    requires t.assets.Keys == s.assets.Keys && id in t.assets
    requires t.assets[id].owner == to
    requires forall x :: x in s.assets && x != id ==> t.assets[x].owner == s.assets[x].owner
    requires o != from && o != to && GetUserAssets(t, o) == GetUserAssets(s, o)
    ensures NoDup(GetUserAssets(t, o))
    ensures forall x :: x in GetUserAssets(t, o) <==> x in t.assets && t.assets[x].owner == o
  {
    assert id !in GetUserAssets(s, o);
  }

  /** The receiving owner's list: its old ids except the moved one, plus the moved one, once. */
  lemma GainedListExact(s: State, t: State, id: AssetId, to: Address, base: seq<AssetId>)
    requires OwnerListsExact(s)
    requires id in t.assets && t.assets[id].owner == to
    requires t.assets.Keys == s.assets.Keys
    requires forall x :: x in s.assets && x != id ==> t.assets[x].owner == s.assets[x].owner
    requires NoDup(base)
    requires forall x :: x != id ==> (x in base <==> x in GetUserAssets(s, to))
    requires GetUserAssets(t, to) == AddUnique(base, id)
    ensures NoDup(GetUserAssets(t, to))
    ensures forall x :: x in GetUserAssets(t, to) <==> x in t.assets && t.assets[x].owner == to
  {
  }

  /** The giving owner's list: its old ids without the moved one. */
  lemma LostListExact(s: State, t: State, id: AssetId, from: Address)
    requires OwnerListsExact(s)
    requires id in s.assets && s.assets[id].owner == from
    requires t.assets.Keys == s.assets.Keys && id in t.assets && t.assets[id].owner != from
    requires forall x :: x in s.assets && x != id ==> t.assets[x].owner == s.assets[x].owner
    requires GetUserAssets(t, from) == RemoveFirst(GetUserAssets(s, from), id)
    ensures NoDup(GetUserAssets(t, from))
    ensures forall x :: x in GetUserAssets(t, from) <==> x in t.assets && t.assets[x].owner == from
  {
    RemoveFirstNoDup(GetUserAssets(s, from), id);
  }

  /**
   * A successful transfer sets the owner to `to`, appends exactly one history
   * record naming `from` as previous owner, keeps id and metadata, changes no
   * other record, and leaves the id listed exactly once, under `to` only.
   */
  lemma TransferEffect(s: State, env: Env, from: Address, to: Address, id: AssetId, reason: Bytes)
    requires Valid(s)
    ensures var r := TransferAsset(s, env, from, to, id, reason);
      r.Ok? ==>
        && r.value.assets == s.assets[id := s.assets[id].(owner := to, history := s.assets[id].history + [OwnershipRecord(from, env.now, reason)])]
        && id in GetUserAssets(r.value, to)
        && (from != to ==> id !in GetUserAssets(r.value, from))
        && Valid(r.value)
  {
    var r := TransferAsset(s, env, from, to, id, reason);
    if r.Ok? {
      var t := r.value;
      TransferShape(s, env, from, to, id, reason);
      MovePreservesOwnerLists(s, t, id, from, to);
      assert t.assets.Keys == s.assets.Keys;
    }
  }

  /** The writes of a successful transfer: the record is replaced and the id moves between the two owners' lists. */
  lemma TransferShape(s: State, env: Env, from: Address, to: Address, id: AssetId, reason: Bytes)
    requires RecordsKeyedById(s)
    requires TransferAsset(s, env, from, to, id, reason).Ok?
    ensures var t := TransferAsset(s, env, from, to, id, reason).value;
      && t.assets == s.assets[id := s.assets[id].(owner := to, history := s.assets[id].history + [OwnershipRecord(from, env.now, reason)])]
      && (from != to ==> GetUserAssets(t, from) == RemoveFirst(GetUserAssets(s, from), id))
      && (from != to ==> GetUserAssets(t, to) == AddUnique(GetUserAssets(s, to), id))
      && (from == to ==> GetUserAssets(t, to) == AddUnique(RemoveFirst(GetUserAssets(s, from), id), id))
  {
    var moved := s.assets[id].(owner := to, history := s.assets[id].history + [OwnershipRecord(from, env.now, reason)]);
    var s1 := SetAsset(s, moved);
    var s2 := RemoveUserAsset(s1, from, id);
    var t := AddUserAsset(s2, to, id);
    assert s1.assets == s.assets[id := moved];
    assert TransferAsset(s, env, from, to, id, reason).value == t;
    assert GetUserAssets(s1, from) == GetUserAssets(s, from);
    assert GetUserAssets(s1, to) == GetUserAssets(s, to);
    if from != to {
      assert GetUserAssets(s2, to) == GetUserAssets(s, to);
      assert GetUserAssets(t, from) == GetUserAssets(s2, from);
    }
  }

  /** Metadata updates replace the metadata only: owner, id and history are untouched. */
  lemma UpdateMetadataEffect(
    s: State, env: Env, user: Address, id: AssetId,
    name: Bytes, itemType: Bytes, attributes: map<Bytes, Bytes>)
    requires Valid(s)
    ensures var r := UpdateMetadata(s, env, user, id, name, itemType, attributes);
      r.Ok? ==>
        && r.value.assets == s.assets[id := s.assets[id].(metadata := AssetMetadata(name, itemType, attributes))]
        && Valid(r.value)
  {
    var r := UpdateMetadata(s, env, user, id, name, itemType, attributes);
    if r.Ok? {
      SameShapeValid(s, r.value);
    }
  }

  /** Under the invariant, an owner's records are exactly its listed assets and all belong to it. */
  lemma UserAssetRecordsOwned(s: State, owner: Address)
    requires Valid(s)
    ensures |GetUserAssetRecords(s, owner)| == |GetUserAssets(s, owner)|
    ensures forall a :: a in GetUserAssetRecords(s, owner) ==> a.owner == owner
  {
    var ids := GetUserAssets(s, owner);
    var r := GetUserAssetRecords(s, owner);
    forall a | a in r ensures a.owner == owner {
      var k :| 0 <= k < |r| && r[k] == a;
      assert ids[k] in ids;
    }
  }

  /**
   * The worked scenario: register asset `a1` to `o1`, transfer it to `o2`
   * with a reason; then the count is 1, the history has one entry naming
   * `o1`, `o1` lists nothing and `o2` lists one asset.
   */
  lemma RegisterThenTransferScenario(
    env: Env, admin: Address, o1: Address, o2: Address, a1: AssetId,
    name: Bytes, itemType: Bytes, reason: Bytes)
    requires admin in env.signers && o1 in env.signers && o1 != o2
    requires |name| > 0 && |itemType| > 0
    ensures var s1 := RegisterAsset(Initialize(Fresh, admin).value, env, o1, a1, name, itemType, map[]);
      && s1.Ok?
      && GetAssetCount(s1.value) == 1
      && var s2 := TransferAsset(s1.value, env, o1, o2, a1, reason);
      && s2.Ok?
      && GetAssetCount(s2.value) == 1
      && GetAssetHistory(s2.value, a1) == Ok([OwnershipRecord(o1, env.now, reason)])
      && |GetUserAssets(s2.value, o1)| == 0
      && |GetUserAssets(s2.value, o2)| == 1
  {
    var s0 := Initialize(Fresh, admin).value;
    var r1 := RegisterAsset(s0, env, o1, a1, name, itemType, map[]);
    assert r1.Ok?;
    var s1 := r1.value;
    assert GetAssetCount(s1) == 1;
    assert GetUserAssets(s1, o1) == [a1];
    assert GetUserAssets(s1, o2) == [];
    var r2 := TransferAsset(s1, env, o1, o2, a1, reason);
    assert r2.Ok?;
    var s2 := r2.value;
    assert RemoveFirst([a1], a1) == [];
    assert GetUserAssets(s2, o1) == [];
    assert GetUserAssets(s2, o2) == [a1];
    assert s2.assets[a1].history == [OwnershipRecord(o1, env.now, reason)];
  }
}
