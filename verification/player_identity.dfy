/**
 * The player identity contract: profiles numbered by a counter, unique
 * usernames of at most 50 bytes, a bootstrap achievement on creation, and
 * admin-only achievement and access-level updates.
 *
 * `String::len` counts bytes; here a username is a `string` and its length
 * counts characters, which agrees for ASCII names.
 */
module PlayerIdentity {
  import opened Common

  datatype AccessLevel = Player | Moderator | Admin

  datatype Achievement = Achievement(title: string, description: string, timestamp: nat, gameId: string)

  datatype PlayerProfile = PlayerProfile(
    playerId: Address,
    username: string,
    credentialsHash: Bytes32,
    achievements: seq<Achievement>,
    accessLevel: AccessLevel)

  datatype IdentityError =
    | NotInitialized
    | PlayerNotFound
    | InvalidUsername
    | UsernameTaken
    | InvalidAchievement
    | Unauthorized
  {
    function Code(): nat {
      match this
      case NotInitialized => 1
      case PlayerNotFound => 2
      case InvalidUsername => 3
      case UsernameTaken => 4
      case InvalidAchievement => 5
      case Unauthorized => 6
    }
  }

  /** Longest accepted username. */
  const MaxUsernameLen: nat := 50
  /** Longest accepted achievement title, description and game id. */
  const MaxTitleLen: nat := 100
  const MaxDescriptionLen: nat := 500
  const MaxGameIdLen: nat := 50

  /**
   * Storage: `ADMIN`, `PLYR_CNT` and one `PLAYER_<id>` entry per profile;
   * the symbol key is injective in the id, so profiles are a map from ids.
   */
  datatype State = State(admin: Option<Address>, counter: Option<nat>, profiles: map<nat, PlayerProfile>)

  const Fresh: State := State(None, None, map[])

  /** The achievement every new profile starts with. */
  function FirstAchievement(now: nat): Achievement {
    Achievement("First Achievement", "Created your first profile!", now, "N/A")
  }

  /** The stored player counter, 0 when unset. */
  function Counter(s: State): (r: nat)
    ensures s.counter.None? ==> r == 0
  {
    s.counter.GetOr(0)
  }

  /**
   * `initialize`: stores the admin and sets the counter to 0, with no guard
   * against a second call; profiles already stored are kept as they are.
   */
  function Initialize(s: State, admin: Address): (r: State)
    ensures r.admin == Some(admin)
    ensures Counter(r) == 0
    ensures r.profiles == s.profiles
  {
    s.(admin := Some(admin), counter := Some(0))
  }

  /** `get_player_profile` / `get_player_info`: the stored profile, or `PlayerNotFound`. */
  function GetPlayerProfile(s: State, id: nat): (r: Result<PlayerProfile, IdentityError>)
    ensures r.Ok? <==> id in s.profiles
    ensures r.Ok? ==> r.value == s.profiles[id]
    ensures !r.Ok? ==> r == Err(PlayerNotFound)
  {
    if id in s.profiles then Ok(s.profiles[id]) else Err(PlayerNotFound)
  }

  /** `verify_credentials`: whether the stored hash equals the given one; `PlayerNotFound` for an unknown id. */
  function VerifyCredentials(s: State, id: nat, hash: Bytes32): (r: Result<bool, IdentityError>)
    ensures r.Ok? <==> id in s.profiles
    ensures r.Ok? ==> (r.value <==> s.profiles[id].credentialsHash == hash)
    ensures !r.Ok? ==> r == Err(PlayerNotFound)
  {
    var profile :- GetPlayerProfile(s, id);
    Ok(profile.credentialsHash == hash)
  }

  /** `is_admin`: compares with the stored admin; traps when none is stored. */
  function IsAdmin(s: State, caller: Address): (r: Result<bool, IdentityError>)
    ensures r.Ok? <==> s.admin.Some?
    ensures r.Ok? ==> (r.value <==> s.admin.value == caller)
    ensures !r.Ok? ==> r == Abort(MissingKey)
  {
    match s.admin
    case None => Abort(MissingKey)
    case Some(a) => Ok(a == caller)
  }

  // ---------------------------------------------------------------------
  // Profile listing and the username scan
  // ---------------------------------------------------------------------

  /** The ids in `1..=n` that hold a profile, in ascending order. */
  function ProfileIdsUpTo(s: State, n: nat): (ids: seq<nat>)
    ensures forall i, j :: 0 <= i < j < |ids| ==> ids[i] < ids[j]
    ensures forall id :: id in ids <==> 1 <= id <= n && id in s.profiles
  {
    if n == 0 then []
    else
      var prefix := ProfileIdsUpTo(s, n - 1);
      assert forall k :: 0 <= k < |prefix| ==> prefix[k] in prefix;
      if n in s.profiles then
        assert forall id :: id in prefix + [n] <==> id in prefix || id == n;
        prefix + [n]
      else prefix
  }

  /** `get_all_profiles`: the ids in `1..=counter` that hold a profile, ascending. */
  function GetAllProfiles(s: State): (ids: seq<nat>)
    ensures forall i, j :: 0 <= i < j < |ids| ==> ids[i] < ids[j]
    ensures forall id :: id in ids <==> 1 <= id <= Counter(s) && id in s.profiles
  {
    ProfileIdsUpTo(s, Counter(s))
  }

  /** `get_all_profiles`'s loop over `1..=counter`, pushing each id whose key is present. */
  method GetAllProfilesByLoop(s: State) returns (ids: seq<nat>)
    ensures ids == GetAllProfiles(s)
  {
    var counter := Counter(s);
    ids := [];
    var id := 1;
    while id <= counter
      invariant 1 <= id <= counter + 1
      invariant ids == ProfileIdsUpTo(s, id - 1)
    {
      if id in s.profiles {
        ids := ids + [id];
      }
      id := id + 1;
    }
  }

  /** Whether one of the listed ids holds a profile with this username, scanning in list order. */
  function ScanTaken(s: State, ids: seq<nat>, username: string): (r: bool)
    ensures r <==> exists k :: 0 <= k < |ids| && ids[k] in s.profiles && s.profiles[ids[k]].username == username
  {
    if |ids| == 0 then false
    else
      var found := GetPlayerProfile(s, ids[0]);
      if found.Ok? && found.value.username == username then true
      else
        var rest := ScanTaken(s, ids[1..], username);
        assert forall k :: 1 <= k < |ids| ==> ids[1..][k - 1] == ids[k];
        assert forall k :: 0 <= k < |ids| - 1 ==> ids[1..][k] == ids[k + 1];
        rest
  }

  /** The scan in `create_profile` finds a name exactly when a profile numbered up to the counter bears it. */
  lemma UsernameScanIsExact(s: State, username: string)
    ensures ScanTaken(s, GetAllProfiles(s), username) <==>
      exists id :: 1 <= id <= Counter(s) && id in s.profiles && s.profiles[id].username == username
  {
    var ids := GetAllProfiles(s);
    if exists id :: 1 <= id <= Counter(s) && id in s.profiles && s.profiles[id].username == username {
      var id :| 1 <= id <= Counter(s) && id in s.profiles && s.profiles[id].username == username;
      assert id in ids;
      var k :| 0 <= k < |ids| && ids[k] == id;
    }
  }

  // ---------------------------------------------------------------------
  // Entry points
  // ---------------------------------------------------------------------

  /**
   * `create_profile`: requires an admin, the player's signature, a username
   * of at most 50 bytes and no profile numbered up to the counter with that
   * username. The counter is incremented and returned as the new id; the
   * profile starts at level `Player` with exactly the bootstrap achievement.
   */
  function CreateProfile(s: State, env: Env, player: Address, username: string, hash: Bytes32)
    : (r: Result<(State, nat), IdentityError>)
    ensures s.admin.None? ==> r == Err(NotInitialized)
    ensures s.admin.Some? && player !in env.signers ==> r == Abort(AuthFailed(player))
    ensures s.admin.Some? && player in env.signers && |username| > MaxUsernameLen ==> r == Err(InvalidUsername)
    ensures (&& s.admin.Some? && player in env.signers && |username| <= MaxUsernameLen
             && exists id :: 1 <= id <= Counter(s) && id in s.profiles && s.profiles[id].username == username)
      ==> r == Err(UsernameTaken)
    ensures r.Ok? <==>
      && s.admin.Some? && player in env.signers && |username| <= MaxUsernameLen
      && !(exists id :: 1 <= id <= Counter(s) && id in s.profiles && s.profiles[id].username == username)
    ensures r.Ok? ==>
      var (t, id) := r.value;
      && id == Counter(s) + 1
      && Counter(t) == id
      && t.profiles == s.profiles[id := PlayerProfile(player, username, hash, [FirstAchievement(env.now)], Player)]
      && t.admin == s.admin
  {
    if s.admin.None? then Err(NotInitialized)
    else
      var _ :- RequireAuth(env, player);
      if |username| > MaxUsernameLen then Err(InvalidUsername)
      else
        UsernameScanIsExact(s, username);
        if ScanTaken(s, GetAllProfiles(s), username) then Err(UsernameTaken)
        else
          var id := Counter(s) + 1;
          var profile := PlayerProfile(player, username, hash, [FirstAchievement(env.now)], Player);
          Ok((s.(profiles := s.profiles[id := profile], counter := Some(id)), id))
  }

  /**
   * `add_achievement`: checks, in order, that an admin exists, that the
   * caller signs, that the caller is the admin, the field lengths, and that
   * the profile exists. On success one achievement stamped with the ledger
   * time is appended; nothing else in any profile changes.
   */
  function AddAchievement(
    s: State, env: Env, caller: Address, id: nat, title: string, description: string, gameId: string)
    : (r: Result<State, IdentityError>)
    ensures s.admin.None? ==> r == Err(NotInitialized)
    ensures s.admin.Some? && caller !in env.signers ==> r == Abort(AuthFailed(caller))
    ensures s.admin.Some? && caller in env.signers && s.admin.value != caller ==> r == Err(Unauthorized)
    ensures (&& s.admin == Some(caller) && caller in env.signers
             && (|title| > MaxTitleLen || |description| > MaxDescriptionLen || |gameId| > MaxGameIdLen))
      ==> r == Err(InvalidAchievement)
    ensures (&& s.admin == Some(caller) && caller in env.signers
             && |title| <= MaxTitleLen && |description| <= MaxDescriptionLen && |gameId| <= MaxGameIdLen
             && id !in s.profiles)
      ==> r == Err(PlayerNotFound)
    ensures r.Ok? <==>
      && s.admin == Some(caller) && caller in env.signers
      && |title| <= MaxTitleLen && |description| <= MaxDescriptionLen && |gameId| <= MaxGameIdLen
      && id in s.profiles
    ensures r.Ok? ==>
      && r.value.profiles.Keys == s.profiles.Keys
      && r.value.profiles[id].achievements == s.profiles[id].achievements + [Achievement(title, description, env.now, gameId)]
      && r.value.profiles[id].(achievements := s.profiles[id].achievements) == s.profiles[id]
      && (forall other :: other in s.profiles && other != id ==> r.value.profiles[other] == s.profiles[other])
      && r.value.admin == s.admin && r.value.counter == s.counter
  {
    if s.admin.None? then Err(NotInitialized)
    else
      var _ :- RequireAuth(env, caller);
      if s.admin.value != caller then Err(Unauthorized)
      else if |title| > MaxTitleLen || |description| > MaxDescriptionLen || |gameId| > MaxGameIdLen then
        Err(InvalidAchievement)
      else
        var profile :- GetPlayerProfile(s, id);
        var achievement := Achievement(title, description, env.now, gameId);
        Ok(s.(profiles := s.profiles[id := profile.(achievements := profile.achievements + [achievement])]))
  }

  /**
   * `set_access_level`: checks, in order, that an admin exists, that the
   * caller signs, that the caller is the admin, and that the profile exists.
   * On success only that profile's access level changes.
   */
  function SetAccessLevel(s: State, env: Env, caller: Address, id: nat, level: AccessLevel)
    : (r: Result<State, IdentityError>)
    ensures s.admin.None? ==> r == Err(NotInitialized)
    ensures s.admin.Some? && caller !in env.signers ==> r == Abort(AuthFailed(caller))
    ensures s.admin.Some? && caller in env.signers && s.admin.value != caller ==> r == Err(Unauthorized)
    ensures s.admin == Some(caller) && caller in env.signers && id !in s.profiles ==> r == Err(PlayerNotFound)
    ensures r.Ok? <==> s.admin == Some(caller) && caller in env.signers && id in s.profiles
    ensures r.Ok? ==>
      && r.value.profiles.Keys == s.profiles.Keys
      && r.value.profiles[id].accessLevel == level
      && r.value.profiles[id].(accessLevel := s.profiles[id].accessLevel) == s.profiles[id]
      && (forall other :: other in s.profiles && other != id ==> r.value.profiles[other] == s.profiles[other])
      && r.value.admin == s.admin && r.value.counter == s.counter
  {
    if s.admin.None? then Err(NotInitialized)
    else
      var _ :- RequireAuth(env, caller);
      if s.admin.value != caller then Err(Unauthorized)
      else
        var profile :- GetPlayerProfile(s, id);
        Ok(s.(profiles := s.profiles[id := profile.(accessLevel := level)]))
  }

  /** The admin check of both managers is `is_admin` on the stored admin. */
  lemma AdminCheckIsIsAdmin(s: State, caller: Address)
    requires s.admin.Some?
    ensures IsAdmin(s, caller) == Ok(s.admin == Some(caller))
  {
  }

  /** Setting the same access level twice gives the same state as setting it once. */
  lemma SetAccessLevelIdempotent(s: State, env: Env, caller: Address, id: nat, level: AccessLevel)
    requires SetAccessLevel(s, env, caller, id, level).Ok?
    ensures SetAccessLevel(SetAccessLevel(s, env, caller, id, level).value, env, caller, id, level)
      == SetAccessLevel(s, env, caller, id, level)
  {
    var t := SetAccessLevel(s, env, caller, id, level).value;
    assert t.profiles[id := t.profiles[id].(accessLevel := level)] == t.profiles;
  }

  // ---------------------------------------------------------------------
  // Invariant between initialisations
  // ---------------------------------------------------------------------

  /** Every stored profile is numbered within the counter. */
  ghost predicate ProfilesWithinCounter(s: State) {
    forall id :: id in s.profiles ==> 1 <= id <= Counter(s)
  }

  /** No two stored profiles share a username. */
  ghost predicate UsernamesUnique(s: State) {
    forall i, j :: i in s.profiles && j in s.profiles && i != j ==> s.profiles[i].username != s.profiles[j].username
  }

  ghost predicate Valid(s: State) {
    ProfilesWithinCounter(s) && UsernamesUnique(s)
  }

  /** The first initialisation of an empty contract yields a valid state. */
  lemma InitializeFreshValid(admin: Address)
    ensures Valid(Initialize(Fresh, admin))
  {
  }

  /**
   * While every profile is numbered within the counter, the username scan
   * sees all of them, so a created profile gets a fresh id and a username no
   * other profile has.
   */
  lemma CreateProfilePreservesValid(s: State, env: Env, player: Address, username: string, hash: Bytes32)
    requires Valid(s)
    ensures var r := CreateProfile(s, env, player, username, hash);
      r.Ok? ==> Valid(r.value.0) && r.value.1 !in s.profiles
  {
  }

  lemma AddAchievementPreservesValid(
    s: State, env: Env, caller: Address, id: nat, title: string, description: string, gameId: string)
    requires Valid(s)
    ensures var r := AddAchievement(s, env, caller, id, title, description, gameId);
      r.Ok? ==> Valid(r.value)
  {
  }

  lemma SetAccessLevelPreservesValid(s: State, env: Env, caller: Address, id: nat, level: AccessLevel)
    requires Valid(s)
    ensures var r := SetAccessLevel(s, env, caller, id, level);
      r.Ok? ==> Valid(r.value)
  {
  }

  /**
   * Re-initialising resets the counter while profiles stay stored: the next
   * profile is numbered 1 again, overwrites the old profile 1, and the
   * username scan no longer sees the old name, so it may be taken twice over.
   */
  lemma ReinitializeReusesIds(
    env: Env, admin: Address, p1: Address, p2: Address, name: string, h1: Bytes32, h2: Bytes32)
    requires p1 in env.signers && p2 in env.signers && |name| <= MaxUsernameLen
    ensures var s0 := Initialize(Fresh, admin);
      && var r1 := CreateProfile(s0, env, p1, name, h1);
      && r1.Ok? && r1.value.1 == 1
      && var s2 := Initialize(r1.value.0, admin);
      && var r2 := CreateProfile(s2, env, p2, name, h2);
      && r2.Ok? && r2.value.1 == 1
      && r2.value.0.profiles[1].playerId == p2
  {
    var s0 := Initialize(Fresh, admin);
    var r1 := CreateProfile(s0, env, p1, name, h1);
    assert r1.Ok?;
    var s2 := Initialize(r1.value.0, admin);
    assert Counter(s2) == 0;
  }
}
