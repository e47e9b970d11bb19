/**
 * Save points of the game state contract: one append-only list of
 * `{player, sha256(data), timestamp}` records shared by all players, read
 * back either at an exact timestamp or as the player's latest save.
 */
module GameSave {
  import opened Common

  datatype SavePoint = SavePoint(player: Address, dataHash: Bytes32, timestamp: nat)

  /**
   * `save_progress`: the player must sign. Appends the save point for the
   * hash of `data` at the ledger time and returns the hash. `sha256` stands
   * for the host's hash function.
   */
  function SaveProgress(saves: seq<SavePoint>, env: Env, player: Address, data: Bytes64, sha256: seq<byte> -> Bytes32)
    : (r: Result<(seq<SavePoint>, Bytes32), ()>)
    ensures r.Ok? <==> player in env.signers
    ensures !r.Ok? ==> r == Abort(AuthFailed(player))
    ensures r.Ok? ==>
      && |r.value.0| == |saves| + 1
      && r.value.0[..|saves|] == saves
      && r.value.0[|saves|] == SavePoint(player, r.value.1, env.now)
      && r.value.1 == sha256(data)
  {
    var _ :- RequireAuth(env, player);
    var hash := sha256(data);
    Ok((saves + [SavePoint(player, hash, env.now)], hash))
  }

  /** A save of `player` stamped `ts`. */
  predicate SavedAt(sp: SavePoint, player: Address, ts: nat) {
    sp.player == player && sp.timestamp == ts
  }

  /** The index `find` stops at: the first save of `player` stamped `ts`. */
  function FirstAt(saves: seq<SavePoint>, player: Address, ts: nat): (r: Option<nat>)
    ensures r.Some? ==> r.value < |saves| && SavedAt(saves[r.value], player, ts)
    ensures r.Some? ==> forall j :: 0 <= j < r.value ==> !SavedAt(saves[j], player, ts)
    ensures r.None? <==> forall j :: 0 <= j < |saves| ==> !SavedAt(saves[j], player, ts)
    decreases |saves|
  {
    if |saves| == 0 then None
    else if SavedAt(saves[0], player, ts) then Some(0)
    else
      match FirstAt(saves[1..], player, ts)
      case Some(k) => Some(k + 1)
      case None => None
  }

  /**
   * The index `filter(player).max_by_key(timestamp)` returns among the
   * first `n` saves: a save of `player` with the greatest timestamp, the
   * last one of those on a tie; none when `player` has no save there.
   */
  function LatestOf(saves: seq<SavePoint>, player: Address, n: nat): (r: Option<nat>)
    requires n <= |saves|
    ensures r.Some? ==> r.value < n && saves[r.value].player == player
    ensures r.Some? ==> forall j :: 0 <= j < n && saves[j].player == player ==> saves[j].timestamp <= saves[r.value].timestamp
    ensures r.Some? ==> forall j :: r.value < j < n && saves[j].player == player ==> saves[j].timestamp < saves[r.value].timestamp
    ensures r.None? <==> forall j :: 0 <= j < n ==> saves[j].player != player
  {
    if n == 0 then None
    else
      var prev := LatestOf(saves, player, n - 1);
      if saves[n - 1].player != player then prev
      else if prev.None? || saves[prev.value].timestamp <= saves[n - 1].timestamp then Some(n - 1)
      else prev
  }

  /**
   * `load_progress`: with a timestamp, the first save of the player at
   * exactly that time; without one, the player's latest save. Never another
   * player's save; none when the player has no matching save.
   */
  function LoadProgress(saves: seq<SavePoint>, player: Address, timestamp: Option<nat>): (r: Option<SavePoint>)
    ensures r.Some? ==> r.value in saves && r.value.player == player
    ensures timestamp.Some? ==> (r.Some? <==> exists j :: 0 <= j < |saves| && SavedAt(saves[j], player, timestamp.value))
    ensures timestamp.Some? && r.Some? ==> r.value.timestamp == timestamp.value
    ensures timestamp.None? ==> (r.Some? <==> exists j :: 0 <= j < |saves| && saves[j].player == player)
    ensures timestamp.None? && r.Some? ==> forall sp :: sp in saves && sp.player == player ==> sp.timestamp <= r.value.timestamp
  {
    match timestamp
    case Some(ts) =>
      (match FirstAt(saves, player, ts)
       case Some(i) => Some(saves[i])
       case None => None)
    case None =>
      (match LatestOf(saves, player, |saves|)
       case Some(i) => Some(saves[i])
       case None => None)
  }

  /** The iterator fold behind `max_by_key`: keep the later save on equal timestamps. */
  method LatestByScan(saves: seq<SavePoint>, player: Address) returns (best: Option<nat>)
    ensures best == LatestOf(saves, player, |saves|)
  {
    best := None;
    var i := 0;
    while i < |saves|
      invariant 0 <= i <= |saves|
      invariant best == LatestOf(saves, player, i)
    {
      if saves[i].player == player {
        if best.None? || saves[best.value].timestamp <= saves[i].timestamp {
          best := Some(i);
        }
      }
      i := i + 1;
    }
  }

  /** Saves are in ledger-time order. */
  predicate Chronological(saves: seq<SavePoint>) {
    forall i, j :: 0 <= i < j < |saves| ==> saves[i].timestamp <= saves[j].timestamp
  }

  /**
   * Since ledger time never goes back, a save made now is what a later
   * "latest" load returns, and the log stays in time order. A load at
   * exactly the current time instead returns the player's first save made
   * in that second, which is an older one when the player saved twice.
   */
  lemma SaveThenLoad(saves: seq<SavePoint>, env: Env, player: Address, data: Bytes64, sha256: seq<byte> -> Bytes32)
    requires player in env.signers
    requires Chronological(saves)
    requires forall sp :: sp in saves ==> sp.timestamp <= env.now
    ensures var (saves', hash) := SaveProgress(saves, env, player, data, sha256).value;
      && Chronological(saves')
      && LoadProgress(saves', player, None) == Some(SavePoint(player, hash, env.now))
      && LoadProgress(saves', player, Some(env.now)).Some?
      && (FirstAt(saves, player, env.now).Some? ==>
            LoadProgress(saves', player, Some(env.now)) == LoadProgress(saves, player, Some(env.now)))
  {
    var (saves', hash) := SaveProgress(saves, env, player, data, sha256).value;
    var sp := SavePoint(player, hash, env.now);
    assert saves' == saves + [sp];
    AppendChronological(saves, sp);
    LatestIsAppended(saves, sp);
    assert saves'[|saves|] == sp;
    if FirstAt(saves, player, env.now).Some? {
      FirstAtPrefix(saves, saves', player, env.now);
    }
  }

  /** A save no earlier than every logged one keeps the log in time order. */
  lemma AppendChronological(saves: seq<SavePoint>, sp: SavePoint)
    requires Chronological(saves)
    requires forall x :: x in saves ==> x.timestamp <= sp.timestamp
    ensures Chronological(saves + [sp])
  {
    var longer := saves + [sp];
    forall i, j | 0 <= i < j < |longer|
      ensures longer[i].timestamp <= longer[j].timestamp
    {
      if j == |saves| {
        assert longer[i] == saves[i];
        assert saves[i] in saves;
      } else {
        assert longer[i] == saves[i] && longer[j] == saves[j];
      }
    }
  }

  /** A save no earlier than every logged one is what the "latest" scan picks. */
  lemma LatestIsAppended(saves: seq<SavePoint>, sp: SavePoint)
    requires forall x :: x in saves ==> x.timestamp <= sp.timestamp
    ensures LatestOf(saves + [sp], sp.player, |saves| + 1) == Some(|saves|)
  {
    var longer := saves + [sp];
    var prev := LatestOf(longer, sp.player, |saves|);
    if prev.Some? {
      assert longer[prev.value] == saves[prev.value];
      assert saves[prev.value] in saves;
    }
  }

  /** Appending saves does not move the first save at a time that already had one. */
  lemma FirstAtPrefix(saves: seq<SavePoint>, longer: seq<SavePoint>, player: Address, ts: nat)
    requires |saves| <= |longer| && longer[..|saves|] == saves
    requires FirstAt(saves, player, ts).Some?
    ensures FirstAt(longer, player, ts) == FirstAt(saves, player, ts)
  {
    var i := FirstAt(saves, player, ts).value;
    assert longer[i] == saves[i];
    forall j | 0 <= j < i ensures !SavedAt(longer[j], player, ts) {
      assert longer[j] == saves[j];
    }
    FirstAtIs(longer, player, ts, i);
  }

  /** The first index holding a matching save is what `FirstAt` finds. */
  lemma FirstAtIs(saves: seq<SavePoint>, player: Address, ts: nat, i: nat)
    requires i < |saves| && SavedAt(saves[i], player, ts)
    requires forall j :: 0 <= j < i ==> !SavedAt(saves[j], player, ts)
    ensures FirstAt(saves, player, ts) == Some(i)
  {
    var found := FirstAt(saves, player, ts);
    assert found.Some?;
  }
}
