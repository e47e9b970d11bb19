/**
 * The game voting contract: games get sequential ids starting at 1, each
 * address may vote once per game, and a game's vote count only grows.
 */
module Voting {
  import opened Common

  type GameId = nat

  datatype Game = Game(id: GameId, name: string, votes: nat, creator: Address)

  /** Contract errors raised with `panic_with_error!`; the invocation fails and rolls back. */
  datatype VotingError =
    | UserHasVoted
    | GameNotFound
    | GameNameCannotBeEmpty
  {
    function Code(): nat {
      match this
      case UserHasVoted => 101
      case GameNotFound => 102
      case GameNameCannotBeEmpty => 103
    }
  }

  /** Storage: `TotalGames`, `Game(id)` and `HasVoted(voter, id)`. */
  datatype State = State(
    totalGames: Option<nat>,
    games: map<GameId, Game>,
    voted: map<(Address, GameId), bool>)

  const Fresh: State := State(None, map[], map[])

  /** `get_total_games`: 0 when unset. */
  function GetTotalGames(s: State): (r: nat)
    ensures s.totalGames.None? ==> r == 0
  {
    s.totalGames.GetOr(0)
  }

  /** `has_voted`: false unless a `true` flag is stored for the pair. */
  function HasVoted(s: State, user: Address, game: GameId): (r: bool)
    ensures r <==> (user, game) in s.voted && s.voted[(user, game)]
  {
    if (user, game) in s.voted then s.voted[(user, game)] else false
  }

  /** `get_game_votes`: the stored count, 0 for an unknown game. */
  function GetGameVotes(s: State, game: GameId): (r: nat)
    ensures game !in s.games ==> r == 0
    ensures game in s.games ==> r == s.games[game].votes
  {
    match if game in s.games then Some(s.games[game]) else None
    case Some(info) => info.votes
    case None => 0
  }

  /** `get_game_info`: the stored game's fields; traps for an unknown id. */
  function GetGameInfo(s: State, game: GameId): (r: Result<(GameId, string, nat, Address), VotingError>)
    ensures r.Ok? <==> game in s.games
    ensures !r.Ok? ==> r == Abort(MissingKey)
    ensures r.Ok? ==> r.value == (s.games[game].id, s.games[game].name, s.games[game].votes, s.games[game].creator)
  {
    if game !in s.games then Abort(MissingKey)
    else
      var g := s.games[game];
      Ok((g.id, g.name, g.votes, g.creator))
  }

  /**
   * `add_game`: the creator must sign and the name must be non-empty. The
   * new game gets id `total + 1` with no votes, and the total becomes that id.
   */
  function AddGame(s: State, env: Env, creator: Address, name: string): (r: Result<State, VotingError>)
    ensures creator !in env.signers ==> r == Abort(AuthFailed(creator))
    ensures creator in env.signers && |name| == 0 ==> r == Err(GameNameCannotBeEmpty)
    ensures r.Ok? <==> creator in env.signers && |name| > 0
    ensures r.Ok? ==>
      var id := GetTotalGames(s) + 1;
      && GetTotalGames(r.value) == id
      && r.value.games == s.games[id := Game(id, name, 0, creator)]
      && GetGameVotes(r.value, id) == 0
      && r.value.voted == s.voted
  {
    var _ :- RequireAuth(env, creator);
    if |name| == 0 then Err(GameNameCannotBeEmpty)
    else
      var gameId := GetTotalGames(s) + 1;
      var game := Game(gameId, name, 0, creator);
      Ok(s.(games := s.games[gameId := game], totalGames := Some(gameId)))
  }

  /**
   * `vote`: the voter must sign, the game must exist and the voter must not
   * have voted for it. The game's count rises by exactly one and the pair is
   * flagged; every other game and every other flag is unchanged.
   */
  function Vote(s: State, env: Env, voter: Address, game: GameId): (r: Result<State, VotingError>)
    ensures voter !in env.signers ==> r == Abort(AuthFailed(voter))
    ensures voter in env.signers && game !in s.games ==> r == Err(GameNotFound)
    ensures voter in env.signers && game in s.games && HasVoted(s, voter, game) ==> r == Err(UserHasVoted)
    ensures r.Ok? <==> voter in env.signers && game in s.games && !HasVoted(s, voter, game)
    ensures r.Ok? ==>
      && GetGameVotes(r.value, game) == GetGameVotes(s, game) + 1
      && HasVoted(r.value, voter, game)
      && r.value.games.Keys == s.games.Keys
      && r.value.games[game] == s.games[game].(votes := s.games[game].votes + 1)
      && (forall g :: g != game ==> GetGameVotes(r.value, g) == GetGameVotes(s, g))
      && (forall u: Address, g: GameId :: (u, g) != (voter, game) ==> HasVoted(r.value, u, g) == HasVoted(s, u, g))
      && GetTotalGames(r.value) == GetTotalGames(s)
  {
    var _ :- RequireAuth(env, voter);
    if game !in s.games then Err(GameNotFound)
    else if HasVoted(s, voter, game) then Err(UserHasVoted)
    else
      var info := s.games[game];
      var updated := info.(votes := info.votes + 1);
      Ok(s.(games := s.games[game := updated], voted := s.voted[(voter, game) := true]))
  }

  // ---------------------------------------------------------------------
  // Invariant of reachable states
  // ---------------------------------------------------------------------

  /** The voters flagged for one game. */
  ghost function VotersOf(s: State, game: GameId): set<Address> {
    set k | k in s.voted && s.voted[k] && k.1 == game :: k.0
  }

  /** The stored games are exactly ids `1..=total`, each stored under its own id. */
  ghost predicate GamesNumbered(s: State) {
    forall id :: id in s.games <==> 1 <= id <= GetTotalGames(s)
  }

  ghost predicate GamesKeyedById(s: State) {
    forall id :: id in s.games ==> s.games[id].id == id
  }

  /** Votes are only ever flagged for existing games. */
  ghost predicate FlagsForExistingGames(s: State) {
    forall k :: k in s.voted && s.voted[k] ==> k.1 in s.games
  }

  /** A game's vote count is the number of distinct voters flagged for it. */
  ghost predicate VotesCounted(s: State) {
    forall id :: id in s.games ==> s.games[id].votes == |VotersOf(s, id)|
  }

  ghost predicate Valid(s: State) {
    GamesNumbered(s) && GamesKeyedById(s) && FlagsForExistingGames(s) && VotesCounted(s)
  }

  lemma FreshValid()
    ensures Valid(Fresh)
  {
  }

  /** Adding a game keeps the numbering dense and starts the new game with no voters. */
  lemma AddGamePreservesValid(s: State, env: Env, creator: Address, name: string)
    requires Valid(s)
    ensures AddGame(s, env, creator, name).Ok? ==> Valid(AddGame(s, env, creator, name).value)
  {
    var r := AddGame(s, env, creator, name);
    if r.Ok? {
      var t := r.value;
      var id := GetTotalGames(s) + 1;
      assert id !in s.games;
      assert VotersOf(t, id) == {};
      forall g | g in t.games ensures t.games[g].votes == |VotersOf(t, g)| {
        if g != id {
          assert VotersOf(t, g) == VotersOf(s, g);
        }
      }
    }
  }

  /** A successful vote adds exactly one new voter to that game's set and one to its count. */
  lemma VotePreservesValid(s: State, env: Env, voter: Address, game: GameId)
    requires Valid(s)
    ensures var r := Vote(s, env, voter, game);
      r.Ok? ==> Valid(r.value) && VotersOf(r.value, game) == VotersOf(s, game) + {voter}
  {
    var r := Vote(s, env, voter, game);
    if r.Ok? {
      var t := r.value;
      assert t.voted == s.voted[(voter, game) := true];
      assert t.games == s.games[game := s.games[game].(votes := s.games[game].votes + 1)];
      VoteStepValid(s, t, voter, game);
    }
  }

  /** One more flag for a game nobody-yet-counted voter, with that game's count raised by one, keeps the invariant. */
  lemma VoteStepValid(s: State, t: State, voter: Address, game: GameId)
    requires Valid(s) && game in s.games && !HasVoted(s, voter, game)
    requires t.voted == s.voted[(voter, game) := true]
    requires t.games == s.games[game := s.games[game].(votes := s.games[game].votes + 1)]
    requires t.totalGames == s.totalGames
    ensures Valid(t) && VotersOf(t, game) == VotersOf(s, game) + {voter}
  {
    assert voter !in VotersOf(s, game);
    FlagAddsVoter(s, t, voter, game);
    assert GamesNumbered(t) && GamesKeyedById(t);
    forall k | k in t.voted && t.voted[k] ensures k.1 in t.games {
      if k != (voter, game) {
        assert k in s.voted && s.voted[k];
      }
    }
    forall id | id in t.games ensures t.games[id].votes == |VotersOf(t, id)| {
      if id == game {
        assert |VotersOf(t, game)| == |VotersOf(s, game)| + 1;
      } else {
        assert VotersOf(t, id) == VotersOf(s, id);
      }
    }
  }

  /** Setting one flag to true adds that voter to that game's voters and leaves every other game's voters alone. */
  lemma FlagAddsVoter(s: State, t: State, voter: Address, game: GameId)
    requires t.voted == s.voted[(voter, game) := true]
    ensures VotersOf(t, game) == VotersOf(s, game) + {voter}
    ensures forall g :: g != game ==> VotersOf(t, g) == VotersOf(s, g)
  {
    forall u | u in VotersOf(t, game) ensures u in VotersOf(s, game) + {voter} {
      if u != voter {
        assert (u, game) in s.voted && s.voted[(u, game)];
      }
    }
    assert (voter, game) in t.voted && t.voted[(voter, game)];
    forall g | g != game ensures VotersOf(t, g) == VotersOf(s, g) {
      forall u | u in VotersOf(t, g) ensures u in VotersOf(s, g) {
        assert (u, g) in s.voted && s.voted[(u, g)];
      }
      forall u | u in VotersOf(s, g) ensures u in VotersOf(t, g) {
        assert (u, g) in t.voted && t.voted[(u, g)];
      }
    }
  }

  /** Vote counts never decrease across any successful call. */
  lemma VotesNeverDecrease(s: State, env: Env, voter: Address, creator: Address, name: string, game: GameId, g: GameId)
    requires Valid(s)
    ensures Vote(s, env, voter, game).Ok? ==> GetGameVotes(Vote(s, env, voter, game).value, g) >= GetGameVotes(s, g)
    ensures AddGame(s, env, creator, name).Ok? ==> GetGameVotes(AddGame(s, env, creator, name).value, g) >= GetGameVotes(s, g)
  {
    if AddGame(s, env, creator, name).Ok? && g == GetTotalGames(s) + 1 {
      assert g !in s.games;
    }
  }

  /** Once a vote succeeds, the same voter's second vote on that game fails with `UserHasVoted`. */
  lemma SecondVoteRejected(s: State, env: Env, voter: Address, game: GameId)
    requires Vote(s, env, voter, game).Ok?
    ensures Vote(Vote(s, env, voter, game).value, env, voter, game) == Err(UserHasVoted)
  {
  }

  /**
   * The worked scenario: two games added, two distinct voters on game 1 and
   * one on game 2 give counts 2 and 1, and the total is 2.
   */
  lemma TwoGamesThreeVotes(env: Env, creator: Address, a: Address, b: Address, n1: string, n2: string)
    requires {creator, a, b} <= env.signers && a != b && |n1| > 0 && |n2| > 0
    ensures var s1 := AddGame(Fresh, env, creator, n1);
      && s1.Ok?
      && var s2 := AddGame(s1.value, env, creator, n2);
      && s2.Ok?
      && var s3 := Vote(s2.value, env, a, 1);
      && s3.Ok?
      && var s4 := Vote(s3.value, env, b, 1);
      && s4.Ok?
      && var s5 := Vote(s4.value, env, a, 2);
      && s5.Ok?
      && GetGameVotes(s5.value, 1) == 2
      && GetGameVotes(s5.value, 2) == 1
      && GetTotalGames(s5.value) == 2
  {
    var s2 := AddGame(AddGame(Fresh, env, creator, n1).value, env, creator, n2);
    assert GetTotalGames(s2.value) == 2 && 1 in s2.value.games && 2 in s2.value.games;
    var s3 := Vote(s2.value, env, a, 1);
    assert !HasVoted(s3.value, b, 1) && !HasVoted(s3.value, a, 2);
    var s4 := Vote(s3.value, env, b, 1);
    assert !HasVoted(s4.value, a, 2);
  }
}
