/**
 * The game leaderboards contract: tournaments stored under their id, each
 * holding a list of score entries kept in non-increasing score order by
 * insertion. Ranks are never computed into storage: every entry keeps the
 * rank 0 it was created with.
 */
module Leaderboard {
  import opened Common

  type TournamentId = string

  datatype LeaderboardEntry = LeaderboardEntry(player: Address, totalScore: nat, rank: nat)

  datatype Tournament = Tournament(
    id: TournamentId,
    gameId: string,
    startTime: nat,
    endTime: nat,
    entries: seq<LeaderboardEntry>)

  /** Instance storage: one tournament per id. */
  datatype State = State(tournaments: map<TournamentId, Tournament>)

  /** Scores never rise along the list. */
  predicate NonIncreasing(entries: seq<LeaderboardEntry>) {
    forall i, j :: 0 <= i < j < |entries| ==> entries[i].totalScore >= entries[j].totalScore
  }

  /**
   * Where `submit_score` puts a new score: the index of the first entry with
   * a strictly smaller score, or the end of the list.
   */
  function InsertionPoint(entries: seq<LeaderboardEntry>, score: nat): (i: nat)
    ensures i <= |entries|
    ensures forall j :: 0 <= j < i ==> entries[j].totalScore >= score
    ensures i < |entries| ==> entries[i].totalScore < score
  {
    if |entries| == 0 then 0
    else if score > entries[0].totalScore then 0
    else 1 + InsertionPoint(entries[1..], score)
  }

  /** The reference insertion, one entry at a time from the front. */
  function Insert(entries: seq<LeaderboardEntry>, e: LeaderboardEntry): seq<LeaderboardEntry> {
    if |entries| == 0 then [e]
    else if e.totalScore > entries[0].totalScore then [e] + entries
    else [entries[0]] + Insert(entries[1..], e)
  }

  /**
   * The reference insertion places `e` at the insertion point, with the
   * existing entries around it in their old order.
   */
  lemma {:induction false} InsertAtInsertionPoint(entries: seq<LeaderboardEntry>, e: LeaderboardEntry)
    ensures var i := InsertionPoint(entries, e.totalScore);
      Insert(entries, e) == entries[..i] + [e] + entries[i..]
  {
    if |entries| > 0 && e.totalScore <= entries[0].totalScore {
      var rest := entries[1..];
      var k := InsertionPoint(rest, e.totalScore);
      InsertAtInsertionPoint(rest, e);
      assert entries[..k + 1] == [entries[0]] + rest[..k];
      assert entries[k + 1..] == rest[k..];
    }
  }

  /**
   * The loop of `submit_score`: walk the list, insert before the first
   * entry with a strictly smaller score and stop; append when none is found.
   */
  method InsertByScan(entries: seq<LeaderboardEntry>, e: LeaderboardEntry) returns (r: seq<LeaderboardEntry>)
    ensures r == Insert(entries, e)
  {
    var i := 0;
    var inserted := false;
    r := entries;
    while i < |entries|
      invariant 0 <= i <= |entries|
      invariant !inserted
      invariant r == entries
      invariant forall j :: 0 <= j < i ==> entries[j].totalScore >= e.totalScore
      invariant i <= InsertionPoint(entries, e.totalScore)
    {
      if e.totalScore > entries[i].totalScore {
        assert i == InsertionPoint(entries, e.totalScore);
        r := entries[..i] + [e] + entries[i..];
        inserted := true;
        break;
      }
      i := i + 1;
    }
    if !inserted {
      r := entries + [e];
      assert entries[..i] == entries && entries[i..] == [];
    }
    InsertAtInsertionPoint(entries, e);
  }

  /**
   * What insertion promises: one more entry; the new entry sits after every
   * entry scoring at least as much (ties go after) and before the first
   * lower one; removing it gives back the old list, so existing entries
   * keep their order and contents. In a non-increasing list the new entry
   * lands exactly after the entries scoring at least as much.
   */
  lemma InsertSpec(entries: seq<LeaderboardEntry>, e: LeaderboardEntry)
    ensures var r := Insert(entries, e);
      var i := InsertionPoint(entries, e.totalScore);
      && |r| == |entries| + 1
      && r[i] == e
      && r[..i] + r[i + 1..] == entries
      && multiset(r) == multiset(entries) + multiset{e}
      && (forall j :: 0 <= j < i ==> r[j].totalScore >= e.totalScore)
      && (i + 1 < |r| ==> r[i + 1].totalScore < e.totalScore)
      && (NonIncreasing(entries) ==> forall j :: 0 <= j < |entries| ==> (j < i <==> entries[j].totalScore >= e.totalScore))
  {
    InsertSplices(entries, e);
    InsertPlacement(entries, e);
    InsertAddsOne(entries, e);
    if NonIncreasing(entries) {
      SortedInsertionPoint(entries, e.totalScore);
    }
  }

  /** The new entry sits at the insertion point and the old entries surround it unchanged. */
  lemma InsertSplices(entries: seq<LeaderboardEntry>, e: LeaderboardEntry)
    ensures var r := Insert(entries, e);
      var i := InsertionPoint(entries, e.totalScore);
      && |r| == |entries| + 1
      && r[i] == e
      && r[..i] == entries[..i]
      && r[i + 1..] == entries[i..]
  {
    InsertAtInsertionPoint(entries, e);
  }

  /** Removing the new entry gives back the old list; higher or equal scores precede it and a lower one follows it. */
  lemma InsertPlacement(entries: seq<LeaderboardEntry>, e: LeaderboardEntry)
    ensures var r := Insert(entries, e);
      var i := InsertionPoint(entries, e.totalScore);
      && |r| == |entries| + 1
      && r[..i] + r[i + 1..] == entries
      && (forall j :: 0 <= j < i ==> r[j].totalScore >= e.totalScore)
      && (i + 1 < |r| ==> r[i + 1].totalScore < e.totalScore)
  {
    var r := Insert(entries, e);
    var i := InsertionPoint(entries, e.totalScore);
    InsertSplices(entries, e);
    assert entries == entries[..i] + entries[i..];
    forall j | 0 <= j < i ensures r[j].totalScore >= e.totalScore {
      assert r[j] == r[..i][j];
    }
    if i + 1 < |r| {
      assert r[i + 1] == r[i + 1..][0];
    }
  }

  /** Insertion adds exactly the new entry to the multiset of entries. */
  lemma {:induction false} InsertAddsOne(entries: seq<LeaderboardEntry>, e: LeaderboardEntry)
    ensures multiset(Insert(entries, e)) == multiset(entries) + multiset{e}
  {
    if |entries| > 0 && e.totalScore <= entries[0].totalScore {
      InsertAddsOne(entries[1..], e);
      assert entries == [entries[0]] + entries[1..];
    }
  }

  /** In a non-increasing list the insertion point splits the entries scoring at least `score` from the rest. */
  lemma SortedInsertionPoint(entries: seq<LeaderboardEntry>, score: nat)
    requires NonIncreasing(entries)
    ensures var i := InsertionPoint(entries, score);
      forall j :: 0 <= j < |entries| ==> (j < i <==> entries[j].totalScore >= score)
  {
    var i := InsertionPoint(entries, score);
    forall j | 0 <= j < |entries| && i <= j ensures entries[j].totalScore < score {
      assert entries[i].totalScore >= entries[j].totalScore;
    }
  }

  /** Inserting into a non-increasing list keeps it non-increasing. */
  lemma InsertKeepsOrder(entries: seq<LeaderboardEntry>, e: LeaderboardEntry)
    requires NonIncreasing(entries)
    ensures NonIncreasing(Insert(entries, e))
  {
    var p := InsertionPoint(entries, e.totalScore);
    var r := Insert(entries, e);
    InsertPointwise(entries, e);
    forall i, j | 0 <= i < j < |r| ensures r[i].totalScore >= r[j].totalScore {
      if j < p {
        assert r[i] == entries[i] && r[j] == entries[j];
      } else if j == p {
        assert r[i] == entries[i];
      } else if i < p {
        assert r[i] == entries[i] && r[j] == entries[j - 1];
      } else if i == p {
        assert r[j] == entries[j - 1];
        assert entries[p].totalScore >= entries[j - 1].totalScore;
      } else {
        assert r[i] == entries[i - 1] && r[j] == entries[j - 1];
      }
    }
  }

  /** Position by position: the entries before the insertion point, the new entry, then the rest shifted by one. */
  lemma InsertPointwise(entries: seq<LeaderboardEntry>, e: LeaderboardEntry)
    ensures var r := Insert(entries, e);
      var p := InsertionPoint(entries, e.totalScore);
      && |r| == |entries| + 1
      && r[p] == e
      && (forall k :: 0 <= k < p ==> r[k] == entries[k])
      && (forall k :: p < k < |r| ==> r[k] == entries[k - 1])
  {
    InsertAtInsertionPoint(entries, e);
  }

  // ---------------------------------------------------------------------
  // Entry points
  // ---------------------------------------------------------------------

  /** The entry `submit_score` stores: the score as total, rank 0. */
  function NewEntry(player: Address, score: nat): LeaderboardEntry {
    LeaderboardEntry(player, score, 0)
  }

  /**
   * `submit_score`: traps when no tournament is stored under the id;
   * otherwise inserts the new entry into the entry list. Only the entry
   * list of that tournament changes; a player may hold any number of
   * entries.
   */
  function SubmitScore(s: State, tid: TournamentId, player: Address, score: nat): (r: Result<State, ()>)
    ensures tid !in s.tournaments ==> r == Abort(MissingKey)
    ensures r.Ok? <==> tid in s.tournaments
    ensures r.Ok? ==>
      var prior := s.tournaments[tid];
      && r.value.tournaments.Keys == s.tournaments.Keys
      && r.value.tournaments[tid] == prior.(entries := r.value.tournaments[tid].entries)
      && |r.value.tournaments[tid].entries| == |prior.entries| + 1
      && multiset(r.value.tournaments[tid].entries) == multiset(prior.entries) + multiset{NewEntry(player, score)}
      && (forall t :: t in s.tournaments && t != tid ==> r.value.tournaments[t] == s.tournaments[t])
  {
    if tid !in s.tournaments then Abort(MissingKey)
    else
      var tournament := s.tournaments[tid];
      var entries := Insert(tournament.entries, NewEntry(player, score));
      InsertSpec(tournament.entries, NewEntry(player, score));
      Ok(State(s.tournaments[tid := tournament.(entries := entries)]))
  }

  /** `create_tournament`: stores a tournament with no entries, replacing any under the same id. */
  function CreateTournament(s: State, tid: TournamentId, gameId: string, startTime: nat, endTime: nat): (r: State)
    ensures tid in r.tournaments && r.tournaments[tid].entries == []
    ensures r.tournaments[tid] == Tournament(tid, gameId, startTime, endTime, [])
    ensures r.tournaments.Keys == s.tournaments.Keys + {tid}
    ensures forall t :: t in s.tournaments && t != tid ==> r.tournaments[t] == s.tournaments[t]
  {
    State(s.tournaments[tid := Tournament(tid, gameId, startTime, endTime, [])])
  }

  /** `get_tournament_results`: the stored entries as they are; traps for an unknown id. */
  function GetTournamentResults(s: State, tid: TournamentId): (r: Result<seq<LeaderboardEntry>, ()>)
    ensures r.Ok? <==> tid in s.tournaments
    ensures !r.Ok? ==> r == Abort(MissingKey)
    ensures r.Ok? ==> r.value == s.tournaments[tid].entries
  {
    if tid in s.tournaments then Ok(s.tournaments[tid].entries) else Abort(MissingKey)
  }

  /** `get_leaderboard`: reads the same storage entry as `get_tournament_results`. */
  function GetLeaderboard(s: State, tid: TournamentId): (r: Result<seq<LeaderboardEntry>, ()>)
    ensures r == GetTournamentResults(s, tid)
  {
    match if tid in s.tournaments then Some(s.tournaments[tid]) else None
    case None => Abort(MissingKey)
    case Some(tournament) => Ok(tournament.entries)
  }

  // ---------------------------------------------------------------------
  // Properties across calls
  // ---------------------------------------------------------------------

  /** Re-creating a tournament discards every entry submitted to it. */
  lemma RecreateResets(s: State, tid: TournamentId, player: Address, score: nat, gameId: string, startTime: nat, endTime: nat)
    requires tid in s.tournaments
    ensures var t := SubmitScore(s, tid, player, score).value;
      GetLeaderboard(CreateTournament(t, tid, gameId, startTime, endTime), tid) == Ok([])
  {
  }

  /** Submissions applied in order, stopping at the first trap. */
  function SubmitAll(s: State, tid: TournamentId, scores: seq<(Address, nat)>): Result<State, ()>
    decreases |scores|
  {
    if |scores| == 0 then Ok(s)
    else
      var next :- SubmitScore(s, tid, scores[0].0, scores[0].1);
      SubmitAll(next, tid, scores[1..])
  }

  /** The entries a sequence of submissions adds, as a multiset. */
  function Submitted(scores: seq<(Address, nat)>): multiset<LeaderboardEntry>
    decreases |scores|
  {
    if |scores| == 0 then multiset{}
    else multiset{NewEntry(scores[0].0, scores[0].1)} + Submitted(scores[1..])
  }

  /**
   * Any sequence of submissions to a freshly created tournament leaves its
   * leaderboard in non-increasing score order, holding exactly the
   * submitted entries, every one with rank 0.
   */
  lemma {:induction false} SubmissionsStaySorted(s: State, tid: TournamentId, scores: seq<(Address, nat)>)
    requires tid in s.tournaments
    requires NonIncreasing(s.tournaments[tid].entries)
    requires forall k :: 0 <= k < |s.tournaments[tid].entries| ==> s.tournaments[tid].entries[k].rank == 0
    ensures var r := SubmitAll(s, tid, scores);
      && r.Ok?
      && tid in r.value.tournaments
      && NonIncreasing(r.value.tournaments[tid].entries)
      && multiset(r.value.tournaments[tid].entries) == multiset(s.tournaments[tid].entries) + Submitted(scores)
      && (forall k :: 0 <= k < |r.value.tournaments[tid].entries| ==> r.value.tournaments[tid].entries[k].rank == 0)
    decreases |scores|
  {
    if |scores| > 0 {
      var e := NewEntry(scores[0].0, scores[0].1);
      var prior := s.tournaments[tid].entries;
      var next := SubmitScore(s, tid, scores[0].0, scores[0].1).value;
      var entries := next.tournaments[tid].entries;
      assert entries == Insert(prior, e);
      InsertKeepsOrder(prior, e);
      forall k | 0 <= k < |entries| ensures entries[k].rank == 0 {
        assert entries[k] in multiset(entries);
        if entries[k] != e {
          assert entries[k] in multiset(prior);
          assert entries[k] in prior;
        }
      }
      SubmissionsStaySorted(next, tid, scores[1..]);
    }
  }
}
