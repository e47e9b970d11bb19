/**
 * The event log of the game state contract: an append-only list of game
 * events, queried with an optional player filter and an optional region
 * filter that searches the event's metadata for the region's bytes.
 */
module GameEvents {
  import opened Common
  import opened EventId

  datatype GameEvent = GameEvent(
    eventId: string,
    player: Address,
    eventType: string,
    metadata: Bytes64,
    timestamp: nat)

  /**
   * `log_event`: the player must sign. The event gets the id built from the
   * player's address bytes and the ledger time and is appended at the end
   * of the log; earlier events are untouched. Returns the id.
   * `addrBytes` stands for the host's address-to-`BytesN<32>` conversion.
   */
  function LogEvent(log: seq<GameEvent>, env: Env, player: Address, eventType: string, metadata: Bytes64, addrBytes: Address -> Bytes32)
    : (r: Result<(seq<GameEvent>, string), ()>)
    ensures r.Ok? <==> player in env.signers
    ensures !r.Ok? ==> r == Abort(AuthFailed(player))
    ensures r.Ok? ==>
      var (log', id) := r.value;
      && |log'| == |log| + 1
      && log'[..|log|] == log
      && log'[|log|] == GameEvent(id, player, eventType, metadata, env.now)
      && ParseEventId(id) == Some((addrBytes(player), env.now))
  {
    var _ :- RequireAuth(env, player);
    var id := MakeEventId(addrBytes(player), env.now);
    EventIdRoundTrip(addrBytes(player), env.now);
    Ok((log + [GameEvent(id, player, eventType, metadata, env.now)], id))
  }

  /** Two events a player logs in the same ledger second share their id. */
  lemma SameSecondSameId(log: seq<GameEvent>, env: Env, player: Address, t1: string, m1: Bytes64, t2: string, m2: Bytes64, addrBytes: Address -> Bytes32)
    requires player in env.signers
    ensures var first := LogEvent(log, env, player, t1, m1, addrBytes).value;
      var second := LogEvent(first.0, env, player, t2, m2, addrBytes).value;
      && second.1 == first.1
      && second.0[|log|].eventId == second.0[|log| + 1].eventId
  {
    var first := LogEvent(log, env, player, t1, m1, addrBytes).value;
    var second := LogEvent(first.0, env, player, t2, m2, addrBytes).value;
    EventIdInjective(addrBytes(player), env.now, addrBytes(player), env.now);
    assert second.0[..|first.0|] == first.0;
    assert second.0[|log|] == first.0[|log|];
  }

  // ---------------------------------------------------------------------
  // Byte search
  // ---------------------------------------------------------------------

  /** `needle` sits in `haystack` starting at offset `i`. */
  predicate MatchesAt(haystack: seq<byte>, needle: seq<byte>, i: nat) {
    i + |needle| <= |haystack| && haystack[i..i + |needle|] == needle
  }

  /** `needle` is non-empty and occurs in `haystack` at some offset. */
  predicate Occurs(haystack: seq<byte>, needle: seq<byte>) {
    && 0 < |needle| <= |haystack|
    && exists i: nat :: i <= |haystack| - |needle| && MatchesAt(haystack, needle, i)
  }

  /**
   * `contains_bytes`: false for an empty or overlong needle; otherwise try
   * every offset, comparing byte by byte and giving up on the first mismatch.
   */
  method ContainsBytes(haystack: seq<byte>, needle: seq<byte>) returns (found: bool)
    ensures found <==> Occurs(haystack, needle)
  {
    if |needle| == 0 || |haystack| < |needle| {
      return false;
    }
    var i := 0;
    while i <= |haystack| - |needle|
      invariant 0 <= i <= |haystack| - |needle| + 1
      invariant forall k: nat :: k < i ==> !MatchesAt(haystack, needle, k)
    {
      var matches := true;
      var j := 0;
      while j < |needle|
        invariant 0 <= j <= |needle|
        invariant matches <==> haystack[i..i + j] == needle[..j]
        invariant !matches ==> haystack[i..i + |needle|] != needle
      {
        if haystack[i + j] != needle[j] {
          assert haystack[i..i + |needle|][j] != needle[j];
          matches := false;
          break;
        }
        assert haystack[i..i + (j + 1)] == haystack[i..i + j] + [haystack[i + j]];
        assert needle[..j + 1] == needle[..j] + [needle[j]];
        j := j + 1;
      }
      if matches {
        assert needle[..|needle|] == needle;
        assert MatchesAt(haystack, needle, i);
        return true;
      }
      i := i + 1;
    }
    return false;
  }

  // ---------------------------------------------------------------------
  // Query
  // ---------------------------------------------------------------------

  /**
   * Whether an event passes both filters: an absent filter passes all; a
   * player filter keeps that player's events; a region filter keeps events
   * whose metadata contains the region's 32 bytes (`regionBytes` stands for
   * the host's string-to-`BytesN<32>` conversion).
   */
  predicate Passes(e: GameEvent, player: Option<Address>, region: Option<string>, regionBytes: string -> Bytes32) {
    && (player.None? || e.player == player.value)
    && (region.None? || Occurs(e.metadata, regionBytes(region.value)))
  }

  /** `get_event_log`: the events that pass both filters, in log order. */
  function GetEventLog(log: seq<GameEvent>, player: Option<Address>, region: Option<string>, regionBytes: string -> Bytes32)
    : (r: seq<GameEvent>)
    ensures |r| <= |log|
    ensures forall e :: e in r <==> e in log && Passes(e, player, region, regionBytes)
    decreases |log|
  {
    if |log| == 0 then []
    else
      var rest := GetEventLog(log[1..], player, region, regionBytes);
      assert forall e :: e in log <==> e == log[0] || e in log[1..];
      if Passes(log[0], player, region, regionBytes) then [log[0]] + rest else rest
  }

  /** The loop of `get_event_log`, with `contains_bytes` as written. */
  method GetEventLogByLoop(log: seq<GameEvent>, player: Option<Address>, region: Option<string>, regionBytes: string -> Bytes32)
    returns (filtered: seq<GameEvent>)
    ensures filtered == GetEventLog(log, player, region, regionBytes)
  {
    filtered := [];
    var i := 0;
    while i < |log|
      invariant 0 <= i <= |log|
      invariant filtered == GetEventLog(log[..i], player, region, regionBytes)
    {
      var e := log[i];
      var playerMatch := player.None? || e.player == player.value;
      var regionMatch := true;
      if region.Some? {
        regionMatch := ContainsBytes(e.metadata, regionBytes(region.value));
      }
      FilterAppend(log[..i], [e], player, region, regionBytes);
      assert log[..i + 1] == log[..i] + [e];
      if playerMatch && regionMatch {
        filtered := filtered + [e];
      }
      i := i + 1;
    }
    assert log[..|log|] == log;
  }

  /** Filtering distributes over concatenation, so the filter keeps the log's order. */
  lemma {:induction false} FilterAppend(a: seq<GameEvent>, b: seq<GameEvent>, player: Option<Address>, region: Option<string>, regionBytes: string -> Bytes32)
    ensures GetEventLog(a + b, player, region, regionBytes)
      == GetEventLog(a, player, region, regionBytes) + GetEventLog(b, player, region, regionBytes)
    decreases |a|
  {
    if |a| > 0 {
      assert (a + b)[1..] == a[1..] + b;
      FilterAppend(a[1..], b, player, region, regionBytes);
    } else {
      assert a + b == b;
    }
  }

  /** Without filters the query returns the whole log in order. */
  lemma {:induction false} NoFilterIsWholeLog(log: seq<GameEvent>, regionBytes: string -> Bytes32)
    ensures GetEventLog(log, None, None, regionBytes) == log
    decreases |log|
  {
    if |log| > 0 {
      NoFilterIsWholeLog(log[1..], regionBytes);
      assert [log[0]] + log[1..] == log;
    }
  }

  /**
   * A logged event shows up at the end of every later query whose filters
   * it passes, after the earlier events' results; queries it fails to pass
   * are unchanged.
   */
  lemma LoggedEventQueried(log: seq<GameEvent>, env: Env, player: Address, eventType: string, metadata: Bytes64,
                           addrBytes: Address -> Bytes32, qPlayer: Option<Address>, qRegion: Option<string>, regionBytes: string -> Bytes32)
    requires player in env.signers
    ensures var (log', id) := LogEvent(log, env, player, eventType, metadata, addrBytes).value;
      var e := GameEvent(id, player, eventType, metadata, env.now);
      GetEventLog(log', qPlayer, qRegion, regionBytes)
        == GetEventLog(log, qPlayer, qRegion, regionBytes) + (if Passes(e, qPlayer, qRegion, regionBytes) then [e] else [])
  {
    var (log', id) := LogEvent(log, env, player, eventType, metadata, addrBytes).value;
    var e := GameEvent(id, player, eventType, metadata, env.now);
    assert log' == log + [e];
    FilterAppend(log, [e], qPlayer, qRegion, regionBytes);
    FilterSingle(e, qPlayer, qRegion, regionBytes);
  }

  /** A one-event log filters to itself or to nothing. */
  lemma FilterSingle(e: GameEvent, player: Option<Address>, region: Option<string>, regionBytes: string -> Bytes32)
    ensures GetEventLog([e], player, region, regionBytes) == if Passes(e, player, region, regionBytes) then [e] else []
  {
    assert [e][1..] == [];
  }
}
