/**
 * The game review contract: one review per (game, reviewer), stored twice
 * (under the reviewer and under a per-game review id), with a per-game
 * review count, total of ratings and an incrementally maintained, truncated
 * average rating.
 */
module GameReview {
  import opened Common

  type Bytes = seq<byte>
  type GameId = nat
  type ReviewKey = (GameId, Address)
  type IndexKey = (GameId, nat)

  datatype Review = Review(id: nat, reviewer: Address, rating: nat, comment: Bytes, timestamp: nat)

  datatype ReviewError =
    | AlreadyInitialized
    | Unauthorized
    | InvalidInput
    | ReviewNotFound
    | UserHasReviewed
  {
    /** The `u32` discriminant the contract reports. */
    function Code(): nat {
      match this
      case AlreadyInitialized => 1
      case Unauthorized => 2
      case InvalidInput => 3
      case ReviewNotFound => 4
      case UserHasReviewed => 5
    }
  }

  /**
   * The contract's storage, one field per `DataKey` variant: `Admin`,
   * `ReviewCounts(game)`, `TotalRatings(game)`, `AverageRatings(game)`,
   * `Reviews(game, user)` and `IndexedReviews(game, id)`.
   */
  datatype State = State(
    admin: Option<Address>,
    reviewCounts: map<GameId, nat>,
    totalRatings: map<GameId, nat>,
    averageRatings: map<GameId, nat>,
    reviews: map<ReviewKey, Review>,
    indexed: map<IndexKey, Review>)

  const Fresh: State := State(None, map[], map[], map[], map[], map[])

  // ---------------------------------------------------------------------
  // Storage layer
  // ---------------------------------------------------------------------

  /** A per-game counter read with `unwrap_or(0)`. */
  function CounterOf(m: map<GameId, nat>, game: GameId): (r: nat)
    ensures game in m ==> r == m[game]
    ensures game !in m ==> r == 0
  {
    if game in m then m[game] else 0
  }

  /** `GameReviewStorage::get_admin`: traps when no admin is stored. */
  function StoredAdmin(s: State): (r: Result<Address, ReviewError>)
    ensures r.Ok? <==> s.admin.Some?
    ensures r.Ok? ==> r.value == s.admin.value
    ensures !r.Ok? ==> r == Abort(MissingKey)
  {
    if s.admin.Some? then Ok(s.admin.value) else Abort(MissingKey)
  }

  /** `get_review(game, user)` (storage): traps when the pair has no review. */
  function StoredReview(s: State, game: GameId, user: Address): (r: Result<Review, ReviewError>)
    ensures r.Ok? <==> (game, user) in s.reviews
    ensures r.Ok? ==> r.value == s.reviews[(game, user)]
    ensures !r.Ok? ==> r == Abort(MissingKey)
  {
    if (game, user) in s.reviews then Ok(s.reviews[(game, user)]) else Abort(MissingKey)
  }

  /** `set_review`: a later `get_review` of the same pair reads `review` back; other pairs are untouched. */
  function SetReview(s: State, game: GameId, user: Address, review: Review): (r: State)
    ensures StoredReview(r, game, user) == Ok(review)
    ensures r.admin == s.admin && r.reviewCounts == s.reviewCounts && r.totalRatings == s.totalRatings
    ensures r.averageRatings == s.averageRatings && r.indexed == s.indexed
    ensures r.reviews == s.reviews[(game, user) := review]
  {
    s.(reviews := s.reviews[(game, user) := review])
  }

  /** `get_indexed_reviews(game, id)`: traps when the id has no review. */
  function IndexedReview(s: State, game: GameId, id: nat): (r: Result<Review, ReviewError>)
    ensures r.Ok? <==> (game, id) in s.indexed
    ensures r.Ok? ==> r.value == s.indexed[(game, id)]
    ensures !r.Ok? ==> r == Abort(MissingKey)
  {
    if (game, id) in s.indexed then Ok(s.indexed[(game, id)]) else Abort(MissingKey)
  }

  /** `set_indexed_reviews`: a later `get_indexed_reviews` of the same id reads `review` back; other ids are untouched. */
  function SetIndexedReview(s: State, game: GameId, id: nat, review: Review): (r: State)
    ensures IndexedReview(r, game, id) == Ok(review)
    ensures r.admin == s.admin && r.reviewCounts == s.reviewCounts && r.totalRatings == s.totalRatings
    ensures r.averageRatings == s.averageRatings && r.reviews == s.reviews
    ensures r.indexed == s.indexed[(game, id) := review]
  {
    s.(indexed := s.indexed[(game, id) := review])
  }

  /** `get_review_count`: 0 when unset. */
  function GetReviewCount(s: State, game: GameId): (r: nat)
    ensures game !in s.reviewCounts ==> r == 0
  {
    CounterOf(s.reviewCounts, game)
  }

  /** `set_review_count`: only this game's count changes. */
  function SetReviewCount(s: State, game: GameId, count: nat): (r: State)
    ensures GetReviewCount(r, game) == count
    ensures r.admin == s.admin && r.totalRatings == s.totalRatings && r.averageRatings == s.averageRatings
    ensures r.reviews == s.reviews && r.indexed == s.indexed
    ensures r.reviewCounts == s.reviewCounts[game := count]
  {
    s.(reviewCounts := s.reviewCounts[game := count])
  }

  /** `get_total_reviews` (legacy): reads the `ReviewCounts` key, 0 when unset. */
  function GetTotalReviews(s: State, game: GameId): (r: nat)
    ensures game !in s.reviewCounts ==> r == 0
  {
    if game in s.reviewCounts then s.reviewCounts[game] else 0
  }

  /** `set_total_reviews` (legacy): writes the `ReviewCounts` key. */
  function SetTotalReviews(s: State, game: GameId, count: nat): (r: State)
    ensures GetTotalReviews(r, game) == count
    ensures r.admin == s.admin && r.totalRatings == s.totalRatings && r.averageRatings == s.averageRatings
    ensures r.reviews == s.reviews && r.indexed == s.indexed
    ensures r.reviewCounts == s.reviewCounts[game := count]
  {
    s.(reviewCounts := s.reviewCounts[game := count])
  }

  /** `get_total_ratings`: 0 when unset. */
  function GetTotalRatings(s: State, game: GameId): (r: nat)
    ensures game !in s.totalRatings ==> r == 0
  {
    CounterOf(s.totalRatings, game)
  }

  /** `set_total_ratings`: only this game's total changes. */
  function SetTotalRatings(s: State, game: GameId, total: nat): (r: State)
    ensures GetTotalRatings(r, game) == total
    ensures r.admin == s.admin && r.reviewCounts == s.reviewCounts && r.averageRatings == s.averageRatings
    ensures r.reviews == s.reviews && r.indexed == s.indexed
    ensures r.totalRatings == s.totalRatings[game := total]
  {
    s.(totalRatings := s.totalRatings[game := total])
  }

  /** `get_average_rating`: 0 when unset. */
  function GetAverageRating(s: State, game: GameId): (r: nat)
    ensures game !in s.averageRatings ==> r == 0
  {
    CounterOf(s.averageRatings, game)
  }

  /** `set_average_rating`: only this game's average changes. */
  function SetAverageRating(s: State, game: GameId, avg: nat): (r: State)
    ensures GetAverageRating(r, game) == avg
    ensures r.admin == s.admin && r.reviewCounts == s.reviewCounts && r.totalRatings == s.totalRatings
    ensures r.reviews == s.reviews && r.indexed == s.indexed
    ensures r.averageRatings == s.averageRatings[game := avg]
  {
    s.(averageRatings := s.averageRatings[game := avg])
  }

  /** The legacy total-review accessors and the review-count accessors share one key, so they always agree. */
  lemma TotalReviewsIsReviewCount(s: State, game: GameId, count: nat)
    ensures GetTotalReviews(s, game) == GetReviewCount(s, game)
    ensures SetTotalReviews(s, game, count) == SetReviewCount(s, game, count)
  {
  }

  // ---------------------------------------------------------------------
  // Contract entry points
  // ---------------------------------------------------------------------

  /** `initialize`: refuses a second initialisation; otherwise only the admin changes. */
  function Initialize(s: State, admin: Address): (r: Result<State, ReviewError>)
    ensures r.Ok? <==> s.admin.None?
    ensures !r.Ok? ==> r == Err(AlreadyInitialized)
    ensures r.Ok? ==> r.value.admin == Some(admin) && r.value.(admin := s.admin) == s
  {
    if s.admin.Some? then Err(AlreadyInitialized) else Ok(s.(admin := Some(admin)))
  }

  /** `require_admin`: the stored admin, or `Unauthorized` when there is none. */
  function RequireAdmin(s: State): (r: Result<Address, ReviewError>)
    ensures r.Ok? <==> s.admin.Some?
    ensures r.Ok? ==> r.value == s.admin.value
    ensures !r.Ok? ==> r == Err(Unauthorized)
  {
    if s.admin.None? then Err(Unauthorized) else StoredAdmin(s)
  }

  /** `get_admin`: the stored admin, or `Unauthorized` when there is none. */
  function GetAdmin(s: State): (r: Result<Address, ReviewError>)
    ensures r.Ok? <==> s.admin.Some?
    ensures r.Ok? ==> r.value == s.admin.value
    ensures !r.Ok? ==> r == Err(Unauthorized)
  {
    if s.admin.None? then Err(Unauthorized) else StoredAdmin(s)
  }

  /** `change_admin`: the current admin must exist and sign; only the admin changes. */
  function ChangeAdmin(s: State, env: Env, newAdmin: Address): (r: Result<State, ReviewError>)
    ensures s.admin.None? ==> r == Err(Unauthorized)
    ensures s.admin.Some? && s.admin.value !in env.signers ==> r == Abort(AuthFailed(s.admin.value))
    ensures r.Ok? <==> s.admin.Some? && s.admin.value in env.signers
    ensures r.Ok? ==> r.value.admin == Some(newAdmin) && r.value.(admin := s.admin) == s
  {
    var old_ :- RequireAdmin(s);
    var _ :- RequireAuth(env, old_);
    Ok(s.(admin := Some(newAdmin)))
  }

  /** `has_reviewed`: whether the (game, user) key holds a review. */
  function HasReviewed(s: State, user: Address, game: GameId): bool {
    (game, user) in s.reviews
  }

  /**
   * The average `add_review` stores: the old stored average weighted by the
   * old count, plus the new rating, divided by the new count (truncating).
   */
  function NextAverage(avg: nat, count: nat, rating: nat): nat {
    (avg * count + rating) / (count + 1)
  }

  /**
   * `add_review`: the user must sign, the rating must be 1..=5 and the user
   * must not have reviewed the game yet; no write precedes these checks. On
   * success the review gets id `count + 1` and is stored under both keys,
   * the count rises by one, the rating is added to the total, and the average
   * is recomputed from the stored (already truncated) average.
   */
  function AddReview(
    s: State, env: Env, user: Address, game: GameId, rating: nat, comment: Bytes): (r: Result<State, ReviewError>)
    ensures user !in env.signers ==> r == Abort(AuthFailed(user))
    ensures user in env.signers && !(1 <= rating <= 5) ==> r == Err(InvalidInput)
    ensures user in env.signers && 1 <= rating <= 5 && HasReviewed(s, user, game) ==> r == Err(UserHasReviewed)
    ensures r.Ok? <==> user in env.signers && 1 <= rating <= 5 && !HasReviewed(s, user, game)
    ensures r.Ok? ==>
      var c := GetReviewCount(s, game);
      var review := Review(c + 1, user, rating, comment, env.now);
      && StoredReview(r.value, game, user) == Ok(review)
      && IndexedReview(r.value, game, c + 1) == Ok(review)
      && r.value.reviews == s.reviews[(game, user) := review]
      && r.value.indexed == s.indexed[(game, c + 1) := review]
      && GetReviewCount(r.value, game) == c + 1
      && GetTotalRatings(r.value, game) == GetTotalRatings(s, game) + rating
      && GetAverageRating(r.value, game) == NextAverage(GetAverageRating(s, game), c, rating)
      && r.value.admin == s.admin
    ensures r.Ok? ==> forall g :: g != game ==>
      && GetReviewCount(r.value, g) == GetReviewCount(s, g)
      && GetTotalRatings(r.value, g) == GetTotalRatings(s, g)
      && GetAverageRating(r.value, g) == GetAverageRating(s, g)
  {
    var _ :- RequireAuth(env, user);
    if rating < 1 || rating > 5 then Err(InvalidInput)
    else
      var totalReviews := GetReviewCount(s, game);
      var reviewId := totalReviews + 1;
      var review := Review(reviewId, user, rating, comment, env.now);
      if HasReviewed(s, user, game) then Err(UserHasReviewed)
      else Ok(RecordReview(s, game, review))
  }

  /**
   * The storage writes of an accepted review, in the order `add_review`
   * makes them: both review keys, then the count, the average (from the
   * stored average and the count), and the total.
   */
  function RecordReview(s: State, game: GameId, review: Review): (r: State)
    ensures r.reviews == s.reviews[(game, review.reviewer) := review]
    ensures r.indexed == s.indexed[(game, review.id) := review]
    ensures r.reviewCounts == s.reviewCounts[game := GetReviewCount(s, game) + 1]
    ensures r.averageRatings == s.averageRatings[game :=
      NextAverage(GetAverageRating(s, game), GetReviewCount(s, game), review.rating)]
    ensures r.totalRatings == s.totalRatings[game := GetTotalRatings(s, game) + review.rating]
    ensures r.admin == s.admin
  {
    var s1 := SetReview(s, game, review.reviewer, review);
    var s2 := SetIndexedReview(s1, game, review.id, review);
    assert s2.reviewCounts == s.reviewCounts && s2.averageRatings == s.averageRatings && s2.totalRatings == s.totalRatings;
    var currentCount := GetReviewCount(s2, game);
    var s3 := SetReviewCount(s2, game, currentCount + 1);
    var currentAvg := GetAverageRating(s3, game);
    assert currentAvg == GetAverageRating(s, game);
    var s4 := SetAverageRating(s3, game, NextAverage(currentAvg, currentCount, review.rating));
    var currentTotal := GetTotalRatings(s4, game);
    assert currentTotal == GetTotalRatings(s, game);
    SetTotalRatings(s4, game, currentTotal + review.rating)
  }

  /**
   * `delete_review`: the admin must exist and sign, and the id must hold a
   * review. Both keys of that review are removed; the count drops by one
   * unless it is already 0; when the total covers the rating, the rating is
   * subtracted and the average recomputed from the new total (0 when no
   * review remains), otherwise total and average are left as they were.
   */
  function DeleteReview(s: State, env: Env, game: GameId, reviewId: nat): (r: Result<State, ReviewError>)
    ensures s.admin.None? ==> r == Err(Unauthorized)
    ensures s.admin.Some? && s.admin.value !in env.signers ==> r == Abort(AuthFailed(s.admin.value))
    ensures s.admin.Some? && s.admin.value in env.signers && (game, reviewId) !in s.indexed ==> r == Err(ReviewNotFound)
    ensures r.Ok? <==> s.admin.Some? && s.admin.value in env.signers && (game, reviewId) in s.indexed
    ensures r.Ok? ==>
      var review := s.indexed[(game, reviewId)];
      var c := GetReviewCount(s, game);
      var t := GetTotalRatings(s, game);
      && !HasReviewed(r.value, review.reviewer, game)
      && (game, reviewId) !in r.value.indexed
      && r.value.reviews == s.reviews - {(game, review.reviewer)}
      && r.value.indexed == s.indexed - {(game, reviewId)}
      && GetReviewCount(r.value, game) == (if c > 0 then c - 1 else 0)
      && (t >= review.rating ==>
            && GetTotalRatings(r.value, game) == t - review.rating
            && GetAverageRating(r.value, game) == (if c > 1 then (t - review.rating) / (c - 1) else 0))
      && (t < review.rating ==>
            && GetTotalRatings(r.value, game) == t
            && GetAverageRating(r.value, game) == GetAverageRating(s, game))
      && r.value.admin == s.admin
    ensures r.Ok? ==> forall g :: g != game ==>
      && GetReviewCount(r.value, g) == GetReviewCount(s, g)
      && GetTotalRatings(r.value, g) == GetTotalRatings(s, g)
      && GetAverageRating(r.value, g) == GetAverageRating(s, g)
  {
    var admin :- RequireAdmin(s);
    var _ :- RequireAuth(env, admin);
    if (game, reviewId) !in s.indexed then Err(ReviewNotFound)
    else
      var review := s.indexed[(game, reviewId)];
      var s1 := s.(reviews := s.reviews - {(game, review.reviewer)}, indexed := s.indexed - {(game, reviewId)});
      var currentCount := GetReviewCount(s1, game);
      var s2 := if currentCount > 0 then SetReviewCount(s1, game, currentCount - 1) else s1;
      var totalRatings := GetTotalRatings(s2, game);
      if totalRatings >= review.rating then
        var newTotal := totalRatings - review.rating;
        var s3 := SetTotalRatings(s2, game, newTotal);
        Ok(SetAverageRating(s3, game, if currentCount > 1 then newTotal / (currentCount - 1) else 0))
      else
        Ok(s2)
  }

  /** `get_review`: the user's review of the game, or `ReviewNotFound` exactly when `has_reviewed` is false. */
  function GetReview(s: State, game: GameId, user: Address): (r: Result<Review, ReviewError>)
    ensures !r.Abort?
    ensures r.Err? <==> !HasReviewed(s, user, game)
    ensures r.Err? ==> r.error == ReviewNotFound
    ensures r.Ok? ==> r.value == s.reviews[(game, user)]
  {
    if !HasReviewed(s, user, game) then Err(ReviewNotFound) else StoredReview(s, game, user)
  }

  // ---------------------------------------------------------------------
  // Pagination by review id
  // ---------------------------------------------------------------------

  /** The stored reviews with ids in `[lo, hi)`, in id order. */
  function ReviewWindow(s: State, game: GameId, lo: nat, hi: nat): (r: seq<Review>)
    ensures |r| <= if lo <= hi then hi - lo else 0
    decreases hi
  {
    if hi <= lo then []
    else ReviewWindow(s, game, lo, hi - 1) + (if (game, hi - 1) in s.indexed then [s.indexed[(game, hi - 1)]] else [])
  }

  /** Reference listing: the ids in `[lo, hi)` that hold a review, strictly ascending. */
  function PresentIds(s: State, game: GameId, lo: nat, hi: nat): (ids: seq<nat>)
    ensures forall i, j :: 0 <= i < j < |ids| ==> ids[i] < ids[j]
    ensures forall i :: i in ids <==> lo <= i < hi && (game, i) in s.indexed
    decreases hi
  {
    if hi <= lo then []
    else
      var prefix := PresentIds(s, game, lo, hi - 1);
      assert forall k :: 0 <= k < |prefix| ==> prefix[k] in prefix;
      if (game, hi - 1) in s.indexed then
        assert forall i :: i in prefix + [hi - 1] <==> i in prefix || i == hi - 1;
        prefix + [hi - 1]
      else prefix
  }

  /** The window lists, in order, exactly the reviews stored under the present ids. */
  lemma {:induction false} WindowListsPresentIds(s: State, game: GameId, lo: nat, hi: nat)
    ensures |ReviewWindow(s, game, lo, hi)| == |PresentIds(s, game, lo, hi)|
    ensures forall k :: 0 <= k < |ReviewWindow(s, game, lo, hi)| ==>
      (game, PresentIds(s, game, lo, hi)[k]) in s.indexed &&
      ReviewWindow(s, game, lo, hi)[k] == s.indexed[(game, PresentIds(s, game, lo, hi)[k])]
    decreases hi
  {
    if hi > lo {
      WindowListsPresentIds(s, game, lo, hi - 1);
    }
  }

  /**
   * `get_reviews(game, skip, limit)`: empty when the game has no reviews or
   * `skip + 1` exceeds the count; otherwise the stored reviews with ids in
   * `skip + 1 ..= min(skip + limit, count)`, in id order, skipping deleted ids.
   */
  function GetReviews(s: State, game: GameId, skip: nat, limit: nat): (r: seq<Review>)
    ensures GetReviewCount(s, game) == 0 ==> r == []
    ensures skip + 1 > GetReviewCount(s, game) ==> r == []
    ensures skip < GetReviewCount(s, game) ==>
      r == ReviewWindow(s, game, skip + 1, Min(skip + limit, GetReviewCount(s, game)) + 1)
    ensures |r| <= limit
  {
    var totalReviews := GetReviewCount(s, game);
    if totalReviews == 0 then []
    else
      var startId := skip + 1;
      if startId > totalReviews then []
      else
        var endId := Min(startId + limit - 1, totalReviews);
        ReviewWindow(s, game, startId, endId + 1)
  }

  /** `get_reviews`'s loop over `start_id..=end_id`, pushing each id that holds a review. */
  method GetReviewsByLoop(s: State, game: GameId, skip: nat, limit: nat) returns (r: seq<Review>)
    ensures r == GetReviews(s, game, skip, limit)
  {
    r := [];
    var totalReviews := GetReviewCount(s, game);
    if totalReviews == 0 {
      return;
    }
    var startId := skip + 1;
    if startId > totalReviews {
      return;
    }
    var endId := Min(startId + limit - 1, totalReviews);
    var i := startId;
    while i <= endId
      invariant startId <= i <= endId + 1
      invariant r == ReviewWindow(s, game, startId, i)
    {
      if (game, i) in s.indexed {
        r := r + [s.indexed[(game, i)]];
      }
      i := i + 1;
    }
  }

  // ---------------------------------------------------------------------
  // Invariant of reachable states
  // ---------------------------------------------------------------------

  /** The user-keyed reviews of one game. */
  ghost function GameKeys(s: State, game: GameId): set<ReviewKey> {
    set k | k in s.reviews && k.0 == game
  }

  /** The sum of the ratings stored under `keys`. */
  ghost function SumRatings(keys: set<ReviewKey>, m: map<ReviewKey, Review>): nat
    requires keys <= m.Keys
    decreases keys
  {
    if keys == {} then 0
    else
      var k :| k in keys;
      m[k].rating + SumRatings(keys - {k}, m)
  }

  lemma {:induction false} SumRatingsPick(keys: set<ReviewKey>, m: map<ReviewKey, Review>, k: ReviewKey)
    requires keys <= m.Keys && k in keys
    ensures SumRatings(keys, m) == m[k].rating + SumRatings(keys - {k}, m)
    decreases keys
  {
    var j :| j in keys && SumRatings(keys, m) == m[j].rating + SumRatings(keys - {j}, m);
    if j != k {
      SumRatingsPick(keys - {j}, m, k);
      SumRatingsPick(keys - {k}, m, j);
      assert keys - {j} - {k} == keys - {k} - {j};
    }
  }

  lemma {:induction false} SumRatingsFrame(keys: set<ReviewKey>, m1: map<ReviewKey, Review>, m2: map<ReviewKey, Review>)
    requires keys <= m1.Keys && keys <= m2.Keys
    requires forall k :: k in keys ==> m1[k].rating == m2[k].rating
    ensures SumRatings(keys, m1) == SumRatings(keys, m2)
    decreases keys
  {
    if keys != {} {
      var k :| k in keys && SumRatings(keys, m1) == m1[k].rating + SumRatings(keys - {k}, m1);
      SumRatingsPick(keys, m2, k);
      SumRatingsFrame(keys - {k}, m1, m2);
    }
  }

  lemma {:induction false} SumRatingsBounds(keys: set<ReviewKey>, m: map<ReviewKey, Review>)
    requires keys <= m.Keys
    requires forall k :: k in keys ==> 1 <= m[k].rating <= 5
    ensures |keys| <= SumRatings(keys, m) <= 5 * |keys|
    decreases keys
  {
    if keys != {} {
      var k :| k in keys && SumRatings(keys, m) == m[k].rating + SumRatings(keys - {k}, m);
      SumRatingsBounds(keys - {k}, m);
    }
  }

  /** Every user-keyed review sits under its own reviewer and has a rating in 1..=5. */
  ghost predicate ReviewsWellFormed(s: State) {
    forall k :: k in s.reviews ==> s.reviews[k].reviewer == k.1 && 1 <= s.reviews[k].rating <= 5
  }

  /** Every id-keyed review carries its id and is the very review stored under its reviewer. */
  ghost predicate IndexPointsToReviews(s: State) {
    forall k :: k in s.indexed ==>
      && s.indexed[k].id == k.1
      && (k.0, s.indexed[k].reviewer) in s.reviews
      && s.reviews[(k.0, s.indexed[k].reviewer)] == s.indexed[k]
  }

  /** A game's count is the number of its user-keyed reviews. */
  ghost predicate CountsMatch(s: State) {
    forall g :: GetReviewCount(s, g) == |GameKeys(s, g)|
  }

  /** A game's total is the sum of its user-keyed reviews' ratings. */
  ghost predicate TotalsMatch(s: State) {
    forall g :: GetTotalRatings(s, g) == SumRatings(GameKeys(s, g), s.reviews)
  }

  /**
   * The stored average is 0 without reviews, lies in 1..=5 with reviews,
   * and never exceeds the exact mean `total / count`.
   */
  ghost predicate AverageBounded(s: State) {
    forall g ::
      && GetAverageRating(s, g) * GetReviewCount(s, g) <= GetTotalRatings(s, g)
      && (GetReviewCount(s, g) == 0 ==> GetAverageRating(s, g) == 0)
      && (GetReviewCount(s, g) > 0 ==> 1 <= GetAverageRating(s, g) <= 5)
  }

  ghost predicate Valid(s: State) {
    && ReviewsWellFormed(s)
    && IndexPointsToReviews(s)
    && CountsMatch(s)
    && TotalsMatch(s)
    && AverageBounded(s)
  }

  lemma FreshValid()
    ensures Valid(Fresh)
  {
    forall g ensures GameKeys(Fresh, g) == {} {
    }
  }

  /** The invariant only reads the reviews and the counters, so changing the admin keeps it. */
  lemma AdminChangeKeepsValid(s: State, a: Option<Address>)
    requires Valid(s)
    ensures Valid(s.(admin := a))
  {
    var t := s.(admin := a);
    forall g ensures GameKeys(t, g) == GameKeys(s, g) && GetReviewCount(t, g) == GetReviewCount(s, g)
      && GetTotalRatings(t, g) == GetTotalRatings(s, g) && GetAverageRating(t, g) == GetAverageRating(s, g) {
    }
  }

  lemma InitializePreservesValid(s: State, admin: Address)
    requires Valid(s)
    ensures Initialize(s, admin).Ok? ==> Valid(Initialize(s, admin).value)
  {
    AdminChangeKeepsValid(s, Some(admin));
  }

  lemma ChangeAdminPreservesValid(s: State, env: Env, newAdmin: Address)
    requires Valid(s)
    ensures ChangeAdmin(s, env, newAdmin).Ok? ==> Valid(ChangeAdmin(s, env, newAdmin).value)
  {
    AdminChangeKeepsValid(s, Some(newAdmin));
  }

  /** `(x / d) * d` never exceeds `x`. */
  lemma DivMulLe(x: nat, d: nat)
    requires d > 0
    ensures (x / d) * d <= x
  {
    assert x == (x / d) * d + x % d;
  }

  /** For a positive factor, `a * d < b * d` only when `a < b`. */
  lemma MulLtCancel(a: int, b: int, d: nat)
    requires d > 0 && a * d < b * d
    ensures a < b
  {
    assert (b - a) * d == b * d - a * d;
  }

  /** Dividing a value between `lo * d` and `hi * d` by `d` lands between `lo` and `hi`. */
  lemma DivBetween(x: nat, d: nat, lo: nat, hi: nat)
    requires d > 0 && lo * d <= x <= hi * d
    ensures lo <= x / d <= hi
  {
    var q, m := x / d, x % d;
    assert x == q * d + m && 0 <= m < d;
    assert (q + 1) * d == q * d + d;
    MulLtCancel(lo, q + 1, d);
    assert (hi + 1) * d == hi * d + d;
    MulLtCancel(q, hi + 1, d);
  }

  /** The new average after an insert respects the bounds, given the old one did. */
  lemma InsertAverageBounded(a: nat, c: nat, t: nat, rating: nat)
    requires 1 <= rating <= 5
    requires a * c <= t
    requires c == 0 ==> a == 0
    requires c > 0 ==> 1 <= a <= 5
    ensures ((a * c + rating) / (c + 1)) * (c + 1) <= t + rating
    ensures 1 <= (a * c + rating) / (c + 1) <= 5
  {
    DivMulLe(a * c + rating, c + 1);
    if c == 0 {
      assert a * c + rating == rating;
    } else {
      assert 1 * c <= a * c <= 5 * c;
      DivBetween(a * c + rating, c + 1, 1, 5);
    }
  }

  /** Storing a review under `key` adds `key` to its game's keys and leaves other games' keys alone. */
  lemma GameKeysAfterPut(s: State, t: State, key: ReviewKey, v: Review)
    requires t.reviews == s.reviews[key := v]
    ensures GameKeys(t, key.0) == GameKeys(s, key.0) + {key}
    ensures forall g :: g != key.0 ==> GameKeys(t, g) == GameKeys(s, g)
  {
  }

  /** Removing `key` drops it from its game's keys and leaves other games' keys alone. */
  lemma GameKeysAfterRemove(s: State, t: State, key: ReviewKey)
    requires t.reviews == s.reviews - {key}
    ensures GameKeys(t, key.0) == GameKeys(s, key.0) - {key}
    ensures forall g :: g != key.0 ==> GameKeys(t, g) == GameKeys(s, g)
  {
  }

  /** A new well-formed review indexed under its id keeps both review maps consistent. */
  lemma InsertKeepsIndex(s: State, t: State, game: GameId, review: Review)
    requires ReviewsWellFormed(s) && IndexPointsToReviews(s)
    requires (game, review.reviewer) !in s.reviews && 1 <= review.rating <= 5
    requires t.reviews == s.reviews[(game, review.reviewer) := review]
    requires t.indexed == s.indexed[(game, review.id) := review]
    ensures ReviewsWellFormed(t) && IndexPointsToReviews(t)
  {
    forall k | k in t.indexed
      ensures t.indexed[k].id == k.1 && (k.0, t.indexed[k].reviewer) in t.reviews
        && t.reviews[(k.0, t.indexed[k].reviewer)] == t.indexed[k]
    {
      if k != (game, review.id) {
        assert k in s.indexed;
        assert (k.0, s.indexed[k].reviewer) in s.reviews;
      }
    }
  }

  /** Adding one review to a game raises its count by one and its total by the rating, matching the keys. */
  lemma InsertKeepsTotals(s: State, t: State, key: ReviewKey, v: Review)
    requires CountsMatch(s) && TotalsMatch(s) && key !in s.reviews
    requires t.reviews == s.reviews[key := v]
    requires GetReviewCount(t, key.0) == GetReviewCount(s, key.0) + 1
    requires GetTotalRatings(t, key.0) == GetTotalRatings(s, key.0) + v.rating
    requires forall g :: g != key.0 ==> GetReviewCount(t, g) == GetReviewCount(s, g) && GetTotalRatings(t, g) == GetTotalRatings(s, g)
    ensures CountsMatch(t) && TotalsMatch(t)
  {
    GameKeysAfterPut(s, t, key, v);
    forall g
      ensures GetReviewCount(t, g) == |GameKeys(t, g)|
      ensures GetTotalRatings(t, g) == SumRatings(GameKeys(t, g), t.reviews)
    {
      SumRatingsFrame(GameKeys(s, g), s.reviews, t.reviews);
      if g == key.0 {
        assert GameKeys(t, g) - {key} == GameKeys(s, g);
        SumRatingsPick(GameKeys(t, g), t.reviews, key);
      }
    }
  }

  /** The recomputed insert average keeps the average bounds. */
  lemma InsertKeepsAverage(s: State, t: State, game: GameId, rating: nat)
    requires AverageBounded(s) && 1 <= rating <= 5
    requires GetReviewCount(t, game) == GetReviewCount(s, game) + 1
    requires GetTotalRatings(t, game) == GetTotalRatings(s, game) + rating
    requires GetAverageRating(t, game) == NextAverage(GetAverageRating(s, game), GetReviewCount(s, game), rating)
    requires forall g :: g != game ==>
      && GetReviewCount(t, g) == GetReviewCount(s, g)
      && GetTotalRatings(t, g) == GetTotalRatings(s, g)
      && GetAverageRating(t, g) == GetAverageRating(s, g)
    ensures AverageBounded(t)
  {
    InsertAverageBounded(GetAverageRating(s, game), GetReviewCount(s, game), GetTotalRatings(s, game), rating);
  }

  /**
   * A successful review insert keeps the invariant: the new key joins the
   * game's reviews, the count and total follow, and the recomputed average
   * stays in range and never exceeds the exact mean.
   */
  lemma AddReviewPreservesValid(s: State, env: Env, user: Address, game: GameId, rating: nat, comment: Bytes)
    requires Valid(s)
    ensures AddReview(s, env, user, game, rating, comment).Ok? ==> Valid(AddReview(s, env, user, game, rating, comment).value)
  {
    var r := AddReview(s, env, user, game, rating, comment);
    if r.Ok? {
      var t := r.value;
      var review := Review(GetReviewCount(s, game) + 1, user, rating, comment, env.now);
      InsertKeepsIndex(s, t, game, review);
      InsertKeepsTotals(s, t, (game, user), review);
      InsertKeepsAverage(s, t, game, rating);
    }
  }

  /** Two id-keyed reviews of one game by the same reviewer are the same entry. */
  lemma IndexInjective(s: State, k1: IndexKey, k2: IndexKey)
    requires IndexPointsToReviews(s)
    requires k1 in s.indexed && k2 in s.indexed && k1.0 == k2.0
    requires s.indexed[k1].reviewer == s.indexed[k2].reviewer
    ensures k1 == k2
  {
    assert s.indexed[k1] == s.reviews[(k1.0, s.indexed[k1].reviewer)] == s.indexed[k2];
  }

  /** In a consistent state a stored review is counted, and its rating is part of its game's total. */
  lemma StoredReviewCounted(s: State, key: ReviewKey)
    requires ReviewsWellFormed(s) && CountsMatch(s) && TotalsMatch(s) && key in s.reviews
    ensures GetReviewCount(s, key.0) >= 1
    ensures GetTotalRatings(s, key.0) == s.reviews[key].rating + SumRatings(GameKeys(s, key.0) - {key}, s.reviews)
  {
    assert key in GameKeys(s, key.0);
    SumRatingsPick(GameKeys(s, key.0), s.reviews, key);
  }

  /** Removing a review together with its id-keyed entry keeps both review maps consistent. */
  lemma RemoveKeepsIndex(s: State, t: State, k: IndexKey)
    requires ReviewsWellFormed(s) && IndexPointsToReviews(s) && k in s.indexed
    requires t.reviews == s.reviews - {(k.0, s.indexed[k].reviewer)}
    requires t.indexed == s.indexed - {k}
    ensures ReviewsWellFormed(t) && IndexPointsToReviews(t)
  {
    forall j | j in t.indexed
      ensures t.indexed[j].id == j.1 && (j.0, t.indexed[j].reviewer) in t.reviews
        && t.reviews[(j.0, t.indexed[j].reviewer)] == t.indexed[j]
    {
      if j.0 == k.0 && s.indexed[j].reviewer == s.indexed[k].reviewer {
        IndexInjective(s, j, k);
      }
    }
  }

  /** Removing one counted review lowers its game's count by one and its total by the rating. */
  lemma RemoveKeepsTotals(s: State, t: State, key: ReviewKey)
    requires ReviewsWellFormed(s) && CountsMatch(s) && TotalsMatch(s) && key in s.reviews
    requires t.reviews == s.reviews - {key}
    requires GetReviewCount(t, key.0) == GetReviewCount(s, key.0) - 1
    requires GetTotalRatings(t, key.0) == GetTotalRatings(s, key.0) - s.reviews[key].rating
    requires forall g :: g != key.0 ==> GetReviewCount(t, g) == GetReviewCount(s, g) && GetTotalRatings(t, g) == GetTotalRatings(s, g)
    ensures CountsMatch(t) && TotalsMatch(t)
  {
    GameKeysAfterRemove(s, t, key);
    StoredReviewCounted(s, key);
    forall g
      ensures GetReviewCount(t, g) == |GameKeys(t, g)|
      ensures GetTotalRatings(t, g) == SumRatings(GameKeys(t, g), t.reviews)
    {
      SumRatingsFrame(GameKeys(t, g), s.reviews, t.reviews);
    }
  }

  /** An average recomputed from the exact total (0 without reviews) keeps the average bounds. */
  lemma RecomputedAverageBounded(s: State, t: State, game: GameId)
    requires AverageBounded(s) && ReviewsWellFormed(t) && CountsMatch(t) && TotalsMatch(t)
    requires GetAverageRating(t, game) ==
      if GetReviewCount(t, game) > 0 then GetTotalRatings(t, game) / GetReviewCount(t, game) else 0
    requires forall g :: g != game ==>
      && GetReviewCount(t, g) == GetReviewCount(s, g)
      && GetTotalRatings(t, g) == GetTotalRatings(s, g)
      && GetAverageRating(t, g) == GetAverageRating(s, g)
    ensures AverageBounded(t)
  {
    var c := GetReviewCount(t, game);
    if c > 0 {
      SumRatingsBounds(GameKeys(t, game), t.reviews);
      DivMulLe(GetTotalRatings(t, game), c);
      DivBetween(GetTotalRatings(t, game), c, 1, 5);
    }
  }

  /**
   * In a reachable state a successful delete always takes the main branch:
   * the count drops by exactly one and the rating is subtracted from the
   * total. The invariant is preserved.
   */
  lemma DeleteReviewPreservesValid(s: State, env: Env, game: GameId, reviewId: nat)
    requires Valid(s)
    ensures var r := DeleteReview(s, env, game, reviewId);
      r.Ok? ==>
        && GetReviewCount(r.value, game) == GetReviewCount(s, game) - 1
        && GetTotalRatings(r.value, game) == GetTotalRatings(s, game) - s.indexed[(game, reviewId)].rating
        && Valid(r.value)
  {
    var r := DeleteReview(s, env, game, reviewId);
    if r.Ok? {
      var t := r.value;
      var review := s.indexed[(game, reviewId)];
      var key := (game, review.reviewer);
      StoredReviewCounted(s, key);
      RemoveKeepsIndex(s, t, (game, reviewId));
      RemoveKeepsTotals(s, t, key);
      RecomputedAverageBounded(s, t, game);
    }
  }

  // ---------------------------------------------------------------------
  // Worked examples
  // ---------------------------------------------------------------------

  /** Ratings 5 then 3 on a fresh game give a stored average of 4. */
  lemma AverageOfFiveAndThree(env: Env, admin: Address, u1: Address, u2: Address, game: GameId, comment: Bytes)
    requires u1 in env.signers && u2 in env.signers && u1 != u2
    ensures var s0 := Initialize(Fresh, admin).value;
      && AddReview(s0, env, u1, game, 5, comment).Ok?
      && var s1 := AddReview(s0, env, u1, game, 5, comment).value;
      && AddReview(s1, env, u2, game, 3, comment).Ok?
      && GetAverageRating(AddReview(s1, env, u2, game, 3, comment).value, game) == 4
  {
    var s0 := Initialize(Fresh, admin).value;
    var r1 := AddReview(s0, env, u1, game, 5, comment);
    assert r1.Ok?;
    assert GetReviewCount(r1.value, game) == 1;
    var r2 := AddReview(r1.value, env, u2, game, 3, comment);
    assert r2.Ok?;
    assert GetAverageRating(r2.value, game) == NextAverage(NextAverage(0, 0, 5), 1, 3);
    assert NextAverage(NextAverage(0, 0, 5), 1, 3) == 4;
  }

  /**
   * Truncation drift: ratings 1, 1, 3, 3 leave a stored average of 1 although
   * the total is 8 over 4 reviews (exact mean 2), because each step divides
   * the previously truncated average.
   */
  lemma AverageDrifts(env: Env, u1: Address, u2: Address, u3: Address, u4: Address, game: GameId, comment: Bytes)
    requires {u1, u2, u3, u4} <= env.signers
    requires u1 != u2 && u1 != u3 && u1 != u4 && u2 != u3 && u2 != u4 && u3 != u4
    ensures var r1 := AddReview(Fresh, env, u1, game, 1, comment);
      && r1.Ok?
      && var r2 := AddReview(r1.value, env, u2, game, 1, comment);
      && r2.Ok?
      && var r3 := AddReview(r2.value, env, u3, game, 3, comment);
      && r3.Ok?
      && var r4 := AddReview(r3.value, env, u4, game, 3, comment);
      && r4.Ok?
      && GetReviewCount(r4.value, game) == 4
      && GetTotalRatings(r4.value, game) == 8
      && GetAverageRating(r4.value, game) == 1
  {
    DriftSteps(env, u1, u2, u3, u4, game, comment);
    var s1 := AddReview(Fresh, env, u1, game, 1, comment).value;
    var s2 := AddReview(s1, env, u2, game, 1, comment).value;
    var s3 := AddReview(s2, env, u3, game, 3, comment).value;
    var s4 := AddReview(s3, env, u4, game, 3, comment).value;
    assert GetAverageRating(s4, game) == NextAverage(NextAverage(NextAverage(NextAverage(0, 0, 1), 1, 1), 2, 3), 3, 3);
    DriftArithmetic();
  }

  /** The four reviews of the drift example are all accepted, with the counts and totals they imply. */
  lemma DriftSteps(env: Env, u1: Address, u2: Address, u3: Address, u4: Address, game: GameId, comment: Bytes)
    requires {u1, u2, u3, u4} <= env.signers
    requires u1 != u2 && u1 != u3 && u1 != u4 && u2 != u3 && u2 != u4 && u3 != u4
    ensures var r1 := AddReview(Fresh, env, u1, game, 1, comment);
      && r1.Ok? && GetReviewCount(r1.value, game) == 1
      && var r2 := AddReview(r1.value, env, u2, game, 1, comment);
      && r2.Ok? && GetReviewCount(r2.value, game) == 2
      && var r3 := AddReview(r2.value, env, u3, game, 3, comment);
      && r3.Ok? && GetReviewCount(r3.value, game) == 3
      && var r4 := AddReview(r3.value, env, u4, game, 3, comment);
      && r4.Ok? && GetReviewCount(r4.value, game) == 4
      && GetTotalRatings(r4.value, game) == 8
  {
    DriftFirstTwo(env, u1, u2, u3, u4, game, comment);
    var s1 := AddReview(Fresh, env, u1, game, 1, comment).value;
    var s2 := AddReview(s1, env, u2, game, 1, comment).value;
    var r3 := AddReview(s2, env, u3, game, 3, comment);
    assert (game, u4) !in r3.value.reviews;
  }

  /** The first two reviews of the drift example are accepted and leave the other two users free to review. */
  lemma DriftFirstTwo(env: Env, u1: Address, u2: Address, u3: Address, u4: Address, game: GameId, comment: Bytes)
    requires {u1, u2} <= env.signers
    requires u1 != u2 && u1 != u3 && u1 != u4 && u2 != u3 && u2 != u4
    ensures var r1 := AddReview(Fresh, env, u1, game, 1, comment);
      && r1.Ok? && GetReviewCount(r1.value, game) == 1
      && var r2 := AddReview(r1.value, env, u2, game, 1, comment);
      && r2.Ok? && GetReviewCount(r2.value, game) == 2 && GetTotalRatings(r2.value, game) == 2
      && (game, u3) !in r2.value.reviews && (game, u4) !in r2.value.reviews
  {
    var r1 := AddReview(Fresh, env, u1, game, 1, comment);
    assert r1.Ok?;
    var s1 := r1.value;
    assert (game, u2) !in s1.reviews && (game, u3) !in s1.reviews && (game, u4) !in s1.reviews;
  }

  /** The stored averages after ratings 1, 1, 3, 3: 1, then (1 + 1) / 2 = 1, (2 + 3) / 3 = 1, (3 + 3) / 4 = 1. */
  lemma DriftArithmetic()
    ensures NextAverage(NextAverage(NextAverage(NextAverage(0, 0, 1), 1, 1), 2, 3), 3, 3) == 1
  {
  }

  /**
   * Review ids are reused after a delete: with reviews 1 (by `a`) and 2 (by
   * `b`), deleting review 1 lowers the count to 1, so the next review (by
   * `c`) is given id 2 again and overwrites `b`'s id-keyed entry, while `b`'s
   * user-keyed review remains.
   */
  lemma ReviewIdReusedAfterDelete(
    env: Env, admin: Address, a: Address, b: Address, c: Address, game: GameId, comment: Bytes)
    requires {admin, a, b, c} <= env.signers
    requires a != b && a != c && b != c
    ensures var s0 := Initialize(Fresh, admin).value;
      && var r1 := AddReview(s0, env, a, game, 4, comment);
      && r1.Ok?
      && var r2 := AddReview(r1.value, env, b, game, 2, comment);
      && r2.Ok?
      && var r3 := DeleteReview(r2.value, env, game, 1);
      && r3.Ok?
      && var r4 := AddReview(r3.value, env, c, game, 5, comment);
      && r4.Ok?
      && IndexedReview(r4.value, game, 2) == Ok(Review(2, c, 5, comment, env.now))
      && HasReviewed(r4.value, b, game)
      && GetReview(r4.value, game, b) == Ok(Review(2, b, 2, comment, env.now))
  {
    var s0 := Initialize(Fresh, admin).value;
    var r1 := AddReview(s0, env, a, game, 4, comment);
    var r2 := AddReview(r1.value, env, b, game, 2, comment);
    assert r2.value.indexed[(game, 1)].reviewer == a;
    var r3 := DeleteReview(r2.value, env, game, 1);
    assert GetReviewCount(r3.value, game) == 1;
  }
}
