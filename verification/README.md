# Arcadis Soroban contracts in Dafny

This project models the on-chain part of the Arcadis gaming platform. That part is a set of Soroban smart contracts:

- the game asset registry;
- game reviews with ratings;
- game voting;
- player identity and achievements;
- the marketplace: trade offers, an escrow ledger, trade history and auctions;
- tournament leaderboards;
- game state: save points, per-region world state and an event log.

Each contract's storage is an immutable Dafny datatype. Each entry point is a pure function from that state to a `Result` (module `Common`). The `Result` is one of three outcomes:

- `Ok`: the new state or the returned value;
- `Err`: the contract's typed error;
- `Abort`: a host trap. A trap is an `unwrap`/`expect` on a missing storage entry, a `require_auth` on an address that did not sign, or a failed token transfer.

A Soroban invocation that fails rolls back all of its writes. So a failed outcome carries no state, and "nothing is written before the check" holds by construction. Host facilities are parameters:

- the ledger time, the set of signing addresses and the token contract's answer to a transfer live in `Env`;
- SHA-256 and the address/string to `BytesN<32>` conversions are function parameters.

Modules follow the source files:

- `Common`, `IdIndex`, `AssetRegistry`: the asset registry;
- `GameReview`, `Voting`, `PlayerIdentity`: reviews, voting and identity;
- `MarketTypes`, `MarketEscrow`, `MarketTrade`, `MarketAuction`, `MarketContract`: the marketplace;
- `Leaderboard`: leaderboards;
- `EventId`, `GameEvents`, `GameSave`, `GameWorld`: game state.

Several behaviours of the contracts are modelled as written and exhibited by lemmas:

- The review average is recomputed from the previously truncated average, so it drifts below the exact mean (`GameReview.AverageDrifts`).
- Review ids are reused after a delete (`GameReview.ReviewIdReusedAfterDelete`).
- `create_trade_offer` unwraps the item, its listed flag and an offer entry. So an item without a stored offer entry can never be offered, and a traded or delisted item can never be offered again (`MarketContract.TradedItemCannotBeRelisted`).
- A trade offer is not withdrawn when the item is auctioned off. After the winner claims the item, another buyer can still execute the old offer without the winner's consent. Only the buyer and the former owner must authorise that call, because the seller's escrow deposit debits the former owner (`MarketContract.StaleOfferOutlivesAuction`).
- Leaderboard ranks are never written: every stored entry keeps rank 0 (`Leaderboard.SubmissionsStaySorted`).
- The identity contract's `initialize` has no guard, so calling it again resets the profile counter and profile ids are reused (`PlayerIdentity.ReinitializeReusesIds`).

The username check of `create_profile` scans only the profile ids up to the counter. While no re-initialisation has happened, every stored profile is within the counter (`PlayerIdentity.Valid`), so the scan sees every stored username.

## Model

| member | source | states |
|---|---|---|
| IdIndex.AddUnique | apps/contracts/contracts/asset-registry/src/storage.rs:99-111 | the id is present afterwards, the list keeps its prefix and membership becomes old ∪ {id}; it grows by one exactly when the id was absent, and a duplicate-free list stays duplicate-free |
| IdIndex.AddByScan | apps/contracts/contracts/asset-registry/src/storage.rs:99-111 | the early-return scan followed by a push computes the idempotent append |
| IdIndex.RemoveFirst | apps/contracts/contracts/asset-registry/src/storage.rs:119-133 | removing an absent id is a no-op; otherwise the list shrinks by exactly one |
| IdIndex.RemoveFirstAt | apps/contracts/contracts/asset-registry/src/storage.rs:119-133 | the removal cuts the list at the first index holding the id and keeps everything else in order |
| IdIndex.RemoveByScan | apps/contracts/contracts/asset-registry/src/storage.rs:119-133 | the find-index-then-remove loop equals removal of the first occurrence |
| IdIndex.RemoveFirstNoDup | apps/contracts/contracts/asset-registry/src/storage.rs:119-133 | on a duplicate-free list the result is duplicate-free and holds exactly the other ids |
| IdIndex.AddThenRemove | apps/contracts/contracts/asset-registry/src/storage.rs:99-133 | adding an absent id and then removing it restores the original list |
| IdIndex.Paginate | apps/contracts/contracts/asset-registry/src/lib.rs:282-305 | the page is empty when skip is at or past the end; otherwise it has min(limit, len - skip) ids and its k-th id is the list's (skip + k)-th |
| IdIndex.PaginateByLoop | apps/contracts/contracts/asset-registry/src/lib.rs:282-305 | the push loop over start..end computes that window |
| IdIndex.PagesConcatenate | apps/contracts/contracts/asset-registry/src/lib.rs:282-305 | two consecutive pages read the same ids as one page covering both |
| AssetRegistry.StoredAdmin | apps/contracts/contracts/asset-registry/src/storage.rs:25-28 | reading the admin traps exactly when none is stored |
| AssetRegistry.SetAsset | apps/contracts/contracts/asset-registry/src/storage.rs:35-64 | after storing a record, `has_asset` of its id is true and `get_asset` reads it back; other ids and the indexes are untouched |
| AssetRegistry.GetAsset | apps/contracts/contracts/asset-registry/src/storage.rs:48-51 | succeeds exactly for stored ids and traps otherwise |
| AssetRegistry.GetUserAssets | apps/contracts/contracts/asset-registry/src/storage.rs:74-80 | an owner never written reads as the empty list |
| AssetRegistry.AddUserAsset | apps/contracts/contracts/asset-registry/src/storage.rs:99-111 | the owner's list becomes the idempotent append of the id; every other owner's list and all other storage are unchanged |
| AssetRegistry.RemoveUserAsset | apps/contracts/contracts/asset-registry/src/storage.rs:119-133 | the owner's list loses the first occurrence of the id; every other list is unchanged |
| AssetRegistry.GetAllAssetIds | apps/contracts/contracts/asset-registry/src/storage.rs:142-148 | an unset global list reads as empty |
| AssetRegistry.AddAssetId | apps/contracts/contracts/asset-registry/src/storage.rs:165-177 | the global list becomes the idempotent append of the id; nothing else changes |
| AssetRegistry.GetAssetCount | apps/contracts/contracts/asset-registry/src/storage.rs:186-189 | an unset count reads as 0 |
| AssetRegistry.IncrementAssetCount | apps/contracts/contracts/asset-registry/src/storage.rs:205-208 | the count rises by exactly one and nothing else changes |
| AssetRegistry.Initialize | apps/contracts/contracts/asset-registry/src/lib.rs:25-38 | `AlreadyInitialized` once an admin is stored; otherwise only the admin is set |
| AssetRegistry.ChangeAdmin | apps/contracts/contracts/asset-registry/src/lib.rs:40-54 | traps without a stored admin or without the admin's signature; otherwise only the admin changes |
| AssetRegistry.GetAdmin | apps/contracts/contracts/asset-registry/src/lib.rs:56-62 | an uninitialised contract answers `AlreadyInitialized`; otherwise the stored admin |
| AssetRegistry.RegisterAsset | apps/contracts/contracts/asset-registry/src/lib.rs:64-120 | admin trap, then `InvalidInput` for an empty name or item type, then `AssetAlreadyRegistered`; success exactly when all pass; the asset is stored with the given owner and metadata and an empty history, listed under its owner and globally, and the count rises by one |
| AssetRegistry.TransferAsset | apps/contracts/contracts/asset-registry/src/lib.rs:122-171 | signature trap, then `AssetNotFound`, then `Unauthorized` for a non-owner; success exactly when `from` signs and owns the asset; only the lists of `from` and `to` change, and admin, global list and count stay |
| AssetRegistry.UpdateMetadata | apps/contracts/contracts/asset-registry/src/lib.rs:173-221 | `AssetNotFound`, then `Unauthorized` unless the user is the admin or the owner, then the user's signature; the indexes are untouched |
| AssetRegistry.GetAssetInfo | apps/contracts/contracts/asset-registry/src/lib.rs:223-235 | the stored record, or `AssetNotFound` exactly when the id is unknown |
| AssetRegistry.GetAssetMetadata | apps/contracts/contracts/asset-registry/src/lib.rs:237-246 | the stored metadata, or `AssetNotFound` exactly when the id is unknown |
| AssetRegistry.GetAssetHistory | apps/contracts/contracts/asset-registry/src/lib.rs:248-262 | the stored ownership history, or `AssetNotFound` exactly when the id is unknown |
| AssetRegistry.StoredIds | apps/contracts/contracts/asset-registry/src/lib.rs:272-276 | the `has_asset` filter keeps exactly the listed ids that have a stored record, is never longer than the list, and keeps the whole list when every id is stored |
| AssetRegistry.RecordsOf | apps/contracts/contracts/asset-registry/src/lib.rs:264-280 | one record per listed id that is stored, in list order: the k-th record is the record of the k-th stored id, so unstored ids are skipped |
| AssetRegistry.RecordsOfMembers | apps/contracts/contracts/asset-registry/src/lib.rs:264-280 | a record is fetched exactly when it is stored under some listed id |
| AssetRegistry.GetUserAssetRecords | apps/contracts/contracts/asset-registry/src/lib.rs:264-280 | `get_user_assets` returns, in list order, the record of every id in the owner's list that is stored, and a record appears exactly when some listed stored id holds it |
| AssetRegistry.GetAllAssets | apps/contracts/contracts/asset-registry/src/lib.rs:282-305 | `ids[skip .. min(skip + limit, len)]` of the global list in registration order, empty when skip ≥ len |
| AssetRegistry.InitializePreservesValid | apps/contracts/contracts/asset-registry/src/lib.rs:25-38 | setting the admin keeps the index invariant: count = length of the global list, the global list enumerates exactly the stored ids without duplicates, records sit under their own id, and each owner's list holds exactly that owner's assets |
| AssetRegistry.ChangeAdminPreservesValid | apps/contracts/contracts/asset-registry/src/lib.rs:40-54 | changing the admin keeps the index invariant |
| AssetRegistry.RegisterPreservesValid | apps/contracts/contracts/asset-registry/src/lib.rs:82-114 | a registration keeps the index invariant and appends the new id exactly once to the global list and to the owner's list |
| AssetRegistry.TransferEffect | apps/contracts/contracts/asset-registry/src/lib.rs:130-165 | a transfer sets owner := `to`, appends one history record naming `from`, the time and the reason, changes no other record, and leaves the id listed under `to` and no longer under `from`, with the invariant kept |
| AssetRegistry.UpdateMetadataEffect | apps/contracts/contracts/asset-registry/src/lib.rs:182-215 | a metadata update replaces the metadata wholesale, keeps owner, id and history, and keeps the invariant |
| AssetRegistry.UserAssetRecordsOwned | apps/contracts/contracts/asset-registry/src/lib.rs:264-280 | under the invariant an owner's record list is as long as its id list and every record belongs to that owner |
| AssetRegistry.RegisterThenTransferScenario | apps/contracts/contracts/asset-registry/src/lib.rs:64-171 | register then transfer: the count is 1, the history holds one record naming the first owner, the first owner lists nothing and the second lists one asset |
| GameReview.StoredAdmin | apps/contracts/contracts/game-review/src/storage.rs:25-28 | reading the admin traps exactly when none is stored |
| GameReview.StoredReview | apps/contracts/contracts/game-review/src/storage.rs:51-54 | reading a (game, user) review traps exactly when none is stored |
| GameReview.SetReview | apps/contracts/contracts/game-review/src/storage.rs:37-54 | a stored review reads back under its (game, user) key; other keys read as before |
| GameReview.IndexedReview | apps/contracts/contracts/game-review/src/storage.rs:161-164 | reading a (game, id) review traps exactly when none is stored |
| GameReview.SetIndexedReview | apps/contracts/contracts/game-review/src/storage.rs:161-176 | a stored review reads back under its (game, id) key; other keys read as before |
| GameReview.GetReviewCount | apps/contracts/contracts/game-review/src/storage.rs:136-139 | an unset count reads as 0 |
| GameReview.SetReviewCount | apps/contracts/contracts/game-review/src/storage.rs:147-150 | only this game's count changes |
| GameReview.GetTotalRatings | apps/contracts/contracts/game-review/src/storage.rs:88-91 | an unset total reads as 0 |
| GameReview.SetTotalRatings | apps/contracts/contracts/game-review/src/storage.rs:99-102 | only this game's total changes |
| GameReview.GetAverageRating | apps/contracts/contracts/game-review/src/storage.rs:112-115 | an unset average reads as 0 |
| GameReview.SetAverageRating | apps/contracts/contracts/game-review/src/storage.rs:123-126 | only this game's average changes |
| GameReview.TotalReviewsIsReviewCount | apps/contracts/contracts/game-review/src/storage.rs:64-150 | the total-review and review-count accessors share one key, so they read and write the same value |
| GameReview.Initialize | apps/contracts/contracts/game-review/src/lib.rs:37-50 | succeeds exactly when no admin is stored, else `AlreadyInitialized`; only the admin changes |
| GameReview.RequireAdmin | apps/contracts/contracts/game-review/src/lib.rs:331-337 | the stored admin, or `Unauthorized` when there is none |
| GameReview.GetAdmin | apps/contracts/contracts/game-review/src/lib.rs:314-320 | the stored admin, or `Unauthorized` when there is none |
| GameReview.ChangeAdmin | apps/contracts/contracts/game-review/src/lib.rs:63-76 | `Unauthorized` without an admin, a trap without its signature; otherwise only the admin changes |
| GameReview.AddReview | apps/contracts/contracts/game-review/src/lib.rs:92-149 | signature trap, `InvalidInput` outside 1..=5, `UserHasReviewed` for a repeat; on success the review gets id count + 1 under both keys, the count rises by one, the total by the rating, the average becomes (old average × old count + rating) / (old count + 1), and other games are untouched |
| GameReview.DeleteReview | apps/contracts/contracts/game-review/src/lib.rs:163-212 | `Unauthorized`/trap for the admin, `ReviewNotFound` for an absent id; on success both keys go, so `has_reviewed` turns false; the count drops by one but not below 0; total and average are recomputed when the total covers the rating, else left as they were |
| GameReview.GetReview | apps/contracts/contracts/game-review/src/lib.rs:223-229 | never traps; `ReviewNotFound` exactly when `has_reviewed` is false, else the stored review |
| GameReview.PresentIds | apps/contracts/contracts/game-review/src/lib.rs:257-263 | reference listing: the ids in a range that hold a review, strictly ascending |
| GameReview.WindowListsPresentIds | apps/contracts/contracts/game-review/src/lib.rs:257-263 | the id loop returns, in order, exactly the reviews stored under the present ids |
| GameReview.GetReviews | apps/contracts/contracts/game-review/src/lib.rs:241-266 | empty when the count is 0 or skip + 1 exceeds it; otherwise the stored reviews with ids in skip+1 ..= min(skip + limit, count), skipping deleted ids; never more than `limit` |
| GameReview.GetReviewsByLoop | apps/contracts/contracts/game-review/src/lib.rs:241-266 | the loop over start_id..=end_id computes that window |
| GameReview.InitializePreservesValid | apps/contracts/contracts/game-review/src/lib.rs:37-50 | initialising keeps the review invariant: both indexes agree, counts equal the number of reviews, totals equal the sum of ratings, averages lie in 1..=5 (0 without reviews) and never exceed total / count |
| GameReview.ChangeAdminPreservesValid | apps/contracts/contracts/game-review/src/lib.rs:63-76 | changing the admin keeps the review invariant |
| GameReview.RecordReview | apps/contracts/contracts/game-review/src/lib.rs:125-142 | the accepted review's writes, each reading back what the earlier writes left: the review lands under both keys, the count rises by one, the total by the rating and the average is recomputed from the old average and old count; every other key keeps its value |
| GameReview.AddReviewPreservesValid | apps/contracts/contracts/game-review/src/lib.rs:107-142 | an added review keeps the review invariant, including the bounds on the truncated average |
| GameReview.DeleteReviewPreservesValid | apps/contracts/contracts/game-review/src/lib.rs:163-212 | in a consistent state a delete always lowers the count by exactly one and the total by the rating, and keeps the invariant |
| GameReview.AverageOfFiveAndThree | apps/contracts/contracts/game-review/src/lib.rs:135-137 | ratings 5 then 3 give an average of 4 |
| GameReview.AverageDrifts | apps/contracts/contracts/game-review/src/lib.rs:135-137 | ratings 1, 1, 3, 3 store an average of 1 although the total is 8 over 4 reviews |
| GameReview.ReviewIdReusedAfterDelete | apps/contracts/contracts/game-review/src/lib.rs:107-189 | after deleting review 1 of two, the next review is numbered 2 again and overwrites the id-keyed entry of the remaining review, whose user-keyed entry survives |
| Voting.GetTotalGames | contracts/contracts/voting-contract/src/voting.rs:111-116 | 0 before any game is added |
| Voting.HasVoted | contracts/contracts/voting-contract/src/voting.rs:93-98 | true exactly when a true flag is stored for the pair, false by default |
| Voting.GetGameVotes | contracts/contracts/voting-contract/src/voting.rs:101-108 | the stored count, 0 for an unknown game |
| Voting.GetGameInfo | contracts/contracts/voting-contract/src/voting.rs:119-122 | the stored fields, trapping exactly for an unknown id |
| Voting.AddGame | contracts/contracts/voting-contract/src/voting.rs:35-63 | signature trap, `GameNameCannotBeEmpty`; on success the game gets id total + 1 with no votes and its creator, the total becomes that id, and no vote flag changes |
| Voting.Vote | contracts/contracts/voting-contract/src/voting.rs:66-90 | signature trap, `GameNotFound`, `UserHasVoted`; on success that game's count rises by exactly one and the pair is flagged; other games, other flags and the total are unchanged |
| Voting.AddGamePreservesValid | contracts/contracts/voting-contract/src/voting.rs:42-58 | adding a game keeps the invariant: games are exactly ids 1..=total under their own id, flags name existing games, and each count equals the number of distinct flagged voters |
| Voting.VotePreservesValid | contracts/contracts/voting-contract/src/voting.rs:75-85 | a vote adds exactly the voter to that game's voter set and keeps the invariant |
| Voting.VotesNeverDecrease | contracts/contracts/voting-contract/src/voting.rs:35-90 | no successful call lowers any game's vote count |
| Voting.SecondVoteRejected | contracts/contracts/voting-contract/src/voting.rs:75-77 | once a vote succeeds, the same vote again fails with `UserHasVoted` |
| Voting.TwoGamesThreeVotes | contracts/contracts/voting-contract/src/voting.rs:35-90 | two games and three distinct votes give counts 2 and 1 and a total of 2 |
| PlayerIdentity.Initialize | apps/contracts/contracts/player-identity-auth/src/lib.rs:23-26 | stores the admin and resets the counter to 0 without any guard; stored profiles stay |
| PlayerIdentity.GetPlayerProfile | apps/contracts/contracts/player-identity-auth/src/identity.rs:81-87 | the stored profile, or `PlayerNotFound` exactly for an unknown id |
| PlayerIdentity.VerifyCredentials | apps/contracts/contracts/player-identity-auth/src/identity.rs:90-97 | true exactly when the stored hash equals the given one; `PlayerNotFound` for an unknown id |
| PlayerIdentity.IsAdmin | apps/contracts/contracts/player-identity-auth/src/achievements.rs:62-65 | whether the caller is the stored admin; traps when none is stored |
| PlayerIdentity.ProfileIdsUpTo | apps/contracts/contracts/player-identity-auth/src/identity.rs:100-117 | the ids in 1..=n holding a profile, strictly ascending |
| PlayerIdentity.GetAllProfiles | apps/contracts/contracts/player-identity-auth/src/identity.rs:100-117 | the ids in 1..=counter holding a profile, strictly ascending |
| PlayerIdentity.GetAllProfilesByLoop | apps/contracts/contracts/player-identity-auth/src/identity.rs:100-117 | the loop over 1..=counter computes that listing |
| PlayerIdentity.ScanTaken | apps/contracts/contracts/player-identity-auth/src/identity.rs:27-34 | the scan finds a username exactly when a listed id holds a profile bearing it |
| PlayerIdentity.UsernameScanIsExact | apps/contracts/contracts/player-identity-auth/src/identity.rs:27-34 | the scan over all listed profiles finds a name exactly when a profile numbered up to the counter bears it |
| PlayerIdentity.CreateProfile | apps/contracts/contracts/player-identity-auth/src/identity.rs:10-78 | `NotInitialized`, signature trap, `InvalidUsername` above 50, `UsernameTaken`; on success the returned id is counter + 1, the counter becomes it, and the profile starts at level Player with exactly the bootstrap achievement |
| PlayerIdentity.AddAchievement | apps/contracts/contracts/player-identity-auth/src/achievements.rs:9-59 | checks in order initialisation, signature, admin, lengths (100/500/50), player; on success exactly one achievement stamped now is appended and nothing else in any profile changes |
| PlayerIdentity.SetAccessLevel | apps/contracts/contracts/player-identity-auth/src/permissions.rs:9-45 | checks in order initialisation, signature, admin, player; on success only that profile's access level changes |
| PlayerIdentity.AdminCheckIsIsAdmin | apps/contracts/contracts/player-identity-auth/src/permissions.rs:48-51 | the admin check of both managers compares the caller with the stored admin |
| PlayerIdentity.SetAccessLevelIdempotent | apps/contracts/contracts/player-identity-auth/src/permissions.rs:35-36 | setting the same level twice gives the state of setting it once |
| PlayerIdentity.InitializeFreshValid | apps/contracts/contracts/player-identity-auth/src/lib.rs:23-26 | the first initialisation yields the invariant: profiles numbered within the counter, usernames unique |
| PlayerIdentity.CreateProfilePreservesValid | apps/contracts/contracts/player-identity-auth/src/identity.rs:27-77 | while profiles are numbered within the counter, a new profile takes a fresh id and a username no other profile has |
| PlayerIdentity.AddAchievementPreservesValid | apps/contracts/contracts/player-identity-auth/src/achievements.rs:41-50 | adding an achievement keeps the invariant |
| PlayerIdentity.SetAccessLevelPreservesValid | apps/contracts/contracts/player-identity-auth/src/permissions.rs:35-36 | setting a level keeps the invariant |
| PlayerIdentity.ReinitializeReusesIds | apps/contracts/contracts/player-identity-auth/src/lib.rs:23-26 | after a second initialisation the next profile is numbered 1 again, overwrites the old profile 1, and may reuse its username |
| MarketEscrow.InternalGetToken | marketplace/contracts/marketplace/src/escrow.rs:6-13 | the stored token, or `NotInitialized` exactly when none is stored |
| MarketEscrow.DepositEscrow | marketplace/contracts/marketplace/src/escrow.rs:15-38 | `NotInitialized`, then an authorisation trap unless the user signed (the token's transfer needs `from` to authorise), then a trap when the token transfer from the user fails; on success the user's balance (0 by default) rises by the amount, every other balance and all other storage stay, and exactly that one transfer is made |
| MarketEscrow.WithdrawEscrow | marketplace/contracts/marketplace/src/escrow.rs:40-66 | `InsufficientFunds` when the balance is below the amount, then `NotInitialized`, then a transfer trap; on success the balance drops by the amount, others stay, and one transfer from the contract to the user is made |
| MarketEscrow.DepositThenWithdrawRestores | marketplace/contracts/marketplace/src/escrow.rs:15-66 | a deposit followed by a withdrawal of the same amount succeeds when both transfers are accepted and restores every balance and all other storage |
| MarketTrade.CreateTradeOffer | apps/contracts/contracts/marketplace-contract/src/trade.rs:5-67 | signature trap, `InvalidAmount` for price ≤ 0, trap for a missing item, `NotItemOwner`; success exactly when the listed flag and an inactive offer entry are stored for the item; then the offer is active at the price, the item is listed and nothing else changes |
| MarketTrade.ExecuteTrade | apps/contracts/contracts/marketplace-contract/src/trade.rs:69-162 | signature trap, `NotInitialized` for a missing item or offer or an unlisted item, `InvalidCaller` for the seller, `OfferNotActive`; on success the buyer owns the item, the offer is gone, the flag is false, one history entry {seller, buyer, price, now} is appended, the buyer's balance is unchanged, the seller's rises by the price, and the transfers are buyer→contract, contract→buyer, seller→contract; the seller's deposit needs the seller's authorisation too |
| MarketTrade.CancelTradeOffer | apps/contracts/contracts/marketplace-contract/src/trade.rs:164-219 | signature trap, `NotInitialized`, `NotItemOwner`, `ItemNotListed`, `OfferNotActive`; on success the offer is removed, the flag cleared, and the item untouched |
| MarketAuction.StartAuction | marketplace/contracts/marketplace/src/auction.rs:6-78 | signature trap, `InvalidEndTime` for duration 0, `ItemNotFound`, `NotItemOwner`, `ItemNotListed`, `AlreadyInitialized` for an active auction; the new auction ends at now + duration with the seller as highest bidder at the base price, and the item stays listed |
| MarketAuction.PlaceBid | marketplace/contracts/marketplace/src/auction.rs:80-130 | signature trap, `InvalidAmount`, `AuctionNotFound`, `AuctionNotActive`, `InvalidCaller` for the seller, `AuctionAlreadyEnded` when end_time < now, `BidTooLow`; a successful bid strictly raises the highest bid to the bid and sets the bidder; seller, end time and activity stay |
| MarketAuction.ClaimBid | marketplace/contracts/marketplace/src/auction.rs:132-189 | signature trap; `AuctionNotFound`/`ItemNotFound` without the auction or item maps or the auction; then requires an active auction whose end time has come (`AuctionStillRunning` otherwise) and the highest bidder as claimer (`InvalidCaller` otherwise); the item passes to the claimer and the auction stays stored, inactive |
| MarketAuction.CancelAuction | marketplace/contracts/marketplace/src/auction.rs:191-227 | signature trap, `AuctionNotFound`, `AuctionNotActive`, `InvalidCaller` for a non-seller; only the seller of an active auction, and only while the seller is still the highest bidder (`BidAlreadyPlaced` otherwise); the auction entry is removed |
| MarketAuction.EndTimeAdmitsBidAndClaim | marketplace/contracts/marketplace/src/auction.rs:80-189 | at now = end time a qualifying bid is accepted and its bidder may claim at once |
| MarketAuction.BidBlocksCancel | marketplace/contracts/marketplace/src/auction.rs:114-215 | after another address has bid, the seller's cancel fails with `BidAlreadyPlaced` |
| MarketAuction.ClaimCloses | marketplace/contracts/marketplace/src/auction.rs:101-180 | after a claim the claimer owns the item and every further bid or claim fails with `AuctionNotActive` |
| MarketAuction.BidsOnlyRise | marketplace/contracts/marketplace/src/auction.rs:110-122 | across any sequence of accepted bids the highest bid never falls, and ends at the last bid, above where it started |
| MarketContract.Initialize | apps/contracts/contracts/marketplace-contract/src/lib.rs:21-34 | `AlreadyInitialized` when an admin is stored, then the admin's signature; on success exactly the admin and the token are set |
| MarketContract.SetTokenAddress | apps/contracts/contracts/marketplace-contract/src/lib.rs:36-53 | signature trap, `NotInitialized`, `InvalidCaller` for a non-admin; on success only the token address changes |
| MarketContract.GetTradeHistory | apps/contracts/contracts/marketplace-contract/src/history.rs:4-19 | `NotInitialized` while no history map exists; otherwise the item's entries, empty for an item without trades |
| MarketContract.ExecuteAppendsHistory | apps/contracts/contracts/marketplace-contract/src/trade.rs:139-150 | a trade's history query afterwards returns the earlier entries followed by exactly this trade's entry; other items' histories read as before |
| MarketContract.TradedItemCannotBeRelisted | apps/contracts/contracts/marketplace-contract/src/trade.rs:37-44 | after a trade or a cancel, offering the item again traps because its offer entry is gone |
| MarketContract.CreateTradeOfferPreservesValid | apps/contracts/contracts/marketplace-contract/src/trade.rs:48-59 | creating an offer keeps the invariant: active offers are listed, offers sit under their item at a positive price, auctions sit under their item, no balance is negative |
| MarketContract.CancelTradeOfferPreservesValid | apps/contracts/contracts/marketplace-contract/src/trade.rs:209-213 | cancelling keeps the invariant |
| MarketContract.ExecuteTradePreservesValid | apps/contracts/contracts/marketplace-contract/src/trade.rs:120-150 | a trade keeps the invariant; the seller's balance stays non-negative because prices are positive |
| MarketContract.ValidTradeNeverShort | apps/contracts/contracts/marketplace-contract/src/trade.rs:120-136 | under the invariant a trade whose checks pass never fails with `InsufficientFunds` |
| MarketContract.StartAuctionPreservesValid | marketplace/contracts/marketplace/src/auction.rs:57-72 | starting an auction keeps the invariant |
| MarketContract.StepPreservesValid | apps/contracts/contracts/marketplace-contract/src/lib.rs:21-112 | every public entry point, with list, delist and p2p trade delegating to create, cancel and execute, keeps the invariant |
| MarketContract.RunPreservesValid | apps/contracts/contracts/marketplace-contract/src/lib.rs:21-112 | any sequence of calls, failed ones rolled back, keeps the invariant |
| MarketContract.StaleOfferOutlivesAuction | marketplace/contracts/marketplace/src/auction.rs:170-180 | an item offered and then auctioned keeps its active offer; after the winner claims it, a third buyer can execute the old offer without the winner's consent, taking the item from the winner and crediting the former owner; only the buyer and the former owner must authorise it |
| Leaderboard.InsertionPoint | apps/contracts/contracts/game_leaderboards_contract/src/scores.rs:23-37 | the position before which the score goes: every earlier entry scores at least as much and the entry there, if any, scores strictly less |
| Leaderboard.InsertAtInsertionPoint | apps/contracts/contracts/game_leaderboards_contract/src/scores.rs:23-37 | insertion splices the new entry in at the insertion point with the old entries around it |
| Leaderboard.InsertByScan | apps/contracts/contracts/game_leaderboards_contract/src/scores.rs:23-37 | the insert-before-first-smaller loop with the append fallback computes the reference insertion |
| Leaderboard.InsertSpec | apps/contracts/contracts/game_leaderboards_contract/src/scores.rs:22-37 | one more entry; removing the new one gives back the old list (order kept); multiset grows by exactly the new entry; ties go after equal scores; in a sorted list the new entry lands right after the entries scoring at least as much |
| Leaderboard.InsertKeepsOrder | apps/contracts/contracts/game_leaderboards_contract/src/scores.rs:24-37 | inserting into a non-increasing list keeps it non-increasing |
| Leaderboard.SubmitScore | apps/contracts/contracts/game_leaderboards_contract/src/scores.rs:6-48 | traps exactly for an unknown tournament; otherwise its entry list grows by one, gains exactly the new entry with rank 0 (no per-player de-duplication), and the tournament's other fields and other tournaments are unchanged |
| Leaderboard.CreateTournament | apps/contracts/contracts/game_leaderboards_contract/src/tournaments.rs:6-24 | stores the given id, game and times with no entries, replacing any tournament under that id; other tournaments are unchanged |
| Leaderboard.GetTournamentResults | apps/contracts/contracts/game_leaderboards_contract/src/tournaments.rs:26-32 | the stored entries unchanged; traps exactly for an unknown id |
| Leaderboard.GetLeaderboard | apps/contracts/contracts/game_leaderboards_contract/src/leaderboard.rs:4-10 | always answers the same as `get_tournament_results` |
| Leaderboard.RecreateResets | apps/contracts/contracts/game_leaderboards_contract/src/tournaments.rs:6-24 | re-creating a tournament discards the scores submitted to it |
| Leaderboard.SubmissionsStaySorted | apps/contracts/contracts/game_leaderboards_contract/src/scores.rs:6-48 | any run of submissions keeps a sorted leaderboard sorted, holding exactly the old and the submitted entries, every one with rank 0 |
| EventId.HexDigit | apps/contracts/contracts/game_state_management/src/events.rs:35-40 | a nibble becomes a lowercase hex digit, a decimal digit exactly for nibbles below 10 |
| EventId.HexValue | apps/contracts/contracts/game_state_management/src/events.rs:35-40 | the decoder partner: defined exactly on lowercase hex digits, with values below 16 |
| EventId.Hex | apps/contracts/contracts/game_state_management/src/events.rs:34-40 | two lowercase hex characters per byte |
| EventId.HexRoundTrip | apps/contracts/contracts/game_state_management/src/events.rs:34-40 | decoding the hex of any byte string gives the bytes back, so the encoding is high nibble first and loses nothing |
| EventId.Decimal | apps/contracts/contracts/game_state_management/src/events.rs:42-43 | the timestamp as at least one digit, with no leading zero except for 0 itself |
| EventId.DecimalRoundTrip | apps/contracts/contracts/game_state_management/src/events.rs:42-43 | reading the digits back gives the timestamp |
| EventId.MakeEventId | apps/contracts/contracts/game_state_management/src/events.rs:34-46 | 64 hex characters, then `_` at position 64, then only digits |
| EventId.EventIdRoundTrip | apps/contracts/contracts/game_state_management/src/events.rs:34-46 | address bytes and timestamp can be read back from the id |
| EventId.EventIdInjective | apps/contracts/contracts/game_state_management/src/events.rs:34-46 | equal ids come from equal address bytes and timestamps |
| GameEvents.LogEvent | apps/contracts/contracts/game_state_management/src/events.rs:20-64 | traps exactly without the player's signature; otherwise one event carrying the new id, player, type, metadata and now is appended, earlier events are unchanged, and the id parses back to the player's bytes and the time |
| GameEvents.SameSecondSameId | apps/contracts/contracts/game_state_management/src/events.rs:27-46 | two events of one player in the same ledger second get the same id |
| GameEvents.ContainsBytes | apps/contracts/contracts/game_state_management/src/events.rs:94-113 | true exactly when the needle is non-empty and occurs at some offset 0..=h−n |
| GameEvents.GetEventLog | apps/contracts/contracts/game_state_management/src/events.rs:66-91 | the result holds exactly the logged events passing both filters (player equality; region bytes contained in the metadata) and is no longer than the log |
| GameEvents.GetEventLogByLoop | apps/contracts/contracts/game_state_management/src/events.rs:75-88 | the filtering loop, with the byte search as written, computes that result |
| GameEvents.FilterAppend | apps/contracts/contracts/game_state_management/src/events.rs:75-89 | filtering distributes over concatenation, so results keep log order |
| GameEvents.NoFilterIsWholeLog | apps/contracts/contracts/game_state_management/src/events.rs:71-89 | without filters the query returns the whole log in order |
| GameEvents.LoggedEventQueried | apps/contracts/contracts/game_state_management/src/events.rs:56-89 | after logging, every query returns its earlier result followed by the new event exactly when the event passes its filters |
| GameSave.SaveProgress | apps/contracts/contracts/game_state_management/src/save.rs:13-35 | traps exactly without the player's signature; otherwise appends one save point {player, sha256(data), now} at the end and returns the hash |
| GameSave.FirstAt | apps/contracts/contracts/game_state_management/src/save.rs:44-48 | the first save of the player at exactly that time, none exactly when there is no such save |
| GameSave.LatestOf | apps/contracts/contracts/game_state_management/src/save.rs:49-55 | a save of the player with the greatest timestamp and the last such save on a tie; none exactly when the player has no save |
| GameSave.LoadProgress | apps/contracts/contracts/game_state_management/src/save.rs:37-56 | never another player's save; with a time, a save at that time exists exactly when one is returned; without, one is returned exactly when the player saved, with a timestamp no save of the player exceeds |
| GameSave.LatestByScan | apps/contracts/contracts/game_state_management/src/save.rs:50-54 | the `max_by_key` fold keeping the later save on equal keys computes that choice |
| GameSave.SaveThenLoad | apps/contracts/contracts/game_state_management/src/save.rs:13-56 | with ledger time not going back, the log stays in time order, the latest load returns the new save, and an exact-time load keeps returning the player's first save of that second |
| GameSave.FirstAtPrefix | apps/contracts/contracts/game_state_management/src/save.rs:44-48 | appending saves does not move an existing first match |
| GameWorld.Position | apps/contracts/contracts/game_state_management/src/world.rs:29 | the first index holding the region, none exactly when no record holds it |
| GameWorld.UpdateWorldState | apps/contracts/contracts/game_state_management/src/world.rs:13-36 | the record {region, data, now} replaces the region's first record in place, or is appended when the region is absent; every other position is unchanged |
| GameWorld.UpdateIsMapPut | apps/contracts/contracts/game_state_management/src/world.rs:29-35 | on a list with unique regions the upsert keeps regions unique, reads back the new record for the region and the old one for every other region |

## Left out

- Event publication (`env.events().publish`, the `events.rs` files of the asset registry, the review and voting contracts) and `log!`: host output with no effect on storage.
- `require_auth` is modelled as membership in the invocation's set of signing addresses; signature checking itself is a host capability.
- The token contract is the predicate `Env.transferOk`, plus the standard token rule that `transfer` needs `from` to authorise (`MarketTypes.MayDebit`: the contract itself, or a signer of the invocation). The transfers an escrow operation makes are returned as a sequence, but token balances are not modelled.
- SHA-256 and the `BytesN::from_val` conversions of an `Address` or a `String` to 32 bytes are function parameters; whether the host accepts a given conversion is not modelled.
- Instance and persistent storage, and storage TTLs, are one abstract state per contract.
- Integer widths (`u32`, `u64`, `i128`) are unbounded `nat`/`int`: overflow of counters, `skip + limit`, `now + duration`, the rating products and the balances is not modelled.
- `String::len` counts bytes; usernames, titles and other strings are `seq<char>`, so lengths agree for ASCII text only.
- No entry point of the marketplace creates items, listed flags or offer entries; they are part of the given state.
- The marketplace contract declares its own `auction.rs` and `escrow.rs`; those are not part of this model, which uses the `marketplace/contracts/marketplace` copies of the same functions.
- The delegating wrappers of the leaderboard, game-state and second marketplace contracts (`lib.rs`), the stale `lib1.rs`, the interface and trait files, the older `utils.rs` copy and the web application are not modelled. The game-state wrapper passes a `String` where `log_event` takes a `Symbol`; the event type here is a plain string.
- `PlayerScore` in the leaderboard types is never used by any entry point.
- `asset_exists`, `get_game_review_count`, `get_game_rating` and `has_reviewed` are the storage reads `AssetRegistry.HasAsset`, `GameReview.GetReviewCount`, `GameReview.GetAverageRating` and `GameReview.HasReviewed`.
