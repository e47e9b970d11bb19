/**
 * The marketplace auction state machine. An auction is started by the
 * owner of a listed item, takes strictly rising bids until its end time,
 * and is then claimed by its highest bidder; the seller may cancel it only
 * while nobody else has bid. Bids move no tokens.
 */
module MarketAuction {
  import opened Common
  import opened MarketTypes

  /**
   * `start_auction`. The seller must sign, the duration be non-zero, the
   * item exist, belong to the seller and already be listed, and no active
   * auction exist for it. The new auction ends at `now + duration`, starts
   * with the seller as highest bidder at the base price, and the item stays
   * listed. An inactive auction record is simply replaced.
   */
  function StartAuction(s: State, env: Env, item: ItemId, seller: Address, basePrice: int, duration: nat): (r: Result<State, MarketError>)
    ensures seller !in env.signers ==> r == Abort(AuthFailed(seller))
    ensures seller in env.signers && duration == 0 ==> r == Err(InvalidEndTime)
    ensures seller in env.signers && duration > 0 && item !in Items(s) ==> r == Err(ItemNotFound)
    ensures seller in env.signers && duration > 0 && item in Items(s) ==>
      && (Items(s)[item].owner != seller ==> r == Err(NotItemOwner))
      && (Items(s)[item].owner == seller && !IsListed(s, item) ==> r == Err(ItemNotListed))
      && ((&& Items(s)[item].owner == seller && IsListed(s, item)
           && item in Auctions(s) && Auctions(s)[item].isActive) ==> r == Err(AlreadyInitialized))
    ensures r.Ok? <==>
      && seller in env.signers && duration > 0
      && item in Items(s) && Items(s)[item].owner == seller
      && IsListed(s, item)
      && !(item in Auctions(s) && Auctions(s)[item].isActive)
    ensures r.Ok? ==>
      && Auctions(r.value) == Auctions(s)[item := Auction(item, seller, basePrice, seller, env.now + duration, true)]
      && Listed(r.value) == Listed(s)[item := true]
      && r.value == s.(auctions := r.value.auctions, listed := r.value.listed)
  {
    var _ :- RequireAuth(env, seller);
    if duration == 0 then Err(InvalidEndTime)
    else if item !in Items(s) then Err(ItemNotFound)
    else if Items(s)[item].owner != seller then Err(NotItemOwner)
    else if !IsListed(s, item) then Err(ItemNotListed)
    else if item in Auctions(s) && Auctions(s)[item].isActive then Err(AlreadyInitialized)
    else
      var auction := Auction(item, seller, basePrice, seller, env.now + duration, true);
      Ok(s.(auctions := Some(Auctions(s)[item := auction]), listed := Some(Listed(s)[item := true])))
  }

  /**
   * `place_bid`. The bidder must sign and bid a positive amount on an
   * existing, active auction that is not their own and has not ended
   * (`end_time < now`); the bid must beat the highest bid. The new highest
   * bid is the bid, strictly above the old one; seller, end time and
   * activity are unchanged.
   */
  function PlaceBid(s: State, env: Env, item: ItemId, bidder: Address, bid: int): (r: Result<State, MarketError>)
    ensures bidder !in env.signers ==> r == Abort(AuthFailed(bidder))
    ensures bidder in env.signers && bid <= 0 ==> r == Err(InvalidAmount)
    ensures bidder in env.signers && bid > 0 && item !in Auctions(s) ==> r == Err(AuctionNotFound)
    ensures bidder in env.signers && bid > 0 && item in Auctions(s) ==>
      var a := Auctions(s)[item];
      && (!a.isActive ==> r == Err(AuctionNotActive))
      && (a.isActive && a.seller == bidder ==> r == Err(InvalidCaller))
      && (a.isActive && a.seller != bidder && a.endTime < env.now ==> r == Err(AuctionAlreadyEnded))
      && (a.isActive && a.seller != bidder && a.endTime >= env.now && bid <= a.highestBid ==> r == Err(BidTooLow))
    ensures r.Ok? <==>
      && bidder in env.signers && bid > 0
      && item in Auctions(s)
      && Auctions(s)[item].isActive
      && Auctions(s)[item].seller != bidder
      && env.now <= Auctions(s)[item].endTime
      && Auctions(s)[item].highestBid < bid
    ensures r.Ok? ==>
      var a := Auctions(s)[item];
      && item in Auctions(r.value)
      && Auctions(r.value)[item].highestBid > a.highestBid
      && Auctions(r.value) == Auctions(s)[item := a.(highestBid := bid, highestBidder := bidder)]
      && r.value == s.(auctions := r.value.auctions)
  {
    var _ :- RequireAuth(env, bidder);
    if bid <= 0 then Err(InvalidAmount)
    else if item !in Auctions(s) then Err(AuctionNotFound)
    else
      var a := Auctions(s)[item];
      if !a.isActive then Err(AuctionNotActive)
      else if a.seller == bidder then Err(InvalidCaller)
      else if a.endTime < env.now then Err(AuctionAlreadyEnded)
      else if a.highestBid >= bid then Err(BidTooLow)
      else Ok(s.(auctions := Some(Auctions(s)[item := a.(highestBid := bid, highestBidder := bidder)])))
  }

  /**
   * `claim_bid`. The claimer must sign; the auctions and items maps must
   * have been stored, the auction exist and be active, its end time be
   * reached (`end_time > now` is still running) and the claimer be its
   * highest bidder; the item must exist. The item passes to the claimer and
   * the auction stays stored, marked inactive.
   */
  function ClaimBid(s: State, env: Env, item: ItemId, claimer: Address): (r: Result<State, MarketError>)
    ensures claimer !in env.signers ==> r == Abort(AuthFailed(claimer))
    ensures claimer in env.signers && s.auctions.None? ==> r == Err(AuctionNotFound)
    ensures claimer in env.signers && s.auctions.Some? && s.items.None? ==> r == Err(ItemNotFound)
    ensures claimer in env.signers && s.auctions.Some? && s.items.Some? && item !in Auctions(s) ==> r == Err(AuctionNotFound)
    ensures claimer in env.signers && s.auctions.Some? && s.items.Some? && item in Auctions(s) ==>
      var a := Auctions(s)[item];
      && (!a.isActive ==> r == Err(AuctionNotActive))
      && (a.isActive && a.endTime > env.now ==> r == Err(AuctionStillRunning))
      && (a.isActive && a.endTime <= env.now && a.highestBidder != claimer ==> r == Err(InvalidCaller))
      && (a.isActive && a.endTime <= env.now && a.highestBidder == claimer && item !in Items(s) ==> r == Err(ItemNotFound))
    ensures r.Ok? <==>
      && claimer in env.signers
      && s.auctions.Some? && s.items.Some?
      && item in Auctions(s)
      && Auctions(s)[item].isActive
      && Auctions(s)[item].endTime <= env.now
      && Auctions(s)[item].highestBidder == claimer
      && item in Items(s)
    ensures r.Ok? ==>
      && Items(r.value) == Items(s)[item := Items(s)[item].(owner := claimer)]
      && Auctions(r.value) == Auctions(s)[item := Auctions(s)[item].(isActive := false)]
      && r.value == s.(items := r.value.items, auctions := r.value.auctions)
  {
    var _ :- RequireAuth(env, claimer);
    if s.auctions.None? then Err(AuctionNotFound)
    else if s.items.None? then Err(ItemNotFound)
    else if item !in s.auctions.value then Err(AuctionNotFound)
    else
      var a := s.auctions.value[item];
      if !a.isActive then Err(AuctionNotActive)
      else if a.endTime > env.now then Err(AuctionStillRunning)
      else if a.highestBidder != claimer then Err(InvalidCaller)
      else if item !in s.items.value then Err(ItemNotFound)
      else
        var owned := s.items.value[item].(owner := claimer);
        Ok(s.(items := Some(s.items.value[item := owned]), auctions := Some(s.auctions.value[item := a.(isActive := false)])))
  }

  /**
   * `cancel_auction`. The seller must sign; the auction must exist, be
   * active, be the seller's, and have no bid yet (the highest bidder is
   * still the seller). The auction entry is removed; the listed flag stays.
   */
  function CancelAuction(s: State, env: Env, item: ItemId, seller: Address): (r: Result<State, MarketError>)
    ensures seller !in env.signers ==> r == Abort(AuthFailed(seller))
    ensures seller in env.signers && item !in Auctions(s) ==> r == Err(AuctionNotFound)
    ensures seller in env.signers && item in Auctions(s) ==>
      var a := Auctions(s)[item];
      && (!a.isActive ==> r == Err(AuctionNotActive))
      && (a.isActive && a.seller != seller ==> r == Err(InvalidCaller))
      && (a.isActive && a.seller == seller && a.highestBidder != seller ==> r == Err(BidAlreadyPlaced))
    ensures r.Ok? <==>
      && seller in env.signers
      && item in Auctions(s)
      && Auctions(s)[item].isActive
      && Auctions(s)[item].seller == seller
      && Auctions(s)[item].highestBidder == seller
    ensures r.Ok? ==>
      && Auctions(r.value) == Auctions(s) - {item}
      && r.value == s.(auctions := r.value.auctions)
  {
    var _ :- RequireAuth(env, seller);
    if s.auctions.None? || item !in s.auctions.value then Err(AuctionNotFound)
    else
      var a := s.auctions.value[item];
      if !a.isActive then Err(AuctionNotActive)
      else if a.seller != seller then Err(InvalidCaller)
      else if a.highestBidder != seller then Err(BidAlreadyPlaced)
      else Ok(s.(auctions := Some(s.auctions.value - {item})))
  }

  // ---------------------------------------------------------------------
  // Properties across calls
  // ---------------------------------------------------------------------

  /**
   * The end time itself belongs to both phases: at `now == end_time` a
   * qualifying bid is accepted, and the highest bidder (after that bid, the
   * new bidder) may already claim the item.
   */
  lemma EndTimeAdmitsBidAndClaim(s: State, env: Env, item: ItemId, bidder: Address, bid: int)
    requires bidder in env.signers && bid > 0
    requires s.auctions.Some? && s.items.Some? && item in Auctions(s) && item in Items(s)
    requires Auctions(s)[item].isActive && Auctions(s)[item].seller != bidder
    requires Auctions(s)[item].highestBid < bid
    requires env.now == Auctions(s)[item].endTime
    ensures PlaceBid(s, env, item, bidder, bid).Ok?
    ensures ClaimBid(PlaceBid(s, env, item, bidder, bid).value, env, item, bidder).Ok?
    ensures bidder != Auctions(s)[item].highestBidder ==> ClaimBid(s, env, item, bidder) == Err(InvalidCaller)
  {
    var t := PlaceBid(s, env, item, bidder, bid).value;
    assert Auctions(t)[item] == Auctions(s)[item].(highestBid := bid, highestBidder := bidder);
  }

  /** Once someone other than the seller has bid, the seller can no longer cancel. */
  lemma BidBlocksCancel(s: State, env: Env, item: ItemId, bidder: Address, bid: int, seller: Address)
    requires PlaceBid(s, env, item, bidder, bid).Ok?
    requires seller in env.signers && seller == Auctions(s)[item].seller
    ensures CancelAuction(PlaceBid(s, env, item, bidder, bid).value, env, item, seller) == Err(BidAlreadyPlaced)
  {
    var t := PlaceBid(s, env, item, bidder, bid).value;
    assert Auctions(t)[item].highestBidder == bidder;
  }

  /**
   * A claimed auction is closed: no further bid or claim is accepted on it,
   * and the item belongs to the claimer.
   */
  lemma ClaimCloses(s: State, env: Env, item: ItemId, claimer: Address, bidder: Address, bid: int)
    requires ClaimBid(s, env, item, claimer).Ok?
    requires bidder in env.signers && bid > 0
    ensures var t := ClaimBid(s, env, item, claimer).value;
      && Items(t)[item].owner == claimer
      && PlaceBid(t, env, item, bidder, bid) == Err(AuctionNotActive)
      && ClaimBid(t, env, item, claimer) == Err(AuctionNotActive)
  {
    var t := ClaimBid(s, env, item, claimer).value;
    assert !Auctions(t)[item].isActive;
  }

  /** Across any sequence of accepted bids on one auction the highest bid only rises. */
  lemma {:induction false} BidsOnlyRise(s: State, env: Env, item: ItemId, bids: seq<(Address, int)>)
    requires item in Auctions(s)
    ensures var r := PlaceBids(s, env, item, bids);
      r.Ok? ==> item in Auctions(r.value) && Auctions(r.value)[item].highestBid >= Auctions(s)[item].highestBid
    ensures var r := PlaceBids(s, env, item, bids);
      r.Ok? && |bids| > 0 ==> Auctions(r.value)[item].highestBid == bids[|bids| - 1].1 > Auctions(s)[item].highestBid
    decreases |bids|
  {
    if |bids| > 0 {
      var first := PlaceBid(s, env, item, bids[0].0, bids[0].1);
      if first.Ok? {
        BidsOnlyRise(first.value, env, item, bids[1..]);
      }
    }
  }

  /** Bids applied one after another in one ledger moment, stopping at the first failure. */
  function PlaceBids(s: State, env: Env, item: ItemId, bids: seq<(Address, int)>): (r: Result<State, MarketError>)
    decreases |bids|
  {
    if |bids| == 0 then Ok(s)
    else
      var next :- PlaceBid(s, env, item, bids[0].0, bids[0].1);
      PlaceBids(next, env, item, bids[1..])
  }
}
