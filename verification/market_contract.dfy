/**
 * The marketplace contract's entry points: initialisation, the token
 * address, the trade-history query, and the dispatch of every public call
 * to the trade, auction and escrow logic; with the storage invariant all of
 * them keep.
 */
module MarketContract {
  import opened Common
  import opened MarketTypes
  import opened MarketEscrow
  import opened MarketTrade
  import opened MarketAuction

  /** Storage before the first call: nothing written. */
  const Empty: State := State(None, None, None, None, None, None, None, None)

  /**
   * `initialize`: refuses when an admin is already stored, then requires the
   * admin's signature, then stores the admin and the token address.
   */
  function Initialize(s: State, env: Env, admin: Address, token: Address): (r: Result<State, MarketError>)
    ensures s.admin.Some? ==> r == Err(AlreadyInitialized)
    ensures s.admin.None? && admin !in env.signers ==> r == Abort(AuthFailed(admin))
    ensures r.Ok? <==> s.admin.None? && admin in env.signers
    ensures r.Ok? ==> r.value == s.(admin := Some(admin), token := Some(token))
  {
    if s.admin.Some? then Err(AlreadyInitialized)
    else
      var _ :- RequireAuth(env, admin);
      Ok(s.(admin := Some(admin), token := Some(token)))
  }

  /**
   * `set_token_address`: requires the caller's signature first, then an
   * initialised contract, then that the caller is the stored admin. Only the
   * token address changes.
   */
  function SetTokenAddress(s: State, env: Env, admin: Address, newToken: Address): (r: Result<State, MarketError>)
    ensures admin !in env.signers ==> r == Abort(AuthFailed(admin))
    ensures admin in env.signers && s.admin.None? ==> r == Err(NotInitialized)
    ensures admin in env.signers && s.admin.Some? && s.admin.value != admin ==> r == Err(InvalidCaller)
    ensures r.Ok? <==> admin in env.signers && s.admin == Some(admin)
    ensures r.Ok? ==> r.value == s.(token := Some(newToken))
  {
    var _ :- RequireAuth(env, admin);
    if s.admin.None? then Err(NotInitialized)
    else if s.admin.value != admin then Err(InvalidCaller)
    else Ok(s.(token := Some(newToken)))
  }

  /**
   * `get_trade_history`: `NotInitialized` until some trade has been
   * recorded for any item; otherwise the item's entries, empty when it has
   * none. A query: it returns no state.
   */
  function GetTradeHistory(s: State, item: ItemId): (r: Result<seq<TradeHistory>, MarketError>)
    ensures s.histories.None? ==> r == Err(NotInitialized)
    ensures s.histories.Some? ==> r.Ok? && (item !in s.histories.value ==> r.value == [])
    ensures s.histories.Some? && item in s.histories.value ==> r == Ok(s.histories.value[item])
  {
    match s.histories
    case None => Err(NotInitialized)
    case Some(histories) => Ok(if item in histories then histories[item] else [])
  }

  /** A successful trade appends exactly its own record to the item's history and leaves every other item's history alone. */
  lemma ExecuteAppendsHistory(s: State, env: Env, item: ItemId, buyer: Address, other: ItemId)
    requires ExecuteTrade(s, env, item, buyer).Ok?
    requires other != item
    ensures var t := ExecuteTrade(s, env, item, buyer).value.0;
      var offer := Offers(s)[item];
      var before := if GetTradeHistory(s, item).Ok? then GetTradeHistory(s, item).value else [];
      && GetTradeHistory(t, item) == Ok(before + [TradeHistory(offer.seller, buyer, offer.price, env.now)])
      && (GetTradeHistory(s, other).Ok? ==> GetTradeHistory(t, other) == GetTradeHistory(s, other))
      && (GetTradeHistory(s, other).Err? ==> GetTradeHistory(t, other) == Ok([]))
  {
    var t := ExecuteTrade(s, env, item, buyer).value.0;
    assert Histories(t) == t.histories.value;
    if s.histories.None? {
      assert Histories(s) == map[];
      assert other !in Histories(t);
    }
  }

  /**
   * After a trade the new owner cannot list the item again: the offer entry
   * is gone, and `create_trade_offer` unwraps it. The same holds after the
   * seller cancels the offer.
   */
  lemma TradedItemCannotBeRelisted(s: State, env: Env, item: ItemId, buyer: Address, seller: Address, price: int)
    requires price > 0
    ensures ExecuteTrade(s, env, item, buyer).Ok? && buyer in env.signers ==>
      CreateTradeOffer(ExecuteTrade(s, env, item, buyer).value.0, env, item, buyer, price) == Abort(MissingKey)
    ensures CancelTradeOffer(s, env, item, seller).Ok? ==>
      CreateTradeOffer(CancelTradeOffer(s, env, item, seller).value, env, item, seller, price) == Abort(MissingKey)
  {
    if ExecuteTrade(s, env, item, buyer).Ok? {
      var t := ExecuteTrade(s, env, item, buyer).value.0;
      assert item in Items(t) && Items(t)[item].owner == buyer;
      assert item in Listed(t) && !Listed(t)[item];
      assert item !in Offers(t);
    }
    if CancelTradeOffer(s, env, item, seller).Ok? {
      var t := CancelTradeOffer(s, env, item, seller).value;
      assert Items(t) == Items(s);
      assert item in Listed(t) && !Listed(t)[item];
      assert item !in Offers(t);
    }
  }

  // ---------------------------------------------------------------------
  // Dispatch of the public entry points
  // ---------------------------------------------------------------------

  /** The public state-changing calls of the contract. */
  datatype Call =
    | InitializeCall(admin: Address, token: Address)
    | SetTokenAddressCall(admin: Address, newToken: Address)
    | ListForSale(item: ItemId, seller: Address, price: int)
    | DelistFromSale(item: ItemId, seller: Address)
    | P2PExecuteTrade(item: ItemId, buyer: Address)
    | StartAuctionCall(item: ItemId, seller: Address, startingBid: int, duration: nat)
    | PlaceAuctionBid(item: ItemId, bidder: Address, bid: int)
    | ClaimAuctionBid(item: ItemId, claimer: Address)
    | CancelAuctionCall(item: ItemId, seller: Address)

  /** With the new state, the token transfers the call makes (none except for a trade). */
  function NoTransfers(r: Result<State, MarketError>): Result<(State, seq<Transfer>), MarketError> {
    match r
    case Ok(t) => Ok((t, []))
    case Err(e) => Err(e)
    case Abort(trap) => Abort(trap)
  }

  /** One invocation: each listing, trade and auction call delegates to its operation unchanged. */
  function Step(s: State, env: Env, c: Call): Result<(State, seq<Transfer>), MarketError> {
    match c
    case InitializeCall(admin, token) => NoTransfers(Initialize(s, env, admin, token))
    case SetTokenAddressCall(admin, newToken) => NoTransfers(SetTokenAddress(s, env, admin, newToken))
    case ListForSale(item, seller, price) => NoTransfers(CreateTradeOffer(s, env, item, seller, price))
    case DelistFromSale(item, seller) => NoTransfers(CancelTradeOffer(s, env, item, seller))
    case P2PExecuteTrade(item, buyer) => ExecuteTrade(s, env, item, buyer)
    case StartAuctionCall(item, seller, startingBid, duration) => NoTransfers(StartAuction(s, env, item, seller, startingBid, duration))
    case PlaceAuctionBid(item, bidder, bid) => NoTransfers(PlaceBid(s, env, item, bidder, bid))
    case ClaimAuctionBid(item, claimer) => NoTransfers(ClaimBid(s, env, item, claimer))
    case CancelAuctionCall(item, seller) => NoTransfers(CancelAuction(s, env, item, seller))
  }

  // ---------------------------------------------------------------------
  // Storage invariant
  // ---------------------------------------------------------------------

  /** Every active offer's item carries a true listed flag. */
  ghost predicate ActiveOffersListed(s: State) {
    forall i :: i in Offers(s) && Offers(s)[i].isActive ==> IsListed(s, i)
  }

  /** Offers are stored under their own item id, at a positive price. */
  ghost predicate OffersWellFormed(s: State) {
    forall i :: i in Offers(s) ==> Offers(s)[i].itemId == i && Offers(s)[i].price > 0
  }

  /** Auctions are stored under their own item id. */
  ghost predicate AuctionsKeyed(s: State) {
    forall i :: i in Auctions(s) ==> Auctions(s)[i].itemId == i
  }

  /** No escrow balance is negative. */
  ghost predicate BalancesNonNegative(s: State) {
    forall u :: u in EscrowMap(s) ==> EscrowMap(s)[u] >= 0
  }

  ghost predicate Valid(s: State) {
    ActiveOffersListed(s) && OffersWellFormed(s) && AuctionsKeyed(s) && BalancesNonNegative(s)
  }

  lemma EmptyValid()
    ensures Valid(Empty)
  {
  }

  /** The balance view and the stored ledger agree on non-negativity. */
  lemma NonNegativeFromBalances(s: State, t: State)
    requires BalancesNonNegative(s)
    requires forall u :: Balance(t, u) >= 0
    ensures BalancesNonNegative(t)
  {
    forall u | u in EscrowMap(t) ensures EscrowMap(t)[u] >= 0 {
      assert Balance(t, u) == EscrowMap(t)[u];
    }
  }

  /** Changing only the listed flags and offers, by setting one item's flag to match its offer, keeps the invariant. */
  lemma OfferChangeKeepsValid(s: State, t: State, item: ItemId)
    requires Valid(s)
    requires t == s.(offers := t.offers, listed := t.listed)
    requires forall i :: i != item ==> (i in Offers(t) <==> i in Offers(s))
    requires forall i :: i != item && i in Offers(s) ==> Offers(t)[i] == Offers(s)[i]
    requires forall i :: i != item ==> IsListed(t, i) == IsListed(s, i)
    requires item in Offers(t) ==> Offers(t)[item].itemId == item && Offers(t)[item].price > 0
    requires item in Offers(t) && Offers(t)[item].isActive ==> IsListed(t, item)
    ensures Valid(t)
  {
    assert Auctions(t) == Auctions(s) && EscrowMap(t) == EscrowMap(s);
  }

  /** The invariant only reads offers, flags, auctions and the ledger. */
  lemma SameTablesValid(s: State, t: State)
    requires Valid(s)
    requires t.offers == s.offers && t.listed == s.listed && t.escrow == s.escrow
    requires forall i :: i in Auctions(t) ==> Auctions(t)[i].itemId == i
    ensures Valid(t)
  {
    assert Offers(t) == Offers(s) && Listed(t) == Listed(s) && EscrowMap(t) == EscrowMap(s);
  }

  lemma CreateTradeOfferPreservesValid(s: State, env: Env, item: ItemId, seller: Address, price: int)
    requires Valid(s)
    ensures CreateTradeOffer(s, env, item, seller, price).Ok? ==> Valid(CreateTradeOffer(s, env, item, seller, price).value)
  {
    var r := CreateTradeOffer(s, env, item, seller, price);
    if r.Ok? {
      OfferChangeKeepsValid(s, r.value, item);
    }
  }

  lemma CancelTradeOfferPreservesValid(s: State, env: Env, item: ItemId, seller: Address)
    requires Valid(s)
    ensures CancelTradeOffer(s, env, item, seller).Ok? ==> Valid(CancelTradeOffer(s, env, item, seller).value)
  {
    var r := CancelTradeOffer(s, env, item, seller);
    if r.Ok? {
      OfferChangeKeepsValid(s, r.value, item);
    }
  }

  /** A trade keeps the invariant; in particular the seller's balance stays non-negative because prices are positive. */
  lemma ExecuteTradePreservesValid(s: State, env: Env, item: ItemId, buyer: Address)
    requires Valid(s)
    ensures ExecuteTrade(s, env, item, buyer).Ok? ==> Valid(ExecuteTrade(s, env, item, buyer).value.0)
  {
    var r := ExecuteTrade(s, env, item, buyer);
    if r.Ok? {
      var t := r.value.0;
      var offer := Offers(s)[item];
      forall u ensures Balance(t, u) >= 0 {
        if u != buyer && u != offer.seller {
          assert Balance(t, u) == Balance(s, u);
        }
      }
      NonNegativeFromBalances(s, t);
      assert Auctions(t) == Auctions(s);
      assert ActiveOffersListed(t);
    }
  }

  /** Under the invariant a trade never fails for lack of escrow funds: only a missing token or a refused transfer can stop it after the checks. */
  lemma ValidTradeNeverShort(s: State, env: Env, item: ItemId, buyer: Address)
    requires Valid(s)
    requires ExecuteChecksPass(s, env, item, buyer)
    requires s.token.Some?
    ensures ExecuteTrade(s, env, item, buyer) != Err(InsufficientFunds)
  {
    assert Balance(s, buyer) >= 0;
  }

  /** Starting an auction only raises one listed flag and stores an auction under its item. */
  lemma StartAuctionPreservesValid(s: State, env: Env, item: ItemId, seller: Address, basePrice: int, duration: nat)
    requires Valid(s)
    ensures StartAuction(s, env, item, seller, basePrice, duration).Ok? ==>
      Valid(StartAuction(s, env, item, seller, basePrice, duration).value)
  {
    var r := StartAuction(s, env, item, seller, basePrice, duration);
    if r.Ok? {
      var t := r.value;
      assert Offers(t) == Offers(s) && EscrowMap(t) == EscrowMap(s);
      forall i | i in Offers(t) && Offers(t)[i].isActive ensures IsListed(t, i) {
        assert IsListed(s, i);
      }
    }
  }

  /** Every public call keeps the storage invariant. */
  lemma StepPreservesValid(s: State, env: Env, c: Call)
    requires Valid(s)
    ensures Step(s, env, c).Ok? ==> Valid(Step(s, env, c).value.0)
  {
    match c
    case InitializeCall(admin, token) =>
      var r := Initialize(s, env, admin, token);
      if r.Ok? {
        assert Auctions(r.value) == Auctions(s);
        SameTablesValid(s, r.value);
      }
    case SetTokenAddressCall(admin, newToken) =>
      var r := SetTokenAddress(s, env, admin, newToken);
      if r.Ok? {
        assert Auctions(r.value) == Auctions(s);
        SameTablesValid(s, r.value);
      }
    case ListForSale(item, seller, price) => CreateTradeOfferPreservesValid(s, env, item, seller, price);
    case DelistFromSale(item, seller) => CancelTradeOfferPreservesValid(s, env, item, seller);
    case P2PExecuteTrade(item, buyer) => ExecuteTradePreservesValid(s, env, item, buyer);
    case StartAuctionCall(item, seller, startingBid, duration) =>
      StartAuctionPreservesValid(s, env, item, seller, startingBid, duration);
    case PlaceAuctionBid(item, bidder, bid) =>
      var r := PlaceBid(s, env, item, bidder, bid);
      if r.Ok? {
        assert Auctions(s)[item].itemId == item;
        SameTablesValid(s, r.value);
      }
    case ClaimAuctionBid(item, claimer) =>
      var r := ClaimBid(s, env, item, claimer);
      if r.Ok? {
        assert Auctions(s)[item].itemId == item;
        SameTablesValid(s, r.value);
      }
    case CancelAuctionCall(item, seller) =>
      var r := CancelAuction(s, env, item, seller);
      if r.Ok? {
        SameTablesValid(s, r.value);
      }
  }

  /**
   * A sequence of calls applied to a given storage state, each applied
   * when it succeeds and skipped when it fails (a failed invocation rolls
   * back).
   */
  function Run(s: State, env: Env, calls: seq<Call>): State
    decreases |calls|
  {
    if |calls| == 0 then s
    else
      var r := Step(s, env, calls[0]);
      Run(if r.Ok? then r.value.0 else s, env, calls[1..])
  }

  lemma {:induction false} RunPreservesValid(s: State, env: Env, calls: seq<Call>)
    requires Valid(s)
    ensures Valid(Run(s, env, calls))
    decreases |calls|
  {
    if |calls| > 0 {
      StepPreservesValid(s, env, calls[0]);
      var r := Step(s, env, calls[0]);
      RunPreservesValid(if r.Ok? then r.value.0 else s, env, calls[1..]);
    }
  }

  /**
   * A stale offer survives an auction: an item offered for sale and then
   * auctioned off keeps its active offer, so once the winner has claimed
   * it another buyer can still execute the old offer, taking the item from
   * the winner and paying the escrow credit to the former owner. The
   * winner's consent is never asked; the former owner must authorise the
   * trade, since its escrow deposit debits them.
   */
  lemma StaleOfferOutlivesAuction(
    s: State, env: Env, late: Env, item: ItemId, seller: Address, price: int,
    duration: nat, winner: Address, bid: int, buyer: Address)
    requires {seller, winner, buyer} <= env.signers && buyer in late.signers && winner in late.signers
    requires seller in late.signers
    requires item in Items(s) && Items(s)[item].owner == seller
    requires item in Listed(s) && !Listed(s)[item]
    requires item in Offers(s) && !Offers(s)[item].isActive
    requires !(item in Auctions(s) && Auctions(s)[item].isActive)
    requires price > 0 && duration > 0 && bid > price
    requires winner != seller && buyer != seller && buyer != winner
    requires late.now >= env.now + duration
    requires EscrowStepsPass(s, late, buyer, seller, price)
    ensures var listed := CreateTradeOffer(s, env, item, seller, price);
      && listed.Ok?
      && var auctioned := StartAuction(listed.value, env, item, seller, price, duration);
      && auctioned.Ok?
      && var bidded := PlaceBid(auctioned.value, env, item, winner, bid);
      && bidded.Ok?
      && var claimed := ClaimBid(bidded.value, late, item, winner);
      && claimed.Ok?
      && Items(claimed.value)[item].owner == winner
      && var traded := ExecuteTrade(claimed.value, late, item, buyer);
      && traded.Ok?
      && Items(traded.value.0)[item].owner == buyer
      && Balance(traded.value.0, seller) == Balance(s, seller) + price
  {
    var s1 := CreateTradeOffer(s, env, item, seller, price).value;
    var s2 := StartAuction(s1, env, item, seller, price, duration).value;
    assert Auctions(s2)[item] == Auction(item, seller, price, seller, env.now + duration, true);
    var s3 := PlaceBid(s2, env, item, winner, bid).value;
    assert Auctions(s3)[item].highestBidder == winner && Auctions(s3)[item].endTime <= late.now;
    assert s3.auctions.Some? && s3.items.Some?;
    var s4 := ClaimBid(s3, late, item, winner).value;
    assert Offers(s4) == Offers(s1) && Offers(s4)[item].isActive && Offers(s4)[item].seller == seller;
    assert IsListed(s4, item);
    assert s4.token == s.token && Balance(s4, buyer) == Balance(s, buyer) && Balance(s4, seller) == Balance(s, seller);
  }
}
