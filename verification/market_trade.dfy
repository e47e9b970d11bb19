/**
 * Peer-to-peer trade offers of the marketplace: an offer per item, guarded
 * by the item's `listed` flag, executed through the escrow ledger and
 * recorded in the item's trade history.
 */
module MarketTrade {
  import opened Common
  import opened MarketTypes
  import opened MarketEscrow

  /**
   * `create_trade_offer`. The seller must sign and the price be positive.
   * The item, its listed flag and an offer entry for it are read with
   * `unwrap`, so a missing one aborts the call: an offer can only be
   * (re)created over an inactive offer entry that is already stored, on an
   * item whose flag is stored as false. On success the offer is active at
   * the given price and the item is listed; nothing else changes.
   */
  function CreateTradeOffer(s: State, env: Env, item: ItemId, seller: Address, price: int): (r: Result<State, MarketError>)
    ensures seller !in env.signers ==> r == Abort(AuthFailed(seller))
    ensures seller in env.signers && price <= 0 ==> r == Err(InvalidAmount)
    ensures seller in env.signers && price > 0 && item !in Items(s) ==> r == Abort(MissingKey)
    ensures seller in env.signers && price > 0 && item in Items(s) && Items(s)[item].owner != seller ==> r == Err(NotItemOwner)
    ensures r.Ok? <==>
      && seller in env.signers && price > 0
      && item in Items(s) && Items(s)[item].owner == seller
      && item in Listed(s) && !Listed(s)[item]
      && item in Offers(s) && !Offers(s)[item].isActive
    ensures r.Ok? ==>
      && Offers(r.value) == Offers(s)[item := TradeOffer(item, seller, price, true)]
      && Listed(r.value) == Listed(s)[item := true]
      && r.value == s.(offers := r.value.offers, listed := r.value.listed)
  {
    var _ :- RequireAuth(env, seller);
    if price <= 0 then Err(InvalidAmount)
    else if item !in Items(s) then Abort(MissingKey)
    else if Items(s)[item].owner != seller then Err(NotItemOwner)
    else if item !in Listed(s) then Abort(MissingKey)
    else if Listed(s)[item] then Err(ItemAlreadyListed)
    else if item !in Offers(s) then Abort(MissingKey)
    else if Offers(s)[item].isActive then Err(ItemAlreadyListed)
    else
      var offer := TradeOffer(item, seller, price, true);
      Ok(s.(offers := Some(Offers(s)[item := offer]), listed := Some(Listed(s)[item := true])))
  }

  /** The checks `execute_trade` makes before touching the escrow, in their order. */
  predicate ExecuteChecksPass(s: State, env: Env, item: ItemId, buyer: Address) {
    && buyer in env.signers
    && item in Items(s) && item in Offers(s) && IsListed(s, item)
    && Offers(s)[item].seller != buyer
    && Offers(s)[item].isActive
  }

  /**
   * The escrow steps of `execute_trade` all go through. The last deposit
   * debits the seller, so the seller must authorise the trade as well.
   */
  predicate EscrowStepsPass(s: State, env: Env, buyer: Address, seller: Address, price: int) {
    && s.token.Some?
    && MayDebit(env, buyer)
    && env.transferOk(s.token.value, buyer, env.contract, price)
    && Balance(s, buyer) >= 0
    && env.transferOk(s.token.value, env.contract, buyer, price)
    && MayDebit(env, seller)
    && env.transferOk(s.token.value, seller, env.contract, price)
  }

  /**
   * `execute_trade`. After its checks it deposits the price from the buyer
   * into escrow, hands the item to the buyer, removes the offer and clears
   * the listed flag, withdraws the price back to the buyer, deposits the
   * price from the seller, and appends `{seller, buyer, price, now}` to the
   * item's history. The buyer's escrow balance ends where it started and
   * the seller's rises by the price; the buyer's two transfers cancel out.
   */
  function ExecuteTrade(s: State, env: Env, item: ItemId, buyer: Address): (r: Result<(State, seq<Transfer>), MarketError>)
    ensures buyer !in env.signers ==> r == Abort(AuthFailed(buyer))
    ensures buyer in env.signers && (item !in Items(s) || item !in Offers(s) || !IsListed(s, item)) ==> r == Err(NotInitialized)
    ensures buyer in env.signers && item in Items(s) && item in Offers(s) && IsListed(s, item) ==>
      (Offers(s)[item].seller == buyer ==> r == Err(InvalidCaller))
      && (Offers(s)[item].seller != buyer && !Offers(s)[item].isActive ==> r == Err(OfferNotActive))
    ensures r.Ok? <==>
      && ExecuteChecksPass(s, env, item, buyer)
      && EscrowStepsPass(s, env, buyer, Offers(s)[item].seller, Offers(s)[item].price)
    ensures r.Ok? ==>
      var offer := Offers(s)[item];
      var (t, moved) := r.value;
      && Items(t) == Items(s)[item := Items(s)[item].(owner := buyer)]
      && Offers(t) == Offers(s) - {item}
      && Listed(t) == Listed(s)[item := false]
      && Histories(t) == Histories(s)[item := HistoryOf(s, item) + [TradeHistory(offer.seller, buyer, offer.price, env.now)]]
      && Balance(t, buyer) == Balance(s, buyer)
      && Balance(t, offer.seller) == Balance(s, offer.seller) + offer.price
      && (forall u :: u != buyer && u != offer.seller ==> Balance(t, u) == Balance(s, u))
      && moved == [
           Transfer(s.token.value, buyer, env.contract, offer.price),
           Transfer(s.token.value, env.contract, buyer, offer.price),
           Transfer(s.token.value, offer.seller, env.contract, offer.price)]
      && t.admin == s.admin && t.auctions == s.auctions && t.token == s.token
  {
    var _ :- RequireAuth(env, buyer);
    if item !in Items(s) || item !in Offers(s) || !IsListed(s, item) then Err(NotInitialized)
    else
      var offer := Offers(s)[item];
      if offer.seller == buyer then Err(InvalidCaller)
      else if !offer.isActive then Err(OfferNotActive)
      else
        var paid :- DepositEscrow(s, env, buyer, offer.price);
        var handedOver := paid.0.(
          items := Some(Items(s)[item := Items(s)[item].(owner := buyer)]),
          offers := Some(Offers(s) - {item}),
          listed := Some(Listed(s)[item := false]));
        var refunded :- WithdrawEscrow(handedOver, env, buyer, offer.price);
        var credited :- DepositEscrow(refunded.0, env, offer.seller, offer.price);
        var entry := TradeHistory(offer.seller, buyer, offer.price, env.now);
        var recorded := credited.0.(histories := Some(Histories(s)[item := HistoryOf(s, item) + [entry]]));
        Ok((recorded, paid.1 + refunded.1 + credited.1))
  }

  /**
   * `cancel_trade_offer`. The seller must sign; the item and its offer must
   * exist (`NotInitialized`), the seller must own the item, the item must be
   * listed and the offer active. The offer is removed and the flag cleared;
   * the item itself is untouched.
   */
  function CancelTradeOffer(s: State, env: Env, item: ItemId, seller: Address): (r: Result<State, MarketError>)
    ensures seller !in env.signers ==> r == Abort(AuthFailed(seller))
    ensures seller in env.signers && (item !in Items(s) || item !in Offers(s)) ==> r == Err(NotInitialized)
    ensures seller in env.signers && item in Items(s) && item in Offers(s) ==>
      && (Items(s)[item].owner != seller ==> r == Err(NotItemOwner))
      && (Items(s)[item].owner == seller && !IsListed(s, item) ==> r == Err(ItemNotListed))
      && (Items(s)[item].owner == seller && IsListed(s, item) && !Offers(s)[item].isActive ==> r == Err(OfferNotActive))
    ensures r.Ok? <==>
      && seller in env.signers
      && item in Items(s) && item in Offers(s)
      && Items(s)[item].owner == seller
      && IsListed(s, item)
      && Offers(s)[item].isActive
    ensures r.Ok? ==>
      && Offers(r.value) == Offers(s) - {item}
      && Listed(r.value) == Listed(s)[item := false]
      && r.value == s.(offers := r.value.offers, listed := r.value.listed)
  {
    var _ :- RequireAuth(env, seller);
    if item !in Items(s) || item !in Offers(s) then Err(NotInitialized)
    else if Items(s)[item].owner != seller then Err(NotItemOwner)
    else if !IsListed(s, item) then Err(ItemNotListed)
    else if !Offers(s)[item].isActive then Err(OfferNotActive)
    else Ok(s.(offers := Some(Offers(s) - {item}), listed := Some(Listed(s)[item := false])))
  }
}
