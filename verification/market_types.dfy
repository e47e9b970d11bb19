/**
 * The marketplace contract's records, errors and storage. Every storage
 * entry is one whole map written back at the end of a call; `None` stands
 * for a map that was never written, which most calls read as empty.
 */
module MarketTypes {
  import opened Common

  type ItemId = string

  datatype GameItem = GameItem(itemId: ItemId, owner: Address, metadata: seq<byte>)

  datatype TradeOffer = TradeOffer(itemId: ItemId, seller: Address, price: int, isActive: bool)

  datatype Auction = Auction(
    itemId: ItemId,
    seller: Address,
    highestBid: int,
    highestBidder: Address,
    endTime: nat,
    isActive: bool)

  datatype TradeHistory = TradeHistory(seller: Address, buyer: Address, price: int, timestamp: nat)

  datatype MarketError =
    | NotInitialized
    | AlreadyInitialized
    | NotFound
    | ItemNotFound
    | TradeOfferNotFound
    | AuctionNotFound
    | InvalidCaller
    | NotItemOwner
    | OfferNotActive
    | AuctionNotActive
    | AuctionAlreadyEnded
    | AuctionNotEnded
    | BidTooLow
    | InsufficientFunds
    | InvalidAmount
    | InvalidEndTime
    | CannotBidOnOwnAuction
    | NoBidsPlaced
    | TradeAlreadyExists
    | AuctionAlreadyExists
    | ItemAlreadyListed
    | InvalidMetadata
    | ItemNotListed
    | AuctionStillRunning
    | BidAlreadyPlaced
  {
    /** The `u32` discriminant the contract reports. */
    function Code(): nat {
      match this
      case NotInitialized => 1
      case AlreadyInitialized => 2
      case NotFound => 3
      case ItemNotFound => 4
      case TradeOfferNotFound => 5
      case AuctionNotFound => 6
      case InvalidCaller => 7
      case NotItemOwner => 8
      case OfferNotActive => 9
      case AuctionNotActive => 10
      case AuctionAlreadyEnded => 11
      case AuctionNotEnded => 12
      case BidTooLow => 13
      case InsufficientFunds => 14
      case InvalidAmount => 15
      case InvalidEndTime => 16
      case CannotBidOnOwnAuction => 17
      case NoBidsPlaced => 18
      case TradeAlreadyExists => 19
      case AuctionAlreadyExists => 20
      case ItemAlreadyListed => 21
      case InvalidMetadata => 22
      case ItemNotListed => 23
      case AuctionStillRunning => 24
      case BidAlreadyPlaced => 25
    }
  }

  /** A token transfer the contract asks the host for: `(token, from, to, amount)`. */
  datatype Transfer = Transfer(token: Address, from: Address, to: Address, amount: int)

  /** Storage, one field per `DataKey` variant. */
  datatype State = State(
    admin: Option<Address>,
    items: Option<map<ItemId, GameItem>>,
    offers: Option<map<ItemId, TradeOffer>>,
    listed: Option<map<ItemId, bool>>,
    auctions: Option<map<ItemId, Auction>>,
    histories: Option<map<ItemId, seq<TradeHistory>>>,
    escrow: Option<map<Address, int>>,
    token: Option<Address>)

  /** The items map, empty when never written. */
  function Items(s: State): (m: map<ItemId, GameItem>)
    ensures s.items.None? ==> m == map[]
  {
    s.items.GetOr(map[])
  }

  /** The trade offers map, empty when never written. */
  function Offers(s: State): (m: map<ItemId, TradeOffer>)
    ensures s.offers.None? ==> m == map[]
  {
    s.offers.GetOr(map[])
  }

  /** The listed-flags map, empty when never written. */
  function Listed(s: State): (m: map<ItemId, bool>)
    ensures s.listed.None? ==> m == map[]
  {
    s.listed.GetOr(map[])
  }

  /** `listed.get(item).unwrap_or(false)`. */
  function IsListed(s: State, item: ItemId): (b: bool)
    ensures b <==> item in Listed(s) && Listed(s)[item]
  {
    if item in Listed(s) then Listed(s)[item] else false
  }

  /** The auctions map, empty when never written. */
  function Auctions(s: State): (m: map<ItemId, Auction>)
    ensures s.auctions.None? ==> m == map[]
  {
    s.auctions.GetOr(map[])
  }

  /** The trade-history map, empty when never written. */
  function Histories(s: State): (m: map<ItemId, seq<TradeHistory>>)
    ensures s.histories.None? ==> m == map[]
  {
    s.histories.GetOr(map[])
  }

  /** One item's trade history, empty when it has none. */
  function HistoryOf(s: State, item: ItemId): (h: seq<TradeHistory>)
    ensures item !in Histories(s) ==> h == []
  {
    if item in Histories(s) then Histories(s)[item] else []
  }

  /** The escrow ledger, empty when never written. */
  function EscrowMap(s: State): (m: map<Address, int>)
    ensures s.escrow.None? ==> m == map[]
  {
    s.escrow.GetOr(map[])
  }

  /** A user's escrow balance, `EscrowBalance { balance: 0 }` when absent. */
  function Balance(s: State, user: Address): (b: int)
    ensures user !in EscrowMap(s) ==> b == 0
  {
    if user in EscrowMap(s) then EscrowMap(s)[user] else 0
  }

  /**
   * Whether the token lets `from` be debited: a token's `transfer` requires
   * `from` to authorise it. The contract authorises its own calls; any other
   * address only when it signed the invocation.
   */
  predicate MayDebit(env: Env, from: Address) {
    from == env.contract || from in env.signers
  }
}
