/**
 * The marketplace escrow ledger: a balance per user, moved together with a
 * token transfer between the user and the contract. Each operation returns
 * the new state and the transfers it asked the host for, in order.
 */
module MarketEscrow {
  import opened Common
  import opened MarketTypes

  /** `internal_get_token`: the stored token address, or `NotInitialized`. */
  function InternalGetToken(s: State): (r: Result<Address, MarketError>)
    ensures r.Ok? <==> s.token.Some?
    ensures r.Ok? ==> r.value == s.token.value
    ensures !r.Ok? ==> r == Err(NotInitialized)
  {
    match s.token
    case Some(addr) => Ok(addr)
    case None => Err(NotInitialized)
  }

  /**
   * `deposit_escrow`: transfers `amount` of the token from `user` to the
   * contract and credits the user's balance (0 when absent) by `amount`.
   * The token's transfer traps unless `user` authorised the invocation.
   * Only the user's entry changes; nothing else in storage does.
   */
  function DepositEscrow(s: State, env: Env, user: Address, amount: int): (r: Result<(State, seq<Transfer>), MarketError>)
    ensures s.token.None? ==> r == Err(NotInitialized)
    ensures s.token.Some? && !MayDebit(env, user) ==> r == Abort(AuthFailed(user))
    ensures s.token.Some? && MayDebit(env, user) && !env.transferOk(s.token.value, user, env.contract, amount) ==> r == Abort(TransferFailed)
    ensures r.Ok? <==> s.token.Some? && MayDebit(env, user) && env.transferOk(s.token.value, user, env.contract, amount)
    ensures r.Ok? ==>
      var (t, moved) := r.value;
      && Balance(t, user) == Balance(s, user) + amount
      && (forall other :: other != user ==> Balance(t, other) == Balance(s, other))
      && moved == [Transfer(s.token.value, user, env.contract, amount)]
      && t == s.(escrow := t.escrow)
  {
    var token :- InternalGetToken(s);
    if !MayDebit(env, user) then Abort(AuthFailed(user))
    else if !env.transferOk(token, user, env.contract, amount) then Abort(TransferFailed)
    else
      var balance := Balance(s, user) + amount;
      Ok((s.(escrow := Some(EscrowMap(s)[user := balance])), [Transfer(token, user, env.contract, amount)]))
  }

  /**
   * `withdraw_escrow`: fails with `InsufficientFunds` when the balance is
   * below `amount`; otherwise debits the balance and transfers `amount` from
   * the contract back to the user (the contract authorises its own
   * transfer). Only the user's entry changes.
   */
  function WithdrawEscrow(s: State, env: Env, user: Address, amount: int): (r: Result<(State, seq<Transfer>), MarketError>)
    ensures Balance(s, user) < amount ==> r == Err(InsufficientFunds)
    ensures Balance(s, user) >= amount && s.token.None? ==> r == Err(NotInitialized)
    ensures r.Ok? <==>
      && Balance(s, user) >= amount
      && s.token.Some?
      && env.transferOk(s.token.value, env.contract, user, amount)
    ensures r.Ok? ==>
      var (t, moved) := r.value;
      && Balance(t, user) == Balance(s, user) - amount
      && (forall other :: other != user ==> Balance(t, other) == Balance(s, other))
      && moved == [Transfer(s.token.value, env.contract, user, amount)]
      && t == s.(escrow := t.escrow)
  {
    var balance := Balance(s, user);
    if balance < amount then Err(InsufficientFunds)
    else
      var debited := s.(escrow := Some(EscrowMap(s)[user := balance - amount]));
      var token :- InternalGetToken(debited);
      if !env.transferOk(token, env.contract, user, amount) then Abort(TransferFailed)
      else Ok((debited, [Transfer(token, env.contract, user, amount)]))
  }

  /**
   * A deposit followed by a withdrawal of the same amount succeeds whenever
   * both transfers are accepted, and leaves every balance as it was.
   */
  lemma DepositThenWithdrawRestores(s: State, env: Env, user: Address, amount: int)
    requires Balance(s, user) >= 0
    requires DepositEscrow(s, env, user, amount).Ok?
    requires env.transferOk(s.token.value, env.contract, user, amount)
    ensures var (mid, _) := DepositEscrow(s, env, user, amount).value;
      var w := WithdrawEscrow(mid, env, user, amount);
      && w.Ok?
      && (forall u :: Balance(w.value.0, u) == Balance(s, u))
      && w.value.0 == s.(escrow := w.value.0.escrow)
  {
    var (mid, _) := DepositEscrow(s, env, user, amount).value;
    assert Balance(mid, user) >= amount;
    var w := WithdrawEscrow(mid, env, user, amount);
    forall u ensures Balance(w.value.0, u) == Balance(s, u) {
      if u != user {
        assert Balance(w.value.0, u) == Balance(mid, u);
      }
    }
  }
}
