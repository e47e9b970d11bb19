/**
 * Shared vocabulary of the contract models: host values (addresses, bytes,
 * the invocation environment) and the outcome of one contract invocation.
 *
 * Every contract entry point is modelled as a pure function from the stored
 * state to a `Result`. A Soroban invocation that returns an error or traps
 * rolls back all of its storage writes, so a failed outcome carries no state:
 * the caller keeps the state it had.
 */
module Common {

  newtype byte = x: int | 0 <= x < 256

  /** A host address (account or contract). Only its identity matters here. */
  datatype Address = Address(key: nat)

  /** A fixed-size `BytesN<32>` value. */
  type Bytes32 = s: seq<byte> | |s| == 32 witness seq(32, _ => 0)

  /** A fixed-size `BytesN<64>` value. */
  type Bytes64 = s: seq<byte> | |s| == 64 witness seq(64, _ => 0)

  datatype Option<T> = None | Some(value: T) {
    function GetOr(default: T): T {
      match this
      case Some(v) => v
      case None => default
    }
  }

  /** Why the host aborted an invocation (as opposed to a typed contract error). */
  datatype Trap =
    | MissingKey          // `unwrap()` / `expect(..)` on an absent storage entry
    | AuthFailed(who: Address)   // `require_auth` on an address that did not sign
    | TransferFailed      // the external token transfer trapped

  /** Outcome of one invocation: a value, a typed contract error, or a host trap. */
  datatype Result<T, E> = Ok(value: T) | Err(error: E) | Abort(trap: Trap) {
    predicate IsFailure() {
      !Ok?
    }

    function PropagateFailure<U>(): Result<U, E>
      requires !Ok?
    {
      if Err? then Err(error) else Abort(trap)
    }

    function Extract(): T
      requires Ok?
    {
      value
    }
  }

  /**
   * The host facilities one invocation sees: ledger time in seconds, the set
   * of addresses whose `require_auth` succeeds, and whether a token transfer
   * `(token, from, to, amount)` succeeds.
   */
  datatype Env = Env(
    now: nat,
    signers: set<Address>,
    contract: Address,
    transferOk: (Address, Address, Address, int) -> bool)

  /** `who.require_auth()`: traps unless `who` signed the invocation. */
  function RequireAuth<E>(env: Env, who: Address): (r: Result<(), E>)
    ensures r.Ok? <==> who in env.signers
    ensures !r.Ok? ==> r == Abort(AuthFailed(who))
  {
    if who in env.signers then Ok(()) else Abort(AuthFailed(who))
  }

  function Min(a: nat, b: nat): nat {
    if a <= b then a else b
  }

  /** No element occurs twice. */
  predicate NoDup<T(==)>(xs: seq<T>) {
    forall i, j :: 0 <= i < j < |xs| ==> xs[i] != xs[j]
  }
}
