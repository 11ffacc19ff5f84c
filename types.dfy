/** Identifiers, the deposit record, errors and the storage-map lookup shared
    by the deposit ledger (src/bridge.rs). */
module BridgeTypes {

  /** An account on the local chain; only compared for equality. */
  type AccountId = nat

  /** Hash of the deposit transaction on the external chain; only compared for equality. */
  type TxHash = nat

  /** An unsigned balance (T::Balance). Overflow is not modelled. */
  type Balance = nat

  /** The dispatch origin: `ensure_signed` accepts only a signed one. */
  datatype Origin = Signed(who: AccountId) | Unsigned

  /** The tuple stored in `DepositOf`: (index, target, quantity, signers). */
  datatype DepositRecord = DepositRecord(
    index: nat,
    target: AccountId,
    quantity: Balance,
    signers: seq<AccountId>)

  /** The failures `deposit` can return, in the order it checks them. */
  datatype DepositError =
    | BadOrigin              // ensure_signed
    | AccountsDoNotMatch     // "Accounts do not match"
    | QuantitiesDoNotMatch   // "Quantities don't match"
    | NonAuthoritySender     // "Invalid non-authority sender"
    | DuplicateSigning       // "Invalid duplicate deposit signings"

  datatype Result<T> = Success(value: T) | Failure(error: DepositError)

  datatype Outcome = Pass | Fail(error: DepositError)

  /** The super-majority rule borrowed from the democracy module:
      approved(affirmative stake, dissenting stake, total issuance). */
  type Approval = (Balance, Balance, Balance) -> bool

  /** Larger affirmative stake never turns approval into rejection. */
  ghost predicate MonotoneInStake(approved: Approval)
  {
    forall yes, yes', against, issuance ::
      yes <= yes' && approved(yes, against, issuance) ==> approved(yes', against, issuance)
  }

  /** `StorageMap::get`: an absent key reads as the default value 0. */
  function StorageGet(m: map<AccountId, Balance>, who: AccountId): Balance
  {
    if who in m then m[who] else 0
  }

  /** `increase_free_balance_creating`: add `amount` to `who`'s free balance,
      creating the entry when it is absent. */
  function Credit(balances: map<AccountId, Balance>, who: AccountId, amount: Balance)
    : (r: map<AccountId, Balance>)
    ensures StorageGet(r, who) == StorageGet(balances, who) + amount
    ensures forall a :: a != who ==> StorageGet(r, a) == StorageGet(balances, a)
    ensures r.Keys == balances.Keys + {who}
  {
    balances[who := StorageGet(balances, who) + amount]
  }
}
