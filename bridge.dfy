/** The bridge module's storage as an object, and `deposit` as the
    step-by-step update of src/bridge.rs:71-113. */
module Bridge {
  import opened BridgeTypes
  import opened Stake
  import DepositLedger

  /** `iter().any(|id| id == &who)`: a linear scan for `who`. */
  method ContainsAccount(accounts: seq<AccountId>, who: AccountId) returns (found: bool)
    ensures found <==> who in accounts
  {
    found := false;
    var i := 0;
    while i < |accounts| && !found
      invariant 0 <= i <= |accounts|
      invariant found <==> who in accounts[..i]
    {
      found := accounts[i] == who;
      i := i + 1;
    }
    assert !found ==> accounts[..i] == accounts;
  }

  class BridgeModule {
    /** `DepositOf`: external transaction hash to its deposit record. */
    var records: map<TxHash, DepositRecord>
    /** `DepositCount`: the next record index. */
    var depositCount: nat
    /** `Authorities`: the bridge authorities; only read here. */
    var authorities: seq<AccountId>
    /** `AuthorityStake`: stake per authority; only read here. */
    var stake: map<AccountId, Balance>
    /** Free balances of the balances module. */
    var balances: map<AccountId, Balance>

    /** The storage as a value. */
    function Snapshot(): DepositLedger.State
      reads this
    {
      DepositLedger.State(records, depositCount, authorities, stake, balances)
    }

    ghost predicate Valid()
      reads this
    {
      DepositLedger.Valid(Snapshot())
    }

    /** Genesis: no deposit records yet, the given authorities, stakes and balances. */
    constructor (authorities: seq<AccountId>, stake: map<AccountId, Balance>, balances: map<AccountId, Balance>)
      ensures Valid()
      ensures Snapshot() == DepositLedger.State(map[], 0, authorities, stake, balances)
    {
      this.records := map[];
      this.depositCount := 0;
      this.authorities := authorities;
      this.stake := stake;
      this.balances := balances;
    }

    /** `deposit(origin, target, tx_hash, quantity)`. Every check precedes
        the first write, so a refusal leaves the storage untouched; an
        accepted call leaves the storage `DepositLedger.Deposit` describes
        and keeps the ledger invariant. */
    method Deposit(origin: Origin, target: AccountId, txHash: TxHash, quantity: Balance,
                   approved: Approval, totalIssuance: Balance) returns (res: Outcome)
      modifies this
      ensures match DepositLedger.Deposit(old(Snapshot()), origin, target, txHash, quantity, approved, totalIssuance)
        case Failure(e) => res == Fail(e) && Snapshot() == old(Snapshot())
        case Success(st) => res == Pass && Snapshot() == st
      ensures old(Valid()) ==> Valid()
    {
      ghost var st := Snapshot();
      if origin.Unsigned? {
        return Fail(BadOrigin);
      }
      var sender := origin.who;
      if txHash in records {
        var rec := records[txHash];
        if rec.target != target {
          return Fail(AccountsDoNotMatch);
        }
        if rec.quantity != quantity {
          return Fail(QuantitiesDoNotMatch);
        }
        var isAuthority := ContainsAccount(authorities, sender);
        if !isAuthority {
          return Fail(NonAuthoritySender);
        }
        var hasSigned := ContainsAccount(rec.signers, sender);
        if hasSigned {
          return Fail(DuplicateSigning);
        }
        var newSigners := rec.signers + [sender];
        records := records[txHash := DepositRecord(rec.index, rec.target, rec.quantity, newSigners)];
        var stakeSum := StakeSum(stake, newSigners);
        if approved(stakeSum, 0, totalIssuance) {
          balances := Credit(balances, rec.target, rec.quantity);
        }
      } else {
        var index := depositCount;
        depositCount := depositCount + 1;
        var signers: seq<AccountId> := [];
        var isAuthority := ContainsAccount(authorities, sender);
        if isAuthority {
          signers := signers + [sender];
          assert signers == [sender];
        }
        records := records[txHash := DepositRecord(index, target, quantity, signers)];
      }
      res := Pass;
      if DepositLedger.Valid(st) {
        DepositLedger.DepositKeepsValid(st, origin, target, txHash, quantity, approved, totalIssuance);
      }
    }
  }
}
