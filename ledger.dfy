/** The deposit dispatchable of src/bridge.rs as a function from the storage
    it touches to the storage it leaves, and what that function guarantees. */
module DepositLedger {
  import opened BridgeTypes
  import opened Stake

  /** The storage `deposit` reads or writes: `DepositOf`, `DepositCount`,
      `Authorities`, `AuthorityStake`, and the free balances of the
      balances module. */
  datatype State = State(
    records: map<TxHash, DepositRecord>,
    depositCount: nat,
    authorities: seq<AccountId>,
    stake: map<AccountId, Balance>,
    balances: map<AccountId, Balance>)

  /** The record a first claim creates: the next index, the claimed terms,
      and the caller as sole signer only when it is an authority. */
  function NewRecord(st: State, sender: AccountId, target: AccountId, quantity: Balance): DepositRecord
  {
    DepositRecord(st.depositCount, target, quantity, if sender in st.authorities then [sender] else [])
  }

  /** `deposit(origin, target, tx_hash, quantity)`. A failure carries the
      error and writes nothing; a success carries the new storage. */
  function Deposit(st: State, origin: Origin, target: AccountId, txHash: TxHash, quantity: Balance,
                   approved: Approval, totalIssuance: Balance): Result<State>
  {
    if origin.Unsigned? then Failure(BadOrigin)
    else
      var sender := origin.who;
      if txHash in st.records then
        var rec := st.records[txHash];
        if rec.target != target then Failure(AccountsDoNotMatch)
        else if rec.quantity != quantity then Failure(QuantitiesDoNotMatch)
        else if sender !in st.authorities then Failure(NonAuthoritySender)
        else if sender in rec.signers then Failure(DuplicateSigning)
        else
          var newSigners := rec.signers + [sender];
          var records := st.records[txHash := rec.(signers := newSigners)];
          var stakeSum := StakeSum(st.stake, newSigners);
          var balances := if approved(stakeSum, 0, totalIssuance)
                          then Credit(st.balances, rec.target, rec.quantity)
                          else st.balances;
          Success(st.(records := records, balances := balances))
      else
        Success(st.(records := st.records[txHash := NewRecord(st, sender, target, quantity)],
                    depositCount := st.depositCount + 1))
  }

  // ---------------------------------------------------------------------
  // One call
  // ---------------------------------------------------------------------

  /** A claim on an unseen hash creates the record with the old counter as
      index and bumps the counter; it credits nobody and touches no other record. */
  lemma DepositCreates(st: State, who: AccountId, target: AccountId, txHash: TxHash, quantity: Balance,
                       approved: Approval, totalIssuance: Balance)
    requires txHash !in st.records
    ensures var r := Deposit(st, Signed(who), target, txHash, quantity, approved, totalIssuance);
      && r.Success?
      && r.value.records.Keys == st.records.Keys + {txHash}
      && r.value.records[txHash].index == st.depositCount
      && r.value.records[txHash].target == target
      && r.value.records[txHash].quantity == quantity
      && r.value.records[txHash].signers == (if who in st.authorities then [who] else [])
      && r.value.depositCount == st.depositCount + 1
      && r.value.balances == st.balances
      && (forall h :: h in st.records ==> r.value.records[h] == st.records[h])
      && r.value.authorities == st.authorities && r.value.stake == st.stake
  {
  }

  /** On an existing record the checks run in the source's order: target,
      then quantity, then authority, then duplicate signature. */
  lemma DepositRejectsInOrder(st: State, who: AccountId, target: AccountId, txHash: TxHash, quantity: Balance,
                              approved: Approval, totalIssuance: Balance)
    requires txHash in st.records
    ensures var rec := st.records[txHash];
      var r := Deposit(st, Signed(who), target, txHash, quantity, approved, totalIssuance);
      && (r == Failure(AccountsDoNotMatch) <==> target != rec.target)
      && (r == Failure(QuantitiesDoNotMatch) <==> target == rec.target && quantity != rec.quantity)
      && (r == Failure(NonAuthoritySender) <==>
            target == rec.target && quantity == rec.quantity && who !in st.authorities)
      && (r == Failure(DuplicateSigning) <==>
            target == rec.target && quantity == rec.quantity && who in st.authorities && who in rec.signers)
      && (r.Success? <==>
            target == rec.target && quantity == rec.quantity && who in st.authorities && who !in rec.signers)
  {
  }

  /** Only a signed origin gets past `ensure_signed`. */
  lemma DepositNeedsSignedOrigin(st: State, origin: Origin, target: AccountId, txHash: TxHash, quantity: Balance,
                                 approved: Approval, totalIssuance: Balance)
    ensures Deposit(st, origin, target, txHash, quantity, approved, totalIssuance) == Failure(BadOrigin)
            <==> origin.Unsigned?
  {
  }

  /** An accepted co-signature appends the caller, keeps index, target and
      quantity, leaves the counter alone, rewrites no other record, and
      credits the target by the quantity exactly when the approval rule
      holds of the new signers' stake sum; no other balance moves. */
  lemma DepositCosigns(st: State, who: AccountId, target: AccountId, txHash: TxHash, quantity: Balance,
                       approved: Approval, totalIssuance: Balance)
    requires txHash in st.records
    requires Deposit(st, Signed(who), target, txHash, quantity, approved, totalIssuance).Success?
    ensures var rec := st.records[txHash];
      var st' := Deposit(st, Signed(who), target, txHash, quantity, approved, totalIssuance).value;
      var sum := StakeSum(st.stake, rec.signers + [who]);
      && st'.records.Keys == st.records.Keys
      && st'.records[txHash] == DepositRecord(rec.index, rec.target, rec.quantity, rec.signers + [who])
      && (forall h :: h in st.records && h != txHash ==> st'.records[h] == st.records[h])
      && st'.depositCount == st.depositCount
      && sum == StakeSum(st.stake, rec.signers) + StorageGet(st.stake, who)
      && (approved(sum, 0, totalIssuance) ==>
            StorageGet(st'.balances, target) == StorageGet(st.balances, target) + quantity)
      && (!approved(sum, 0, totalIssuance) ==> st'.balances == st.balances)
      && (forall a :: a != target ==> StorageGet(st'.balances, a) == StorageGet(st.balances, a))
  {
  }

  /** Balances change only on the co-signing path, and only when the
      approval rule holds; the credited account is the record's target. */
  lemma CreditOnlyOnCosign(st: State, origin: Origin, target: AccountId, txHash: TxHash, quantity: Balance,
                           approved: Approval, totalIssuance: Balance)
    requires var r := Deposit(st, origin, target, txHash, quantity, approved, totalIssuance);
      r.Success? && r.value.balances != st.balances
    ensures txHash in st.records && origin.Signed?
    ensures approved(StakeSum(st.stake, st.records[txHash].signers + [origin.who]), 0, totalIssuance)
    ensures var st' := Deposit(st, origin, target, txHash, quantity, approved, totalIssuance).value;
      StorageGet(st'.balances, st.records[txHash].target)
        == StorageGet(st.balances, st.records[txHash].target) + st.records[txHash].quantity
  {
  }

  /** Replaying an accepted claim from an authority is refused as a duplicate. */
  lemma RepeatedClaimIsDuplicate(st: State, who: AccountId, target: AccountId, txHash: TxHash, quantity: Balance,
                                 approved: Approval, totalIssuance: Balance)
    requires who in st.authorities
    requires Deposit(st, Signed(who), target, txHash, quantity, approved, totalIssuance).Success?
    ensures var st' := Deposit(st, Signed(who), target, txHash, quantity, approved, totalIssuance).value;
      Deposit(st', Signed(who), target, txHash, quantity, approved, totalIssuance) == Failure(DuplicateSigning)
  {
  }

  // ---------------------------------------------------------------------
  // The ledger invariant
  // ---------------------------------------------------------------------

  predicate NoDuplicates(s: seq<AccountId>)
  {
    forall i, j :: 0 <= i < j < |s| ==> s[i] != s[j]
  }

  /** No record has a repeated signer, every signer is an authority, every
      index was handed out by the counter, and no two records share one. */
  ghost predicate Valid(st: State)
  {
    && (forall h :: h in st.records ==> NoDuplicates(st.records[h].signers))
    && (forall h, a :: h in st.records && a in st.records[h].signers ==> a in st.authorities)
    && (forall h :: h in st.records ==> st.records[h].index < st.depositCount)
    && (forall h, h' :: h in st.records && h' in st.records && h != h' ==>
          st.records[h].index != st.records[h'].index)
  }

  /** Every call, accepted or refused, keeps the ledger invariant, and
      never changes the authority set or the stakes. */
  lemma DepositKeepsValid(st: State, origin: Origin, target: AccountId, txHash: TxHash, quantity: Balance,
                          approved: Approval, totalIssuance: Balance)
    requires Valid(st)
    ensures var r := Deposit(st, origin, target, txHash, quantity, approved, totalIssuance);
      r.Success? ==> Valid(r.value) && r.value.authorities == st.authorities && r.value.stake == st.stake
  {
  }

  // ---------------------------------------------------------------------
  // Sequences of claims
  // ---------------------------------------------------------------------

  /** One extrinsic calling `deposit`. */
  datatype Claim = Claim(origin: Origin, target: AccountId, txHash: TxHash, quantity: Balance)

  /** The effect of a block of claims applied in order: a refused claim
      leaves the storage as it was. */
  function Apply(st: State, claims: seq<Claim>, approved: Approval, totalIssuance: Balance): State
    decreases |claims|
  {
    if |claims| == 0 then st
    else
      var c := claims[0];
      var r := Deposit(st, c.origin, c.target, c.txHash, c.quantity, approved, totalIssuance);
      Apply(if r.Success? then r.value else st, claims[1..], approved, totalIssuance)
  }

  /** The invariant holds after any sequence of claims. */
  lemma {:induction false} ApplyKeepsValid(st: State, claims: seq<Claim>, approved: Approval, totalIssuance: Balance)
    requires Valid(st)
    ensures Valid(Apply(st, claims, approved, totalIssuance))
    ensures Apply(st, claims, approved, totalIssuance).authorities == st.authorities
    ensures Apply(st, claims, approved, totalIssuance).stake == st.stake
    decreases |claims|
  {
    if |claims| > 0 {
      var c := claims[0];
      DepositKeepsValid(st, c.origin, c.target, c.txHash, c.quantity, approved, totalIssuance);
      var r := Deposit(st, c.origin, c.target, c.txHash, c.quantity, approved, totalIssuance);
      ApplyKeepsValid(if r.Success? then r.value else st, claims[1..], approved, totalIssuance);
    }
  }

  /** Once a record exists, no later claim changes its index, target or
      quantity; its signers only grow at the end, so their stake sum never drops. */
  lemma {:induction false} ApplyKeepsRecordTerms(st: State, claims: seq<Claim>, approved: Approval,
                                                 totalIssuance: Balance, txHash: TxHash)
    requires txHash in st.records
    ensures var st' := Apply(st, claims, approved, totalIssuance);
      && txHash in st'.records
      && st'.records[txHash].index == st.records[txHash].index
      && st'.records[txHash].target == st.records[txHash].target
      && st'.records[txHash].quantity == st.records[txHash].quantity
      && st.records[txHash].signers <= st'.records[txHash].signers
      && StakeSum(st.stake, st.records[txHash].signers) <= StakeSum(st'.stake, st'.records[txHash].signers)
    decreases |claims|
  {
    if |claims| > 0 {
      var c := claims[0];
      var r := Deposit(st, c.origin, c.target, c.txHash, c.quantity, approved, totalIssuance);
      var mid := if r.Success? then r.value else st;
      ApplyKeepsRecordTerms(mid, claims[1..], approved, totalIssuance, txHash);
      var s0 := st.records[txHash].signers;
      var s1 := mid.records[txHash].signers;
      var s2 := Apply(st, claims, approved, totalIssuance).records[txHash].signers;
      assert s0 <= s1;
      assert s2 == s1 + s2[|s1|..];
      StakeSumGrows(st.stake, s1, s2[|s1|..]);
      assert s1 == s0 + s1[|s0|..];
      StakeSumGrows(st.stake, s0, s1[|s0|..]);
    }
  }

  /** There is no settled flag: once the signers' stake meets the rule, the
      next two accepted co-signatures both credit the target again. */
  lemma CreditRepeatsAfterQuorum(st: State, txHash: TxHash, first: AccountId, second: AccountId,
                                 approved: Approval, totalIssuance: Balance)
    requires MonotoneInStake(approved)
    requires txHash in st.records
    requires approved(StakeSum(st.stake, st.records[txHash].signers), 0, totalIssuance)
    requires first in st.authorities && second in st.authorities && first != second
    requires first !in st.records[txHash].signers && second !in st.records[txHash].signers
    ensures var rec := st.records[txHash];
      var r1 := Deposit(st, Signed(first), rec.target, txHash, rec.quantity, approved, totalIssuance);
      && r1.Success?
      && var r2 := Deposit(r1.value, Signed(second), rec.target, txHash, rec.quantity, approved, totalIssuance);
      && r2.Success?
      && StorageGet(r1.value.balances, rec.target) == StorageGet(st.balances, rec.target) + rec.quantity
      && StorageGet(r2.value.balances, rec.target) == StorageGet(st.balances, rec.target) + 2 * rec.quantity
  {
  }

  // ---------------------------------------------------------------------
  // A worked run: authorities 1, 2, 3 with stakes 40, 30, 10, a rule
  // "affirmative stake above 66", and a claim of 100 for account 7 under
  // hash 5. It shows the credit repeating once the quorum is reached.
  // ---------------------------------------------------------------------

  function ExampleRule(): Approval
  {
    (yes, against, issuance) => yes > 66
  }

  function ExampleState(signers: seq<AccountId>, balances: map<AccountId, Balance>): State
  {
    State(map[5 := DepositRecord(0, 7, 100, signers)], 1, [1, 2, 3], map[1 := 40, 2 := 30, 3 := 10], balances)
  }

  /** A non-authority opens the record with index 0 and no signer. */
  lemma ExampleOpen()
    ensures Deposit(State(map[], 0, [1, 2, 3], map[1 := 40, 2 := 30, 3 := 10], map[]),
                    Signed(9), 7, 5, 100, ExampleRule(), 100)
            == Success(ExampleState([], map[]))
  {
  }

  /** The first authority signs; 40 is below the quorum, nothing is credited. */
  lemma ExampleFirstSignature()
    ensures Deposit(ExampleState([], map[]), Signed(1), 7, 5, 100, ExampleRule(), 100)
            == Success(ExampleState([1], map[]))
  {
    var st := ExampleState([], map[]);
    StakeSumPush(st.stake, [], 1);
    assert [] + [1] == [1];
    assert st.records[5 := st.records[5].(signers := [1])] == ExampleState([1], map[]).records;
  }

  /** The second authority brings the sum to 70: the target is credited 100. */
  lemma ExampleQuorum()
    ensures Deposit(ExampleState([1], map[]), Signed(2), 7, 5, 100, ExampleRule(), 100)
            == Success(ExampleState([1, 2], map[7 := 100]))
  {
    var st := ExampleState([1], map[]);
    StakeSumPush(st.stake, [], 1);
    StakeSumPush(st.stake, [1], 2);
    assert [] + [1] == [1];
    assert [1] + [2] == [1, 2];
    assert st.records[5 := st.records[5].(signers := [1, 2])] == ExampleState([1, 2], map[]).records;
    assert Credit(map[], 7, 100) == map[7 := 100];
  }

  /** The third authority's signature credits the same deposit a second
      time; a wrong target and a repeated signer are then refused. */
  lemma ExampleCreditAgain()
    ensures Deposit(ExampleState([1, 2], map[7 := 100]), Signed(3), 7, 5, 100, ExampleRule(), 100)
            == Success(ExampleState([1, 2, 3], map[7 := 200]))
    ensures Deposit(ExampleState([1, 2, 3], map[7 := 200]), Signed(1), 8, 5, 100, ExampleRule(), 100)
            == Failure(AccountsDoNotMatch)
    ensures Deposit(ExampleState([1, 2, 3], map[7 := 200]), Signed(1), 7, 5, 100, ExampleRule(), 100)
            == Failure(DuplicateSigning)
  {
    var st := ExampleState([1, 2], map[7 := 100]);
    StakeSumPush(st.stake, [], 1);
    StakeSumPush(st.stake, [1], 2);
    StakeSumPush(st.stake, [1, 2], 3);
    assert [] + [1] == [1];
    assert [1] + [2] == [1, 2];
    assert [1, 2] + [3] == [1, 2, 3];
    assert st.records[5 := st.records[5].(signers := [1, 2, 3])] == ExampleState([1, 2, 3], map[]).records;
    assert Credit(map[7 := 100], 7, 100) == map[7 := 200];
  }
}
