# Edgeware bridge: deposit reconciliation and stake-weighted approval

This project models the `deposit` dispatchable of the Edgeware bridge
module (`src/bridge.rs`). Bridge authorities, each with a stake, co-sign
claims that a deposit happened on an external chain. Each claim is keyed
by the external transaction hash. Once the signers' combined stake
satisfies a super-majority rule, the claimed quantity is credited to the
target account on the local chain.

The model has four modules:

- `BridgeTypes` (`types.dfy`): account and hash identifiers, the
  `(index, target, quantity, signers)` deposit record, the error strings of
  `deposit` as an error datatype, the storage-map read with default 0, and
  the balance credit of `increase_free_balance_creating`.
- `Stake` (`stake.dfy`): the stake-sum fold over the signers, as a
  recursive function, with its lemmas.
- `DepositLedger` (`ledger.dfy`): the storage `deposit` touches as a value
  `State`, and `Deposit` as a function from a state to either an error or
  the next state. The lemmas about one call, the ledger invariant, and
  sequences of claims are stated about this function.
- `Bridge` (`bridge.dfy`): the storage as the class `BridgeModule`, with
  fields for `DepositOf`, `DepositCount`, `Authorities`, `AuthorityStake`
  and the free balances. Its method `Deposit` performs the checks and
  writes in the source's order, and is proved to leave exactly the state
  that `DepositLedger.Deposit` describes. The `.iter().any(..)` membership
  scans are the loop method `ContainsAccount`.

The approval rule `VoteThreshold::SuperMajorityApprove.approved(stake_sum, 0,
total_issuance)` belongs to the democracy module. That module is not part of
this model. The rule is therefore a parameter: a function value
`approved(affirmative, against, issuance)`. The total issuance is a
parameter too. One lemma assumes the rule is monotone in the affirmative
stake, and says so in its `requires`.

The specification of this system describes a `settled` flag and a credit
made exactly once per record. The code has no such flag: after the quorum
is reached, every further accepted co-signature credits the target again
(`src/bridge.rs:96-98`). The model follows the code. `CreditRepeatsAfterQuorum`
and `ExampleCreditAgain` show the repeated credit. The specification's
error names (`MismatchedTarget`, `NotAnAuthority`, ...) are replaced by the
code's four messages, plus the `ensure_signed` failure.

## Model

| member | source | states |
|---|---|---|
| `BridgeTypes.Credit` | src/bridge.rs:97 | the target's balance (absent counts as 0) rises by the amount, the entry is created if absent, and no other account's balance changes |
| `Stake.StakeSumPush` | src/bridge.rs:85-92 | pushing a signer raises the stake sum by exactly that signer's `AuthorityStake` (0 when absent) |
| `Stake.StakeSumGrows` | src/bridge.rs:90-92 | extending the signer list never lowers the stake sum, since stakes are unsigned |
| `Stake.StakeSumCoversSigner` | src/bridge.rs:90-92 | every signer's own stake is at most the stake sum of the list |
| `DepositLedger.DepositCreates` | src/bridge.rs:100-108 | an unseen hash gets a record with index = old `DepositCount`, the claimed target and quantity, and signers `[caller]` if the caller is an authority else `[]`; the counter rises by 1; balances and other records are unchanged |
| `DepositLedger.DepositRejectsInOrder` | src/bridge.rs:76-83 | on an existing record each error occurs exactly when its check is the first to fail, in the order target, quantity, authority, duplicate; the call succeeds exactly when all four pass |
| `DepositLedger.DepositNeedsSignedOrigin` | src/bridge.rs:72 | the call fails with the origin error exactly when the origin is not signed |
| `DepositLedger.DepositCosigns` | src/bridge.rs:84-98 | an accepted co-signature appends the caller, keeps index, target and quantity, rewrites no other record and leaves the counter; the stake sum is the old sum plus the caller's stake; the target is credited by the quantity when the rule holds of that sum, and balances are untouched when it does not; no other balance changes |
| `DepositLedger.CreditOnlyOnCosign` | src/bridge.rs:89-98 | if a call changes any balance, the hash already had a record, the origin was signed, the rule held of the new stake sum, and the record's target received its quantity |
| `DepositLedger.RepeatedClaimIsDuplicate` | src/bridge.rs:82-83 | after an authority's claim is accepted, the same claim from it again fails with the duplicate-signing error |
| `DepositLedger.DepositKeepsValid` | src/bridge.rs:81-108 | every call keeps the ledger invariant (no duplicate signers, every signer an authority, every index below the counter, no two records sharing an index) and leaves authorities and stakes unchanged |
| `DepositLedger.ApplyKeepsValid` | src/bridge.rs:71-113 | the invariant holds after any sequence of claims, whether accepted or refused |
| `DepositLedger.ApplyKeepsRecordTerms` | src/bridge.rs:76-87 | after any sequence of claims an existing record keeps its index, target and quantity; its old signers are a prefix of its new signers; its stake sum has not decreased |
| `DepositLedger.CreditRepeatsAfterQuorum` | src/bridge.rs:94-98 | once the signers' stake satisfies a monotone rule, two further co-signatures by fresh authorities are both accepted and both credit the target, which then holds twice the quantity more |
| `DepositLedger.ExampleOpen` | src/bridge.rs:100-108 | a non-authority opening a claim creates record 0 with no signer |
| `DepositLedger.ExampleFirstSignature` | src/bridge.rs:76-98 | a first authority with stake 40 signs and nothing is credited under the rule "above 66" |
| `DepositLedger.ExampleQuorum` | src/bridge.rs:89-98 | the second signature brings the sum to 70 and credits 100 |
| `DepositLedger.ExampleCreditAgain` | src/bridge.rs:76-98 | a third signature credits 100 again (balance 200); a wrong target and a repeated signer are then refused |
| `Bridge.ContainsAccount` | src/bridge.rs:81 | the scan returns true exactly when the account occurs in the list |
| `Bridge.BridgeModule.constructor` | src/bridge.rs:144-159 | the storage starts with no records, counter 0, and the given authorities, stakes and balances, and satisfies the invariant |
| `Bridge.BridgeModule.Deposit` | src/bridge.rs:71-113 | a refusal returns the error that `DepositLedger.Deposit` gives and leaves every field unchanged; an acceptance leaves exactly the state it gives; the invariant is preserved |

## Left out

- `withdraw` (src/bridge.rs:119-121) is `unimplemented!()` and has no behaviour to model.
- The arithmetic of the super-majority rule belongs to the democracy module, which is not part of this model. It is a function parameter.
- The internals of the balances module are not modelled. `total_issuance` is a parameter, and a credit is an increment of a balance map. This leaves out the existential deposit, account-creation hooks and any change of total issuance.
- Signature checking behind `ensure_signed` is not modelled. The origin is either signed by an account or not.
- Events (src/bridge.rs:126-135) are left out. `deposit` never emits them.
- Unused storage is left out: `BlockHeaders`, `TotalAuthorityStake`, `StakeThreshold`, `Deposits` and the withdraw storage.
- The maintenance of `Authorities` and `AuthorityStake` is left out. `deposit` only reads them.
- `DepositLedger.DepositCreates`: `DepositCount` and the record index are unbounded naturals. The u32 wrap-around (or overflow panic) after 2^32 deposits is not modelled.
- `Stake.StakeSumGrows`: balances are unbounded naturals. Overflow of the `Balance` additions in the stake fold and in the credit is not modelled.
- Account identifiers and hashes are naturals compared only for equality. Their encodings are not modelled.
