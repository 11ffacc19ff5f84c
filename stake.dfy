/** The sum of the signers' stakes (the `fold` in src/bridge.rs:90-92). */
module Stake {
  import opened BridgeTypes

  /** Left fold of `AuthorityStake` over the signers, starting from zero;
      a signer without an entry contributes 0. */
  function StakeSum(stake: map<AccountId, Balance>, signers: seq<AccountId>): Balance
  {
    if |signers| == 0 then 0
    else StakeSum(stake, signers[..|signers| - 1]) + StorageGet(stake, signers[|signers| - 1])
  }

  /** Pushing a signer adds exactly that signer's stake. */
  lemma StakeSumPush(stake: map<AccountId, Balance>, signers: seq<AccountId>, who: AccountId)
    ensures StakeSum(stake, signers + [who]) == StakeSum(stake, signers) + StorageGet(stake, who)
  {
  }

  /** Extending the signer list never lowers the sum (stakes are unsigned). */
  lemma {:induction false} StakeSumGrows(stake: map<AccountId, Balance>, signers: seq<AccountId>, more: seq<AccountId>)
    ensures StakeSum(stake, signers) <= StakeSum(stake, signers + more)
  {
    if |more| == 0 {
      assert signers + more == signers;
    } else {
      var init := more[..|more| - 1];
      StakeSumGrows(stake, signers, init);
      assert signers + more == (signers + init) + [more[|more| - 1]];
      StakeSumPush(stake, signers + init, more[|more| - 1]);
    }
  }

  /** Each signer's own stake is part of the sum. */
  lemma {:induction false} StakeSumCoversSigner(stake: map<AccountId, Balance>, signers: seq<AccountId>, who: AccountId)
    requires who in signers
    ensures StorageGet(stake, who) <= StakeSum(stake, signers)
  {
    var last := signers[|signers| - 1];
    var init := signers[..|signers| - 1];
    assert signers == init + [last];
    if who != last {
      StakeSumCoversSigner(stake, init, who);
    }
  }
}
