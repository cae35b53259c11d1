/** usecase/event/events.go: the names of the event types that RegisterEvents gives a decoder. */
module EventRegistry {

  const GENESIS_VALIDATOR_CREATED := "GenesisValidatorCreated"

  function ChainEvents(): set<string> {
    {
      "GenesisCreated", "BlockCreated", "RawBlockCreated", "TransactionCreated", "TransactionFailed",
      "AccountTransferred", "BlockProposerRewarded", "BlockRewarded", "BlockCommissioned", "Minted",
      "PowerChanged", "ValidatorSlashed", "ValidatorJailed"
    }
  }

  function BankEvents(): set<string> {
    {
      "MsgSendCreated", "MsgSendFailed", "MsgMultiSendCreated", "MsgMultiSendFailed"
    }
  }

  function DistributionEvents(): set<string> {
    {
      "MsgSetWithdrawAddressCreated", "MsgSetWithdrawAddressFailed", "MsgWithdrawDelegatorRewardCreated",
      "MsgWithdrawDelegatorRewardFailed", "MsgWithdrawValidatorCommissionCreated",
      "MsgWithdrawValidatorCommissionFailed", "MsgFundCommunityPoolCreated", "MsgFundCommunityPoolFailed"
    }
  }

  function GovEvents(): set<string> {
    {
      "MsgSubmitParamUpdateProposalCreated", "MsgSubmitParamUpdateProposalFailed",
      "MsgSubmitCommunityPoolSpendProposalCreated", "MsgSubmitCommunityPoolSpendProposalFailed",
      "MsgSubmitSoftwareUpgradeProposalCreated", "MsgSubmitSoftwareUpgradeProposalFailed",
      "MsgSubmitCancelSoftwareUpgradeProposalCreated", "MsgSubmitCancelSoftwareUpgradeProposalFailed",
      "MsgSubmitTextProposalCreated", "MsgSubmitTextProposalFailed", "MsgDepositCreated", "MsgDepositFailed",
      "MsgVoteCreated", "MsgVoteFailed", "ProposalVotingPeriodStarted", "ProposalEnded", "ProposalInactived"
    }
  }

  function StakingEvents(): set<string> {
    {
      "MsgCreateValidatorCreated", "MsgCreateValidatorFailed", "MsgEditValidatorCreated",
      "MsgEditValidatorFailed", "MsgDelegateCreated", "MsgDelegateFailed", "MsgUndelegateCreated",
      "MsgUndelegateFailed", "MsgBeginRedelegateCreated", "MsgBeginRedelegateFailed", "UnbondingCompleted"
    }
  }

  function SlashingEvents(): set<string> {
    {
      "MsgUnjailCreated", "MsgUnjailFailed"
    }
  }

  function NftEvents(): set<string> {
    {
      "MsgIssueDenomCreated", "MsgIssueDenomFailed", "MsgMintNFTCreated", "MsgMintNFTFailed",
      "MsgTransferNFTCreated", "MsgTransferNFTFailed", "MsgEditNFTCreated", "MsgEditNFTFailed",
      "MsgBurnNFTCreated", "MsgBurnNFTFailed"
    }
  }

  function IbcHandshakeEvents(): set<string> {
    {
      "MsgCreateClientCreated", "MsgCreateClientFailed", "MsgUpdateClientCreated", "MsgUpdateClientFailed",
      "MsgConnectionOpenInitCreated", "MsgConnectionOpenInitFailed", "MsgConnectionOpenTryCreated",
      "MsgConnectionOpenTryFailed", "MsgConnectionOpenAckCreated", "MsgConnectionOpenAckFailed",
      "MsgConnectionOpenConfirmCreated", "MsgConnectionOpenConfirmFailed", "MsgChannelOpenInitCreated",
      "MsgChannelOpenInitFailed", "MsgChannelOpenTryCreated", "MsgChannelOpenTryFailed",
      "MsgChannelOpenAckCreated", "MsgChannelOpenAckFailed", "MsgChannelOpenConfirmCreated",
      "MsgChannelOpenConfirmFailed", "MsgChannelCloseInitCreated", "MsgChannelCloseInitFailed"
    }
  }

  function IbcPacketEvents(): set<string> {
    {
      "MsgChannelCloseConfirmCreated", "MsgChannelCloseConfirmFailed", "MsgRecvPacketCreated",
      "MsgRecvPacketFailed", "MsgAlreadyRelayedRecvPacketCreated", "MsgAlreadyRelayedRecvPacketFailed",
      "MsgAcknowledgementCreated", "MsgAcknowledgementFailed", "MsgAlreadyRelayedAcknowledgementCreated",
      "MsgAlreadyRelayedAcknowledgementFailed", "MsgTimeoutCreated", "MsgTimeoutFailed",
      "MsgAlreadyRelayedTimeoutCreated", "MsgAlreadyRelayedTimeoutFailed", "MsgTimeoutOnCloseCreated",
      "MsgTimeoutOnCloseFailed", "MsgAlreadyRelayedTimeoutOnCloseCreated",
      "MsgAlreadyRelayedTimeoutOnCloseFailed", "MsgTransferCreated", "MsgTransferFailed"
    }
  }

  function AuthzEvents(): set<string> {
    {
      "MsgGrantCreated", "MsgGrantFailed", "MsgRevokeCreated", "MsgRevokeFailed", "MsgExecCreated",
      "MsgExecFailed"
    }
  }

  function FeegrantEvents(): set<string> {
    {
      "MsgGrantAllowanceCreated", "MsgGrantAllowanceFailed", "MsgRevokeAllowanceCreated",
      "MsgRevokeAllowanceFailed"
    }
  }

  function VestingEvents(): set<string> {
    {
      "MsgCreateVestingAccountCreated", "MsgCreateVestingAccountFailed"
    }
  }

  function GravityEvents(): set<string> {
    {
      "GravityEthereumSendToCosmosHandled"
    }
  }

  function CronosEvents(): set<string> {
    {
      "CronosSendToIBCCreated"
    }
  }

  function FirstHalf(): set<string> {
    ChainEvents() + BankEvents() + DistributionEvents() + GovEvents() + StakingEvents() +
    SlashingEvents() + NftEvents()
  }

  function SecondHalf(): set<string> {
    IbcHandshakeEvents() + IbcPacketEvents() + AuthzEvents() + FeegrantEvents() + VestingEvents() +
    GravityEvents() + CronosEvents()
  }

  function Registered(): set<string> {
    FirstHalf() + SecondHalf()
  }

  /** What tells the genesis validator event from a registered one: its initial or its length. */
  predicate Differs(name: string) {
    name == [] || name[0] != 'G' || |name| != 23
  }

  lemma ChainDiffer()
    ensures forall name :: name in ChainEvents() ==> Differs(name)
  {
  }

  lemma BankDiffer()
    ensures forall name :: name in BankEvents() ==> Differs(name)
  {
  }

  lemma DistributionDiffer()
    ensures forall name :: name in DistributionEvents() ==> Differs(name)
  {
  }

  lemma GovDiffer()
    ensures forall name :: name in GovEvents() ==> Differs(name)
  {
  }

  lemma StakingDiffer()
    ensures forall name :: name in StakingEvents() ==> Differs(name)
  {
  }

  lemma SlashingDiffer()
    ensures forall name :: name in SlashingEvents() ==> Differs(name)
  {
  }

  lemma NftDiffer()
    ensures forall name :: name in NftEvents() ==> Differs(name)
  {
  }

  lemma IbcHandshakeDiffer()
    ensures forall name :: name in IbcHandshakeEvents() ==> Differs(name)
  {
  }

  lemma IbcPacketDiffer()
    ensures forall name :: name in IbcPacketEvents() ==> Differs(name)
  {
  }

  lemma AuthzDiffer()
    ensures forall name :: name in AuthzEvents() ==> Differs(name)
  {
  }

  lemma FeegrantDiffer()
    ensures forall name :: name in FeegrantEvents() ==> Differs(name)
  {
  }

  lemma VestingDiffer()
    ensures forall name :: name in VestingEvents() ==> Differs(name)
  {
  }

  lemma GravityDiffer()
    ensures forall name :: name in GravityEvents() ==> Differs(name)
  {
  }

  lemma CronosDiffer()
    ensures forall name :: name in CronosEvents() ==> Differs(name)
  {
  }

  lemma FirstHalfDiffers()
    ensures forall name :: name in FirstHalf() ==> Differs(name)
  {
    ChainDiffer();
    BankDiffer();
    DistributionDiffer();
    GovDiffer();
    StakingDiffer();
    SlashingDiffer();
    NftDiffer();
  }

  lemma SecondHalfDiffers()
    ensures forall name :: name in SecondHalf() ==> Differs(name)
  {
    IbcHandshakeDiffer();
    IbcPacketDiffer();
    AuthzDiffer();
    FeegrantDiffer();
    VestingDiffer();
    GravityDiffer();
    CronosDiffer();
  }

  lemma RegisteredDiffers(name: string)
    requires name in Registered()
    ensures Differs(name)
  {
    FirstHalfDiffers();
    SecondHalfDiffers();
  }

  /** The event that genesis produces for each of its validators has no decoder. */
  lemma GenesisValidatorIsUnregistered()
    ensures GENESIS_VALIDATOR_CREATED !in Registered()
  {
    if GENESIS_VALIDATOR_CREATED in Registered() {
      RegisteredDiffers(GENESIS_VALIDATOR_CREATED);
      assert false;
    }
  }
}
