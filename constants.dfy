/**
 * The phase-0 constants as the newer simulator's specification file declares them
 * (mainnet values). Only the constants the modelled logic reads are listed.
 */
module Constants {
  const GENESIS_SLOT: nat := 0
  const GENESIS_EPOCH: nat := 0
  const FAR_FUTURE_EPOCH: nat := 0xFFFF_FFFF_FFFF_FFFF
  const BASE_REWARDS_PER_EPOCH: nat := 4
  const JUSTIFICATION_BITS_LENGTH: nat := 4
  const MAX_COMMITTEES_PER_SLOT: nat := 64
  const TARGET_COMMITTEE_SIZE: nat := 128
  const MAX_VALIDATORS_PER_COMMITTEE: nat := 2048
  const MIN_PER_EPOCH_CHURN_LIMIT: nat := 4
  const CHURN_LIMIT_QUOTIENT: nat := 65536
  const SHUFFLE_ROUND_COUNT: nat := 90
  const MIN_GENESIS_ACTIVE_VALIDATOR_COUNT: nat := 16384
  const MIN_GENESIS_TIME: nat := 1578009600
  const HYSTERESIS_QUOTIENT: nat := 4
  const HYSTERESIS_DOWNWARD_MULTIPLIER: nat := 1
  const HYSTERESIS_UPWARD_MULTIPLIER: nat := 5
  const MIN_DEPOSIT_AMOUNT: nat := 1_000_000_000
  const MAX_EFFECTIVE_BALANCE: nat := 32_000_000_000
  const EJECTION_BALANCE: nat := 16_000_000_000
  const EFFECTIVE_BALANCE_INCREMENT: nat := 1_000_000_000
  const MIN_GENESIS_DELAY: nat := 86400
  const SECONDS_PER_SLOT: nat := 12
  const MIN_ATTESTATION_INCLUSION_DELAY: nat := 1
  const SLOTS_PER_EPOCH: nat := 32
  const MIN_SEED_LOOKAHEAD: nat := 1
  const MAX_SEED_LOOKAHEAD: nat := 4
  const MIN_EPOCHS_TO_INACTIVITY_PENALTY: nat := 4
  const EPOCHS_PER_ETH1_VOTING_PERIOD: nat := 32
  const SLOTS_PER_HISTORICAL_ROOT: nat := 8192
  const MIN_VALIDATOR_WITHDRAWABILITY_DELAY: nat := 256
  const SHARD_COMMITTEE_PERIOD: nat := 256
  const EPOCHS_PER_HISTORICAL_VECTOR: nat := 65536
  const EPOCHS_PER_SLASHINGS_VECTOR: nat := 8192
  const BASE_REWARD_FACTOR: nat := 64
  const WHISTLEBLOWER_REWARD_QUOTIENT: nat := 512
  const PROPOSER_REWARD_QUOTIENT: nat := 8
  const INACTIVITY_PENALTY_QUOTIENT: nat := 0x100_0000
  const MIN_SLASHING_PENALTY_QUOTIENT: nat := 32
  const MAX_DEPOSITS: nat := 16
  const SAFE_SLOTS_TO_UPDATE_JUSTIFIED: nat := 8
}
