/**
 * The safety score: 100 minus fixed deductions for concentrated ownership,
 * a falsy liquidity-lock flag and few holders, clamped into [0, 100].
 * The free-text analysis the service also passes in is never read.
 */
module Scoring {
  import opened Metrics

  const MaxScore := 100
  const OwnershipLimit: real := 50.0
  const OwnershipDeduction := 30
  const LiquidityDeduction := 20
  const HoldersLimit: real := 100.0
  const HoldersDeduction := 10

  /** More than half of the supply is held by the owner (strictly above the limit). */
  predicate OwnershipConcentrated(m: TokenMetrics) {
    m.ownershipMetrics.ownershipPercentage > OwnershipLimit
  }

  /** `!liquidityLocked` under JavaScript truthiness: only the empty string triggers it. */
  predicate LiquidityFlagFalsy(m: TokenMetrics) {
    !Truthy(m.liquidityMetrics.liquidityLocked)
  }

  /** Fewer holders than the limit (strictly below). */
  predicate FewHolders(m: TokenMetrics) {
    m.holdersCount < HoldersLimit
  }

  /** The points a condition costs: `points` when it holds, nothing otherwise. */
  function Deduction(holds: bool, points: nat): nat {
    if holds then points else 0
  }

  /**
   * The score as a sum of independent deductions; every combination stays a
   * multiple of ten between 40 and 100, so the clamp never bites.
   */
  function SafetyScore(m: TokenMetrics): (r: int)
    ensures 40 <= r <= MaxScore && r % 10 == 0
  {
    MaxScore
    - Deduction(OwnershipConcentrated(m), OwnershipDeduction)
    - Deduction(LiquidityFlagFalsy(m), LiquidityDeduction)
    - Deduction(FewHolders(m), HoldersDeduction)
  }

  /** `Math.max` and `Math.min` on integers. */
  function Max(a: int, b: int): int { if a >= b then a else b }
  function Min(a: int, b: int): int { if a <= b then a else b }

  /**
   * The service's scorer: start from 100, apply the three guarded deductions in
   * turn, then clamp. The result depends on the metrics alone: `analysis` is
   * accepted and ignored.
   */
  method CalculateSafetyScore(analysis: string, metrics: TokenMetrics) returns (score: int)
    ensures 0 <= score <= MaxScore
    ensures score == SafetyScore(metrics)
  {
    score := MaxScore;
    if metrics.ownershipMetrics.ownershipPercentage > OwnershipLimit {
      score := score - OwnershipDeduction;
    }
    if !Truthy(metrics.liquidityMetrics.liquidityLocked) {
      score := score - LiquidityDeduction;
    }
    if metrics.holdersCount < HoldersLimit {
      score := score - HoldersDeduction;
    }
    score := Max(0, Min(MaxScore, score));
  }

  /** A concentrated owner caps the score at 70, whatever the other metrics say. */
  lemma ConcentratedOwnershipCapsScore(m: TokenMetrics)
    requires OwnershipConcentrated(m)
    ensures SafetyScore(m) <= MaxScore - OwnershipDeduction
  {
  }

  /**
   * The liquidity deduction applies exactly when the flag is the empty string:
   * any non-empty flag scores 20 more than "" on an otherwise identical record.
   */
  lemma LiquidityDeductionIffEmpty(m: TokenMetrics, locked: string)
    ensures LiquidityFlagFalsy(WithLiquidityLocked(m, locked)) <==> locked == ""
    ensures locked != "" ==>
      SafetyScore(WithLiquidityLocked(m, "")) == SafetyScore(WithLiquidityLocked(m, locked)) - LiquidityDeduction
  {
  }

  /** The placeholder flag "0" that the metrics collector always fills in is truthy: no liquidity deduction. */
  lemma PlaceholderFlagNotPenalised(m: TokenMetrics)
    requires m.liquidityMetrics.liquidityLocked == "0"
    ensures !LiquidityFlagFalsy(m)
    ensures SafetyScore(m) >= MaxScore - OwnershipDeduction - HoldersDeduction
  {
  }

  /** The thresholds are strict: ownership of exactly 50 and exactly 100 holders cost nothing. */
  lemma ThresholdsAreStrict(m: TokenMetrics)
    requires m.ownershipMetrics.ownershipPercentage == 50.0 && m.holdersCount == 100.0
    ensures !OwnershipConcentrated(m) && !FewHolders(m)
    ensures SafetyScore(m) == MaxScore - Deduction(LiquidityFlagFalsy(m), LiquidityDeduction)
  {
  }

  /** More holders and a smaller owner share, with the same liquidity flag, never lower the score. */
  lemma ScoreMonotone(m: TokenMetrics, m': TokenMetrics)
    requires m'.holdersCount >= m.holdersCount
    requires m'.ownershipMetrics.ownershipPercentage <= m.ownershipMetrics.ownershipPercentage
    requires m'.liquidityMetrics.liquidityLocked == m.liquidityMetrics.liquidityLocked
    ensures SafetyScore(m) <= SafetyScore(m')
  {
  }

  /** All three conditions at once give 100 - 30 - 20 - 10 = 40, the lowest score. */
  lemma AllDeductionsStack(m: TokenMetrics)
    requires OwnershipConcentrated(m) && LiquidityFlagFalsy(m) && FewHolders(m)
    ensures SafetyScore(m) == 40
  {
  }

  /**
   * Ownership 60, flag "0" and 50 holders score 60, not 40: the "0" flag is
   * truthy, so only the ownership and holder deductions apply.
   */
  lemma PlaceholderRecordScoresSixty(m: TokenMetrics)
    requires m.ownershipMetrics.ownershipPercentage == 60.0
    requires m.liquidityMetrics.liquidityLocked == "0"
    requires m.holdersCount == 50.0
    ensures SafetyScore(m) == 60
  {
  }
}
