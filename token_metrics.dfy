/**
 * The `TokenMetrics` record the meme-token service collects for a contract and
 * hands to the scorer. Its JavaScript `number` fields are only compared or
 * carried along, never computed with, so they are modelled as mathematical
 * reals.
 */
module Metrics {

  datatype LiquidityMetrics = LiquidityMetrics(
    totalLiquidity: string,
    /** Declared as a string, so JavaScript truthiness applies to it (see `Truthy`). */
    liquidityLocked: string,
    lockPeriod: real)

  datatype OwnershipMetrics = OwnershipMetrics(
    ownerAddress: string,
    ownershipPercentage: real,
    renounced: bool)

  datatype TokenMetrics = TokenMetrics(
    totalSupply: string,
    circulatingSupply: string,
    holdersCount: real,
    liquidityMetrics: LiquidityMetrics,
    ownershipMetrics: OwnershipMetrics)

  /** JavaScript truthiness of a string: only the empty string is falsy ("0" is truthy). */
  predicate Truthy(s: string) {
    s != ""
  }

  /** The same record with its `liquidityLocked` field replaced. */
  function WithLiquidityLocked(m: TokenMetrics, locked: string): (m': TokenMetrics)
    ensures m'.liquidityMetrics.liquidityLocked == locked
    ensures m'.liquidityMetrics.totalLiquidity == m.liquidityMetrics.totalLiquidity
    ensures m'.liquidityMetrics.lockPeriod == m.liquidityMetrics.lockPeriod
    ensures m'.totalSupply == m.totalSupply && m'.circulatingSupply == m.circulatingSupply
    ensures m'.ownershipMetrics == m.ownershipMetrics && m'.holdersCount == m.holdersCount
  {
    m.(liquidityMetrics := m.liquidityMetrics.(liquidityLocked := locked))
  }
}
