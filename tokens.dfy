/**
 * The token estimate used everywhere a token count is shown or enforced:
 * one token per four characters, rounded up (`Math.ceil(text.length / 4)`).
 */
module Tokens {

  /** `Math.ceil(n / 4)` for a natural number `n`. */
  function CeilQuarter(n: nat): (r: nat)
    ensures 4 * r >= n && 4 * r < n + 4
  {
    (n + 3) / 4
  }

  /** `estimateTokens(text)`: the least `r` with `4 * r >= |text|`. */
  function EstimateTokens(text: string): (r: nat)
    ensures 4 * r >= |text| && 4 * r < |text| + 4
  {
    CeilQuarter(|text|)
  }

  /** The estimate is zero exactly for the empty string. */
  lemma EstimateZeroIffEmpty(text: string)
    ensures EstimateTokens(text) == 0 <==> text == []
  {}

  /** A longer text never has a smaller estimate. */
  lemma EstimateMonotone(a: string, b: string)
    requires |a| <= |b|
    ensures EstimateTokens(a) <= EstimateTokens(b)
  {}

  /** The estimate of a concatenation is at most the sum of the estimates. */
  lemma EstimateSubadditive(a: string, b: string)
    ensures EstimateTokens(a + b) <= EstimateTokens(a) + EstimateTokens(b)
  {}
}
