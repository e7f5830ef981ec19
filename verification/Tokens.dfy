/** The token estimator a prompt budget is measured with. */
module Tokens {
  const MESSAGE_OVERHEAD_TOKENS := 8

  function CeilDiv(a: nat, b: nat): nat
    requires b > 0
  {
    (a + b - 1) / b
  }

  /** About 3.5 characters a token, rounded up, plus one. */
  function EstimateTokens(text: string): nat {
    if text == [] then 0 else CeilDiv(|text| * 2, 7) + 1
  }

  /** The least number of tokens at which a text can be this long. */
  lemma EstimateBounds(text: string)
    requires text != []
    ensures 7 * (EstimateTokens(text) - 2) < 2 * |text| <= 7 * (EstimateTokens(text) - 1)
  {
  }

  /** Nothing costs nothing; else the characters fit in one token less than the
    * estimate, at three and a half each, and not in two less.
    */
  lemma EstimateExactly(text: string, tokens: nat)
    ensures EstimateTokens(text) == tokens
       <==> if text == "" then tokens == 0 else tokens >= 2 && 7 * (tokens - 2) < 2 * |text| <= 7 * (tokens - 1)
  {
    if text != "" {
      EstimateBounds(text);
    }
  }

  lemma EstimateMonotone(a: string, b: string)
    requires |a| <= |b|
    ensures EstimateTokens(a) <= EstimateTokens(b)
  {
  }

  /** Seven characters are exactly two tokens: a text at least that much
    * shorter is strictly cheaper.
    */
  lemma EstimateDropsBySeven(a: string, b: string)
    requires |a| + 7 <= |b|
    ensures EstimateTokens(a) + 2 <= EstimateTokens(b)
  {
  }
}
