/** The risk tier the prediction endpoint attaches to a completion probability. */
module Risk {
  datatype RiskLevel = High | Medium | Low

  /** The label written into the response. */
  function RiskName(r: RiskLevel): string {
    match r
    case High => "High"
    case Medium => "Medium"
    case Low => "Low"
  }

  /** Probabilities below this are high risk. */
  const HighRiskBelow: real := 0.3
  /** Probabilities below this, and not high risk, are medium risk. */
  const MediumRiskBelow: real := 0.7

  /** "Low" unless the probability is below 0.3 ("High") or below 0.7 ("Medium");
      both bounds are exclusive. */
  function Tier(prob: real): (r: RiskLevel)
    ensures r == High <==> prob < HighRiskBelow
    ensures r == Medium <==> HighRiskBelow <= prob < MediumRiskBelow
    ensures r == Low <==> MediumRiskBelow <= prob
  {
    if prob < HighRiskBelow then High
    else if prob < MediumRiskBelow then Medium
    else Low
  }

  /** Risk ordered from most to least: a higher rank is a safer student. */
  function Rank(r: RiskLevel): (n: nat)
    ensures n <= 2
  {
    match r
    case High => 0
    case Medium => 1
    case Low => 2
  }

  /** A higher completion probability never gives a riskier tier. */
  lemma TierMonotone(p: real, q: real)
    requires p <= q
    ensures Rank(Tier(p)) <= Rank(Tier(q))
  {
  }

  /** The three labels are distinct, so the response names the tier unambiguously. */
  lemma RiskNamesDistinct(a: RiskLevel, b: RiskLevel)
    ensures RiskName(a) == RiskName(b) <==> a == b
  {
  }
}
