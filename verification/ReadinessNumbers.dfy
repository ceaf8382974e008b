/**
 * The numbers behind readiness, peat-protocol/src/cell/capability_aggregation.rs: at which mean confidence
 * a capability turns ready, what authority costs it, and how two capabilities weigh against each other.
 * Levels are the raw authority numbers, 4 for a commander; any number outside 0 to 4 is no level.
 */
module ReadinessNumbers {
  import opened Prelude
  import opened Aggregation
  import opened AggregationLaws

  /** What n contributors under an operator of this level add to their mean confidence, in hundredths. */
  function BonusHundredths(n: nat, level: int): nat {
    (if n >= 5 then 15 else if n >= 3 then 10 else if n == 2 then 5 else 0)
    + (if level == 4 then 10 else if level == 3 then 5 else if level == 2 then 3 else 0)
  }

  lemma ConfidenceByNumbers(mean: real, n: nat, level: int)
    ensures var sum := mean + BonusHundredths(n, level) as real / 100.0;
            Confidence(mean, n, LevelOf(level)) == if sum <= 1.0 then sum else 1.0
  {}

  /** The mean confidence, bonus included, from which a capability is ready, in hundredths; more than 100 is never. */
  function ReadyHundredths(k: CapabilityType, level: int): nat {
    if k == Payload then (if level == 4 then 70 else if 0 <= level <= 3 then 80 else 101)
    else if k == Communication then (if level == 1 then 80 else if 0 <= level <= 4 then 70 else 101)
    else 70
  }

  /**
   * A capability is mission ready exactly when the mean of its contributors and the bonus for their number and
   * authority reach 0.7, or 0.8 for a payload without a commander and for communication under an observer;
   * a payload or communication without any level never is.
   */
  lemma ReadyIff(k: CapabilityType, cs: seq<Contributor>, level: int)
    requires cs != [] && MaxAuthority(Authorities(cs)) == LevelOf(level)
    ensures var need := ReadyHundredths(k, level);
            MissionReady(AggregateType(k, cs).value)
            <==> need <= 100 && Mean(cs) + BonusHundredths(|cs|, level) as real / 100.0 >= need as real / 100.0
  {
    ConfidenceByNumbers(Mean(cs), |cs|, level);
    hide Mean, MaxAuthority, Authorities, Ids, BonusHundredths, Confidence;
    match k {
      case UnspecifiedType => case Sensor => case Compute => case Communication =>
      case Mobility => case Payload => case Emergent =>
    }
  }

  /** Oversight costs a capability nothing under a commander, and up to half its confidence below. */
  lemma OversightCost(c: Aggregated, level: int)
    requires c.confidence <= 1.0 && c.confidence >= 0.0 && c.maxAuthority == LevelOf(level)
    ensures !c.requiresOversight || level == 4 ==> EffectiveConfidence(c) == c.confidence
    ensures c.requiresOversight ==>
              && (level == 3 ==> EffectiveConfidence(c) == 0.85 * c.confidence)
              && (level == 2 ==> EffectiveConfidence(c) == 0.7 * c.confidence)
              && (level == 1 ==> EffectiveConfidence(c) == 0.6 * c.confidence)
              && (level < 1 || level > 4 ==> EffectiveConfidence(c) == 0.5 * c.confidence)
  {}

  /** The weight of a capability type, in hundredths. */
  function WeightHundredths(k: CapabilityType): nat {
    match k
    case Communication => 30
    case Sensor => 25
    case Compute => 20
    case Payload => 15
    case Mobility => 10
    case Emergent => 5
    case UnspecifiedType => 5
  }

  lemma WeightsByNumbers(k: CapabilityType)
    ensures Weight(k) == WeightHundredths(k) as real / 100.0
  {}

  lemma Totals(caps: Capabilities, k: CapabilityType)
    requires k != Communication && caps.Keys == {Communication, k}
    ensures TotalWeight(caps.Keys) == 0.3 + Weight(k)
    ensures TotalScore(caps, caps.Keys)
         == EffectiveConfidence(caps[Communication]) * 0.3 + EffectiveConfidence(caps[k]) * Weight(k)
  {
    hide EffectiveConfidence;
    NothingCounted(caps);
    CountOne(caps, {}, Communication);
    assert {} + {Communication} == {Communication};
    CountOne(caps, {Communication}, k);
    assert {Communication} + {k} == caps.Keys;
    hide TotalScore, TotalWeight;
  }

  /** The score of communication and one other capability, by the weights. */
  lemma ScoreOfTwo(caps: Capabilities, k: CapabilityType)
    requires k != Communication && caps.Keys == {Communication, k}
    ensures var w := WeightHundredths(k) as real;
            Readiness(caps) * (30.0 + w)
            == 30.0 * EffectiveConfidence(caps[Communication]) + w * EffectiveConfidence(caps[k])
  {
    Totals(caps, k);
    WeightsByNumbers(k);
    hide TotalScore, TotalWeight, EffectiveConfidence, Weight;
    var w, x, y := Weight(k), EffectiveConfidence(caps[Communication]), EffectiveConfidence(caps[k]);
    assert w > 0.0;
    Proportion(x * 0.3 + y * w, 0.3 + w, Readiness(caps));
    assert WeightHundredths(k) as real == 100.0 * w;
  }

  lemma Proportion(x: real, d: real, q: real)
    requires d > 0.0 && q == x / d
    ensures q * (100.0 * d) == 100.0 * x
  {
    assert q * d == x;
  }
}
