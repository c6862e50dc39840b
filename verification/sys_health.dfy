/** `SystemHealth` of PROCESS/SYS_HEALTH.py: seven raw metrics and a score of
    100 minus fixed penalties for the metrics over their thresholds, never
    below 0. Every penalty is a whole number, so the float score of the source
    is a whole multiple of 5 and is modelled as an `int`. */
module SystemHealth {

  datatype Metric = DecayBias | NodeCount | StorageSize | Frustr | Ache | LoopCount | BleedScore

  /** `self.metrics`; integer metrics are stored as reals of the same value. */
  type Metrics = map<Metric, real>

  /** The metrics `__init__` starts with: none. */
  function Init(): (m: Metrics)
    ensures forall k :: k !in m
  {
    map[]
  }

  /** `update`: the metric map is replaced by exactly the seven given values. */
  function Update(decayBias: real, nodeCount: int, storageSize: int, frustr: real, ache: real,
                  loopCount: int, bleedScore: real): (m: Metrics)
    ensures m.Keys == {DecayBias, NodeCount, StorageSize, Frustr, Ache, LoopCount, BleedScore}
    ensures m[DecayBias] == decayBias && m[NodeCount] == nodeCount as real
    ensures m[StorageSize] == storageSize as real && m[Frustr] == frustr && m[Ache] == ache
    ensures m[LoopCount] == loopCount as real && m[BleedScore] == bleedScore
  {
    map[DecayBias := decayBias, NodeCount := nodeCount as real, StorageSize := storageSize as real,
        Frustr := frustr, Ache := ache, LoopCount := loopCount as real, BleedScore := bleedScore]
  }

  /** `self.metrics.get(k, 0)`. */
  function Get(m: Metrics, k: Metric): real
  {
    if k in m then m[k] else 0.0
  }

  /** The six penalty rules, each with the metrics it looks at. */
  datatype Rule = DecayRule | NodeRule | StorageRule | MoodRule | LoopRule | BleedRule

  const Rules: seq<Rule> := [DecayRule, NodeRule, StorageRule, MoodRule, LoopRule, BleedRule]

  /** The threshold a rule's metric must strictly exceed. */
  function Limit(k: Metric): real
  {
    match k
    case DecayBias => 1.4
    case NodeCount => 80.0
    case StorageSize => 25.0
    case Frustr => 0.6
    case Ache => 0.6
    case LoopCount => 4.0
    case BleedScore => 0.35
  }

  /** The metric is over its threshold. */
  predicate Over(m: Metrics, k: Metric)
  {
    Get(m, k) > Limit(k)
  }

  /** A rule fires when one of its metrics is over its threshold; the mood
      rule looks at both `frustr` and `ache` and fires once. */
  predicate Fires(m: Metrics, r: Rule)
  {
    match r
    case DecayRule => Over(m, DecayBias)
    case NodeRule => Over(m, NodeCount)
    case StorageRule => Over(m, StorageSize)
    case MoodRule => Over(m, Frustr) || Over(m, Ache)
    case LoopRule => Over(m, LoopCount)
    case BleedRule => Over(m, BleedScore)
  }

  function Penalty(r: Rule): nat
  {
    match r
    case DecayRule => 25
    case NodeRule => 20
    case StorageRule => 15
    case MoodRule => 15
    case LoopRule => 20
    case BleedRule => 15
  }

  /** The total deduction of the rules in `rs` that fire. */
  function Deduction(m: Metrics, rs: seq<Rule>): nat
  {
    if |rs| == 0 then 0 else (if Fires(m, rs[0]) then Penalty(rs[0]) else 0) + Deduction(m, rs[1..])
  }

  /** The deduction of all six rules, summed rule by rule. */
  lemma DeductionOfRules(m: Metrics)
    ensures Deduction(m, Rules)
         == (if Fires(m, DecayRule) then 25 else 0) + (if Fires(m, NodeRule) then 20 else 0)
          + (if Fires(m, StorageRule) then 15 else 0) + (if Fires(m, MoodRule) then 15 else 0)
          + (if Fires(m, LoopRule) then 20 else 0) + (if Fires(m, BleedRule) then 15 else 0)
  {
    var r6 := [BleedRule];
    var r5 := [LoopRule] + r6;
    var r4 := [MoodRule] + r5;
    var r3 := [StorageRule] + r4;
    var r2 := [NodeRule] + r3;
    assert Rules == [DecayRule] + r2;
    assert r6[1..] == [];
    assert Deduction(m, r6) == (if Fires(m, BleedRule) then 15 else 0);
    assert r5[1..] == r6 && r4[1..] == r5 && r3[1..] == r4 && r2[1..] == r3 && Rules[1..] == r2;
    assert Deduction(m, r5) == (if Fires(m, LoopRule) then 20 else 0) + Deduction(m, r6);
    assert Deduction(m, r4) == (if Fires(m, MoodRule) then 15 else 0) + Deduction(m, r5);
    assert Deduction(m, r3) == (if Fires(m, StorageRule) then 15 else 0) + Deduction(m, r4);
    assert Deduction(m, r2) == (if Fires(m, NodeRule) then 20 else 0) + Deduction(m, r3);
    assert Deduction(m, Rules) == (if Fires(m, DecayRule) then 25 else 0) + Deduction(m, r2);
  }

  /** `get_health_score`: 100 less the penalties, never below 0. */
  function Score(m: Metrics): (score: int)
    ensures 0 <= score <= 100
    ensures score % 5 == 0
    ensures score == 100 <==> forall r :: r in Rules ==> !Fires(m, r)
    ensures score == if Deduction(m, Rules) > 100 then 0 else 100 - Deduction(m, Rules)
  {
    var raw := Raw(m);
    DeductionFives(m, Rules);
    DeductionZero(m, Rules);
    Clamped(raw, Deduction(m, Rules));
    if raw < 0 then 0 else raw
  }

  /** `max(0, 100 - d)` for a deduction `d` that is a multiple of 5. */
  lemma Clamped(raw: int, d: nat)
    requires raw == 100 - d && d % 5 == 0
    ensures var r := if raw < 0 then 0 else raw;
            && 0 <= r <= 100 && r % 5 == 0
            && (r == 100 <==> d == 0)
            && r == (if d > 100 then 0 else 100 - d)
  {
  }

  /** The score before the clamp at 0, written out rule by rule as in the
      source. */
  function Raw(m: Metrics): (score: int)
    ensures score == 100 - Deduction(m, Rules)
  {
    var score := 100;
    var score := if Fires(m, DecayRule) then score - 25 else score;
    var score := if Fires(m, NodeRule) then score - 20 else score;
    var score := if Fires(m, StorageRule) then score - 15 else score;
    var score := if Fires(m, MoodRule) then score - 15 else score;
    var score := if Fires(m, LoopRule) then score - 20 else score;
    var score := if Fires(m, BleedRule) then score - 15 else score;
    DeductionOfRules(m);
    score
  }

  /** Every penalty is a multiple of 5, and so is any sum of them. */
  lemma {:induction false} DeductionFives(m: Metrics, rs: seq<Rule>)
    ensures Deduction(m, rs) % 5 == 0
  {
    if |rs| > 0 {
      DeductionFives(m, rs[1..]);
    }
  }

  /** Every penalty is positive, so nothing is deducted exactly when no rule
      fires. */
  lemma {:induction false} DeductionZero(m: Metrics, rs: seq<Rule>)
    ensures Deduction(m, rs) == 0 <==> forall r :: r in rs ==> !Fires(m, r)
  {
    if |rs| > 0 {
      DeductionZero(m, rs[1..]);
      assert forall r :: r in rs <==> r == rs[0] || r in rs[1..];
    }
  }

  /** Every rule's metrics are at most those of another reading. */
  predicate AtMost(a: Metrics, b: Metrics)
  {
    forall k: Metric :: Get(a, k) <= Get(b, k)
  }

  /** Raising metrics never raises the score. */
  lemma ScoreMonotone(a: Metrics, b: Metrics)
    requires AtMost(a, b)
    ensures Score(b) <= Score(a)
  {
    assert forall r :: Fires(a, r) ==> Fires(b, r) by {
      assert Get(a, Frustr) <= Get(b, Frustr) && Get(a, Ache) <= Get(b, Ache);
    }
    DeductionMonotone(a, b, Rules);
  }

  lemma {:induction false} DeductionMonotone(a: Metrics, b: Metrics, rs: seq<Rule>)
    requires forall r :: Fires(a, r) ==> Fires(b, r)
    ensures Deduction(a, rs) <= Deduction(b, rs)
  {
    if |rs| > 0 {
      DeductionMonotone(a, b, rs[1..]);
    }
  }

  /** Raising a single metric never raises the score. */
  lemma RaiseOneMetric(m: Metrics, k: Metric, v: real)
    requires v >= Get(m, k)
    ensures Score(m[k := v]) <= Score(m)
  {
    assert AtMost(m, m[k := v]);
    ScoreMonotone(m, m[k := v]);
  }

  /** Each rule costs exactly its own penalty: when it is the only rule that
      fires, the score is 100 less that penalty. */
  lemma SingleRulePenalty(m: Metrics, r: Rule)
    requires Fires(m, r)
    requires forall q :: q != r ==> !Fires(m, q)
    ensures Score(m) == 100 - Penalty(r)
  {
    DeductionOfRules(m);
  }

  /** Before any update the score is 100. */
  lemma InitialScore()
    ensures Score(Init()) == 100
  {
  }

  /** With both `frustr` and `ache` over 0.6 the mood penalty is taken once:
      nothing else over its threshold leaves 85. */
  lemma MoodPenaltyOnce(decayBias: real, nodeCount: int, storageSize: int, loopCount: int, bleedScore: real)
    requires decayBias <= 1.4 && nodeCount <= 80 && storageSize <= 25 && loopCount <= 4 && bleedScore <= 0.35
    ensures Score(Update(decayBias, nodeCount, storageSize, 0.9, 0.9, loopCount, bleedScore)) == 85
  {
  }

  /** The usage example at the foot of the source file: no metric is over its
      threshold, so the score is 100 (the comment there shows 88). */
  lemma UsageExampleScore()
    ensures Score(Update(1.2, 68, 18, 0.4, 0.3, 1, 0.1)) == 100
  {
  }

  /** Everything over its threshold: the 110 points of penalties clamp to 0. */
  lemma WorstScore(m: Metrics)
    requires forall k: Metric :: Over(m, k)
    ensures Score(m) == 0
  {
    assert Over(m, DecayBias) && Over(m, NodeCount) && Over(m, StorageSize) && Over(m, LoopCount) && Over(m, BleedScore);
    assert Fires(m, DecayRule) && Fires(m, NodeRule) && Fires(m, StorageRule) && Fires(m, LoopRule) && Fires(m, BleedRule);
    DeductionOfRules(m);
  }
}
