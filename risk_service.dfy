/** The rule-based risk scorer: factor weights are summed, the reported
    score is capped at 100, the tier comes from the uncapped sum, and each
    weighted factor contributes one line of rationale. */
module RiskService {
  import opened Text

  /** The scoring weight of each known factor. */
  const FactorWeights: map<string, nat> := map[
    "smoking" := 25,
    "poor diet" := 20,
    "low exercise" := 18,
    "age risk" := 15,
    "poor sleep" := 10,
    "high stress" := 12,
    "excessive alcohol" := 15,
    "obesity risk" := 20
  ]

  /** Why each factor is a risk. */
  const RationaleMap: map<string, string> := map[
    "smoking" := "Tobacco use is a major contributor to health risk.",
    "poor diet" := "A diet high in processed foods, fat, or sugar increases health risks.",
    "low exercise" := "A sedentary lifestyle is a significant health risk factor.",
    "age risk" := "Age over 50 is a non-modifiable risk factor.",
    "poor sleep" := "Lack of adequate sleep can impact overall health.",
    "high stress" := "Chronic high stress levels negatively affect health.",
    "excessive alcohol" := "Excessive alcohol consumption is a known health risk.",
    "obesity risk" := "Obesity is linked to a variety of chronic diseases."
  ]

  datatype RiskLevel = Low | Medium | High

  function LevelName(l: RiskLevel): string {
    match l
    case Low => "low"
    case Medium => "medium"
    case High => "high"
  }

  /** `FACTOR_WEIGHTS[factor] || 0`: unknown names weigh nothing. */
  function Weight(f: string): (w: nat)
    ensures w != 0 <==> f in FactorWeights
    ensures w <= 25
  {
    if f in FactorWeights then FactorWeights[f] else 0
  }

  /** The `reduce` over the list, left to right. */
  function TotalWeight(fs: seq<string>): (r: nat)
    ensures r <= 25 * |fs|
  {
    if fs == [] then 0 else TotalWeight(fs[..|fs| - 1]) + Weight(fs[|fs| - 1])
  }

  /** No name weighs more than the sum, and the sum is 0 exactly when every
      name weighs nothing. */
  lemma {:induction false} TotalWeightCoversEach(fs: seq<string>)
    ensures forall i :: 0 <= i < |fs| ==> Weight(fs[i]) <= TotalWeight(fs)
    ensures TotalWeight(fs) == 0 <==> forall i :: 0 <= i < |fs| ==> Weight(fs[i]) == 0
    decreases |fs|
  {
    if fs != [] {
      var init := fs[..|fs| - 1];
      TotalWeightCoversEach(init);
      assert forall i :: 0 <= i < |init| ==> fs[i] == init[i];
    }
  }

  /** The tier for an (uncapped) sum of weights. */
  function Tier(sum: int): (r: RiskLevel)
    ensures r == High <==> sum > 60
    ensures r == Medium <==> 30 < sum <= 60
    ensures r == Low <==> sum <= 30
  {
    if sum > 60 then High else if sum > 30 then Medium else Low
  }

  function Rank(l: RiskLevel): nat {
    match l
    case Low => 0
    case Medium => 1
    case High => 2
  }

  /** The explanation of one factor, with the generic text for a factor
      the rationale table does not know. */
  function Explanation(f: string): (r: string)
    ensures f in RationaleMap ==> r == RationaleMap[f]
    ensures f !in RationaleMap ==> OccursAt(r, f, |FallbackOpening|)
  {
    if f in RationaleMap then RationaleMap[f]
    else
      var r := FallbackOpening + f + "\" contributes to overall risk.";
      assert r[|FallbackOpening|..|FallbackOpening| + |f|] == f;
      r
  }

  const FallbackOpening: string := "The factor \""

  /** `filter` on a non-zero weight, then `map` to the explanation. */
  function Rationale(fs: seq<string>): (r: seq<string>)
    ensures forall i :: 0 <= i < |r| ==> Explains(fs, r[i])
  {
    if fs == [] then []
    else
      var init := fs[..|fs| - 1];
      var last := fs[|fs| - 1];
      var rest := Rationale(init);
      var r := rest + (if Weight(last) != 0 then [Explanation(last)] else []);
      assert forall i :: 0 <= i < |rest| ==> r[i] == rest[i];
      assert forall line :: Explains(init, line) ==> Explains(fs, line);
      assert Weight(last) != 0 ==> Explains(fs, Explanation(last));
      r
  }

  /** `line` explains some weighted name of `fs`. */
  ghost predicate Explains(fs: seq<string>, line: string) {
    exists x :: x in fs && Weight(x) != 0 && line == Explanation(x)
  }

  datatype Classification = Classification(riskLevel: RiskLevel, score: nat, rationale: seq<string>)

  /** `classifyRisk`. */
  function ClassifyRisk(fs: seq<string>): (c: Classification)
    ensures c.score <= 100
    ensures c.score == TotalWeight(fs) || (TotalWeight(fs) > 100 && c.score == 100)
    ensures c.riskLevel == High <==> TotalWeight(fs) > 60
    ensures c.riskLevel == Medium <==> 30 < TotalWeight(fs) <= 60
    ensures c.riskLevel == Low <==> TotalWeight(fs) <= 30
    ensures |c.rationale| == |WeightedOnly(fs)| <= |fs|
    ensures forall i :: 0 <= i < |c.rationale| ==>
      WeightedOnly(fs)[i] in RationaleMap && c.rationale[i] == RationaleMap[WeightedOnly(fs)[i]]
  {
    var sum := TotalWeight(fs);
    RationaleLength(fs);
    RationaleOfWeighted(fs);
    Classification(Tier(sum), if sum < 100 then sum else 100, Rationale(fs))
  }

  // ---------------------------------------------------------------------
  // Properties of the scorer
  // ---------------------------------------------------------------------

  /** One rationale line per weighted element. */
  lemma {:induction false} RationaleLength(fs: seq<string>)
    ensures |Rationale(fs)| == |WeightedOnly(fs)| <= |fs|
    decreases |fs|
  {
    if fs != [] {
      RationaleLength(fs[..|fs| - 1]);
    }
  }

  /** The elements with a non-zero weight, in input order. */
  function WeightedOnly(fs: seq<string>): (r: seq<string>)
    ensures forall x :: x in r <==> x in fs && Weight(x) != 0
  {
    if fs == [] then []
    else
      var last := fs[|fs| - 1];
      WeightedOnly(fs[..|fs| - 1]) + (if Weight(last) != 0 then [last] else [])
  }

  /** Filtering keeps order: it distributes over concatenation. */
  lemma {:induction false} WeightedOnlyAppend(xs: seq<string>, ys: seq<string>)
    ensures WeightedOnly(xs + ys) == WeightedOnly(xs) + WeightedOnly(ys)
    decreases |ys|
  {
    if ys == [] {
      assert xs + ys == xs;
    } else {
      var init := ys[..|ys| - 1];
      assert (xs + ys)[..|xs + ys| - 1] == xs + init;
      assert (xs + ys)[|xs + ys| - 1] == ys[|ys| - 1];
      WeightedOnlyAppend(xs, init);
    }
  }

  /** One element is kept exactly when it has a weight. */
  lemma WeightedOnlySingleton(x: string)
    ensures WeightedOnly([x]) == if Weight(x) != 0 then [x] else []
  {
    assert [x][..0] == [];
  }

  /** The score is additive over concatenation, so the order of the list
      does not matter and every occurrence counts. */
  lemma {:induction false} TotalWeightAppend(xs: seq<string>, ys: seq<string>)
    ensures TotalWeight(xs + ys) == TotalWeight(xs) + TotalWeight(ys)
    decreases |ys|
  {
    if ys != [] {
      var init := ys[..|ys| - 1];
      assert (xs + ys)[..|xs + ys| - 1] == xs + init;
      assert (xs + ys)[|xs + ys| - 1] == ys[|ys| - 1];
      TotalWeightAppend(xs, init);
    } else {
      assert xs + ys == xs;
    }
  }

  /** The rationale is computed element by element: it is additive over
      concatenation, so it keeps the input order. */
  lemma {:induction false} RationaleAppend(xs: seq<string>, ys: seq<string>)
    ensures Rationale(xs + ys) == Rationale(xs) + Rationale(ys)
    decreases |ys|
  {
    if ys != [] {
      var init := ys[..|ys| - 1];
      assert (xs + ys)[..|xs + ys| - 1] == xs + init;
      assert (xs + ys)[|xs + ys| - 1] == ys[|ys| - 1];
      RationaleAppend(xs, init);
    } else {
      assert xs + ys == xs;
    }
  }

  /** The number of occurrences of `x` in `fs`. */
  function Count(fs: seq<string>, x: string): (r: nat)
    ensures r == multiset(fs)[x]
  {
    if fs == [] then 0
    else
      assert fs == fs[..|fs| - 1] + [fs[|fs| - 1]];
      Count(fs[..|fs| - 1], x) + (if fs[|fs| - 1] == x then 1 else 0)
  }

  /** The score is the weight of each known factor times the number of times
      it occurs; unknown names contribute nothing. */
  lemma {:induction false} TotalWeightByOccurrence(fs: seq<string>)
    ensures TotalWeight(fs) ==
      25 * Count(fs, "smoking") + 20 * Count(fs, "poor diet") + 18 * Count(fs, "low exercise")
      + 15 * Count(fs, "age risk") + 10 * Count(fs, "poor sleep") + 12 * Count(fs, "high stress")
      + 15 * Count(fs, "excessive alcohol") + 20 * Count(fs, "obesity risk")
    decreases |fs|
  {
    if fs != [] {
      TotalWeightByOccurrence(fs[..|fs| - 1]);
      ByOccurrenceStep(fs);
    }
  }

  function ByOccurrence(fs: seq<string>): nat {
    25 * Count(fs, "smoking") + 20 * Count(fs, "poor diet") + 18 * Count(fs, "low exercise")
    + 15 * Count(fs, "age risk") + 10 * Count(fs, "poor sleep") + 12 * Count(fs, "high stress")
    + 15 * Count(fs, "excessive alcohol") + 20 * Count(fs, "obesity risk")
  }

  lemma ByOccurrenceStep(fs: seq<string>)
    requires fs != []
    ensures ByOccurrence(fs) == ByOccurrence(fs[..|fs| - 1]) + Weight(fs[|fs| - 1])
  {
  }

  /** Every rationale line of a weighted factor comes from the rationale
      table: the generic text is never produced, because every weighted name
      has an entry there. */
  lemma WeightedHaveRationale(f: string)
    requires Weight(f) != 0
    ensures f in RationaleMap && Explanation(f) == RationaleMap[f]
  {
  }

  /** The rationale is, line by line, the table entry of each weighted
      element of the input, in input order. */
  lemma {:induction false} RationaleOfWeighted(fs: seq<string>)
    ensures |Rationale(fs)| == |WeightedOnly(fs)|
    ensures forall i :: 0 <= i < |Rationale(fs)| ==>
      WeightedOnly(fs)[i] in RationaleMap && Rationale(fs)[i] == RationaleMap[WeightedOnly(fs)[i]]
    decreases |fs|
  {
    if fs != [] {
      var init := fs[..|fs| - 1];
      var last := fs[|fs| - 1];
      RationaleOfWeighted(init);
      if Weight(last) != 0 {
        WeightedHaveRationale(last);
        var n := |Rationale(init)|;
        forall i | 0 <= i < |Rationale(fs)|
          ensures WeightedOnly(fs)[i] in RationaleMap && Rationale(fs)[i] == RationaleMap[WeightedOnly(fs)[i]]
        {
          if i < n {
            assert Rationale(fs)[i] == Rationale(init)[i];
            assert WeightedOnly(fs)[i] == WeightedOnly(init)[i];
          }
        }
      }
    }
  }

  /** A higher sum never gives a lower tier. */
  lemma TierMonotone(s1: int, s2: int)
    requires s1 <= s2
    ensures Rank(Tier(s1)) <= Rank(Tier(s2))
  {
  }

  /** Adding factors never lowers the tier. */
  lemma MoreFactorsNoLowerTier(xs: seq<string>, ys: seq<string>)
    ensures Rank(ClassifyRisk(xs).riskLevel) <= Rank(ClassifyRisk(xs + ys).riskLevel)
  {
    TotalWeightAppend(xs, ys);
    TierMonotone(TotalWeight(xs), TotalWeight(xs + ys));
  }

  /** An empty list scores 0, is low risk and has no rationale. */
  lemma EmptyList()
    ensures ClassifyRisk([]) == Classification(Low, 0, [])
  {
  }

  /** Smoking alone weighs 25: low risk. */
  lemma SmokingAlone()
    ensures ClassifyRisk(["smoking"]) == Classification(Low, 25, [RationaleMap["smoking"]])
  {
    assert ["smoking"][..0] == [];
  }

  const AllFactorNames: seq<string> := [
    "smoking", "poor diet", "low exercise", "age risk",
    "poor sleep", "high stress", "excessive alcohol", "obesity risk"]

  /** All eight factors sum to 135: reported as 100, tier high, with eight
      rationale lines. */
  lemma AllEightFactors()
    ensures TotalWeight(AllFactorNames) == 135
    ensures ClassifyRisk(AllFactorNames).score == 100 && ClassifyRisk(AllFactorNames).riskLevel == High
    ensures |ClassifyRisk(AllFactorNames).rationale| == 8
  {
    var fs := AllFactorNames;
    forall k | 0 <= k <= 8 ensures TotalWeight(fs[..k]) == [0, 25, 45, 63, 78, 88, 100, 115, 135][k] {
      PrefixWeight(fs, k);
    }
    forall k | 0 <= k <= 8 ensures |Rationale(fs[..k])| == k {
      PrefixRationale(fs, k);
    }
    assert fs[..8] == fs;
  }

  lemma {:induction false} PrefixWeight(fs: seq<string>, k: nat)
    requires fs == AllFactorNames && k <= 8
    ensures TotalWeight(fs[..k]) == [0, 25, 45, 63, 78, 88, 100, 115, 135][k]
  {
    if k > 0 {
      PrefixWeight(fs, k - 1);
      assert fs[..k][..k - 1] == fs[..k - 1];
    }
  }

  lemma {:induction false} PrefixRationale(fs: seq<string>, k: nat)
    requires fs == AllFactorNames && k <= 8
    ensures |Rationale(fs[..k])| == k
  {
    if k > 0 {
      PrefixRationale(fs, k - 1);
      assert fs[..k][..k - 1] == fs[..k - 1];
      assert fs[..k][k - 1] in FactorWeights;
    }
  }
}
