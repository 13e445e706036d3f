/** The recommendation engine: one piece of advice per mapped factor,
    without repetition and in the order the factors first ask for it, and a
    statement for the risk tier. */
module RecommendationService {
  import opened Text

  /** The advice for each known factor. */
  const RecommendationMap: map<string, string> := map[
    "smoking" := "Consider smoking cessation programs or consult a healthcare provider for support.",
    "poor diet" := "Incorporate more fruits, vegetables, and whole grains into your diet. Reduce processed foods.",
    "low exercise" := "Aim for at least 30 minutes of moderate physical activity, like brisk walking, most days of the week.",
    "age risk" := "Schedule regular preventive health check-ups with your doctor.",
    "poor sleep" := "Establish a regular sleep schedule and aim for 7-9 hours of quality sleep per night.",
    "high stress" := "Practice stress-reduction techniques such as mindfulness, meditation, or yoga.",
    "excessive alcohol" := "Reduce alcohol intake to moderate levels as defined by health guidelines.",
    "obesity risk" := "Consult with a healthcare provider or a registered dietitian to create a healthy weight management plan."
  ]

  const HighStatement: string :=
    "Given the high risk level, it is crucial to consult a healthcare professional for a comprehensive evaluation."
  const MediumStatement: string :=
    "Regular monitoring and consistent lifestyle improvements are recommended."
  const MaintenanceStatement: string :=
    "Continue to maintain your healthy lifestyle and schedule regular check-ups."

  /** The eight pieces of advice. */
  const AdviceTexts: set<string> := {
    RecommendationMap["smoking"], RecommendationMap["poor diet"], RecommendationMap["low exercise"],
    RecommendationMap["age risk"], RecommendationMap["poor sleep"], RecommendationMap["high stress"],
    RecommendationMap["excessive alcohol"], RecommendationMap["obesity risk"]
  }

  predicate NoDuplicates(xs: seq<string>) {
    forall i, j :: 0 <= i < j < |xs| ==> xs[i] != xs[j]
  }

  /** `Set.prototype.add` on the insertion-ordered contents. */
  function Insert(xs: seq<string>, x: string): (r: seq<string>)
    ensures NoDuplicates(xs) ==> NoDuplicates(r)
    ensures forall y :: y in r <==> y in xs || y == x
  {
    if x in xs then xs else xs + [x]
  }

  /** A JavaScript `Set` of strings: distinct elements kept in the order they
      were first added. */
  class InsertionOrderedSet {
    var elements: seq<string>

    predicate Valid()
      reads this
    {
      NoDuplicates(elements)
    }

    constructor()
      ensures Valid() && elements == []
    {
      elements := [];
    }

    method Add(x: string)
      requires Valid()
      modifies this
      ensures Valid() && elements == Insert(old(elements), x)
    {
      if x !in elements {
        elements := elements + [x];
      }
    }

    function Size(): (n: nat)
      reads this
      ensures n == |elements|
    {
      |elements|
    }
  }

  /** The advice the factors ask for from `table`, each piece once, in the
      order of the `forEach` over the factors. */
  function Advice(table: map<string, string>, fs: seq<string>): (r: seq<string>)
    ensures NoDuplicates(r)
  {
    if fs == [] then []
    else
      var last := fs[|fs| - 1];
      var prev := Advice(table, fs[..|fs| - 1]);
      if last in table then Insert(prev, table[last]) else prev
  }

  /** The whole list: the advice, then the tier statement. An unknown tier
      gets the maintenance statement only when there is no advice. */
  function Recommendations(riskLevel: string, fs: seq<string>): (r: seq<string>)
    ensures var advice := Advice(RecommendationMap, fs);
      |advice| <= |r| <= |advice| + 1 && r[..|advice|] == advice
    ensures r != []
  {
    var advice := Advice(RecommendationMap, fs);
    if riskLevel == "high" then Insert(advice, HighStatement)
    else if riskLevel == "medium" then Insert(advice, MediumStatement)
    else if |advice| == 0 then Insert(advice, MaintenanceStatement)
    else advice
  }

  datatype Response = Response(riskLevel: string, factors: seq<string>, recommendations: seq<string>)

  /** `generateRecommendations`: the level and the factors are echoed back
      with the recommendations. */
  method GenerateRecommendations(riskLevel: string, factors: seq<string>) returns (response: Response)
    ensures response == Response(riskLevel, factors, Recommendations(riskLevel, factors))
  {
    var recommendations := new InsertionOrderedSet();
    for i := 0 to |factors|
      invariant recommendations.Valid()
      invariant recommendations.elements == Advice(RecommendationMap, factors[..i])
    {
      assert factors[..i + 1][..i] == factors[..i];
      if factors[i] in RecommendationMap {
        recommendations.Add(RecommendationMap[factors[i]]);
      }
    }
    assert factors[..|factors|] == factors;
    if riskLevel == "high" {
      recommendations.Add(HighStatement);
    } else if riskLevel == "medium" {
      recommendations.Add(MediumStatement);
    } else {
      if recommendations.Size() == 0 {
        recommendations.Add(MaintenanceStatement);
      }
    }
    response := Response(riskLevel, factors, recommendations.elements);
  }

  // ---------------------------------------------------------------------
  // Properties of the advice, for any table
  // ---------------------------------------------------------------------

  /** The factor at position `k` asks `table` for advice `s`. */
  predicate AdvisedBy(table: map<string, string>, fs: seq<string>, k: nat, s: string) {
    k < |fs| && fs[k] in table && table[fs[k]] == s
  }

  /** A piece of advice is there exactly when some factor asks for it. */
  lemma {:induction false} AdviceMembers(table: map<string, string>, fs: seq<string>)
    ensures forall s :: s in Advice(table, fs) <==> exists k :: 0 <= k < |fs| && AdvisedBy(table, fs, k, s)
    decreases |fs|
  {
    if fs != [] {
      var init := fs[..|fs| - 1];
      AdviceMembers(table, init);
      forall s ensures s in Advice(table, fs) <==> exists k :: 0 <= k < |fs| && AdvisedBy(table, fs, k, s) {
        if s in Advice(table, init) {
          var k :| 0 <= k < |init| && AdvisedBy(table, init, k, s);
          assert init[k] == fs[k];
          assert AdvisedBy(table, fs, k, s);
        } else if s in Advice(table, fs) {
          assert AdvisedBy(table, fs, |fs| - 1, s);
        }
        if k :| 0 <= k < |fs| && AdvisedBy(table, fs, k, s) {
          if k < |init| {
            assert init[k] == fs[k];
            assert AdvisedBy(table, init, k, s);
          }
        }
      }
    }
  }

  /** A factor in the table puts its advice in the list. */
  lemma AdviceOfFactor(table: map<string, string>, fs: seq<string>, k: nat)
    requires k < |fs| && fs[k] in table
    ensures table[fs[k]] in Advice(table, fs)
  {
    AdviceMembers(table, fs);
    assert AdvisedBy(table, fs, k, table[fs[k]]);
  }

  /** Every piece of advice is a value of the table. */
  lemma AdviceFromTable(table: map<string, string>, fs: seq<string>)
    ensures forall s :: s in Advice(table, fs) ==> s in table.Values
  {
    AdviceMembers(table, fs);
    forall s | s in Advice(table, fs) ensures s in table.Values {
      var k :| 0 <= k < |fs| && AdvisedBy(table, fs, k, s);
      assert table[fs[k]] == s;
    }
  }

  /** No factor in the table: no advice. */
  lemma NoAdvice(table: map<string, string>, fs: seq<string>)
    requires forall k :: 0 <= k < |fs| ==> fs[k] !in table
    ensures Advice(table, fs) == []
  {
    AdviceMembers(table, fs);
  }

  /** Where a factor at or after `from` first asks for advice `s`. */
  function FirstAsked(table: map<string, string>, fs: seq<string>, s: string, from: nat := 0): (r: Option<nat>)
    ensures r.Some? ==> from <= r.value && AdvisedBy(table, fs, r.value, s)
    ensures r.Some? ==> forall k: nat :: from <= k < r.value ==> !AdvisedBy(table, fs, k, s)
    ensures r.None? ==> forall k: nat :: from <= k < |fs| ==> !AdvisedBy(table, fs, k, s)
    decreases |fs| - from
  {
    if from >= |fs| then None
    else if AdvisedBy(table, fs, from, s) then Some(from)
    else FirstAsked(table, fs, s, from + 1)
  }

  /** The advice comes in the order the factors first ask for it. */
  lemma {:induction false} AdviceInFirstOccurrenceOrder(table: map<string, string>, fs: seq<string>)
    ensures forall i :: 0 <= i < |Advice(table, fs)| ==> FirstAsked(table, fs, Advice(table, fs)[i]).Some?
    ensures forall i, j :: 0 <= i < j < |Advice(table, fs)| ==>
      FirstAsked(table, fs, Advice(table, fs)[i]).value < FirstAsked(table, fs, Advice(table, fs)[j]).value
    decreases |fs|
  {
    if fs != [] {
      var init := fs[..|fs| - 1];
      var prev := Advice(table, init);
      AdviceInFirstOccurrenceOrder(table, init);
      forall s | s in prev ensures FirstAsked(table, fs, s) == FirstAsked(table, init, s) {
        FirstAskedExtends(table, fs, s);
      }
      var r := Advice(table, fs);
      if r != prev {
        var last := fs[|fs| - 1];
        var a := table[last];
        assert r == prev + [a] && a !in prev;
        assert AdvisedBy(table, fs, |fs| - 1, a);
        AdviceMembers(table, init);
        FirstAskedExtends(table, fs, a);
        assert FirstAsked(table, fs, a) == Some(|fs| - 1);
        forall i | 0 <= i < |r| ensures FirstAsked(table, fs, r[i]).Some? {
          if i < |prev| {
            assert r[i] == prev[i];
          }
        }
        forall i, j | 0 <= i < j < |r|
          ensures FirstAsked(table, fs, r[i]).value < FirstAsked(table, fs, r[j]).value
        {
          assert r[i] == prev[i] && r[i] in prev;
          if j < |prev| {
            assert r[j] == prev[j];
          } else {
            assert r[j] == a;
          }
        }
      } else {
        forall i | 0 <= i < |r| ensures FirstAsked(table, fs, r[i]) == FirstAsked(table, init, prev[i]) {
          assert r[i] == prev[i] && r[i] in prev;
        }
      }
    }
  }

  /** Appending a factor moves no first occurrence that already exists, and
      otherwise the new factor is the first to ask. */
  lemma FirstAskedExtends(table: map<string, string>, fs: seq<string>, s: string)
    requires fs != []
    ensures var init := fs[..|fs| - 1];
      && (FirstAsked(table, init, s).Some? ==> FirstAsked(table, fs, s) == FirstAsked(table, init, s))
      && (FirstAsked(table, init, s).None? && AdvisedBy(table, fs, |fs| - 1, s) ==>
            FirstAsked(table, fs, s) == Some(|fs| - 1))
  {
    var init := fs[..|fs| - 1];
    forall k: nat | k < |init| ensures AdvisedBy(table, init, k, s) == AdvisedBy(table, fs, k, s) {
      assert init[k] == fs[k];
    }
    if FirstAsked(table, init, s).Some? {
      var i := FirstAsked(table, init, s).value;
      assert AdvisedBy(table, fs, i, s);
    }
  }

  /** A list without repetition drawn from a set is no longer than the set. */
  lemma {:induction false} DistinctWithin(xs: seq<string>, s: set<string>)
    requires NoDuplicates(xs) && forall x :: x in xs ==> x in s
    ensures |xs| <= |s|
    decreases |xs|
  {
    if xs != [] {
      var last := xs[|xs| - 1];
      var init := xs[..|xs| - 1];
      assert last !in init by {
        forall k | 0 <= k < |init| ensures init[k] != last {
          assert init[k] == xs[k];
        }
      }
      forall x | x in init ensures x in s - {last} {
        assert x in xs;
      }
      DistinctWithin(init, s - {last});
    }
  }

  // ---------------------------------------------------------------------
  // Properties of the recommendations
  // ---------------------------------------------------------------------

  /** The table's values are the eight pieces of advice. */
  lemma TableValues()
    ensures RecommendationMap.Values <= AdviceTexts
  {
  }

  lemma AdviceTextsCount()
    ensures |AdviceTexts| <= 8
  {
  }

  /** No tier statement is a piece of advice. */
  lemma StatementsOutsideTable()
    ensures HighStatement !in AdviceTexts && MediumStatement !in AdviceTexts
    ensures MaintenanceStatement !in AdviceTexts
  {
  }

  /** The tier statements are never advice. */
  lemma StatementsAreNotAdvice(fs: seq<string>)
    ensures HighStatement !in Advice(RecommendationMap, fs) && MediumStatement !in Advice(RecommendationMap, fs)
    ensures MaintenanceStatement !in Advice(RecommendationMap, fs)
  {
    AdviceFromTable(RecommendationMap, fs);
    TableValues();
    StatementsOutsideTable();
  }

  /** The list never repeats itself and holds at most nine entries: the
      eight pieces of advice and one statement. */
  lemma RecommendationsBound(riskLevel: string, fs: seq<string>)
    ensures NoDuplicates(Recommendations(riskLevel, fs))
    ensures |Recommendations(riskLevel, fs)| <= 9
  {
    AdviceFromTable(RecommendationMap, fs);
    TableValues();
    AdviceTextsCount();
    DistinctWithin(Advice(RecommendationMap, fs), AdviceTexts);
  }

  /** For `high` and `medium` the statement closes the list. */
  lemma TierStatementLast(riskLevel: string, fs: seq<string>)
    requires riskLevel == "high" || riskLevel == "medium"
    ensures Recommendations(riskLevel, fs) ==
      Advice(RecommendationMap, fs) + [if riskLevel == "high" then HighStatement else MediumStatement]
  {
    StatementsAreNotAdvice(fs);
  }

  /** Any other tier adds no statement once a factor has advice ... */
  lemma OtherTierKeepsAdvice(riskLevel: string, fs: seq<string>, k: nat)
    requires riskLevel != "high" && riskLevel != "medium"
    requires k < |fs| && fs[k] in RecommendationMap
    ensures Recommendations(riskLevel, fs) == Advice(RecommendationMap, fs)
  {
    AdviceOfFactor(RecommendationMap, fs, k);
  }

  /** ... and is exactly the maintenance statement when none has. */
  lemma OtherTierMaintenance(riskLevel: string, fs: seq<string>)
    requires riskLevel != "high" && riskLevel != "medium"
    requires forall k :: 0 <= k < |fs| ==> fs[k] !in RecommendationMap
    ensures Recommendations(riskLevel, fs) == [MaintenanceStatement]
  {
    NoAdvice(RecommendationMap, fs);
  }
}
