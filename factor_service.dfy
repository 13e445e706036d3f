/** The rule engine that reads health risk factors off a set of survey
    answers: eight fixed rules, evaluated in table order, each with a static
    confidence. */
module FactorService {
  import opened Text
  import opened OcrService

  /** The eight rules of the factor table, by the factor they report. */
  datatype Factor =
    | Smoking | PoorDiet | LowExercise | AgeRisk
    | PoorSleep | HighStress | ExcessiveAlcohol | ObesityRisk

  /** The table, in the order its rules are evaluated. */
  const FactorRules: seq<Factor> :=
    [Smoking, PoorDiet, LowExercise, AgeRisk, PoorSleep, HighStress, ExcessiveAlcohol, ObesityRisk]

  /** The human-readable factor name reported to callers. */
  function Name(f: Factor): string {
    match f
    case Smoking => "smoking"
    case PoorDiet => "poor diet"
    case LowExercise => "low exercise"
    case AgeRisk => "age risk"
    case PoorSleep => "poor sleep"
    case HighStress => "high stress"
    case ExcessiveAlcohol => "excessive alcohol"
    case ObesityRisk => "obesity risk"
  }

  /** The rule's static confidence. */
  function Confidence(f: Factor): (c: real)
    ensures 0.70 <= c <= 0.95
  {
    match f
    case Smoking => 0.95
    case PoorDiet => 0.90
    case LowExercise => 0.88
    case AgeRisk => 0.85
    case PoorSleep => 0.82
    case HighStress => 0.85
    case ExcessiveAlcohol => 0.88
    case ObesityRisk => 0.70
  }

  /** Position of a rule in the table. */
  function RuleIndex(f: Factor): (i: nat)
    ensures i < |FactorRules| && FactorRules[i] == f
  {
    match f
    case Smoking => 0
    case PoorDiet => 1
    case LowExercise => 2
    case AgeRisk => 3
    case PoorSleep => 4
    case HighStress => 5
    case ExcessiveAlcohol => 6
    case ObesityRisk => 7
  }

  /** `value?.toLowerCase() || ''`. */
  function LowerOrEmpty(o: Option<string>): (r: string)
    ensures r == "" <==> !Filled(o)
    ensures Filled(o) ==> r == Lower(o.value)
  {
    if o.Some? then Lower(o.value) else ""
  }

  /** `parseFloat` applied to a run of digits and dots: the longest prefix of
      the form digits, optional dot, digits; no number when that prefix has
      no digit at all. */
  function LeadingDecimal(w: string): (r: Option<real>)
    ensures r.Some? ==> r.value >= 0.0
    ensures r.Some? <==> (|w| > 0 && IsDigit(w[0])) || (|w| > 1 && w[0] == '.' && IsDigit(w[1]))
  {
    var i := SpanEnd(w, 0, IsDigit);
    var frac := if i < |w| && w[i] == '.' then w[i + 1..SpanEnd(w, i + 1, IsDigit)] else [];
    if i == 0 && frac == [] then None
    else Some(DigitsValue(w[..i]) as real + DigitsValue(frac) as real / Pow10(|frac|) as real)
  }

  /** The class `[\d.]`. */
  predicate IsDigitOrDot(c: char) {
    IsDigit(c) || c == '.'
  }

  /** The weight named in a lower-cased weight string: `parseFloat` of its
      first run of digits and dots. */
  function WeightKg(weight: string): (r: Option<real>)
    ensures r.Some? ==> r.value >= 0.0
    ensures r.Some? <==> exists i: nat :: NumberStartsAt(weight, i)
  {
    NumberStartIff(weight);
    var run := FirstRun(weight, IsDigitOrDot);
    if run.Some? then LeadingDecimal(run.value) else None
  }

  /** The first digit or dot of `w` is at `i`, and a number starts there:
      a digit, or a dot followed by a digit. */
  predicate NumberStartsAt(w: string, i: nat) {
    && i < |w|
    && (IsDigit(w[i]) || (w[i] == '.' && i + 1 < |w| && IsDigit(w[i + 1])))
    && forall m :: 0 <= m < i ==> !IsDigitOrDot(w[m])
  }

  /** `parseFloat` of the first run of digits and dots is a number exactly
      when a number starts where that run does. */
  lemma NumberStartIff(w: string)
    ensures var run := FirstRun(w, IsDigitOrDot);
      (run.Some? && LeadingDecimal(run.value).Some?) <==> exists i: nat :: NumberStartsAt(w, i)
  {
    var run := FirstRun(w, IsDigitOrDot);
    if run.Some? {
      var i: nat, j: nat :| LeftmostRun(w, IsDigitOrDot, i, j) && run.value == w[i..j];
      assert run.value[0] == w[i];
      assert j > i + 1 ==> run.value[1] == w[i + 1];
      forall i': nat | NumberStartsAt(w, i') ensures i' == i {
        assert IsDigitOrDot(w[i']);
      }
      if LeadingDecimal(run.value).Some? {
        assert NumberStartsAt(w, i);
      }
    }
  }

  /** The hours named in a sleep string: `parseInt` of its first digit run. */
  function SleepHours(sleep: string): (r: Option<nat>)
    ensures r.None? <==> forall k :: 0 <= k < |sleep| ==> !IsDigit(sleep[k])
    ensures r.Some? ==> exists i: nat, j: nat :: LeftmostRun(sleep, IsDigit, i, j) && r.value == DigitsValue(sleep[i..j])
  {
    var run := FirstRun(sleep, IsDigit);
    if run.Some? then Some(DigitsValue(run.value)) else None
  }

  /** The answer each rule reads. */
  function RuleField(f: Factor): Field {
    match f
    case Smoking => Smoker
    case PoorDiet => Diet
    case LowExercise => Exercise
    case AgeRisk => Age
    case PoorSleep => Sleep
    case HighStress => Stress
    case ExcessiveAlcohol => Alcohol
    case ObesityRisk => Weight
  }

  /** The condition of each rule. A comparison with a missing number (`NaN`
      or `undefined` in the source) is false. */
  predicate Condition(f: Factor, a: Answers): (holds: bool)
    ensures holds ==> Present(a, RuleField(f))
  {
    match f
    case Smoking => a.smoker == Some(true)
    case PoorDiet =>
      var diet := LowerOrEmpty(a.diet);
      Contains(diet, "high sugar") || Contains(diet, "high fat") || Contains(diet, "processed")
    case LowExercise =>
      var exercise := LowerOrEmpty(a.exercise);
      Contains(exercise, "rarely") || Contains(exercise, "never")
    case AgeRisk => a.age.Some? && a.age.value > 50
    case PoorSleep =>
      Filled(a.sleep) && SleepHours(a.sleep.value).Some? && SleepHours(a.sleep.value).value < 6
    case HighStress =>
      var stress := LowerOrEmpty(a.stress);
      Contains(stress, "high") || stress == "4" || stress == "5"
    case ExcessiveAlcohol =>
      var alcohol := LowerOrEmpty(a.alcohol);
      Contains(alcohol, "daily") || Contains(alcohol, "heavy")
    case ObesityRisk =>
      Filled(a.weight)
      && var weight := Lower(a.weight.value);
         (WeightKg(weight).Some? && WeightKg(weight).value > 100.0) || Contains(weight, "obese")
  }

  function LowerOption(o: Option<string>): Option<string> {
    if o.Some? then Some(Lower(o.value)) else None
  }

  /** The answers with every text field lower-cased. */
  function LowerAnswers(a: Answers): Answers {
    a.(exercise := LowerOption(a.exercise), diet := LowerOption(a.diet),
       sleep := LowerOption(a.sleep), stress := LowerOption(a.stress),
       alcohol := LowerOption(a.alcohol), weight := LowerOption(a.weight),
       height := LowerOption(a.height))
  }

  /** Every rule ignores case: the text rules lower-case what they read, and
      the sleep rule reads only digits. */
  lemma ConditionIgnoresCase(f: Factor, a: Answers)
    ensures Condition(f, LowerAnswers(a)) == Condition(f, a)
  {
    var l := LowerAnswers(a);
    match f
    case PoorDiet =>
      if a.diet.Some? { LowerIdempotent(a.diet.value); }
    case LowExercise =>
      if a.exercise.Some? { LowerIdempotent(a.exercise.value); }
    case PoorSleep =>
      if a.sleep.Some? {
        DigitsIgnoreCase(a.sleep.value);
        assert SleepHours(l.sleep.value) == SleepHours(a.sleep.value);
      }
    case HighStress =>
      if a.stress.Some? { LowerIdempotent(a.stress.value); }
    case ExcessiveAlcohol =>
      if a.alcohol.Some? { LowerIdempotent(a.alcohol.value); }
    case ObesityRisk =>
      if a.weight.Some? { LowerIdempotent(a.weight.value); }
    case _ =>
  }

  /** What evaluating one rule does: its condition throws (the rule is then
      skipped and reported on the error log), holds or fails. The answers
      record here is typed, so `throwing` names the rules whose condition
      throws on the caller's values. */
  predicate Fires(f: Factor, a: Answers, throwing: set<Factor>) {
    f !in throwing && Condition(f, a)
  }

  /** The rules among `rules` that fire, in order. */
  function TriggeredAmong(rules: seq<Factor>, a: Answers, throwing: set<Factor>): (r: seq<Factor>)
    ensures |r| <= |rules|
    ensures forall f :: f in r <==> f in rules && Fires(f, a, throwing)
  {
    if rules == [] then []
    else
      var last := rules[|rules| - 1];
      TriggeredAmong(rules[..|rules| - 1], a, throwing) + (if Fires(last, a, throwing) then [last] else [])
  }

  function Triggered(a: Answers, throwing: set<Factor>): (r: seq<Factor>)
    ensures |r| <= |FactorRules|
    ensures forall f :: f in r <==> Fires(f, a, throwing)
  {
    EveryRuleInTable();
    TriggeredAmong(FactorRules, a, throwing)
  }

  lemma EveryRuleInTable()
    ensures forall f :: f in FactorRules
  {
    forall f ensures f in FactorRules {
      assert FactorRules[RuleIndex(f)] == f;
    }
  }

  function Names(fs: seq<Factor>): (r: seq<string>)
    ensures |r| == |fs| && forall i :: 0 <= i < |fs| ==> r[i] == Name(fs[i])
  {
    if fs == [] then [] else Names(fs[..|fs| - 1]) + [Name(fs[|fs| - 1])]
  }

  function Confidences(fs: seq<Factor>): (r: seq<real>)
    ensures |r| == |fs| && forall i :: 0 <= i < |fs| ==> r[i] == Confidence(fs[i])
  {
    if fs == [] then [] else Confidences(fs[..|fs| - 1]) + [Confidence(fs[|fs| - 1])]
  }

  /** `reduce((sum, c) => sum + c, 0)`. */
  function Sum(cs: seq<real>): (r: real)
    ensures (forall i :: 0 <= i < |cs| ==> 0.0 <= cs[i]) ==> 0.0 <= r && forall i :: 0 <= i < |cs| ==> cs[i] <= r
  {
    if cs == [] then 0.0 else Sum(cs[..|cs| - 1]) + cs[|cs| - 1]
  }

  /** The overall confidence: the mean of the confidences, or 0 for none. */
  function Mean(cs: seq<real>): (r: real)
    ensures |cs| == 0 ==> r == 0.0
    ensures |cs| > 0 ==> r * |cs| as real == Sum(cs)
  {
    if |cs| == 0 then 0.0 else Sum(cs) / |cs| as real
  }

  /** The `reduce` adds up over concatenation, so summing left to right is
      summing the parts. */
  lemma {:induction false} SumAppend(xs: seq<real>, ys: seq<real>)
    ensures Sum(xs + ys) == Sum(xs) + Sum(ys)
    decreases |ys|
  {
    if ys == [] {
      assert xs + ys == xs;
    } else {
      var init := ys[..|ys| - 1];
      assert (xs + ys)[..|xs + ys| - 1] == xs + init;
      assert (xs + ys)[|xs + ys| - 1] == ys[|ys| - 1];
      SumAppend(xs, init);
    }
  }

  /** `extractFactors`: one pass over the table, pushing the name and the
      confidence of every rule that fires; a throwing rule is skipped and
      the pass goes on. */
  method ExtractFactors(answers: Answers, throwing: set<Factor>) returns (factors: seq<string>, confidence: real)
    ensures factors == Names(Triggered(answers, throwing))
    ensures confidence == Mean(Confidences(Triggered(answers, throwing)))
  {
    var extracted: seq<string> := [];
    var confidences: seq<real> := [];
    for i := 0 to |FactorRules|
      invariant extracted == Names(TriggeredAmong(FactorRules[..i], answers, throwing))
      invariant confidences == Confidences(TriggeredAmong(FactorRules[..i], answers, throwing))
    {
      var f := FactorRules[i];
      TriggeredStep(FactorRules, i, answers, throwing);
      if f in throwing {
        // the condition threw: report it and go on with the next rule
      } else if Condition(f, answers) {
        extracted := extracted + [Name(f)];
        confidences := confidences + [Confidence(f)];
      }
    }
    assert FactorRules[..|FactorRules|] == FactorRules;
    factors := extracted;
    confidence := Mean(confidences);
  }

  /** Evaluating one more rule appends its factor when it fires. */
  lemma TriggeredStep(rules: seq<Factor>, i: nat, a: Answers, throwing: set<Factor>)
    requires i < |rules|
    ensures var before := TriggeredAmong(rules[..i], a, throwing);
      var after := TriggeredAmong(rules[..i + 1], a, throwing);
      && (Fires(rules[i], a, throwing) ==> after == before + [rules[i]])
      && (!Fires(rules[i], a, throwing) ==> after == before)
      && Names(before + [rules[i]]) == Names(before) + [Name(rules[i])]
      && Confidences(before + [rules[i]]) == Confidences(before) + [Confidence(rules[i])]
  {
    assert rules[..i + 1][..i] == rules[..i];
    var before := TriggeredAmong(rules[..i], a, throwing);
    assert (before + [rules[i]])[..|before|] == before;
  }

  // ---------------------------------------------------------------------
  // Properties of the rule engine
  // ---------------------------------------------------------------------

  /** Strictly increasing table positions: table order, no repetition. */
  predicate InTableOrder(fs: seq<Factor>) {
    forall i, j :: 0 <= i < j < |fs| ==> RuleIndex(fs[i]) < RuleIndex(fs[j])
  }

  /** Triggered factors come in table order, so each at most once. */
  lemma {:induction false} TriggeredInRuleOrder(rules: seq<Factor>, a: Answers, throwing: set<Factor>)
    requires InTableOrder(rules)
    ensures InTableOrder(TriggeredAmong(rules, a, throwing))
  {
    if rules != [] {
      var init := rules[..|rules| - 1];
      var last := rules[|rules| - 1];
      assert InTableOrder(init) by {
        forall i, j | 0 <= i < j < |init| ensures RuleIndex(init[i]) < RuleIndex(init[j]) {
          assert init[i] == rules[i] && init[j] == rules[j];
        }
      }
      TriggeredInRuleOrder(init, a, throwing);
      var r0 := TriggeredAmong(init, a, throwing);
      forall f | f in r0 ensures RuleIndex(f) < RuleIndex(last) {
        var k :| 0 <= k < |init| && init[k] == f;
        assert init[k] == rules[k];
      }
      var r := TriggeredAmong(rules, a, throwing);
      assert r == r0 + (if Fires(last, a, throwing) then [last] else []);
      forall i, j | 0 <= i < j < |r| ensures RuleIndex(r[i]) < RuleIndex(r[j]) {
        assert r[i] == r0[i];
        if j < |r0| {
          assert r[j] == r0[j];
        } else {
          assert r[j] == last && r[i] in r0;
        }
      }
    }
  }

  /** The reported factors are the names of the rules that fire, in table
      order, without repetition. */
  lemma ReportedFactors(a: Answers, throwing: set<Factor>)
    ensures InTableOrder(Triggered(a, throwing))
    ensures forall f :: f in Triggered(a, throwing) <==> Fires(f, a, throwing)
    ensures var names := Names(Triggered(a, throwing));
      forall i, j :: 0 <= i < j < |names| ==> names[i] != names[j]
  {
    RulesInTableOrder();
    TriggeredInRuleOrder(FactorRules, a, throwing);
    var r := Triggered(a, throwing);
    forall i, j | 0 <= i < j < |r| ensures Names(r)[i] != Names(r)[j] {
      assert RuleIndex(r[i]) < RuleIndex(r[j]);
      NameInjective(r[i], r[j]);
    }
  }

  lemma RulesInTableOrder()
    ensures InTableOrder(FactorRules)
  {
    forall i | 0 <= i < |FactorRules| ensures RuleIndex(FactorRules[i]) == i {
    }
  }

  lemma NameInjective(f: Factor, g: Factor)
    ensures Name(f) == Name(g) ==> f == g
  {
  }

  /** A skipped rule never reports, and skipping rules does not change what
      the other rules report. */
  lemma ThrowingRuleSkipped(a: Answers, throwing: set<Factor>, f: Factor)
    ensures f in throwing ==> f !in Triggered(a, throwing)
    ensures forall g :: g != f ==> (g in Triggered(a, throwing) <==> g in Triggered(a, throwing - {f}))
  {
  }

  lemma {:induction false} SumBounds(fs: seq<Factor>)
    ensures 0.70 * |fs| as real <= Sum(Confidences(fs)) <= 0.95 * |fs| as real
    decreases |fs|
  {
    if fs != [] {
      var init := fs[..|fs| - 1];
      SumBounds(init);
      assert Confidences(fs) == Confidences(init) + [Confidence(fs[|fs| - 1])];
      assert Confidences(fs)[..|fs| - 1] == Confidences(init);
    }
  }

  /** The overall confidence is 0 when nothing fires and otherwise lies
      between the smallest and the largest rule confidence (applied to
      `Triggered(a, throwing)`, these are the reported confidences). */
  lemma {:induction false} ConfidenceRange(fs: seq<Factor>)
    ensures fs == [] ==> Mean(Confidences(fs)) == 0.0
    ensures fs != [] ==> 0.70 <= Mean(Confidences(fs)) <= 0.95
  {
    if fs != [] {
      var cs := Confidences(fs);
      SumBounds(fs);
      assert Mean(cs) == Sum(cs) / |cs| as real;
      MeanBetween(Sum(cs), |fs| as real, 0.70, 0.95);
    }
  }

  lemma MeanBetween(s: real, n: real, lo: real, hi: real)
    requires n > 0.0 && lo * n <= s <= hi * n
    ensures lo <= s / n <= hi
  {
    var q := s / n;
    assert q * n == s;
  }

  /** A sleep string without a digit never counts as poor sleep. */
  lemma SleepWithoutDigitsNeverPoor(a: Answers)
    requires a.sleep.Some? && forall k :: 0 <= k < |a.sleep.value| ==> !IsDigit(a.sleep.value[k])
    ensures !Condition(PoorSleep, a)
  {
  }

  /** Poor sleep is a first digit run denoting fewer than six hours, for
      example `5 hours`. */
  lemma FiveHoursIsPoorSleep(a: Answers)
    requires a.sleep == Some("5 hours")
    ensures Condition(PoorSleep, a)
  {
    var s := "5 hours";
    assert IndexWhere(s, IsDigit, 0) == Some(0);
    assert SpanEnd(s, 0, IsDigit) == 1 by {
      assert !IsDigit(s[1]);
    }
    assert s[0..1] == "5";
    assert FirstRun(s, IsDigit) == Some("5");
    assert DigitsValue("5") == 5 by {
      assert "5"[..0] == [];
    }
  }

  /** The value `parseFloat` reads from a digit-and-dot run lies between its
      integer part and the next integer. */
  lemma LeadingDecimalBounds(w: string)
    requires LeadingDecimal(w).Some?
    ensures var n := DigitsValue(w[..SpanEnd(w, 0, IsDigit)]) as real;
      n <= LeadingDecimal(w).value < n + 1.0
  {
    var i := SpanEnd(w, 0, IsDigit);
    var frac := if i < |w| && w[i] == '.' then w[i + 1..SpanEnd(w, i + 1, IsDigit)] else [];
    var n := DigitsValue(w[..i]);
    assert LeadingDecimal(w).value == n as real + DigitsValue(frac) as real / Pow10(|frac|) as real;
    DigitsValueBelow(frac);
    FractionBelowOne(DigitsValue(frac), Pow10(|frac|));
  }

  lemma FractionBelowOne(f: nat, p: nat)
    requires f < p
    ensures 0.0 <= f as real / p as real < 1.0
    ensures f > 0 <==> f as real / p as real > 0.0
  {
    var q := f as real / p as real;
    assert q * p as real == f as real;
  }

  /** The weight test, without reals: above 100 exactly when the integer part
      exceeds 100, or is 100 with a non-zero fraction. */
  lemma WeightAbove100Iff(w: string)
    requires LeadingDecimal(w).Some?
    ensures var i := SpanEnd(w, 0, IsDigit);
      var n := DigitsValue(w[..i]);
      var frac := if i < |w| && w[i] == '.' then w[i + 1..SpanEnd(w, i + 1, IsDigit)] else [];
      LeadingDecimal(w).value > 100.0 <==> n > 100 || (n == 100 && DigitsValue(frac) > 0)
  {
    var i := SpanEnd(w, 0, IsDigit);
    var frac := if i < |w| && w[i] == '.' then w[i + 1..SpanEnd(w, i + 1, IsDigit)] else [];
    var n := DigitsValue(w[..i]);
    assert LeadingDecimal(w).value == n as real + DigitsValue(frac) as real / Pow10(|frac|) as real;
    DigitsValueBelow(frac);
    FractionBelowOne(DigitsValue(frac), Pow10(|frac|));
  }

  /** Smoking and age risk fire only on a definite `true` and an age above
      50; absent answers fire nothing. */
  lemma AbsentAnswersFireNothing()
    ensures forall f :: !Condition(f, NoAnswers)
  {
    forall f ensures !Condition(f, NoAnswers) {
      if f == HighStress {
        assert !Contains("", "high");
      } else {
        assert !Contains("", "high sugar") && !Contains("", "high fat") && !Contains("", "processed");
        assert !Contains("", "rarely") && !Contains("", "never");
        assert !Contains("", "daily") && !Contains("", "heavy");
      }
    }
  }

  /** The normaliser never fills in `exercise`, so on any parsed text the
      low-exercise rule cannot fire, whatever the text says about exercise. */
  lemma LowExerciseNeverFromText(text: string, throwing: set<Factor>)
    ensures !Fires(LowExercise, Normalize(text), throwing)
    ensures LowExercise !in Triggered(Normalize(text), throwing)
  {
    assert !Contains("", "rarely") && !Contains("", "never");
    ReportedFactors(Normalize(text), throwing);
  }
}
