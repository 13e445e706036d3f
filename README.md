# Health risk profiler: a verified model of the scoring pipeline

The profiler takes a lifestyle survey, as an uploaded photo of the form or as text, and returns a
risk assessment. The pipeline modelled here has five stages:

1. The input router (`src/utils/parser.js`) decides where the survey text comes from. An image wins.
   Then comes the `text` key of a JSON body, then a plain-text body. Anything else is an error with a
   fixed message.
2. The OCR normaliser (`src/services/ocrService.js`) lower-cases the text. For each survey field it
   finds the leftmost `label:?\s*(value)` match. The age is stored as the number of its digit run and
   the smoker answer as a boolean. Sleep and stress store the first hours or rating token of the line
   as it stands, and only a line without one is passed through `sanitizeValue`. Diet, alcohol, weight
   and height are sanitised, with the diet keywords and the `veek` typo fixed. It then lists the
   expected fields that are missing. More than half missing makes an incomplete profile.
   Image results also carry a confidence derived from the OCR engine's percentage.
3. The factor engine (`src/services/factorService.js`) evaluates eight fixed rules in table order.
   A rule whose condition throws is skipped. The overall confidence is the mean of the static
   confidences of the rules that fired.
4. The risk scorer (`src/services/riskService.js`) sums the weights of the factor names and reports
   the sum capped at 100. The tier comes from the uncapped sum: above 60 is high, above 30 medium.
   It adds one rationale line per weighted name.
5. The recommendation engine (`src/services/recommendationService.js`) collects advice per factor,
   without repetition and in first-occurrence order, into a JavaScript `Set`. It then adds a
   statement for a high or a medium tier. For any other tier it adds the maintenance statement, and
   only when no advice was collected.

The project has one module per source file, plus `Text`:

- `Text` models the JavaScript string operations the pipeline uses: `\s`, `\d`, `toLowerCase`,
  `indexOf`, `includes`, `replace` with a string pattern, and `trim`.
- `OcrService` models each regular expression as an explicit backtracking search. The leftmost start
  position wins. The optional colon is tried first. The greedy `\s*` gives characters back one at a
  time. The value groups are a digit run, one of the smoker words, or the rest of the line.
- `ParseAndNormalize` is imperative, as in the source: it fills the answers record field by field.
  It is proved equal to the function `Normalize`, which the router and the lemmas use.
- `ExtractFactors` is a loop over the rule table, proved against `Triggered`, `Names` and `Mean`.
- `GenerateRecommendations` drives a small `InsertionOrderedSet` class that stands for the `Set`.
  It is proved against `Recommendations`.
- `ClassifyRisk`, `ParseRequestInput` and the normaliser's tail are functions.

`parseAndNormalize` has no rule for `exercise`, so that field is always missing
(`OcrService.ExerciseAlwaysMissing`). The low-exercise rule can therefore never fire on parsed text
(`FactorService.LowExerciseNeverFromText`). Take the survey text
`Age: 55\nSmoker: yes\nExercise: rarely\nDiet: high sugar diet\nSleep: 5 hours\nStress: high\nAlcohol: daily\nWeight: 110kg\nHeight: 170cm`.
All nine fields are written, yet the code finds eight and lists `exercise` as missing. Seven
factors fire: every rule but low exercise. Their weights sum to 117, which is reported as 100, and
the tier is high.

That example is worked out here by hand; it is not proved as one lemma. Evaluating `Normalize` on that whole
literal is beyond the verifier's budget. The edge case `diet:` alone is proved instead
(`OcrService.ColonAtEndCountsAsMissing`). The optional colon backtracks, so the value captured is
`:` itself. Sanitising that gives `''`, which counts as missing. The same holds when only
whitespace follows the label (`OcrService.BlankDietCountsAsMissing` for `diet: ` and a line break):
the greedy `\s*` gives back a blank, the capture is whitespace, and trimming leaves `''`.

## Model

| member | source | states |
|---|---|---|
| Text.Lower | src/services/ocrService.js:25 | lower-casing keeps the length and maps each character on its own |
| Text.LowerIdempotent | src/services/ocrService.js:25 | lower-casing twice is lower-casing once |
| Text.Trim | src/services/ocrService.js:15 | the result is a slice of the input with only whitespace cut from each end; it starts and ends with a non-whitespace character and is empty exactly when the input is all whitespace |
| Text.TrimKeepsNonSpace | src/services/ocrService.js:15 | trimming keeps every non-whitespace character, as often as it occurs |
| Text.TrimUnpadded | src/services/ocrService.js:15 | a string with no whitespace at either end is unchanged by `trim` |
| Text.TrimUnique | src/services/ocrService.js:15 | `trim` has exactly one result: any slice that cuts only whitespace off each end and has no whitespace at either end is the trim |
| Text.SpanEnd | src/services/ocrService.js:28 | a greedy run: every character up to the end satisfies the class and the next one does not |
| Text.SpanEndIs | src/services/ocrService.js:28 | a run that the next character cannot extend is exactly the greedy run |
| Text.SpanEndCovers | src/services/ocrService.js:28 | the greedy run covers every run of the class from the same start |
| Text.IndexWhere | src/services/factorService.js:36 | the leftmost position at or after the start whose character is in the class |
| Text.FirstRun | src/services/factorService.js:36 | the match is the leftmost run of matching characters, taken as far as it goes; there is none exactly when no character matches |
| Text.DigitsIgnoreCase | src/services/factorService.js:36 | lower-casing a string leaves its first digit run unchanged |
| Text.IndexOf | src/services/ocrService.js:39-40 | the result is an occurrence at or after `from`, with no occurrence between `from` and it; None means no occurrence at all |
| Text.ContainsIff | src/services/ocrService.js:39-40 | `includes` holds exactly when the word occurs at some position |
| Text.ReplaceFirst | src/services/ocrService.js:61 | with no occurrence the text is unchanged; otherwise the text before the leftmost occurrence and after it is kept, and the replacement stands in its place |
| Text.ReplaceFirstInPlace | src/services/ocrService.js:61 | a same-length string replacement overwrites only the leftmost occurrence and keeps every other character |
| Text.ReplaceFirstLetter | src/services/ocrService.js:61 | replacing by a word that differs only in its first letter changes exactly that one character of the leftmost occurrence |
| Text.DigitsValueBelow | src/services/ocrService.js:29 | a run of n digits denotes less than ten to the n |
| OcrService.StripDisallowed | src/services/ocrService.js:15 | the result has only allowed characters and is no longer than the input |
| OcrService.StripDisallowedConcat | src/services/ocrService.js:15 | a global replace works character by character: it distributes over concatenation |
| OcrService.StripDisallowedKeepsKept | src/services/ocrService.js:15 | a string of allowed characters is left unchanged |
| OcrService.StripDisallowedKeepsCount | src/services/ocrService.js:15 | every allowed character survives stripping, as often as it occurs |
| OcrService.Sanitize | src/services/ocrService.js:12-16 | only letters, digits, whitespace and `/-().,&` remain, and every allowed non-whitespace character of the input survives as often as it occurs; the empty input gives `''`; the result is the slice left after cutting the outer whitespace (none left at either end), stripped of disallowed characters: trim first, then strip |
| OcrService.SanitizeIsStripOfTrim | src/services/ocrService.js:15 | every value has such a trimmed slice, with no whitespace left at either end, and sanitises to that slice stripped of disallowed characters |
| OcrService.SanitizeBlank | src/services/ocrService.js:12-16 | a value of whitespace only sanitises to `''` |
| OcrService.SanitizeColon | src/services/ocrService.js:12-16 | the value `:` sanitises to `''` |
| OcrService.SanitizeTrimsBeforeStripping | src/services/ocrService.js:15 | trimming happens before stripping: `"a #"` gives `"a "`, keeping the space the removed `#` exposed |
| OcrService.FirstAlternative | src/services/ocrService.js:32 | the alternation takes a listed word that occurs at the position, and fails only when none does |
| OcrService.GroupAt | src/services/ocrService.js:28 | a captured group has its group's shape |
| OcrService.BacktrackFrom | src/services/ocrService.js:28 | a group found while giving whitespace back has its group's shape |
| OcrService.SpacedGroup | src/services/ocrService.js:28 | a group found after `\s*` has its group's shape |
| OcrService.LabelTail | src/services/ocrService.js:28 | a group found after the label, trying the colon first, has its group's shape |
| OcrService.LeftmostLabel | src/services/ocrService.js:28 | the match starts at the least position where the label and its tail match |
| OcrService.Capture | src/services/ocrService.js:28 | a capture has its group's shape |
| OcrService.BacktrackOverSpaces | src/services/ocrService.js:28 | giving whitespace back to `\s*` never helps a digit or word group |
| OcrService.NoBacktrackTail | src/services/ocrService.js:28 | for a digit or word group, the tail match is the group at the end of the colon and the whitespace |
| OcrService.ColonTailTakesColon | src/services/ocrService.js:32 | when a colon follows the label, a digit or word group is matched after it |
| OcrService.NoBacktrackSpaced | src/services/ocrService.js:28 | after the colon, a digit or word group starts at the end of the whitespace |
| OcrService.ColonIsNoGroup | src/services/ocrService.js:32 | a digit or word group cannot start at a colon |
| OcrService.LineTail | src/services/ocrService.js:36 | the line group takes everything from the first non-space character to the line break |
| OcrService.LineSpaced | src/services/ocrService.js:36 | after the colon, the line group runs from the first non-space character to the line break |
| OcrService.LineAtColon | src/services/ocrService.js:36 | a colon right after a label is itself enough for a line group |
| OcrService.DirectAtIff | src/services/ocrService.js:28-32 | for digit and word groups, the backtracking match at a position agrees with the direct reading |
| OcrService.HoursSuffix | src/services/ocrService.js:47 | a found `\s*hours?` really matches: whitespace, then `hour` or `hours` |
| OcrService.HoursSuffixLongest | src/services/ocrService.js:47 | every `\s*hours?` match is found, and none is longer than the one found |
| OcrService.SuffixStart | src/services/ocrService.js:47 | a `\s*hours?` match begins with neither a digit nor `-` |
| OcrService.TokenAt | src/services/ocrService.js:47-54 | a token end found at a position is the end of a real match of the hours or the rating pattern |
| OcrService.RangeSuffix | src/services/ocrService.js:47 | a found range continues with `-`, a second digit run and a real `\s*hours?` match |
| OcrService.HoursEnd | src/services/ocrService.js:47 | a found hours token is a real match of `(\d+-\d+|\d+)\s*hours?` |
| OcrService.RatingEnd | src/services/ocrService.js:54 | a found rating token is a real match of `(\d+|low|medium|high)` |
| OcrService.NumberIsGreedy | src/services/ocrService.js:47 | a number that the next character cannot extend is the greedy digit run, or two greedy runs joined by `-` |
| OcrService.HoursEndAfter | src/services/ocrService.js:47 | after such a number the hours search reads the suffix where the number ends |
| OcrService.HoursEndSingle | src/services/ocrService.js:47 | without a completed range, the hours search reads the suffix after the first digit run |
| OcrService.HoursEndRange | src/services/ocrService.js:47 | a completed range is the hours token |
| OcrService.HoursAtLongest | src/services/ocrService.js:47 | every hours match at a position is found, and none is longer than the one found |
| OcrService.RatingAtLongest | src/services/ocrService.js:54 | every rating match at a position is found, and none is longer than the one found |
| OcrService.TokenAtLongest | src/services/ocrService.js:47-54 | every token match at a position is found, and none is longer than the one found |
| OcrService.SuffixAfterNumber | src/services/ocrService.js:47 | a number followed by a `\s*hours?` match makes an hours match |
| OcrService.LeftmostToken | src/services/ocrService.js:47-48 | the token search finds the least start position |
| OcrService.FirstToken | src/services/ocrService.js:47-55 | a found token is a substring of the line matching the pattern |
| OcrService.NoTokenBefore | src/services/ocrService.js:47-54 | where the pattern matches nowhere before a position, the search finds no token start before it |
| OcrService.FirstTokenIsLeftmostLongest | src/services/ocrService.js:47-55 | the token is the leftmost-longest match: it starts where the leftmost match starts and is the longest match starting there |
| OcrService.FirstTokenNoneIff | src/services/ocrService.js:47-55 | there is no token exactly when the pattern matches nowhere |
| OcrService.DietValue | src/services/ocrService.js:36-42 | `high sugar` when the sanitised line mentions sugar, else `balanced` when it mentions balanced, else the sanitised line |
| OcrService.SleepValue | src/services/ocrService.js:45-49 | when the line has an hours match, the value is a matching substring of the raw line; when it has none, it is the sanitised line |
| OcrService.StressValue | src/services/ocrService.js:51-56 | when the line has a rating match, the value is a matching substring of the raw line; when it has none, it is the sanitised line |
| OcrService.SleepIsLeftmostLongestHours | src/services/ocrService.js:45-49 | the stored sleep is the leftmost-longest `(\d+-\d+|\d+)\s*hours?` of the line |
| OcrService.StressIsLeftmostLongestRating | src/services/ocrService.js:51-56 | the stored stress is the leftmost-longest `(\d+|low|medium|high)` of the line |
| OcrService.AlcoholValue | src/services/ocrService.js:59-62 | the alcohol value has the sanitised line's length and only allowed characters; without `veek` it is the sanitised line |
| OcrService.AgeOf | src/services/ocrService.js:27-29 | the age is absent exactly when the `age` pattern matches nowhere |
| OcrService.SmokerOf | src/services/ocrService.js:31-33 | the smoker answer is absent exactly when the `smoker` pattern matches nowhere |
| OcrService.DietOf | src/services/ocrService.js:35-42 | the diet is absent exactly when the `diet` pattern matches nowhere |
| OcrService.SleepOf | src/services/ocrService.js:44-49 | the sleep answer is absent exactly when the `sleep` pattern matches nowhere |
| OcrService.StressOf | src/services/ocrService.js:51-56 | the stress answer is absent exactly when the `stress` pattern matches nowhere |
| OcrService.AlcoholOf | src/services/ocrService.js:58-62 | the alcohol answer is absent exactly when the `alcohol` pattern matches nowhere, and holds only allowed characters |
| OcrService.SanitizedField | src/services/ocrService.js:64-72 | the weight or the height is absent exactly when its pattern matches nowhere, and holds only allowed characters |
| OcrService.Normalize | src/services/ocrService.js:22-75 | the answers never hold `exercise` |
| OcrService.ParseAndNormalize | src/services/ocrService.js:22-75 | the field-by-field updates give exactly `Normalize(text)`, with no `exercise` |
| OcrService.NormalizeSeesOnlyLowerCase | src/services/ocrService.js:25 | the answers depend only on the lower-cased text |
| OcrService.AgeIsFirstLabelledNumber | src/services/ocrService.js:28-29 | the age is the value of the digit run after the leftmost `age` label followed by digits |
| OcrService.AgeAbsent | src/services/ocrService.js:28-29 | the age is absent exactly when no `age` label is followed by digits |
| OcrService.AgeOfAbsent | src/services/ocrService.js:28-29 | on lower-cased text, no age exactly when no `age` label is followed by digits |
| OcrService.SmokerIsFirstLabelledWord | src/services/ocrService.js:32-33 | at the leftmost labelled smoker word, the answer is true exactly when the word is `y…` or `true` |
| OcrService.SmokerWordTruth | src/services/ocrService.js:33 | the matched word is in `yes`/`true`/`y` exactly when it starts with `y` or is `true` |
| OcrService.SmokerWordShape | src/services/ocrService.js:32-33 | the truthy smoker words are exactly those starting with `y` or `t`, and `t` means `true` |
| OcrService.SmokerAbsent | src/services/ocrService.js:32-33 | the smoker answer is absent exactly when no `smoker` label is followed by a smoker word |
| OcrService.SmokerOfAbsent | src/services/ocrService.js:32-33 | on lower-cased text, no smoker answer exactly when no `smoker` label is followed by a smoker word |
| OcrService.BacktrackLineIff | src/services/ocrService.js:36 | backtracking finds a line group exactly when some character in range is not a line break |
| OcrService.LineTailIff | src/services/ocrService.js:36 | a line field matches after a label exactly when a character other than a line break follows it |
| OcrService.AlcoholFixesFirstVeek | src/services/ocrService.js:59-62 | alcohol is the sanitised line with only the first `veek` changed to `week`; everything else is unchanged |
| OcrService.VeekFixed | src/services/ocrService.js:61 | replacing `veek` by `week` changes one character of the leftmost occurrence and nothing else |
| OcrService.BlankBacktrack | src/services/ocrService.js:36 | when only whitespace follows the start of `\s*`, giving characters back captures whitespace at most |
| OcrService.BlankTail | src/services/ocrService.js:36-38 | a rest-of-line label followed only by whitespace (after the optional colon) captures whitespace or the colon, and either sanitises to `''` |
| OcrService.BlankDietCountsAsMissing | src/services/ocrService.js:36-42 | the text `diet: ` and a line break stores diet `''`, which counts as missing |
| OcrService.DietOfBlank | src/services/ocrService.js:36-42 | `diet: ` and a line break yield the diet `''` |
| OcrService.LowerBlankDiet | src/services/ocrService.js:25 | that text is already lower case |
| OcrService.DietField | src/services/ocrService.js:35-42 | the stored diet is the diet capture of the lower-cased text |
| OcrService.DietMissing | src/services/ocrService.js:90-91 | the diet is missing exactly when it is absent or `''` |
| OcrService.ColonAtEndCountsAsMissing | src/services/ocrService.js:36-42 | the text `diet:` stores diet `''`, which counts as missing |
| OcrService.DietOfColon | src/services/ocrService.js:36-42 | `diet:` alone yields the diet `''` |
| OcrService.ColonTail | src/services/ocrService.js:36 | after `diet`, the optional colon gives way and the line group captures `:` |
| OcrService.ColonSanitisesToEmpty | src/services/ocrService.js:12-16 | the line `:` sanitises to `''`, so the diet is `''` |
| OcrService.LabelledIffDirect | src/services/ocrService.js:28-32 | at one position, the backtracking match of a digit or word field agrees with the direct reading and captures the same group |
| OcrService.LeftmostIsDirect | src/services/ocrService.js:28-32 | the capture is the group at the first position where the direct reading matches |
| OcrService.LeftmostLabelAt | src/services/ocrService.js:28 | the search returns the first position where the pattern matches |
| OcrService.CaptureAt | src/services/ocrService.js:28 | the capture is the tail match at the leftmost label |
| OcrService.NoDirectNoCapture | src/services/ocrService.js:28-33 | nothing is captured exactly when the direct reading matches nowhere |
| OcrService.CaptureNoneIff | src/services/ocrService.js:28 | nothing is captured exactly when the pattern matches nowhere |
| OcrService.CaptureNoneIffNoLabel | src/services/ocrService.js:28 | nothing is captured exactly when the label search fails |
| OcrService.NoLabelIff | src/services/ocrService.js:28 | the label search fails exactly when no position matches |
| OcrService.MissingAmong | src/services/ocrService.js:90-91 | missing fields are, in order, the expected fields that are absent or `''` |
| OcrService.FoundAmong | src/services/ocrService.js:90 | found fields are the expected fields that are present and not `''`; `smoker: false` counts as found |
| OcrService.Filled | src/services/ocrService.js:90 | a text field passes exactly when its JavaScript value is truthy: present and not `''` |
| OcrService.Present | src/services/ocrService.js:90 | a field is found exactly when the answers object has its key and the value there is not `''`; `PresentEdgeCases` spells out `false`, `0` and `''` |
| OcrService.PresentEdgeCases | src/services/ocrService.js:90 | the found test keeps `smoker: false` and `age: 0`, and rejects a stored `''` and an absent key |
| OcrService.MissingFields | src/services/ocrService.js:91 | a field is missing exactly when it is not found; the missing fields keep the expected order and number at most nine |
| OcrService.SubsequenceLength | src/services/ocrService.js:91 | a filtered list is no longer than the list |
| OcrService.FoundMissingPartition | src/services/ocrService.js:90-91 | found and missing fields split the expected fields, with no overlap |
| OcrService.ExerciseAlwaysMissing | src/services/ocrService.js:22-75 | `exercise` is always among the missing fields |
| OcrService.Assess | src/services/ocrService.js:95-110 | an incomplete profile with the reason `>50% fields missing` exactly when five or more of nine fields are missing, otherwise ok with the answers unchanged |
| OcrService.OverallConfidence | src/services/ocrService.js:93 | 0.9 above 80 percent, otherwise the percentage as a fraction |
| OcrService.OverallConfidenceMonotone | src/services/ocrService.js:93 | a higher OCR percentage never gives a lower confidence |
| OcrService.ParseImage | src/services/ocrService.js:88-110 | never an error; the missing fields are those of the normalised scan text, and more than half missing gives an incomplete profile with the reason `>50% fields missing`; an ok result carries the normalised answers; both carry the overall confidence |
| FactorService.Confidence | src/services/factorService.js:12-64 | every static confidence lies between 0.70 and 0.95 |
| FactorService.RuleIndex | src/services/factorService.js:9-66 | every factor has its place in the rule table |
| FactorService.LeadingDecimal | src/services/factorService.js:61 | `parseFloat` of a digit-and-dot run is a number exactly when the run starts with a digit, or with a dot and then a digit; that number is non-negative |
| FactorService.WeightKg | src/services/factorService.js:60-61 | the weight is a number exactly when the first digit or dot of the string starts a number, and then it is non-negative |
| FactorService.NumberStartIff | src/services/factorService.js:61 | `parseFloat` of the first digit-and-dot run is a number exactly when a number starts where that run does |
| FactorService.SleepHours | src/services/factorService.js:36 | no hours exactly when the string has no digit; otherwise the value of the leftmost maximal digit run |
| FactorService.LowerOrEmpty | src/services/factorService.js:16 | an absent or empty field reads as `''`; a truthy one reads lower-cased |
| FactorService.Condition | src/services/factorService.js:11-65 | a rule fires only when the answer it reads is found; the verdicts are pinned by `ConditionIgnoresCase`, `FiveHoursIsPoorSleep`, `SleepWithoutDigitsNeverPoor`, `WeightAbove100Iff` and `AbsentAnswersFireNothing` |
| FactorService.LeadingDecimalBounds | src/services/factorService.js:61 | the weight lies between its integer part and that part plus one |
| FactorService.FractionBelowOne | src/services/factorService.js:61 | the fractional digits add less than one and something exactly when they are non-zero |
| FactorService.WeightAbove100Iff | src/services/factorService.js:61-62 | the weight exceeds 100 exactly when its integer part does, or it is 100 with a non-zero fraction |
| FactorService.Triggered | src/services/factorService.js:78-88 | a rule is reported exactly when it fires, at most once for each of the eight rules |
| FactorService.TriggeredAmong | src/services/factorService.js:78-88 | a rule is reported exactly when it is in the table and fires |
| FactorService.Names | src/services/factorService.js:81 | the names are the rules' names, position by position |
| FactorService.Confidences | src/services/factorService.js:82 | the confidences are the rules' confidences, position by position |
| FactorService.ExtractFactors | src/services/factorService.js:73-99 | the loop reports the names and the mean confidence of exactly the rules that fire, in table order |
| FactorService.TriggeredStep | src/services/factorService.js:78-88 | each step of the loop appends a rule exactly when it fires |
| FactorService.TriggeredInRuleOrder | src/services/factorService.js:78-88 | the triggered rules keep the table order |
| FactorService.ReportedFactors | src/services/factorService.js:78-88 | the reported factors are in table order, each at most once, exactly those that fire |
| FactorService.RulesInTableOrder | src/services/factorService.js:9-66 | the table lists each rule once, in its order |
| FactorService.NameInjective | src/services/factorService.js:9-66 | different rules have different names |
| FactorService.ThrowingRuleSkipped | src/services/factorService.js:79-87 | a throwing rule is not reported, and every other rule's outcome is unaffected |
| FactorService.SumBounds | src/services/factorService.js:91-93 | the sum of n confidences lies between 0.70·n and 0.95·n |
| FactorService.ConfidenceRange | src/services/factorService.js:91-93 | the overall confidence is 0 with no factors, otherwise between 0.70 and 0.95 |
| FactorService.MeanBetween | src/services/factorService.js:92 | a sum between lo·n and hi·n, divided by n, lies between lo and hi |
| FactorService.Mean | src/services/factorService.js:91-93 | the mean is 0 for no confidences, and otherwise times their number it gives their sum |
| FactorService.Sum | src/services/factorService.js:92 | a sum of non-negative confidences is non-negative and at least each of them; `SumAppend` and `SumBounds` pin it |
| FactorService.SumAppend | src/services/factorService.js:92 | the sum adds up over concatenation |
| FactorService.SleepWithoutDigitsNeverPoor | src/services/factorService.js:33-38 | a sleep answer with no digit never counts as poor sleep |
| FactorService.FiveHoursIsPoorSleep | src/services/factorService.js:33-38 | `5 hours` counts as poor sleep |
| FactorService.AbsentAnswersFireNothing | src/services/factorService.js:11-62 | with no answers no rule fires: `undefined` is not `true` or above 50, and a missing string is `''` |
| FactorService.ConditionIgnoresCase | src/services/factorService.js:11-62 | every rule gives the same verdict on answers whose text fields are lower-cased |
| FactorService.LowExerciseNeverFromText | src/services/factorService.js:21-27 | on parsed text the low-exercise rule never fires |
| RiskService.ClassifyRisk | src/services/riskService.js:35-61 | the score is min(100, sum of weights); high above 60, medium above 30, low otherwise; the rationale has one line per weighted name, in input order, each that name's table text |
| RiskService.Weight | src/services/riskService.js:38 | a name weighs something exactly when the weight table has it; no weight exceeds 25 |
| RiskService.TotalWeight | src/services/riskService.js:37-39 | the sum is at most 25 per name; `TotalWeightByOccurrence` gives its exact value |
| RiskService.WeightedOnly | src/services/riskService.js:53 | a name is kept exactly when it is in the input with a non-zero weight |
| RiskService.WeightedOnlyAppend | src/services/riskService.js:53 | the filter distributes over concatenation, so it keeps the input order |
| RiskService.WeightedOnlySingleton | src/services/riskService.js:53 | one name is kept exactly when it has a weight |
| RiskService.TotalWeightCoversEach | src/services/riskService.js:37-39 | no single weight exceeds the sum, and the sum is 0 exactly when every name weighs nothing |
| RiskService.Tier | src/services/riskService.js:42-49 | high exactly above 60, medium exactly above 30 up to 60, low exactly at 30 or below |
| RiskService.Explanation | src/services/riskService.js:54 | a known name gets its table rationale; an unknown name gets the fallback text quoting the name |
| RiskService.Rationale | src/services/riskService.js:52-54 | every rationale line explains some weighted name of the input |
| RiskService.RationaleLength | src/services/riskService.js:52-54 | one rationale line per weighted name |
| RiskService.TotalWeightAppend | src/services/riskService.js:37-39 | the score adds up over concatenation, so every occurrence counts |
| RiskService.RationaleAppend | src/services/riskService.js:52-54 | the rationale adds up over concatenation and keeps the input order |
| RiskService.Count | src/services/riskService.js:37-39 | the occurrences of a name are its multiplicity in the list |
| RiskService.TotalWeightByOccurrence | src/services/riskService.js:6-39 | the sum is each weight times the occurrences of its name; unknown names add nothing |
| RiskService.WeightedHaveRationale | src/services/riskService.js:20-54 | every weighted name has a table rationale, so the generic fallback text is never produced |
| RiskService.RationaleOfWeighted | src/services/riskService.js:52-54 | line i is the table rationale of the i-th weighted name |
| RiskService.TierMonotone | src/services/riskService.js:42-49 | a higher sum never gives a lower tier |
| RiskService.MoreFactorsNoLowerTier | src/services/riskService.js:37-49 | adding names never lowers the tier |
| RiskService.EmptyList | src/services/riskService.js:37-58 | an empty list scores 0, is low risk and has an empty rationale |
| RiskService.SmokingAlone | src/services/riskService.js:37-58 | `['smoking']` scores 25 and is low risk |
| RiskService.AllEightFactors | src/services/riskService.js:6-58 | the eight factors sum to 135, are reported as 100 and are high risk |
| RiskService.PrefixWeight | src/services/riskService.js:6-39 | the running sums over the eight names are 25, 45, 63, 78, 88, 100, 115, 135 |
| RiskService.PrefixRationale | src/services/riskService.js:52-54 | each of the eight names adds one rationale line |
| RecommendationService.Insert | src/services/recommendationService.js:27 | adding to the set keeps it free of repetition and adds exactly the new element |
| RecommendationService.InsertionOrderedSet.constructor | src/services/recommendationService.js:22 | a new set is empty |
| RecommendationService.InsertionOrderedSet.Add | src/services/recommendationService.js:27 | `add` appends an element not yet present and otherwise changes nothing |
| RecommendationService.InsertionOrderedSet.Size | src/services/recommendationService.js:37 | `size` is the number of elements |
| RecommendationService.Advice | src/services/recommendationService.js:25-29 | the advice list never repeats itself |
| RecommendationService.Recommendations | src/services/recommendationService.js:20-45 | the list is never empty; it starts with the advice in order, unchanged, and adds at most one tier statement after it |
| RecommendationService.GenerateRecommendations | src/services/recommendationService.js:20-47 | the result echoes the level and the factors, with exactly the recommendations of the specification |
| RecommendationService.AdviceMembers | src/services/recommendationService.js:25-29 | a piece of advice is listed exactly when some factor maps to it; unmapped factors add nothing |
| RecommendationService.AdviceOfFactor | src/services/recommendationService.js:26-27 | a mapped factor's advice is listed |
| RecommendationService.AdviceFromTable | src/services/recommendationService.js:5-27 | every piece of advice comes from the table |
| RecommendationService.NoAdvice | src/services/recommendationService.js:25-29 | with no mapped factor there is no advice |
| RecommendationService.FirstAsked | src/services/recommendationService.js:25-29 | the least position at or after `from` where a factor asks for that advice |
| RecommendationService.AdviceInFirstOccurrenceOrder | src/services/recommendationService.js:25-29 | the advice appears in the order of each advice's first request |
| RecommendationService.FirstAskedExtends | src/services/recommendationService.js:25-29 | a later factor moves no earlier first request |
| RecommendationService.DistinctWithin | src/services/recommendationService.js:22 | a list without repetition drawn from a set is no longer than the set |
| RecommendationService.TableValues | src/services/recommendationService.js:5-14 | the table's values are the eight advice texts |
| RecommendationService.AdviceTextsCount | src/services/recommendationService.js:5-14 | there are at most eight advice texts |
| RecommendationService.StatementsOutsideTable | src/services/recommendationService.js:5-38 | no tier statement is an advice text |
| RecommendationService.StatementsAreNotAdvice | src/services/recommendationService.js:25-40 | a tier statement is never already in the set when it is added |
| RecommendationService.RecommendationsBound | src/services/recommendationService.js:22-45 | the list has no repetition and at most nine entries |
| RecommendationService.TierStatementLast | src/services/recommendationService.js:32-35 | for high and medium, the tier statement is appended last to the advice |
| RecommendationService.OtherTierKeepsAdvice | src/services/recommendationService.js:36-40 | any other tier with a mapped factor adds no statement |
| RecommendationService.OtherTierMaintenance | src/services/recommendationService.js:37-39 | any other tier with no mapped factor gives exactly the maintenance statement |
| Parser.BodyPresent | src/utils/parser.js:13 | an absent body is falsy, any JSON object is truthy, and a text body is truthy exactly when it is not `''` |
| Parser.RequestText | src/utils/parser.js:13-24 | a non-empty JSON `text` is used first; a plain-text body counts only under `text/plain`; nothing otherwise |
| Parser.ParseRequestInput | src/utils/parser.js:6-50 | a file gives exactly the image result; otherwise an error exactly when there is no usable text, with the fixed message |
| Parser.FileWins | src/utils/parser.js:8-10 | with a file, the body makes no difference |
| Parser.JsonTextUsed | src/utils/parser.js:16-25 | a JSON body's non-empty `text` is normalised and assessed |
| Parser.PlainTextNeedsContentType | src/utils/parser.js:20-49 | a plain-text body gives the error exactly under another content type or when empty |
| Parser.ErrorCases | src/utils/parser.js:12-49 | the error covers a missing body, an absent or empty `text`, an empty text body and the wrong content type, and nothing else |
| Parser.TextPath | src/utils/parser.js:24-42 | a text-path result has no confidence, is incomplete exactly when five or more fields are missing, keeps the answers unchanged and always lists `exercise` as missing |

## Left out

- OCR engine: the Tesseract worker, its start and termination, and the logging in `parseImage` are
  left out. An uploaded image is modelled by the text and confidence percentage the engine reports.
- Engine failure: the thrown `Failed to process image with OCR.` is not modelled.
- Logging: `console.log`, `console.warn` and `console.error` are not modelled.
- Controllers, routes and app: the HTTP status codes, upload filtering and temporary-file deletion
  are left out, because they are I/O plumbing. This includes `riskController`'s shortcut for an
  empty factor list, which answers with a different rationale than `classifyRisk`.
- The language-model client and the configuration loader are left out, because they are a network
  call and environment reading.
- Lower-casing is ASCII only. `toLowerCase` on other letters is not modelled.
- Floating point: confidences and weights are exact reals. The model does not round with
  `toFixed(2)`, as in `OverallConfidence` and `ExtractFactors`.
- When the OCR percentage is 80 or less, the confidence is `(confidence / 100).toFixed(2)`, and the
  incomplete-profile branch returns that string unconverted. Above 80 both branches carry the number
  0.9. The model returns the same number in both branches in every case.
- Number parsing: `parseInt` and `parseFloat` keep their full value. There is no double-precision
  rounding of very long digit runs.
- FactorService.ExtractFactors: the answers are a typed record, so a condition cannot really throw.
  The set `throwing` names the rules that throw on the caller's values instead.
- JavaScript coercions are not modelled:
  - prototype-chain lookups, such as a factor named `constructor`;
  - comparisons of a string age with a number;
  - `toLowerCase` applied to a non-string JSON value.
- Parser.RequestText: a JSON `text` that is not a string is not modelled.
