/** The answer normaliser (src/services/ocrService.js): from the text of a
    survey, lower-cased, it extracts the canonical answer set by one
    independent leftmost label match per field, and the tail of `parseImage`
    turns an answer set into a parse result with its missing fields. */
module OcrService {
  import opened Text

  /** The canonical answer set. A field is `None` when the text had no match
      for its label; `exercise` is part of the vocabulary but is never parsed
      from text. */
  datatype Answers = Answers(
    age: Option<nat>,
    smoker: Option<bool>,
    exercise: Option<string>,
    diet: Option<string>,
    sleep: Option<string>,
    stress: Option<string>,
    alcohol: Option<string>,
    weight: Option<string>,
    height: Option<string>)

  const NoAnswers: Answers := Answers(None, None, None, None, None, None, None, None, None)

  datatype Field = Age | Smoker | Exercise | Diet | Sleep | Stress | Alcohol | Weight | Height

  function FieldName(f: Field): string {
    match f
    case Age => "age"
    case Smoker => "smoker"
    case Exercise => "exercise"
    case Diet => "diet"
    case Sleep => "sleep"
    case Stress => "stress"
    case Alcohol => "alcohol"
    case Weight => "weight"
    case Height => "height"
  }

  /** `expectedFields`, in the source's order. */
  const ExpectedFields: seq<Field> :=
    [Age, Smoker, Exercise, Diet, Sleep, Stress, Alcohol, Weight, Height]

  /** The reason an incomplete profile carries. */
  const IncompleteReason: string := ">50% fields missing"

  // ---------------------------------------------------------------------
  // sanitizeValue
  // ---------------------------------------------------------------------

  /** The characters `sanitizeValue` keeps: `[a-zA-Z0-9\s\/\-().,&]`. */
  predicate Kept(c: char) {
    || IsAsciiLetter(c) || IsDigit(c) || IsSpace(c)
    || c == '/' || c == '-' || c == '(' || c == ')' || c == '.' || c == ',' || c == '&'
  }

  /** `replace(/[^a-zA-Z0-9\s\/\-().,&]/g, '')`. */
  function StripDisallowed(s: string): (r: string)
    ensures |r| <= |s|
    ensures forall k :: 0 <= k < |r| ==> Kept(r[k])
  {
    if s == [] then []
    else StripDisallowed(s[..|s| - 1]) + (if Kept(s[|s| - 1]) then [s[|s| - 1]] else [])
  }

  /** Stripping works character by character: it distributes over
      concatenation (with the one-character case, this determines it). */
  lemma {:induction false} StripDisallowedConcat(a: string, b: string)
    ensures StripDisallowed(a + b) == StripDisallowed(a) + StripDisallowed(b)
    decreases |b|
  {
    if b == [] {
      assert a + b == a;
    } else {
      var b' := b[..|b| - 1];
      assert (a + b)[..|a + b| - 1] == a + b';
      assert (a + b)[|a + b| - 1] == b[|b| - 1];
      StripDisallowedConcat(a, b');
    }
  }

  /** Every kept character survives stripping, as often as it occurs. */
  lemma {:induction false} StripDisallowedKeepsCount(s: string, c: char)
    requires Kept(c)
    ensures multiset(StripDisallowed(s))[c] == multiset(s)[c]
  {
    if s != [] {
      assert s == s[..|s| - 1] + [s[|s| - 1]];
      StripDisallowedKeepsCount(s[..|s| - 1], c);
    }
  }

  /** A string made only of kept characters passes through unchanged. */
  lemma {:induction false} StripDisallowedKeepsKept(s: string)
    requires forall k :: 0 <= k < |s| ==> Kept(s[k])
    ensures StripDisallowed(s) == s
  {
    if s != [] {
      StripDisallowedKeepsKept(s[..|s| - 1]);
    }
  }

  /** `sanitizeValue`: an empty input gives `''`; otherwise the input is
      trimmed first and the disallowed characters are stripped afterwards. */
  function Sanitize(s: string): (r: string)
    ensures forall k :: 0 <= k < |r| ==> Kept(r[k])
    ensures |r| <= |s|
    ensures s == [] ==> r == []
    ensures forall c :: Kept(c) && !IsSpace(c) ==> multiset(r)[c] == multiset(s)[c]
    ensures forall a: nat, t: string :: TrimsTo(s, a, t) && Unpadded(t) ==> r == StripDisallowed(t)
  {
    forall a: nat, t: string | TrimsTo(s, a, t) && Unpadded(t) ensures t == Trim(s) {
      TrimUnique(s, a, t);
    }
    if s == [] then []
    else
      forall c | Kept(c) && !IsSpace(c) ensures multiset(StripDisallowed(Trim(s)))[c] == multiset(s)[c] {
        TrimKeepsNonSpace(s, c);
        StripDisallowedKeepsCount(Trim(s), c);
      }
      StripDisallowed(Trim(s))
  }

  /** Every value is trimmed as `trim` does, and then stripped: the trimmed
      slice exists, and it is the only unpadded one. */
  lemma SanitizeIsStripOfTrim(s: string)
    ensures exists a: nat, t: string :: TrimsTo(s, a, t) && Unpadded(t) && Sanitize(s) == StripDisallowed(t)
  {
    var a: nat :| TrimsTo(s, a, Trim(s));
    assert TrimsTo(s, a, Trim(s)) && Unpadded(Trim(s)) && Sanitize(s) == StripDisallowed(Trim(s));
  }

  /** A value of whitespace only sanitises to `''`. */
  lemma SanitizeBlank(s: string)
    requires forall k :: 0 <= k < |s| ==> IsSpace(s[k])
    ensures Sanitize(s) == ""
  {
    assert TrimsTo(s, 0, []);
  }

  /** Because trimming comes before stripping, a result can end in
      whitespace that a stripped character used to hide. */
  lemma SanitizeTrimsBeforeStripping(s: string)
    requires s == "a #"
    ensures Sanitize(s) == "a "
  {
    TrimUnpadded(s);
    assert !Kept('#');
    var t := "a ";
    assert s == t + "#";
    StripDisallowedConcat(t, "#");
    assert StripDisallowed("#") == [] by {
      assert "#"[..0] == [];
    }
    StripDisallowedKeepsKept(t);
  }

  // ---------------------------------------------------------------------
  // The label patterns `<label>:?\s*(<group>)`
  // ---------------------------------------------------------------------

  /** The capture groups that follow a label. */
  datatype Group =
    | DigitRun    // (\d+)
    | SmokerWord  // (yes|no|true|false|y|n)
    | RestOfLine  // ([^\n\r]+)

  /** The alternatives of the smoker group, in the order the engine tries them. */
  const SmokerWords: seq<string> := ["yes", "no", "true", "false", "y", "n"]

  /** The smoker words read as `true`. */
  const TruthyWords: seq<string> := ["yes", "true", "y"]

  /** The first alternative that matches at `q`. */
  function FirstAlternative(t: string, q: nat, alts: seq<string>): (r: Option<string>)
    ensures r.Some? ==> r.value in alts && OccursAt(t, r.value, q)
    ensures r.None? ==> forall w :: w in alts ==> !OccursAt(t, w, q)
  {
    if alts == [] then None
    else if OccursAt(t, alts[0], q) then Some(alts[0])
    else FirstAlternative(t, q, alts[1..])
  }

  /** What a capture of each group looks like. */
  predicate Shaped(g: Group, c: string) {
    match g
    case DigitRun => |c| > 0 && forall k :: 0 <= k < |c| ==> IsDigit(c[k])
    case SmokerWord => c in SmokerWords
    case RestOfLine => |c| > 0 && forall k :: 0 <= k < |c| ==> NotLineBreak(c[k])
  }

  /** The group matched at `q`, taking its greedy run. Nothing follows the
      group in any label pattern, so the first way it matches is the match. */
  function GroupAt(g: Group, t: string, q: nat): (r: Option<string>)
    requires q <= |t|
    ensures r.Some? ==> Shaped(g, r.value)
  {
    match g
    case DigitRun =>
      if q < |t| && IsDigit(t[q]) then Some(t[q..SpanEnd(t, q, IsDigit)]) else None
    case SmokerWord =>
      FirstAlternative(t, q, SmokerWords)
    case RestOfLine =>
      if q < |t| && NotLineBreak(t[q]) then Some(t[q..SpanEnd(t, q, NotLineBreak)]) else None
  }

  /** `\s*` has already run greedily from `k` to `q`; the engine tries the
      group at `q`, then gives one whitespace character back at a time. */
  function BacktrackFrom(g: Group, t: string, k: nat, q: nat): (r: Option<string>)
    requires k <= q <= |t|
    ensures r.Some? ==> Shaped(g, r.value)
    decreases q
  {
    var c := GroupAt(g, t, q);
    if c.Some? then c else if q == k then None else BacktrackFrom(g, t, k, q - 1)
  }

  /** `\s*(<group>)` at `k`. */
  function SpacedGroup(g: Group, t: string, k: nat): (r: Option<string>)
    requires k <= |t|
    ensures r.Some? ==> Shaped(g, r.value)
  {
    BacktrackFrom(g, t, k, SpanEnd(t, k, IsSpace))
  }

  /** `:?\s*(<group>)` right after a label that ends at `j`: the greedy `:?`
      takes the colon first and gives it back if the rest fails. */
  function LabelTail(g: Group, t: string, j: nat): (r: Option<string>)
    requires j <= |t|
    ensures r.Some? ==> Shaped(g, r.value)
  {
    if j < |t| && t[j] == ':' then
      var withColon := SpacedGroup(g, t, j + 1);
      if withColon.Some? then withColon else SpacedGroup(g, t, j)
    else
      SpacedGroup(g, t, j)
  }

  /** The whole pattern matches at start position `i`. */
  predicate LabelledAt(key: string, g: Group, t: string, i: nat) {
    OccursAt(t, key, i) && LabelTail(g, t, i + |key|).Some?
  }

  /** The leftmost start position at or after `from` where the pattern matches. */
  function LeftmostLabel(key: string, g: Group, t: string, from: nat): (r: Option<nat>)
    ensures r.Some? ==> from <= r.value && LabelledAt(key, g, t, r.value)
    ensures r.Some? ==> forall i :: from <= i < r.value ==> !LabelledAt(key, g, t, i)
    ensures r.None? ==> forall i :: from <= i ==> !LabelledAt(key, g, t, i)
    decreases |t| - from
  {
    if from + |key| > |t| then None
    else if LabelledAt(key, g, t, from) then Some(from)
    else LeftmostLabel(key, g, t, from + 1)
  }

  /** `t.match(/<label>:?\s*(<group>)/)?.[1]`. */
  function Capture(key: string, g: Group, t: string): (r: Option<string>)
    ensures r.Some? ==> Shaped(g, r.value)
  {
    match LeftmostLabel(key, g, t, 0)
    case None => None
    case Some(i) => LabelTail(g, t, i + |key|)
  }

  /** The position after an optional colon at `j`. */
  function AfterColon(t: string, j: nat): (r: nat)
    requires j <= |t|
    ensures j <= r <= |t|
  {
    if j < |t| && t[j] == ':' then j + 1 else j
  }

  /** The digit and smoker groups can start neither with whitespace nor with
      a colon. */
  lemma WordGroupStart(g: Group, t: string, q: nat)
    requires g != RestOfLine && q <= |t|
    requires GroupAt(g, t, q).Some?
    ensures q < |t| && !IsSpace(t[q]) && t[q] != ':'
  {
    if g == SmokerWord {
      var w := GroupAt(g, t, q).value;
      assert t[q..q + |w|] == w;
      assert t[q] == w[0];
    }
  }

  lemma {:induction false} BacktrackOverSpaces(g: Group, t: string, k: nat, q: nat)
    requires g != RestOfLine && k <= q <= |t|
    requires forall p :: k <= p < q ==> IsSpace(t[p])
    ensures BacktrackFrom(g, t, k, q) == GroupAt(g, t, q)
    decreases q
  {
    if GroupAt(g, t, q).None? && q != k {
      BacktrackOverSpaces(g, t, k, q - 1);
      if GroupAt(g, t, q - 1).Some? {
        WordGroupStart(g, t, q - 1);
      }
    }
  }

  /** For the digit and smoker groups backtracking never helps: the pattern
      matches exactly when the group matches at the first non-blank position
      after the optional colon. */
  lemma NoBacktrackTail(g: Group, t: string, j: nat)
    requires g != RestOfLine && j <= |t|
    ensures LabelTail(g, t, j) == GroupAt(g, t, SpanEnd(t, AfterColon(t, j), IsSpace))
  {
    if j < |t| && t[j] == ':' {
      ColonTailTakesColon(g, t, j);
      NoBacktrackSpaced(g, t, j + 1);
    } else {
      NoBacktrackSpaced(g, t, j);
    }
  }

  /** With a colon after the label, the colon is kept: giving it back would
      leave the group to start at the colon. */
  lemma ColonTailTakesColon(g: Group, t: string, j: nat)
    requires g != RestOfLine && j < |t| && t[j] == ':'
    ensures LabelTail(g, t, j) == SpacedGroup(g, t, j + 1)
  {
    ColonIsNoGroup(g, t, j);
  }

  /** `\s*(<group>)` for a digit or smoker group is the group at the first
      non-blank position. */
  lemma NoBacktrackSpaced(g: Group, t: string, k: nat)
    requires g != RestOfLine && k <= |t|
    ensures SpacedGroup(g, t, k) == GroupAt(g, t, SpanEnd(t, k, IsSpace))
  {
    BacktrackOverSpaces(g, t, k, SpanEnd(t, k, IsSpace));
  }

  /** Without the colon, `\s*` matches nothing at a colon and the group
      cannot start there. */
  lemma ColonIsNoGroup(g: Group, t: string, j: nat)
    requires g != RestOfLine && j < |t| && t[j] == ':'
    ensures SpacedGroup(g, t, j).None?
  {
    assert !IsSpace(':');
    assert SpanEnd(t, j, IsSpace) == j;
    if GroupAt(g, t, j).Some? {
      WordGroupStart(g, t, j);
    }
  }

  /** The rest-of-line group: when a non-blank character follows the label
      (after the optional colon), the capture runs from it to the end of its
      line; after a colon there is always a capture, if only the colon. */
  lemma LineTail(t: string, j: nat)
    requires j <= |t|
    ensures var m := SpanEnd(t, AfterColon(t, j), IsSpace);
      m < |t| ==> LabelTail(RestOfLine, t, j) == Some(t[m..SpanEnd(t, m, NotLineBreak)])
    ensures j < |t| && t[j] == ':' ==> LabelTail(RestOfLine, t, j).Some?
  {
    LineSpaced(t, AfterColon(t, j));
    if j < |t| && t[j] == ':' {
      LineAtColon(t, j);
    }
  }

  /** After blanks, a character other than CR or LF starts the capture. */
  lemma LineSpaced(t: string, k: nat)
    requires k <= |t|
    ensures var m := SpanEnd(t, k, IsSpace);
      m < |t| ==> SpacedGroup(RestOfLine, t, k) == Some(t[m..SpanEnd(t, m, NotLineBreak)])
  {
    assert IsSpace('\n') && IsSpace('\r');
  }

  /** Giving the colon back, the colon itself is a capture. */
  lemma LineAtColon(t: string, j: nat)
    requires j < |t| && t[j] == ':'
    ensures SpacedGroup(RestOfLine, t, j).Some?
  {
    assert !IsSpace(':');
    assert SpanEnd(t, j, IsSpace) == j;
  }

  /** The declarative reading of a label match for the digit and smoker
      groups: the label, an optional colon, whitespace, then the group. */
  predicate DirectAt(key: string, g: Group, t: string, i: nat) {
    OccursAt(t, key, i)
    && GroupAt(g, t, SpanEnd(t, AfterColon(t, i + |key|), IsSpace)).Some?
  }

  lemma DirectAtIff(key: string, g: Group, t: string)
    requires g != RestOfLine
    ensures forall i: nat :: LabelledAt(key, g, t, i) <==> DirectAt(key, g, t, i)
  {
    forall i: nat | OccursAt(t, key, i) {
      NoBacktrackTail(g, t, i + |key|);
    }
  }

  // ---------------------------------------------------------------------
  // Tokens inside a captured line: `(\d+-\d+|\d+)\s*hours?` and
  // `(\d+|low|medium|high)`
  // ---------------------------------------------------------------------

  datatype Token = Hours | Rating

  /** `\d+` matches exactly `s[i..j]`. */
  predicate DigitsFrom(s: string, i: nat, j: nat) {
    i < j <= |s| && forall k :: i <= k < j ==> IsDigit(s[k])
  }

  /** `\s*` matches exactly `s[i..j]`. */
  predicate SpacesFrom(s: string, i: nat, j: nat) {
    i <= j <= |s| && forall k :: i <= k < j ==> IsSpace(s[k])
  }

  /** `hours?` matches exactly `s[m..e]`. */
  predicate HoursWordAt(s: string, m: nat, e: nat) {
    OccursAt(s, "hour", m) && (e == m + 4 || (e == m + 5 && OccursAt(s, "hours", m)))
  }

  /** `\s*hours?` matches exactly `s[q..e]`. */
  ghost predicate HoursSuffixMatch(s: string, q: nat, e: nat) {
    exists m: nat :: SpacesFrom(s, q, m) && HoursWordAt(s, m, e)
  }

  /** `\d+-\d+|\d+` matches exactly `s[p..q]`. */
  ghost predicate NumberMatch(s: string, p: nat, q: nat) {
    || DigitsFrom(s, p, q)
    || exists d: nat :: DigitsFrom(s, p, d) && d < |s| && s[d] == '-' && DigitsFrom(s, d + 1, q)
  }

  /** `(\d+-\d+|\d+)\s*hours?` matches exactly `s[p..e]`, by some way of
      splitting it. */
  ghost predicate HoursMatch(s: string, p: nat, e: nat) {
    exists q: nat :: NumberMatch(s, p, q) && HoursSuffixMatch(s, q, e)
  }

  /** `(\d+|low|medium|high)` matches exactly `s[p..e]`. */
  ghost predicate RatingMatch(s: string, p: nat, e: nat) {
    || DigitsFrom(s, p, e)
    || (e == p + 3 && OccursAt(s, "low", p))
    || (e == p + 6 && OccursAt(s, "medium", p))
    || (e == p + 4 && OccursAt(s, "high", p))
  }

  ghost predicate TokenMatch(tk: Token, s: string, p: nat, e: nat) {
    match tk
    case Hours => HoursMatch(s, p, e)
    case Rating => RatingMatch(s, p, e)
  }

  /** `\s*hours?` from `q`: the end of its match, taking the optional `s`
      when it is there. */
  function HoursSuffix(s: string, q: nat): (r: Option<nat>)
    requires q <= |s|
    ensures r.Some? ==> HoursSuffixMatch(s, q, r.value)
  {
    var m := SpanEnd(s, q, IsSpace);
    if m + 4 <= |s| && s[m..m + 4] == "hour" then
      var e := if m + 4 < |s| && s[m + 4] == 's' then m + 5 else m + 4;
      assert SpacesFrom(s, q, m) && HoursWordAt(s, m, e) by {
        if e == m + 5 {
          assert s[m..m + 5] == s[m..m + 4] + [s[m + 4]];
        }
      }
      Some(e)
    else None
  }

  /** Every match of `\s*hours?` at `q` is found, and none is longer than
      the one found: the whitespace must be all of it, since `h` is not
      whitespace, and the optional `s` is taken greedily. */
  lemma HoursSuffixLongest(s: string, q: nat, e: nat)
    requires q <= |s| && HoursSuffixMatch(s, q, e)
    ensures HoursSuffix(s, q).Some? && e <= HoursSuffix(s, q).value
  {
    var m: nat :| SpacesFrom(s, q, m) && HoursWordAt(s, m, e);
    assert s[m] == s[m..m + 4][0] == 'h';
    SpanEndIs(s, q, m, IsSpace);
    if e == m + 5 {
      assert s[m + 4] == s[m..m + 5][4] == 's';
    }
  }

  /** End of the match of the token pattern at `p`. The digit runs and the
      whitespace are taken greedily; giving anything back cannot help, since
      the character the pattern needs next (`-`, whitespace or `h`) is never
      a digit and `h` is never whitespace. */
  function TokenAt(tk: Token, s: string, p: nat): (r: Option<nat>)
    requires p <= |s|
    ensures r.Some? ==> p < r.value <= |s| && TokenMatch(tk, s, p, r.value)
  {
    match tk
    case Hours => HoursEnd(s, p)
    case Rating => RatingEnd(s, p)
  }

  /** `-\d+\s*hours?` after the first digit run, ending at `d`. */
  function RangeSuffix(s: string, d: nat): (r: Option<nat>)
    requires d <= |s|
    ensures r.Some? ==> d + 1 < |s| && s[d] == '-' && DigitsFrom(s, d + 1, SpanEnd(s, d + 1, IsDigit))
    ensures r.Some? ==> HoursSuffixMatch(s, SpanEnd(s, d + 1, IsDigit), r.value)
  {
    if d + 1 < |s| && s[d] == '-' && IsDigit(s[d + 1])
    then HoursSuffix(s, SpanEnd(s, d + 1, IsDigit)) else None
  }

  /** `(\d+-\d+|\d+)\s*hours?` at `p`: the range when it completes, else the
      single number. */
  function HoursEnd(s: string, p: nat): (r: Option<nat>)
    requires p <= |s|
    ensures r.Some? ==> p < r.value <= |s| && HoursMatch(s, p, r.value)
  {
    if p < |s| && IsDigit(s[p]) then
      var d := SpanEnd(s, p, IsDigit);
      assert DigitsFrom(s, p, d);
      var range := RangeSuffix(s, d);
      if range.Some? then
        SuffixAfterNumber(s, p, SpanEnd(s, d + 1, IsDigit), range.value);
        range
      else
        var r := HoursSuffix(s, d);
        if r.Some? then
          SuffixAfterNumber(s, p, d, r.value);
          r
        else None
    else None
  }

  /** `(\d+|low|medium|high)` at `p`. */
  function RatingEnd(s: string, p: nat): (r: Option<nat>)
    requires p <= |s|
    ensures r.Some? ==> p < r.value <= |s| && RatingMatch(s, p, r.value)
  {
    if p < |s| && IsDigit(s[p]) then
      var e := SpanEnd(s, p, IsDigit);
      assert DigitsFrom(s, p, e);
      Some(e)
    else if OccursAt(s, "low", p) then Some(p + 3)
    else if OccursAt(s, "medium", p) then Some(p + 6)
    else if OccursAt(s, "high", p) then Some(p + 4)
    else None
  }

  lemma SuffixAfterNumber(s: string, p: nat, q: nat, e: nat)
    requires NumberMatch(s, p, q) && HoursSuffixMatch(s, q, e)
    ensures HoursMatch(s, p, e) && p < e <= |s|
  {
    var m: nat :| SpacesFrom(s, q, m) && HoursWordAt(s, m, e);
  }

  /** Every match of the token pattern at `p` is found, and none is longer
      than the one found. */
  lemma TokenAtLongest(tk: Token, s: string, p: nat, e: nat)
    requires TokenMatch(tk, s, p, e)
    ensures p <= |s| && TokenAt(tk, s, p).Some? && e <= TokenAt(tk, s, p).value
  {
    match tk
    case Hours => HoursAtLongest(s, p, e);
    case Rating => RatingAtLongest(s, p, e);
  }

  /** A number followed by neither a digit nor `-` is the one the greedy
      scan finds: one digit run, or two joined by `-`. */
  lemma NumberIsGreedy(s: string, p: nat, q: nat)
    requires NumberMatch(s, p, q) && q < |s| && !IsDigit(s[q]) && s[q] != '-'
    ensures p < |s| && IsDigit(s[p])
    ensures var d := SpanEnd(s, p, IsDigit);
      || q == d
      || (d + 1 < |s| && s[d] == '-' && IsDigit(s[d + 1]) && SpanEnd(s, d + 1, IsDigit) == q)
  {
    if DigitsFrom(s, p, q) {
      SpanEndIs(s, p, q, IsDigit);
    } else {
      var d: nat :| DigitsFrom(s, p, d) && d < |s| && s[d] == '-' && DigitsFrom(s, d + 1, q);
      SpanEndIs(s, p, d, IsDigit);
      SpanEndIs(s, d + 1, q, IsDigit);
    }
  }

  lemma HoursAtLongest(s: string, p: nat, e: nat)
    requires HoursMatch(s, p, e)
    ensures p <= |s| && HoursEnd(s, p).Some? && e <= HoursEnd(s, p).value
  {
    var q: nat :| NumberMatch(s, p, q) && HoursSuffixMatch(s, q, e);
    SuffixStart(s, q, e);
    HoursSuffixLongest(s, q, e);
    HoursEndAfter(s, p, q);
  }

  /** A number that the next character cannot extend is where the greedy
      scan looks for `\s*hours?`. */
  lemma HoursEndAfter(s: string, p: nat, q: nat)
    requires NumberMatch(s, p, q) && q < |s| && !IsDigit(s[q]) && s[q] != '-'
    requires HoursSuffix(s, q).Some?
    ensures p < |s| && HoursEnd(s, p) == HoursSuffix(s, q)
  {
    NumberIsGreedy(s, p, q);
    var d := SpanEnd(s, p, IsDigit);
    if q == d {
      assert RangeSuffix(s, d).None?;
      HoursEndSingle(s, p);
    } else {
      assert RangeSuffix(s, d) == HoursSuffix(s, q);
      HoursEndRange(s, p);
    }
  }

  lemma HoursEndSingle(s: string, p: nat)
    requires p < |s| && IsDigit(s[p]) && RangeSuffix(s, SpanEnd(s, p, IsDigit)).None?
    ensures HoursEnd(s, p) == HoursSuffix(s, SpanEnd(s, p, IsDigit))
  {
  }

  lemma HoursEndRange(s: string, p: nat)
    requires p < |s| && IsDigit(s[p]) && RangeSuffix(s, SpanEnd(s, p, IsDigit)).Some?
    ensures HoursEnd(s, p) == RangeSuffix(s, SpanEnd(s, p, IsDigit))
  {
  }

  /** What a `\s*hours?` match starts with is whitespace or `h`: neither a
      digit nor `-`. */
  lemma SuffixStart(s: string, q: nat, e: nat)
    requires HoursSuffixMatch(s, q, e)
    ensures q < |s| && !IsDigit(s[q]) && s[q] != '-'
  {
    var m: nat :| SpacesFrom(s, q, m) && HoursWordAt(s, m, e);
    assert s[m] == s[m..m + 4][0] == 'h';
    if q < m {
      assert IsSpace(s[q]);
    }
  }

  lemma RatingAtLongest(s: string, p: nat, e: nat)
    requires RatingMatch(s, p, e)
    ensures p <= |s| && RatingEnd(s, p).Some? && e <= RatingEnd(s, p).value
  {
    if DigitsFrom(s, p, e) {
      SpanEndCovers(s, p, e, IsDigit);
    } else {
      assert s[p] == s[p..e][0];
    }
  }

  predicate TokenStartsAt(tk: Token, s: string, p: nat) {
    p <= |s| && TokenAt(tk, s, p).Some?
  }

  /** The leftmost start of a token at or after `from`. */
  function LeftmostToken(tk: Token, s: string, from: nat): (r: Option<nat>)
    ensures r.Some? ==> from <= r.value && TokenStartsAt(tk, s, r.value)
    ensures r.Some? ==> forall p :: from <= p < r.value ==> !TokenStartsAt(tk, s, p)
    ensures r.None? ==> forall p :: from <= p ==> !TokenStartsAt(tk, s, p)
    decreases |s| - from
  {
    if from >= |s| then None
    else if TokenStartsAt(tk, s, from) then Some(from)
    else LeftmostToken(tk, s, from + 1)
  }

  /** `s.match(<token pattern>)?.[0]`: the token at the leftmost position
      where one starts. */
  function FirstToken(tk: Token, s: string): (r: Option<string>)
    ensures r.Some? ==> exists p: nat, e: nat :: p <= e <= |s| && r.value == s[p..e] && TokenMatch(tk, s, p, e)
  {
    match LeftmostToken(tk, s, 0)
    case None => None
    case Some(p) =>
      var e := TokenAt(tk, s, p).value;
      assert TokenMatch(tk, s, p, e);
      Some(s[p..e])
  }

  /** No match of the pattern before `p` means no token starts before it. */
  lemma NoTokenBefore(tk: Token, s: string, p: nat)
    requires forall p': nat, e': nat :: p' < p ==> !TokenMatch(tk, s, p', e')
    ensures forall p': nat :: p' < p ==> !TokenStartsAt(tk, s, p')
  {
    forall p': nat | p' < p ensures !TokenStartsAt(tk, s, p') {
      if TokenStartsAt(tk, s, p') {
        assert false;
      }
    }
  }

  /** The stored token is the leftmost-longest match of its pattern: the one
      starting first, and of the matches starting there, the longest. */
  lemma FirstTokenIsLeftmostLongest(tk: Token, s: string, p: nat, e: nat)
    requires TokenMatch(tk, s, p, e)
    requires forall p': nat, e': nat :: p' < p ==> !TokenMatch(tk, s, p', e')
    requires forall e': nat :: TokenMatch(tk, s, p, e') ==> e' <= e
    ensures p <= e <= |s| && FirstToken(tk, s) == Some(s[p..e])
  {
    TokenAtLongest(tk, s, p, e);
    var f := TokenAt(tk, s, p).value;
    assert TokenMatch(tk, s, p, f);
    NoTokenBefore(tk, s, p);
    var l := LeftmostToken(tk, s, 0);
    assert l == Some(p) by {
      assert TokenStartsAt(tk, s, p);
    }
  }

  /** There is no token exactly when the pattern matches nowhere. */
  lemma FirstTokenNoneIff(tk: Token, s: string)
    ensures FirstToken(tk, s).None? <==> forall p: nat, e: nat :: !TokenMatch(tk, s, p, e)
  {
    if FirstToken(tk, s).None? {
      forall p: nat, e: nat ensures !TokenMatch(tk, s, p, e) {
        if TokenMatch(tk, s, p, e) {
          TokenAtLongest(tk, s, p, e);
          assert TokenStartsAt(tk, s, p);
        }
      }
    }
  }

  // ---------------------------------------------------------------------
  // Field values
  // ---------------------------------------------------------------------

  /** The stored diet: the sanitised line, canonicalised to `high sugar` or
      `balanced` when it mentions `sugar` or `balanced`. */
  function DietValue(line: string): (r: string)
    ensures r == "high sugar" || r == "balanced"
      || (r == Sanitize(line) && !Contains(r, "sugar") && !Contains(r, "balanced"))
    ensures Contains(Sanitize(line), "sugar") ==> r == "high sugar"
    ensures !Contains(Sanitize(line), "sugar") && Contains(Sanitize(line), "balanced") ==> r == "balanced"
  {
    var diet := Sanitize(line);
    if Contains(diet, "sugar") then "high sugar"
    else if Contains(diet, "balanced") then "balanced"
    else diet
  }

  /** The stored sleep: the leftmost hours token of the raw line, or else
      (when the line holds none) the sanitised line. */
  function SleepValue(line: string): (r: string)
    ensures (forall p: nat, e: nat :: !HoursMatch(line, p, e)) ==> r == Sanitize(line)
    ensures (exists p: nat, e: nat :: HoursMatch(line, p, e)) ==>
      exists p: nat, e: nat :: p <= e <= |line| && r == line[p..e] && HoursMatch(line, p, e)
  {
    FirstTokenNoneIff(Hours, line);
    assert forall p: nat, e: nat :: TokenMatch(Hours, line, p, e) == HoursMatch(line, p, e);
    match FirstToken(Hours, line)
    case Some(tok) => tok
    case None => Sanitize(line)
  }

  /** The stored stress: the leftmost rating token of the raw line, or else
      (when the line holds none) the sanitised line. */
  function StressValue(line: string): (r: string)
    ensures (forall p: nat, e: nat :: !RatingMatch(line, p, e)) ==> r == Sanitize(line)
    ensures (exists p: nat, e: nat :: RatingMatch(line, p, e)) ==>
      exists p: nat, e: nat :: p <= e <= |line| && r == line[p..e] && RatingMatch(line, p, e)
  {
    FirstTokenNoneIff(Rating, line);
    assert forall p: nat, e: nat :: TokenMatch(Rating, line, p, e) == RatingMatch(line, p, e);
    match FirstToken(Rating, line)
    case Some(tok) => tok
    case None => Sanitize(line)
  }

  /** The stored sleep is the leftmost-longest `(\d+-\d+|\d+)\s*hours?` of the
      line. */
  lemma SleepIsLeftmostLongestHours(line: string, p: nat, e: nat)
    requires HoursMatch(line, p, e)
    requires forall p': nat, e': nat :: p' < p ==> !HoursMatch(line, p', e')
    requires forall e': nat :: HoursMatch(line, p, e') ==> e' <= e
    ensures p <= e <= |line| && SleepValue(line) == line[p..e]
  {
    FirstTokenIsLeftmostLongest(Hours, line, p, e);
  }

  /** The stored stress is the leftmost-longest `(\d+|low|medium|high)` of the
      line. */
  lemma StressIsLeftmostLongestRating(line: string, p: nat, e: nat)
    requires RatingMatch(line, p, e)
    requires forall p': nat, e': nat :: p' < p ==> !RatingMatch(line, p', e')
    requires forall e': nat :: RatingMatch(line, p, e') ==> e' <= e
    ensures p <= e <= |line| && StressValue(line) == line[p..e]
  {
    FirstTokenIsLeftmostLongest(Rating, line, p, e);
  }

  /** The stored alcohol: the sanitised line with its first `veek` read as
      `week`. */
  function AlcoholValue(line: string): (r: string)
    ensures |r| == |Sanitize(line)|
    ensures !Contains(Sanitize(line), "veek") ==> r == Sanitize(line)
    ensures forall k :: 0 <= k < |r| ==> Kept(r[k])
  {
    var s := Sanitize(line);
    assert "veek"[1..] == "week"[1..];
    ReplaceFirstLetter(s, "veek", "week");
    ReplaceFirst(s, "veek", "week")
  }

  /** `parseAndNormalize` as a function of the text: each field from its
      own leftmost label match over the lower-cased text. */
  function Normalize(text: string): (a: Answers)
    ensures a.exercise == None
  {
    var l := Lower(text);
    Answers(
      age := AgeOf(l), smoker := SmokerOf(l), exercise := None,
      diet := DietOf(l), sleep := SleepOf(l), stress := StressOf(l),
      alcohol := AlcoholOf(l), weight := SanitizedField("weight", l), height := SanitizedField("height", l))
  }

  function AgeOf(l: string): (r: Option<nat>)
    ensures r.None? <==> forall i: nat :: !LabelledAt("age", DigitRun, l, i)
  {
    CaptureNoneIff("age", DigitRun, l);
    var m := Capture("age", DigitRun, l);
    if m.Some? then Some(DigitsValue(m.value)) else None
  }

  function SmokerOf(l: string): (r: Option<bool>)
    ensures r.None? <==> forall i: nat :: !LabelledAt("smoker", SmokerWord, l, i)
  {
    CaptureNoneIff("smoker", SmokerWord, l);
    var m := Capture("smoker", SmokerWord, l);
    if m.Some? then Some(m.value in TruthyWords) else None
  }

  function DietOf(l: string): (r: Option<string>)
    ensures r.None? <==> forall i: nat :: !LabelledAt("diet", RestOfLine, l, i)
  {
    CaptureNoneIff("diet", RestOfLine, l);
    var m := Capture("diet", RestOfLine, l);
    if m.Some? then Some(DietValue(m.value)) else None
  }

  function SleepOf(l: string): (r: Option<string>)
    ensures r.None? <==> forall i: nat :: !LabelledAt("sleep", RestOfLine, l, i)
  {
    CaptureNoneIff("sleep", RestOfLine, l);
    var m := Capture("sleep", RestOfLine, l);
    if m.Some? then Some(SleepValue(m.value)) else None
  }

  function StressOf(l: string): (r: Option<string>)
    ensures r.None? <==> forall i: nat :: !LabelledAt("stress", RestOfLine, l, i)
  {
    CaptureNoneIff("stress", RestOfLine, l);
    var m := Capture("stress", RestOfLine, l);
    if m.Some? then Some(StressValue(m.value)) else None
  }

  function AlcoholOf(l: string): (r: Option<string>)
    ensures r.None? <==> forall i: nat :: !LabelledAt("alcohol", RestOfLine, l, i)
    ensures r.Some? ==> forall k :: 0 <= k < |r.value| ==> Kept(r.value[k])
  {
    CaptureNoneIff("alcohol", RestOfLine, l);
    var m := Capture("alcohol", RestOfLine, l);
    if m.Some? then Some(AlcoholValue(m.value)) else None
  }

  /** The weight and the height: the rest of the line after the label,
      sanitised. */
  function SanitizedField(key: string, l: string): (r: Option<string>)
    ensures r.None? <==> forall i: nat :: !LabelledAt(key, RestOfLine, l, i)
    ensures r.Some? ==> forall k :: 0 <= k < |r.value| ==> Kept(r.value[k])
  {
    CaptureNoneIff(key, RestOfLine, l);
    var m := Capture(key, RestOfLine, l);
    if m.Some? then Some(Sanitize(m.value)) else None
  }

  /** `parseAndNormalize`, step by step: one search per field, each result
      written into `answers` before the next search reuses `match`. The
      assertions record which fields are settled after each step. */
  method ParseAndNormalize(text: string) returns (answers: Answers)
    ensures answers == Normalize(text)
    ensures answers.exercise == None
  {
    answers := NoAnswers;
    var normalizedText := Lower(text);

    var match_ := Capture("age", DigitRun, normalizedText);
    if match_.Some? {
      answers := answers.(age := Some(DigitsValue(match_.value)));
    }
    assert answers == NoAnswers.(age := AgeOf(normalizedText));

    match_ := Capture("smoker", SmokerWord, normalizedText);
    if match_.Some? {
      answers := answers.(smoker := Some(match_.value in TruthyWords));
    }
    assert answers == NoAnswers.(
      age := AgeOf(normalizedText),
      smoker := SmokerOf(normalizedText));

    match_ := Capture("diet", RestOfLine, normalizedText);
    if match_.Some? {
      var diet := Sanitize(match_.value);
      if Contains(diet, "sugar") {
        diet := "high sugar";
      } else if Contains(diet, "balanced") {
        diet := "balanced";
      }
      answers := answers.(diet := Some(diet));
    }
    assert answers == NoAnswers.(
      age := AgeOf(normalizedText),
      smoker := SmokerOf(normalizedText),
      diet := DietOf(normalizedText));

    match_ := Capture("sleep", RestOfLine, normalizedText);
    if match_.Some? {
      var sleepMatch := FirstToken(Hours, match_.value);
      answers := answers.(sleep := Some(if sleepMatch.Some? then sleepMatch.value else Sanitize(match_.value)));
    }
    assert answers == NoAnswers.(
      age := AgeOf(normalizedText),
      smoker := SmokerOf(normalizedText),
      diet := DietOf(normalizedText),
      sleep := SleepOf(normalizedText));

    match_ := Capture("stress", RestOfLine, normalizedText);
    if match_.Some? {
      var stressMatch := FirstToken(Rating, match_.value);
      answers := answers.(stress := Some(if stressMatch.Some? then stressMatch.value else Sanitize(match_.value)));
    }
    assert answers == NoAnswers.(
      age := AgeOf(normalizedText),
      smoker := SmokerOf(normalizedText),
      diet := DietOf(normalizedText),
      sleep := SleepOf(normalizedText),
      stress := StressOf(normalizedText));

    match_ := Capture("alcohol", RestOfLine, normalizedText);
    if match_.Some? {
      answers := answers.(alcohol := Some(ReplaceFirst(Sanitize(match_.value), "veek", "week")));
    }
    assert answers == NoAnswers.(
      age := AgeOf(normalizedText),
      smoker := SmokerOf(normalizedText),
      diet := DietOf(normalizedText),
      sleep := SleepOf(normalizedText),
      stress := StressOf(normalizedText),
      alcohol := AlcoholOf(normalizedText));

    match_ := Capture("weight", RestOfLine, normalizedText);
    if match_.Some? {
      answers := answers.(weight := Some(Sanitize(match_.value)));
    }
    assert answers == NoAnswers.(
      age := AgeOf(normalizedText),
      smoker := SmokerOf(normalizedText),
      diet := DietOf(normalizedText),
      sleep := SleepOf(normalizedText),
      stress := StressOf(normalizedText),
      alcohol := AlcoholOf(normalizedText),
      weight := SanitizedField("weight", normalizedText));

    match_ := Capture("height", RestOfLine, normalizedText);
    if match_.Some? {
      answers := answers.(height := Some(Sanitize(match_.value)));
    }
    assert answers == NoAnswers.(
      age := AgeOf(normalizedText),
      smoker := SmokerOf(normalizedText),
      diet := DietOf(normalizedText),
      sleep := SleepOf(normalizedText),
      stress := StressOf(normalizedText),
      alcohol := AlcoholOf(normalizedText),
      weight := SanitizedField("weight", normalizedText),
      height := SanitizedField("height", normalizedText));
  }

  // ---------------------------------------------------------------------
  // Missing fields and the tail of parseImage
  // ---------------------------------------------------------------------

  /** A field of the answers object as JavaScript sees it. */
  datatype JsValue = Undefined | JsString(str: string) | JsNumber(num: nat) | JsBool(truth: bool)

  /** JavaScript truthiness: `undefined`, `''`, `0` and `false` are falsy. */
  predicate Truthy(v: JsValue) {
    match v
    case Undefined => false
    case JsString(str) => str != ""
    case JsNumber(num) => num != 0
    case JsBool(b) => b
  }

  /** A text field: `undefined` when absent. */
  function StringField(o: Option<string>): JsValue {
    if o.Some? then JsString(o.value) else Undefined
  }

  /** `answers[f]`. */
  function Lookup(a: Answers, f: Field): JsValue {
    match f
    case Age => if a.age.Some? then JsNumber(a.age.value) else Undefined
    case Smoker => if a.smoker.Some? then JsBool(a.smoker.value) else Undefined
    case Exercise => StringField(a.exercise)
    case Diet => StringField(a.diet)
    case Sleep => StringField(a.sleep)
    case Stress => StringField(a.stress)
    case Alcohol => StringField(a.alcohol)
    case Weight => StringField(a.weight)
    case Height => StringField(a.height)
  }

  /** A text field that is set and not `''`: the truthy text fields. */
  predicate Filled(o: Option<string>): (b: bool)
    ensures b <==> Truthy(StringField(o))
  {
    o.Some? && o.value != ""
  }

  /** A field counts as found when it is present and not `''`; `smoker: false`
      and `age: 0` are found. */
  predicate Present(a: Answers, f: Field): (b: bool)
    ensures b <==> Lookup(a, f) != Undefined && Lookup(a, f) != JsString("")
  {
    match f
    case Age => a.age.Some?
    case Smoker => a.smoker.Some?
    case Exercise => Filled(a.exercise)
    case Diet => Filled(a.diet)
    case Sleep => Filled(a.sleep)
    case Stress => Filled(a.stress)
    case Alcohol => Filled(a.alcohol)
    case Weight => Filled(a.weight)
    case Height => Filled(a.height)
  }

  ghost predicate IsSubsequence<T>(r: seq<T>, s: seq<T>)
    decreases |s|
  {
    if r == [] then true
    else if s == [] then false
    else if r[0] == s[0] then IsSubsequence(r[1..], s[1..])
    else IsSubsequence(r, s[1..])
  }

  /** The fields of `fs`, in order, that `a` lacks. */
  function MissingAmong(fs: seq<Field>, a: Answers): (r: seq<Field>)
    ensures forall f :: f in r <==> f in fs && !Present(a, f)
    ensures IsSubsequence(r, fs)
  {
    if fs == [] then []
    else if Present(a, fs[0]) then MissingAmong(fs[1..], a)
    else [fs[0]] + MissingAmong(fs[1..], a)
  }

  /** The fields of `fs`, in order, that `a` has. */
  function FoundAmong(fs: seq<Field>, a: Answers): (r: seq<Field>)
    ensures forall f :: f in r <==> f in fs && Present(a, f)
  {
    if fs == [] then []
    else if Present(a, fs[0]) then [fs[0]] + FoundAmong(fs[1..], a)
    else FoundAmong(fs[1..], a)
  }

  function MissingFields(a: Answers): (r: seq<Field>)
    ensures forall f :: f in r <==> !Present(a, f)
    ensures IsSubsequence(r, ExpectedFields) && |r| <= |ExpectedFields|
  {
    SubsequenceLength(MissingAmong(ExpectedFields, a), ExpectedFields);
    MissingAmong(ExpectedFields, a)
  }

  lemma {:induction false} SubsequenceLength<T>(r: seq<T>, s: seq<T>)
    requires IsSubsequence(r, s)
    ensures |r| <= |s|
    decreases |s|
  {
    if r != [] {
      if r[0] == s[0] {
        SubsequenceLength(r[1..], s[1..]);
      } else {
        SubsequenceLength(r, s[1..]);
      }
    }
  }

  /** The found test is `!== null && !== ''`: `smoker: false` and `age: 0`
      are found, a stored `''` is not, and an absent key is not. */
  lemma PresentEdgeCases(a: Answers)
    ensures Present(a.(smoker := Some(false)), Smoker)
    ensures Present(a.(age := Some(0)), Age)
    ensures !Present(a.(diet := Some("")), Diet)
    ensures !Present(a.(sleep := None), Sleep)
  {
  }

  /** Found and missing fields split the expected fields: every field is in
      exactly one of them and together they have as many entries. */
  lemma {:induction false} FoundMissingPartition(fs: seq<Field>, a: Answers)
    ensures |FoundAmong(fs, a)| + |MissingAmong(fs, a)| == |fs|
    ensures forall f :: f in fs ==> (f in FoundAmong(fs, a) <==> f !in MissingAmong(fs, a))
  {
    if fs != [] {
      FoundMissingPartition(fs[1..], a);
    }
  }

  /** The status a parse produces. */
  datatype ParseResult =
    | Ok(answers: Answers, missingFields: seq<Field>, confidence: Option<real>)
    | IncompleteProfile(reason: string, missingFields: seq<Field>, confidence: Option<real>)
    | Error(message: string)

  /** The missing-field policy shared by the image and the text paths: more
      than half (`> 9 * 0.5`) of the expected fields missing makes an
      incomplete profile. */
  function Assess(a: Answers, confidence: Option<real>): (r: ParseResult)
    ensures !r.Error? && r.confidence == confidence
    ensures r.missingFields == MissingFields(a)
    ensures r.IncompleteProfile? <==> |MissingFields(a)| >= 5
    ensures r.IncompleteProfile? ==> r.reason == IncompleteReason
    ensures r.Ok? ==> r.answers == a
  {
    var missingFields := MissingFields(a);
    if 2 * |missingFields| > |ExpectedFields| then
      IncompleteProfile(IncompleteReason, missingFields, confidence)
    else
      Ok(a, missingFields, confidence)
  }

  /** The overall confidence of an image parse from the OCR engine's
      percentage: a flat 0.9 above 80, the percentage as a fraction otherwise. */
  function OverallConfidence(ocrConfidence: real): (r: real)
    ensures ocrConfidence > 80.0 ==> r == 0.9
    ensures 0.0 <= ocrConfidence <= 80.0 ==> 0.0 <= r <= 0.8 && r * 100.0 == ocrConfidence
  {
    if ocrConfidence > 80.0 then 0.9 else ocrConfidence / 100.0
  }

  /** The step from a lower to a higher OCR percentage never lowers the
      overall confidence, though it jumps from 0.8 to 0.9 just above 80. */
  lemma OverallConfidenceMonotone(c1: real, c2: real)
    requires c1 <= c2
    ensures OverallConfidence(c1) <= OverallConfidence(c2)
  {
  }

  /** lines 88-110 of `parseImage`: the OCR engine's text and confidence, as
      an input, normalised and assessed. */
  function ParseImage(ocrText: string, ocrConfidence: real): (r: ParseResult)
    ensures !r.Error? && r.confidence == Some(OverallConfidence(ocrConfidence))
    ensures r.missingFields == MissingFields(Normalize(ocrText))
    ensures r.IncompleteProfile? <==> |MissingFields(Normalize(ocrText))| >= 5
    ensures r.IncompleteProfile? ==> r.reason == IncompleteReason
    ensures r.Ok? ==> r.answers == Normalize(ocrText)
  {
    Assess(Normalize(ocrText), Some(OverallConfidence(ocrConfidence)))
  }

  // ---------------------------------------------------------------------
  // Properties of the normaliser
  // ---------------------------------------------------------------------

  /** `exercise` is never parsed, so it is always missing. */
  lemma ExerciseAlwaysMissing(text: string)
    ensures Exercise in MissingFields(Normalize(text))
  {
  }

  /** The answers depend only on the lower-cased text. */
  lemma NormalizeSeesOnlyLowerCase(text: string)
    ensures Normalize(Lower(text)) == Normalize(text)
  {
    LowerIdempotent(text);
  }

  /** Where the value after the label at `i` starts: past the optional
      colon and all the whitespace after it. */
  function ValueStart(key: string, t: string, i: nat): (m: nat)
    requires OccursAt(t, key, i)
    ensures m <= |t|
  {
    SpanEnd(t, AfterColon(t, i + |key|), IsSpace)
  }

  lemma LabelledIffDirect(key: string, g: Group, t: string, i: nat)
    requires g != RestOfLine
    ensures LabelledAt(key, g, t, i) <==> DirectAt(key, g, t, i)
    ensures OccursAt(t, key, i) ==> LabelTail(g, t, i + |key|) == GroupAt(g, t, ValueStart(key, t, i))
  {
    if OccursAt(t, key, i) {
      NoBacktrackTail(g, t, i + |key|);
    }
  }

  /** The leftmost match of a digit or smoker pattern is at the first label
      occurrence that reads the declarative way (label, optional colon,
      blanks, group). */
  lemma LeftmostIsDirect(key: string, g: Group, t: string, i: nat)
    requires g != RestOfLine
    requires DirectAt(key, g, t, i) && forall i': nat :: i' < i ==> !DirectAt(key, g, t, i')
    ensures Capture(key, g, t) == GroupAt(g, t, ValueStart(key, t, i))
  {
    forall i': nat | i' < i ensures !LabelledAt(key, g, t, i') {
      LabelledIffDirect(key, g, t, i');
    }
    LabelledIffDirect(key, g, t, i);
    LeftmostLabelAt(key, g, t, i);
    CaptureAt(key, g, t, i);
  }

  lemma LeftmostLabelAt(key: string, g: Group, t: string, i: nat)
    requires LabelledAt(key, g, t, i) && forall i': nat :: i' < i ==> !LabelledAt(key, g, t, i')
    ensures LeftmostLabel(key, g, t, 0) == Some(i)
  {
    var r := LeftmostLabel(key, g, t, 0);
    assert r.Some?;
  }

  lemma CaptureAt(key: string, g: Group, t: string, i: nat)
    requires LeftmostLabel(key, g, t, 0) == Some(i)
    ensures Capture(key, g, t) == LabelTail(g, t, i + |key|)
  {
  }

  /** ... and there is no match when no occurrence reads that way. */
  lemma NoDirectNoCapture(key: string, g: Group, t: string)
    requires g != RestOfLine
    ensures Capture(key, g, t).None? <==> forall i: nat :: !DirectAt(key, g, t, i)
  {
    DirectAtIff(key, g, t);
    CaptureNoneIff(key, g, t);
  }

  lemma CaptureNoneIff(key: string, g: Group, t: string)
    ensures Capture(key, g, t).None? <==> forall i: nat :: !LabelledAt(key, g, t, i)
  {
    CaptureNoneIffNoLabel(key, g, t);
    NoLabelIff(key, g, t);
  }

  lemma CaptureNoneIffNoLabel(key: string, g: Group, t: string)
    ensures Capture(key, g, t).None? <==> LeftmostLabel(key, g, t, 0).None?
  {
  }

  lemma NoLabelIff(key: string, g: Group, t: string)
    ensures LeftmostLabel(key, g, t, 0).None? <==> forall i: nat :: !LabelledAt(key, g, t, i)
  {
  }

  /** `age`, when present, is the value of the digit run after the first
      occurrence of `age` that is followed (past an optional colon and
      blanks) by a digit; it is absent when no occurrence is. */
  lemma AgeIsFirstLabelledNumber(text: string, i: nat)
    requires var l := Lower(text);
      DirectAt("age", DigitRun, l, i) && forall i': nat :: i' < i ==> !DirectAt("age", DigitRun, l, i')
    ensures var l := Lower(text); var m := ValueStart("age", l, i);
      m < |l| && Normalize(text).age == Some(DigitsValue(l[m..SpanEnd(l, m, IsDigit)]))
  {
    LeftmostIsDirect("age", DigitRun, Lower(text), i);
  }

  lemma AgeAbsent(text: string)
    ensures Normalize(text).age.None? <==> forall i: nat :: !DirectAt("age", DigitRun, Lower(text), i)
  {
    assert Normalize(text).age == AgeOf(Lower(text));
    AgeOfAbsent(Lower(text));
  }

  lemma AgeOfAbsent(l: string)
    ensures AgeOf(l).None? <==> forall i: nat :: !DirectAt("age", DigitRun, l, i)
  {
    forall i: nat ensures LabelledAt("age", DigitRun, l, i) <==> DirectAt("age", DigitRun, l, i) {
      LabelledIffDirect("age", DigitRun, l, i);
    }
  }

  /** `smoker` comes from the first occurrence of `smoker` followed by one
      of the six words, and is true exactly when that word is `yes`, `true`
      or `y`, that is, when it starts with `y` or is `true`. */
  lemma SmokerIsFirstLabelledWord(text: string, i: nat)
    requires var l := Lower(text);
      DirectAt("smoker", SmokerWord, l, i) && forall i': nat :: i' < i ==> !DirectAt("smoker", SmokerWord, l, i')
    ensures var l := Lower(text); var m := ValueStart("smoker", l, i);
      m < |l| && Normalize(text).smoker == Some(l[m] == 'y' || OccursAt(l, "true", m))
  {
    var l := Lower(text);
    var m := ValueStart("smoker", l, i);
    LeftmostIsDirect("smoker", SmokerWord, l, i);
    WordGroupStart(SmokerWord, l, m);
    SmokerWordTruth(l, m);
    assert Normalize(text).smoker == SmokerOf(l);
  }

  /** A smoker word at `q` is read as `true` exactly when it starts with `y`
      or is `true`. */
  lemma SmokerWordTruth(t: string, q: nat)
    requires q <= |t| && FirstAlternative(t, q, SmokerWords).Some?
    ensures var w := FirstAlternative(t, q, SmokerWords).value;
      q < |t| && (w in TruthyWords <==> t[q] == 'y' || OccursAt(t, "true", q))
  {
    var w := FirstAlternative(t, q, SmokerWords).value;
    SmokerWordShape(w);
    assert t[q] == w[0] by {
      assert t[q..q + |w|] == w;
    }
    if OccursAt(t, "true", q) {
      assert t[q] == t[q..q + 4][0];
    }
  }

  /** The smoker words read as `true` are those starting with `y`, and
      `true`, the only one starting with `t`. */
  lemma SmokerWordShape(w: string)
    requires w in SmokerWords
    ensures |w| > 0
    ensures w in TruthyWords <==> w[0] == 'y' || w[0] == 't'
    ensures w[0] == 't' ==> w == "true"
  {
  }

  lemma SmokerAbsent(text: string)
    ensures Normalize(text).smoker.None? <==> forall i: nat :: !DirectAt("smoker", SmokerWord, Lower(text), i)
  {
    assert Normalize(text).smoker == SmokerOf(Lower(text));
    SmokerOfAbsent(Lower(text));
  }

  lemma SmokerOfAbsent(l: string)
    ensures SmokerOf(l).None? <==> forall i: nat :: !DirectAt("smoker", SmokerWord, l, i)
  {
    forall i: nat ensures LabelledAt("smoker", SmokerWord, l, i) <==> DirectAt("smoker", SmokerWord, l, i) {
      LabelledIffDirect("smoker", SmokerWord, l, i);
    }
  }

  /** Giving whitespace back finds a rest-of-line capture exactly when some
      position between `k` and `q` holds a character other than CR or LF. */
  lemma {:induction false} BacktrackLineIff(t: string, k: nat, q: nat)
    requires k <= q <= |t|
    ensures BacktrackFrom(RestOfLine, t, k, q).Some? <==> exists p :: k <= p <= q && p < |t| && NotLineBreak(t[p])
    decreases q
  {
    if q > k && GroupAt(RestOfLine, t, q).None? {
      BacktrackLineIff(t, k, q - 1);
    }
  }

  /** A line pattern matches after a label exactly when some character other
      than CR or LF follows the label anywhere: the greedy `\s*` crosses
      line breaks, and the colon itself can be the capture. */
  lemma LineTailIff(t: string, j: nat)
    requires j <= |t|
    ensures LabelTail(RestOfLine, t, j).Some? <==> exists p :: j <= p < |t| && NotLineBreak(t[p])
  {
    var k := AfterColon(t, j);
    var m := SpanEnd(t, k, IsSpace);
    BacktrackLineIff(t, k, m);
    BacktrackLineIff(t, j, SpanEnd(t, j, IsSpace));
    if m < |t| {
      assert IsSpace('\n') && IsSpace('\r');
      assert NotLineBreak(t[m]);
    } else if !(j < |t| && t[j] == ':') {
      assert k == j;
    } else {
      assert NotLineBreak(t[j]);
    }
  }

  /** `alcohol`: only the first `veek` of the sanitised line becomes `week`;
      the `v` is the only character that changes. */
  lemma AlcoholFixesFirstVeek(line: string)
    ensures var s, r := Sanitize(line), AlcoholValue(line);
      && |r| == |s|
      && (IndexOf(s, "veek", 0).None? ==> r == s)
      && (IndexOf(s, "veek", 0).Some? ==>
            var i := IndexOf(s, "veek", 0).value;
            r[i] == 'w' && s[i] == 'v' && forall k :: 0 <= k < |s| && k != i ==> r[k] == s[k])
  {
    VeekFixed(Sanitize(line));
  }

  lemma VeekFixed(s: string)
    ensures var r := ReplaceFirst(s, "veek", "week");
      && |r| == |s|
      && (IndexOf(s, "veek", 0).None? ==> r == s)
      && (IndexOf(s, "veek", 0).Some? ==>
            var i := IndexOf(s, "veek", 0).value;
            r[i] == 'w' && s[i] == 'v' && forall k :: 0 <= k < |s| && k != i ==> r[k] == s[k])
  {
    assert "veek"[1..] == "week"[1..];
    ReplaceFirstLetter(s, "veek", "week");
  }

  /** A label with a colon at the very end of the text captures the colon,
      which sanitises to `''`: the field is there but counts as missing. */
  lemma ColonAtEndCountsAsMissing(text: string)
    requires text == "diet:"
    ensures Normalize(text).diet == Some("")
    ensures Diet in MissingFields(Normalize(text))
  {
    var l := Lower(text);
    assert l == text by {
      assert l[4] == LowerChar(':');
    }
    DietOfColon(l);
    assert Normalize(text).diet == DietOf(l);
    assert !Present(Normalize(text), Diet);
  }

  lemma DietOfColon(l: string)
    requires l == "diet:"
    ensures DietOf(l) == Some("")
  {
    ColonTail(l);
    assert OccursAt(l, "diet", 0);
    LeftmostLabelAt("diet", RestOfLine, l, 0);
    CaptureAt("diet", RestOfLine, l, 0);
    ColonSanitisesToEmpty(":");
  }

  lemma ColonTail(l: string)
    requires l == "diet:"
    ensures LabelTail(RestOfLine, l, 4) == Some(":")
  {
    assert SpanEnd(l, 5, IsSpace) == 5;
    assert SpacedGroup(RestOfLine, l, 5).None?;
    assert !IsSpace(':') && SpanEnd(l, 4, IsSpace) == 4;
    assert SpanEnd(l, 4, NotLineBreak) == 5;
    assert GroupAt(RestOfLine, l, 4) == Some(l[4..5]);
    assert l[4..5] == ":";
  }

  lemma ColonSanitisesToEmpty(c: string)
    requires c == ":"
    ensures DietValue(c) == ""
  {
    SanitizeColon(c);
  }

  lemma SanitizeColon(c: string)
    requires c == ":"
    ensures Sanitize(c) == ""
  {
    assert !IsSpace(':');
    TrimUnpadded(c);
    assert !Kept(':');
    assert StripDisallowed(c) == StripDisallowed("");
  }

  /** When only whitespace is left after `\s*` starts at `k`, giving it back
      finds at most a capture of whitespace. */
  lemma {:induction false} BlankBacktrack(t: string, k: nat, q: nat)
    requires k <= q <= |t|
    requires forall p :: k <= p < |t| ==> IsSpace(t[p])
    ensures var c := BacktrackFrom(RestOfLine, t, k, q);
      c.Some? ==> forall i :: 0 <= i < |c.value| ==> IsSpace(c.value[i])
    decreases q
  {
    var g := GroupAt(RestOfLine, t, q);
    if g.Some? {
      assert forall i :: 0 <= i < |g.value| ==> g.value[i] == t[q + i];
    } else if q != k {
      BlankBacktrack(t, k, q - 1);
    }
  }

  /** A rest-of-line label followed by whitespace only (after the optional
      colon) captures whitespace, or the colon itself: either way the
      sanitised value is `''`. */
  lemma BlankTail(t: string, j: nat)
    requires j <= |t|
    requires forall p :: AfterColon(t, j) <= p < |t| ==> IsSpace(t[p])
    ensures var c := LabelTail(RestOfLine, t, j);
      c.Some? ==> Sanitize(c.value) == ""
  {
    var k := AfterColon(t, j);
    BlankBacktrack(t, k, |t|);
    var c := LabelTail(RestOfLine, t, j);
    if j < |t| && t[j] == ':' && SpacedGroup(RestOfLine, t, j + 1).None? {
      BacktrackLineIff(t, j + 1, |t|);
      assert !IsSpace(':') && SpanEnd(t, j, IsSpace) == j;
      SpanEndIs(t, j, j + 1, NotLineBreak);
      assert c == Some(t[j..j + 1]);
      SanitizeColon(t[j..j + 1]);
    } else if c.Some? {
      SanitizeBlank(c.value);
    }
  }

  /** `diet:` followed by whitespace and a line break stores `''`: the value
      is there but counts as missing. */
  lemma BlankDietCountsAsMissing(text: string)
    requires text == "diet: \n"
    ensures Normalize(text).diet == Some("")
    ensures Diet in MissingFields(Normalize(text))
  {
    LowerBlankDiet(text);
    DietOfBlank(Lower(text));
    DietField(text);
    DietMissing(Normalize(text));
  }

  lemma LowerBlankDiet(text: string)
    requires text == "diet: \n"
    ensures Lower(text) == text
  {
    var l := Lower(text);
    assert l[4] == LowerChar(':') && l[5] == LowerChar(' ') && l[6] == LowerChar('\n');
  }

  /** The stored diet is the diet capture of the lower-cased text. */
  lemma DietField(text: string)
    ensures Normalize(text).diet == DietOf(Lower(text))
  {
  }

  /** The diet is missing exactly when it is absent or `''`. */
  lemma DietMissing(a: Answers)
    ensures Diet in MissingFields(a) <==> !Filled(a.diet)
  {
  }

  lemma DietOfBlank(l: string)
    requires l == "diet: \n"
    ensures DietOf(l) == Some("")
  {
    assert OccursAt(l, "diet", 0);
    LineTail(l, 4);
    LeftmostLabelAt("diet", RestOfLine, l, 0);
    CaptureAt("diet", RestOfLine, l, 0);
    assert IsSpace(' ') && IsSpace('\n');
    BlankTail(l, 4);
  }
}
