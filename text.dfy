/** Strings and characters as the survey pipeline sees them: the JavaScript
    regular-expression classes `\s` and `\d`, lower-casing, `indexOf`,
    `includes`, `replace` with a string pattern, and `trim`. */
module Text {

  datatype Option<+T> = None | Some(value: T)

  /** The class `\s` of a JavaScript regular expression. `String.prototype.trim`
      removes exactly the same characters (WhiteSpace and LineTerminator). */
  predicate IsSpace(c: char) {
    if c < '\U{00A0}' then c == ' ' || '\t' <= c <= '\r'
    else
      || c == '\U{00A0}' || c == '\U{1680}' || '\U{2000}' <= c <= '\U{200A}'
      || c == '\U{2028}' || c == '\U{2029}' || c == '\U{202F}' || c == '\U{205F}'
      || c == '\U{3000}' || c == '\U{FEFF}'
  }

  /** The class `\d`: ASCII digits only. */
  predicate IsDigit(c: char) {
    '0' <= c <= '9'
  }

  predicate IsAsciiLetter(c: char) {
    'a' <= c <= 'z' || 'A' <= c <= 'Z'
  }

  predicate IsLineBreak(c: char) {
    c == '\n' || c == '\r'
  }

  /** The class `[^\n\r]`. */
  predicate NotLineBreak(c: char) {
    !IsLineBreak(c)
  }

  function LowerChar(c: char): (r: char)
    ensures !('A' <= r <= 'Z')
    ensures !('A' <= c <= 'Z') ==> r == c
  {
    if 'A' <= c <= 'Z' then (c as int + 32) as char else c
  }

  /** `toLowerCase`, for the ASCII letters. */
  function Lower(s: string): (r: string)
    ensures |r| == |s|
    ensures forall i :: 0 <= i < |s| ==> r[i] == LowerChar(s[i])
  {
    if s == [] then [] else [LowerChar(s[0])] + Lower(s[1..])
  }

  /** Lower-casing moves no digit: the first digit run is the same. */
  lemma DigitsIgnoreCase(s: string)
    ensures FirstRun(Lower(s), IsDigit) == FirstRun(s, IsDigit)
  {
    var l := Lower(s);
    assert forall k :: 0 <= k < |s| ==> (IsDigit(l[k]) <==> IsDigit(s[k]));
    var i := IndexWhere(s, IsDigit, 0);
    var i' := IndexWhere(l, IsDigit, 0);
    assert i' == i by {
      if i'.Some? && i.Some? {
        assert !(i'.value < i.value) && !(i.value < i'.value);
      }
    }
    if i.Some? {
      var j := SpanEnd(s, i.value, IsDigit);
      SpanEndIs(l, i.value, j, IsDigit);
      assert l[i.value..j] == s[i.value..j];
    }
  }

  /** Lower-casing a second time changes nothing. */
  lemma LowerIdempotent(s: string)
    ensures Lower(Lower(s)) == Lower(s)
  {
    assert forall i :: 0 <= i < |s| ==> Lower(Lower(s))[i] == Lower(s)[i];
  }

  /** The first index at or after `q` whose character does not satisfy `p`
      (the end of a greedy run `p+` or `p*` starting at `q`). */
  function SpanEnd(t: string, q: nat, p: char -> bool): (r: nat)
    requires q <= |t|
    ensures q <= r <= |t|
    ensures forall k :: q <= k < r ==> p(t[k])
    ensures r < |t| ==> !p(t[r])
    decreases |t| - q
  {
    if q == |t| || !p(t[q]) then q else SpanEnd(t, q + 1, p)
  }

  /** A run of characters satisfying `p` that ends at `j` (at the end of the
      text, or before a character failing `p`) is exactly the greedy span. */
  lemma {:induction false} SpanEndIs(t: string, q: nat, j: nat, p: char -> bool)
    requires q <= j <= |t| && (forall k :: q <= k < j ==> p(t[k]))
    requires j < |t| ==> !p(t[j])
    ensures SpanEnd(t, q, p) == j
    decreases j - q
  {
    if q < j {
      SpanEndIs(t, q + 1, j, p);
    }
  }

  /** The greedy span covers every run of characters satisfying `p`. */
  lemma {:induction false} SpanEndCovers(t: string, q: nat, j: nat, p: char -> bool)
    requires q <= j <= |t| && (forall k :: q <= k < j ==> p(t[k]))
    ensures j <= SpanEnd(t, q, p)
    decreases j - q
  {
    if q < j {
      SpanEndCovers(t, q + 1, j, p);
    }
  }

  /** The leftmost index at or after `from` whose character satisfies `p`. */
  function IndexWhere(s: string, p: char -> bool, from: nat): (r: Option<nat>)
    ensures r.Some? ==> from <= r.value < |s| && p(s[r.value])
    ensures r.Some? ==> forall k :: from <= k < r.value ==> !p(s[k])
    ensures r.None? ==> forall k :: from <= k < |s| ==> !p(s[k])
    decreases |s| - from
  {
    if from >= |s| then None
    else if p(s[from]) then Some(from)
    else IndexWhere(s, p, from + 1)
  }

  /** `s.match(/<class>+/)?.[0]`: the leftmost maximal run of characters
      satisfying `p`. */
  function FirstRun(s: string, p: char -> bool): (r: Option<string>)
    ensures r.Some? ==> |r.value| > 0 && forall k :: 0 <= k < |r.value| ==> p(r.value[k])
    ensures r.None? <==> forall k :: 0 <= k < |s| ==> !p(s[k])
    ensures r.Some? ==> exists i: nat, j: nat :: LeftmostRun(s, p, i, j) && r.value == s[i..j]
  {
    match IndexWhere(s, p, 0)
    case None => None
    case Some(i) =>
      var j := SpanEnd(s, i, p);
      assert LeftmostRun(s, p, i, j);
      Some(s[i..j])
  }

  /** `s[i..j]` is a run of characters satisfying `p` that nothing extends
      on the right, and no character before `i` satisfies `p`. */
  predicate LeftmostRun(s: string, p: char -> bool, i: nat, j: nat) {
    && i < j <= |s|
    && (forall k :: i <= k < j ==> p(s[k]))
    && (j < |s| ==> !p(s[j]))
    && (forall k :: 0 <= k < i ==> !p(s[k]))
  }

  /** Decimal value of a run of digits (`parseInt(d, 10)`). */
  function DigitsValue(d: string): nat
  {
    if d == [] then 0 else 10 * DigitsValue(d[..|d| - 1]) + DigitValue(d[|d| - 1])
  }

  function Pow10(n: nat): (r: nat)
    ensures r >= 1
  {
    if n == 0 then 1 else 10 * Pow10(n - 1)
  }

  /** A run of `n` digits denotes less than ten to the `n`. */
  lemma {:induction false} DigitsValueBelow(d: string)
    ensures DigitsValue(d) < Pow10(|d|)
    decreases |d|
  {
    if d != [] {
      DigitsValueBelow(d[..|d| - 1]);
      assert DigitValue(d[|d| - 1]) <= 9;
    }
  }

  function DigitValue(c: char): nat
  {
    if IsDigit(c) then c as int - '0' as int else 0
  }

  predicate OccursAt(s: string, w: string, k: int) {
    0 <= k && k + |w| <= |s| && s[k..k + |w|] == w
  }

  /** `s.indexOf(w, from)`: the leftmost occurrence of `w` at or after `from`. */
  function IndexOf(s: string, w: string, from: nat): (r: Option<nat>)
    ensures r.Some? ==> from <= r.value && OccursAt(s, w, r.value)
    ensures r.Some? ==> forall k :: from <= k < r.value ==> !OccursAt(s, w, k)
    ensures r.None? ==> forall k :: from <= k ==> !OccursAt(s, w, k)
    decreases |s| - from
  {
    if from + |w| > |s| then None
    else if s[from..from + |w|] == w then Some(from)
    else IndexOf(s, w, from + 1)
  }

  /** `s.includes(w)`. */
  predicate Contains(s: string, w: string) {
    IndexOf(s, w, 0).Some?
  }

  lemma ContainsIff(s: string, w: string)
    ensures Contains(s, w) <==> exists k :: OccursAt(s, w, k)
  {
    if !Contains(s, w) {
      forall k ensures !OccursAt(s, w, k) {
        if k >= 0 {
          assert !OccursAt(s, w, k);
        }
      }
    }
  }

  /** `s.replace(pattern, replacement)` with a string pattern: only the
      leftmost occurrence is replaced. */
  function ReplaceFirst(s: string, pattern: string, replacement: string): (r: string)
    ensures !Contains(s, pattern) ==> r == s
    ensures IndexOf(s, pattern, 0).Some? ==>
      var i := IndexOf(s, pattern, 0).value;
      && |r| == |s| - |pattern| + |replacement|
      && r[..i] == s[..i]
      && r[i..i + |replacement|] == replacement
      && r[i + |replacement|..] == s[i + |pattern|..]
  {
    ContainsIff(s, pattern);
    match IndexOf(s, pattern, 0)
    case None => s
    case Some(i) => s[..i] + replacement + s[i + |pattern|..]
  }

  /** Replacing by a string of the same length overwrites the leftmost
      occurrence in place and leaves every other character alone. */
  lemma ReplaceFirstInPlace(s: string, pattern: string, replacement: string)
    requires |pattern| == |replacement|
    ensures var r := ReplaceFirst(s, pattern, replacement);
      && |r| == |s|
      && (IndexOf(s, pattern, 0).None? ==> r == s)
      && (IndexOf(s, pattern, 0).Some? ==>
            var i := IndexOf(s, pattern, 0).value;
            forall k :: 0 <= k < |s| ==>
              r[k] == if i <= k < i + |pattern| then replacement[k - i] else s[k])
  {
    if IndexOf(s, pattern, 0).Some? {
      var r := ReplaceFirst(s, pattern, replacement);
      var i := IndexOf(s, pattern, 0).value;
      var n := |pattern|;
      forall k | 0 <= k < |s| ensures r[k] == if i <= k < i + n then replacement[k - i] else s[k] {
        if k < i {
          assert r[k] == r[..i][k];
        } else if k < i + n {
          assert r[k] == r[i..i + n][k - i];
        } else {
          assert r[k] == r[i + n..][k - i - n] == s[i + n..][k - i - n];
        }
      }
    }
  }

  /** Replacing by a string that differs only in its first character
      changes exactly one character of the text: the first of the leftmost
      occurrence. */
  lemma ReplaceFirstLetter(s: string, pattern: string, replacement: string)
    requires |pattern| == |replacement| > 0 && pattern[1..] == replacement[1..]
    ensures var r := ReplaceFirst(s, pattern, replacement);
      && |r| == |s|
      && (IndexOf(s, pattern, 0).None? ==> r == s)
      && (IndexOf(s, pattern, 0).Some? ==>
            var i := IndexOf(s, pattern, 0).value;
            && r[i] == replacement[0] && s[i] == pattern[0]
            && forall k :: 0 <= k < |s| && k != i ==> r[k] == s[k])
  {
    ReplaceFirstInPlace(s, pattern, replacement);
    if IndexOf(s, pattern, 0).Some? {
      var i := IndexOf(s, pattern, 0).value;
      assert s[i..i + |pattern|] == pattern;
      forall k | i < k < i + |pattern| ensures s[k] == replacement[k - i] {
        assert s[k] == s[i..i + |pattern|][k - i] == pattern[1..][k - i - 1];
      }
      assert s[i] == s[i..i + |pattern|][0];
    }
  }

  /** The end of `s[..q]` once trailing characters of `\s` are dropped. */
  function TrimmedEnd(s: string, q: nat): (r: nat)
    requires q <= |s|
    ensures r <= q
    ensures forall k :: r <= k < q ==> IsSpace(s[k])
    ensures r == 0 || !IsSpace(s[r - 1])
    decreases q
  {
    if q == 0 || !IsSpace(s[q - 1]) then q else TrimmedEnd(s, q - 1)
  }

  /** `s.trim()`: the slice between the first and the last character that
      is not in `\s`. */
  function Trim(s: string): (r: string)
    ensures |r| <= |s|
    ensures r == [] || (!IsSpace(r[0]) && !IsSpace(r[|r| - 1]))
    ensures r == [] <==> forall k :: 0 <= k < |s| ==> IsSpace(s[k])
    ensures exists a :: TrimsTo(s, a, r)
  {
    var a := SpanEnd(s, 0, IsSpace);
    if a == |s| then
      assert TrimsTo(s, 0, []);
      []
    else
      var b := TrimmedEnd(s, |s|);
      assert a < b;
      assert TrimsTo(s, a, s[a..b]);
      s[a..b]
  }

  /** A string with no whitespace at either end is its own trim. */
  lemma TrimUnpadded(s: string)
    requires s != [] && !IsSpace(s[0]) && !IsSpace(s[|s| - 1])
    ensures Trim(s) == s
  {
    SpanEndIs(s, 0, 0, IsSpace);
    assert TrimmedEnd(s, |s|) == |s|;
  }

  /** Neither end of `t` is whitespace. */
  predicate Unpadded(t: string) {
    t == [] || (!IsSpace(t[0]) && !IsSpace(t[|t| - 1]))
  }

  /** The trim is unique: any slice with only whitespace cut off each end
      that is not itself padded is `Trim(s)`. */
  lemma TrimUnique(s: string, a: nat, t: string)
    requires TrimsTo(s, a, t) && Unpadded(t)
    ensures t == Trim(s)
  {
    var r := Trim(s);
    if t == [] {
      assert forall k :: 0 <= k < |s| ==> IsSpace(s[k]);
    } else {
      assert s[a] == t[0];
      var b: nat :| TrimsTo(s, b, r);
      assert r != [];
      assert s[b] == r[0];
      assert s[b + |r| - 1] == r[|r| - 1];
      assert s[a + |t| - 1] == t[|t| - 1];
      assert a == b;
      assert a + |t| == b + |r|;
    }
  }

  /** `r` is `s` with the whitespace before `a` and after `a + |r|` cut off. */
  predicate TrimsTo(s: string, a: nat, r: string) {
    && a + |r| <= |s| && r == s[a..a + |r|]
    && (forall k :: 0 <= k < a ==> IsSpace(s[k]))
    && (forall k :: a + |r| <= k < |s| ==> IsSpace(s[k]))
  }

  /** Trimming removes whitespace only: every other character stays, as
      often as it occurs. */
  lemma TrimKeepsNonSpace(s: string, c: char)
    requires !IsSpace(c)
    ensures multiset(Trim(s))[c] == multiset(s)[c]
  {
    var r := Trim(s);
    var a: nat :| TrimsTo(s, a, r);
    var b := a + |r|;
    assert s == s[..a] + r + s[b..];
    NoSuchChar(s[..a], c);
    NoSuchChar(s[b..], c);
  }

  lemma NoSuchChar(t: string, c: char)
    requires !IsSpace(c) && forall k :: 0 <= k < |t| ==> IsSpace(t[k])
    ensures multiset(t)[c] == 0
  {
    assert forall k :: 0 <= k < |t| ==> t[k] != c;
    assert c !in t;
  }
}
