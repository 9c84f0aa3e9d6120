/** String primitives of js/garden.js, with the meaning ECMAScript gives
    them: `endsWith`, which the listing filter uses, and the pieces of the
    title formatter — `replace` with a string pattern (first occurrence
    only), `replace(/-/g, ...)`, and the regular expression `\b\w` together
    with `toUpperCase`.

    Strings are sequences of characters; ECMAScript works on UTF-16 code
    units, and every character the rules below single out is ASCII, so the
    two readings agree on them. */
module Text {

  datatype Option<T> = None | Some(value: T)

  // ---------------------------------------------------------------------------
  // Character classes
  // ---------------------------------------------------------------------------

  predicate IsLowerAscii(c: char) {
    'a' <= c <= 'z'
  }

  predicate IsUpperAscii(c: char) {
    'A' <= c <= 'Z'
  }

  predicate IsDigit(c: char) {
    '0' <= c <= '9'
  }

  /** The regular-expression class `\w` without the `u` flag: `[A-Za-z0-9_]`.
      Every other character, Cyrillic letters included, is a non-word
      character. */
  predicate IsWordChar(c: char) {
    IsLowerAscii(c) || IsUpperAscii(c) || IsDigit(c) || c == '_'
  }

  /** `toUpperCase` applied to a single word character: only the 26 lower-case
      ASCII letters change. */
  function ToUpper(c: char): (u: char)
    ensures IsLowerAscii(c) ==> IsUpperAscii(u) && u as int == c as int - 32
    ensures !IsLowerAscii(c) ==> u == c
    ensures IsWordChar(u) <==> IsWordChar(c)
  {
    if IsLowerAscii(c) then (c as int - 32) as char else c
  }

  // ---------------------------------------------------------------------------
  // Suffixes and occurrences
  // ---------------------------------------------------------------------------

  /** `s.endsWith(suffix)`: the last `|suffix|` characters of `s` are
      `suffix`, character by character. */
  predicate EndsWith(s: string, suffix: string): (b: bool)
    ensures b <==> |suffix| <= |s| && forall k :: 0 <= k < |suffix| ==> s[|s| - |suffix| + k] == suffix[k]
  {
    |suffix| <= |s| && s[|s| - |suffix|..] == suffix
  }

  /** A string ends with `suffix` exactly when it is some text followed by
      `suffix`: appending gives a match, and a match splits off the front. */
  lemma EndsWithAppend(front: string, suffix: string)
    ensures EndsWith(front + suffix, suffix)
  {
    assert (front + suffix)[|front|..] == suffix;
  }

  lemma EndsWithSplit(s: string, suffix: string)
    requires EndsWith(s, suffix)
    ensures s == s[..|s| - |suffix|] + suffix
  {
  }

  /** `pat` occurs in `s` starting at index `i`. */
  predicate OccursAt(s: string, pat: string, i: nat) {
    i + |pat| <= |s| && s[i..i + |pat|] == pat
  }

  ghost predicate Contains(s: string, pat: string) {
    exists i: nat :: OccursAt(s, pat, i)
  }

  /** `i` is the leftmost index at which `pat` occurs in `s`. */
  ghost predicate FirstOccurrence(s: string, pat: string, i: nat) {
    OccursAt(s, pat, i) && forall j: nat :: j < i ==> !OccursAt(s, pat, j)
  }

  /** The leftmost occurrence of `pat` in `s` at or after `from`, found by a
      left-to-right scan as `indexOf` does. */
  function IndexOfFrom(s: string, pat: string, from: nat): (r: Option<nat>)
    ensures r.Some? ==> from <= r.value && OccursAt(s, pat, r.value)
    ensures r.Some? ==> forall j: nat :: from <= j < r.value ==> !OccursAt(s, pat, j)
    ensures r.None? ==> forall j: nat :: from <= j ==> !OccursAt(s, pat, j)
    decreases |s| - from
  {
    if |s| < from + |pat| then None
    else if s[from..from + |pat|] == pat then Some(from)
    else IndexOfFrom(s, pat, from + 1)
  }

  function IndexOf(s: string, pat: string): (r: Option<nat>)
    ensures r.Some? <==> Contains(s, pat)
    ensures r.Some? ==> FirstOccurrence(s, pat, r.value)
  {
    IndexOfFrom(s, pat, 0)
  }

  /** `s.replace(pat, '')` with a string (not regular-expression) pattern:
      the leftmost occurrence of `pat` is cut out and nothing else changes;
      without an occurrence the string is returned unchanged. */
  function RemoveFirst(s: string, pat: string): (r: string)
    ensures !Contains(s, pat) ==> r == s
    ensures Contains(s, pat) ==> |r| == |s| - |pat|
    ensures forall i: nat :: FirstOccurrence(s, pat, i) ==> r == s[..i] + s[i + |pat|..]
  {
    match IndexOf(s, pat)
    case None => s
    case Some(i) =>
      FirstOccurrenceUnique(s, pat, i);
      s[..i] + s[i + |pat|..]
  }

  lemma FirstOccurrenceUnique(s: string, pat: string, i: nat)
    requires FirstOccurrence(s, pat, i)
    ensures forall j: nat :: FirstOccurrence(s, pat, j) ==> j == i
  {
  }

  /** An occurrence with no earlier copy of the pattern's first character is
      the first occurrence. */
  lemma FirstByLeadChar(s: string, pat: string, i: nat)
    requires pat != [] && OccursAt(s, pat, i)
    requires pat[0] !in s[..i]
    ensures FirstOccurrence(s, pat, i)
  {
  }

  /** A string without the pattern's first character does not contain it. */
  lemma AbsentLeadChar(s: string, pat: string)
    requires pat != [] && pat[0] !in s
    ensures !Contains(s, pat)
  {
  }

  /** Putting `pat` back where `RemoveFirst` cut it out restores the input. */
  lemma RemoveFirstRoundTrip(s: string, pat: string, i: nat)
    requires FirstOccurrence(s, pat, i)
    ensures var r := RemoveFirst(s, pat); i <= |r| && r[..i] + pat + r[i..] == s
  {
    var r := RemoveFirst(s, pat);
    assert r == s[..i] + s[i + |pat|..];
    assert r[..i] == s[..i];
    assert r[i..] == s[i + |pat|..];
    assert s == s[..i] + s[i..i + |pat|] + s[i + |pat|..];
  }

  /** `RemoveFirst` character by character: the prefix before the first
      occurrence is kept in place and the rest moves left by `|pat|`. */
  lemma RemoveFirstAt(s: string, pat: string, i: nat)
    requires FirstOccurrence(s, pat, i)
    ensures var r := RemoveFirst(s, pat);
      && |r| == |s| - |pat|
      && (forall m :: 0 <= m < i ==> r[m] == s[m])
      && (forall m :: i <= m < |r| ==> r[m] == s[m + |pat|])
  {
    var tail := s[i + |pat|..];
    assert RemoveFirst(s, pat) == s[..i] + tail;
  }

  /** Only the first occurrence goes: an occurrence of `pat` that starts after
      the removed one ends is still there, shifted left by `|pat|`. */
  lemma {:induction false} RemoveFirstKeepsLaterOccurrences(s: string, pat: string, i: nat, j: nat)
    requires FirstOccurrence(s, pat, i)
    requires i + |pat| <= j && OccursAt(s, pat, j)
    ensures OccursAt(RemoveFirst(s, pat), pat, j - |pat|)
  {
    var r := RemoveFirst(s, pat);
    var k := j - |pat|;
    RemoveFirstAt(s, pat, i);
    var moved, original := r[k..k + |pat|], s[j..j + |pat|];
    forall m | 0 <= m < |pat|
      ensures moved[m] == original[m]
    {
      assert r[k + m] == s[j + m];
    }
    assert moved == original;
  }

  // ---------------------------------------------------------------------------
  // Character replacement: s.replace(/<from>/g, <to>)
  // ---------------------------------------------------------------------------

  /** Every occurrence of the single character `from` replaced by `to`. */
  function ReplaceChar(s: string, from: char, to: char): (r: string)
    ensures |r| == |s|
    ensures forall k :: 0 <= k < |s| && s[k] != from ==> r[k] == s[k]
    ensures forall k :: 0 <= k < |s| && s[k] == from ==> r[k] == to
    ensures from != to ==> from !in r
  {
    seq(|s|, k requires 0 <= k < |s| => if s[k] == from then to else s[k])
  }

  // ---------------------------------------------------------------------------
  // s.replace(/\b\w/g, c => c.toUpperCase())
  // ---------------------------------------------------------------------------

  /** The assertion `\b` at position `k` (0 <= k <= |s|): exactly one of the
      characters on either side of `k` is a word character, the string's ends
      counting as non-word. */
  predicate WordBoundary(s: string, k: nat)
    requires k <= |s|
  {
    (k > 0 && IsWordChar(s[k - 1])) != (k < |s| && IsWordChar(s[k]))
  }

  /** The pattern `\b\w` matches the single character at `k`. */
  predicate StartsWord(s: string, k: nat)
    requires k < |s|
  {
    WordBoundary(s, k) && IsWordChar(s[k])
  }

  /** Whether the character before index `k` is a word character, where
      `prevIsWord` stands for the character before the whole of `s`. */
  predicate AfterWordChar(s: string, k: nat, prevIsWord: bool)
    requires k < |s|
  {
    if k == 0 then prevIsWord else IsWordChar(s[k - 1])
  }

  /** Left-to-right scan that carries whether the previous character was a
      word character. */
  function CapitalizeAfter(s: string, prevIsWord: bool): (r: string)
    ensures |r| == |s|
    ensures forall k :: 0 <= k < |s| ==>
      r[k] == (if IsWordChar(s[k]) && !AfterWordChar(s, k, prevIsWord) then ToUpper(s[k]) else s[k])
  {
    if s == [] then []
    else
      var rest := CapitalizeAfter(s[1..], IsWordChar(s[0]));
      assert forall k :: 1 <= k < |s| ==>
        AfterWordChar(s[1..], k - 1, IsWordChar(s[0])) == AfterWordChar(s, k, prevIsWord);
      [if IsWordChar(s[0]) && !prevIsWord then ToUpper(s[0]) else s[0]] + rest
  }

  /** Every character matched by `\b\w` is upper-cased; the rest is kept. */
  function CapitalizeWords(s: string): (r: string)
    ensures |r| == |s|
    ensures forall k :: 0 <= k < |s| ==> r[k] == (if StartsWord(s, k) then ToUpper(s[k]) else s[k])
  {
    assert forall k :: 0 <= k < |s| ==> (StartsWord(s, k) <==> IsWordChar(s[k]) && !AfterWordChar(s, k, false));
    CapitalizeAfter(s, false)
  }

  /** A character changes exactly when it is a lower-case ASCII letter at the
      start of the string or right after a non-word character. */
  lemma CapitalizeWordsChanges(s: string, k: nat)
    requires k < |s|
    ensures CapitalizeWords(s)[k] != s[k] <==>
      IsLowerAscii(s[k]) && (k == 0 || !IsWordChar(s[k - 1]))
  {
  }

  /** Capitalising twice is capitalising once: upper-casing never turns a
      word character into a non-word character, so the boundaries stay put. */
  lemma CapitalizeWordsIdempotent(s: string)
    ensures CapitalizeWords(CapitalizeWords(s)) == CapitalizeWords(s)
  {
    var r := CapitalizeWords(s);
    var rr := CapitalizeWords(r);
    forall k | 0 <= k < |s|
      ensures rr[k] == r[k]
    {
      assert IsWordChar(r[k]) <==> IsWordChar(s[k]);
      if k > 0 {
        assert IsWordChar(r[k - 1]) <==> IsWordChar(s[k - 1]);
      }
    }
  }
}
