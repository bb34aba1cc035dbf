/** The two counters of `updateCounts` (app.js:74-79): the character count is
    the JavaScript length of the editor's text, in UTF-16 code units; the word
    count is 0 for text that trims to nothing and otherwise the number of
    pieces `text.trim().split(/\s+/)` yields. */
module Counts {
  import opened Ascii

  /** UTF-16 code units of one character: two for a character outside the
      Basic Multilingual Plane, one otherwise. */
  function Units(c: char): nat
  {
    if c as int >= 0x10000 then 2 else 1
  }

  /** `text.length`. */
  function CharCount(s: string): nat
    decreases |s|
  {
    if s == [] then 0 else CharCount(s[..|s| - 1]) + Units(s[|s| - 1])
  }

  /** The length counts every character once and astral ones twice. */
  lemma {:induction false} CharCountBounds(s: string)
    ensures |s| <= CharCount(s) <= 2 * |s|
    ensures (forall k :: 0 <= k < |s| ==> s[k] as int < 0x10000) ==> CharCount(s) == |s|
    decreases |s|
  {
    if s != [] {
      CharCountBounds(s[..|s| - 1]);
    }
  }

  /** The end of the run of spaces (`space`) or of non-spaces (`!space`) that
      starts at `i`. */
  function SpanEnd(s: string, i: nat, space: bool): (j: nat)
    requires i <= |s|
    ensures i <= j <= |s|
    ensures forall k :: i <= k < j ==> IsSpace(s[k]) == space
    ensures j < |s| ==> IsSpace(s[j]) != space
    decreases |s| - i
  {
    if i < |s| && IsSpace(s[i]) == space then SpanEnd(s, i + 1, space) else i
  }

  /** The start of the run of spaces that ends at `j`. */
  function SpaceStart(s: string, j: nat): (i: nat)
    requires j <= |s|
    ensures i <= j
    ensures forall k :: i <= k < j ==> IsSpace(s[k])
    ensures 0 < i ==> !IsSpace(s[i - 1])
    decreases j
  {
    if 0 < j && IsSpace(s[j - 1]) then SpaceStart(s, j - 1) else j
  }

  /** Where `text.trim()` starts: after the leading whitespace. */
  function TrimStart(s: string): (a: nat)
    ensures a <= |s|
    ensures forall k :: 0 <= k < a ==> IsSpace(s[k])
    ensures a < |s| ==> !IsSpace(s[a])
  {
    SpanEnd(s, 0, true)
  }

  /** Where `text.trim()` ends: before the trailing whitespace. */
  function TrimEnd(s: string): (b: nat)
    ensures TrimStart(s) <= b <= |s|
    ensures forall k :: b <= k < |s| ==> IsSpace(s[k])
    ensures TrimStart(s) < b ==> !IsSpace(s[b - 1])
  {
    var b := SpaceStart(s, |s|);
    if b <= TrimStart(s) then TrimStart(s) else b
  }

  /** `text.trim()`: the text without its leading and trailing whitespace. */
  function Trim(s: string): (r: string)
    ensures r == [] || (!IsSpace(r[0]) && !IsSpace(r[|r| - 1]))
    ensures r == [] <==> forall k :: 0 <= k < |s| ==> IsSpace(s[k])
  {
    s[TrimStart(s)..TrimEnd(s)]
  }

  /** Trimming removes whitespace from the two ends and nothing else. */
  lemma TrimIsInfix(s: string)
    ensures s == s[..TrimStart(s)] + Trim(s) + s[TrimEnd(s)..]
  {
  }

  /** `s.split(/\s+/)`: the pieces between maximal runs of whitespace. A
      leading run yields an empty first piece, a trailing run an empty last
      piece, and the empty string one empty piece. */
  function Split(s: string): seq<string>
    decreases |s|
  {
    var n := SpanEnd(s, 0, false);
    if n == |s| then [s] else [s[..n]] + Split(s[SpanEnd(s, n, true)..])
  }

  /** `wordCount.textContent`. */
  function WordCount(text: string): nat
  {
    var t := Trim(text);
    if t != [] then |Split(t)| else 0
  }

  /** Independent reference: the number of maximal runs of non-whitespace,
      counted by scanning once and noting each non-space character that
      follows a space or the start (`prevSpace` says which held before `s`). */
  function Runs(prevSpace: bool, s: string): nat
    decreases |s|
  {
    if s == [] then 0
    else (if prevSpace && !IsSpace(s[0]) then 1 else 0) + Runs(IsSpace(s[0]), s[1..])
  }

  lemma {:induction false} RunsOverWord(p: bool, s: string, n: nat)
    requires 0 < n <= |s| && forall k :: 0 <= k < n ==> !IsSpace(s[k])
    ensures Runs(p, s) == (if p then 1 else 0) + Runs(false, s[n..])
    decreases n
  {
    if n > 1 {
      RunsOverWord(false, s[1..], n - 1);
      assert s[1..][n - 1..] == s[n..];
    }
  }

  lemma {:induction false} RunsOverSpaces(p: bool, s: string, n: nat)
    requires 0 < n <= |s| && forall k :: 0 <= k < n ==> IsSpace(s[k])
    ensures Runs(p, s) == Runs(true, s[n..])
    decreases n
  {
    if n > 1 {
      RunsOverSpaces(true, s[1..], n - 1);
      assert s[1..][n - 1..] == s[n..];
    }
  }

  lemma {:induction false} RunsIgnoreTrailingSpaces(p: bool, x: string, sp: string)
    requires forall k :: 0 <= k < |sp| ==> IsSpace(sp[k])
    ensures Runs(p, x + sp) == Runs(p, x)
    decreases |x|
  {
    if x == [] {
      assert x + sp == sp;
      if sp != [] {
        RunsOverSpaces(p, sp, |sp|);
      }
    } else {
      assert (x + sp)[1..] == x[1..] + sp;
      RunsIgnoreTrailingSpaces(IsSpace(x[0]), x[1..], sp);
    }
  }

  /** On trimmed, non-empty text, `split(/\s+/)` yields one piece per run. */
  lemma {:induction false} SplitCountsRuns(t: string)
    requires t != [] && !IsSpace(t[0]) && !IsSpace(t[|t| - 1])
    ensures |Split(t)| == Runs(true, t)
    decreases |t|
  {
    var n := SpanEnd(t, 0, false);
    RunsOverWord(true, t, n);
    if n == |t| {
      assert t[n..] == [];
    } else {
      var m := SpanEnd(t, n, true);
      assert m < |t|;
      RunsOverSpaces(false, t[n..], m - n);
      assert t[n..][m - n..] == t[m..];
      SplitCountsRuns(t[m..]);
    }
  }

  /** On trimmed text every piece of the split is a word: non-empty and free
      of whitespace. */
  lemma {:induction false} SplitGivesWords(t: string)
    requires t != [] && !IsSpace(t[0]) && !IsSpace(t[|t| - 1])
    ensures forall i :: 0 <= i < |Split(t)| ==> Split(t)[i] != []
    ensures forall i, k :: 0 <= i < |Split(t)| && 0 <= k < |Split(t)[i]| ==> !IsSpace(Split(t)[i][k])
    decreases |t|
  {
    var n := SpanEnd(t, 0, false);
    if n < |t| {
      var m := SpanEnd(t, n, true);
      assert m < |t|;
      SplitGivesWords(t[m..]);
    }
  }

  /** The word count is the number of maximal runs of non-whitespace in the
      text, whatever whitespace surrounds them. */
  lemma WordCountIsRuns(text: string)
    ensures WordCount(text) == Runs(true, text)
  {
    var a, b := TrimStart(text), TrimEnd(text);
    var t := Trim(text);
    var rest := t + text[b..];
    assert text[a..] == rest;
    if a > 0 {
      RunsOverSpaces(true, text, a);
    }
    RunsIgnoreTrailingSpaces(true, t, text[b..]);
    if t != [] {
      SplitCountsRuns(t);
    }
  }

  /** The count is zero exactly for blank text. */
  lemma WordCountZero(text: string)
    ensures WordCount(text) == 0 <==> forall k :: 0 <= k < |text| ==> IsSpace(text[k])
  {
    var t := Trim(text);
    if t != [] {
      assert |Split(t)| > 0;
    }
  }
}
