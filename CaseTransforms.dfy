/** The four text transforms of the toolbar (app.js:151-158): upper case, lower
    case, capitalize-words (`/\b\w/g` after lower-casing) and
    capitalize-sentences (`/(^\s*\w|[.!?]\s*\w)/g` after lower-casing), each
    match replaced by its upper-case form.

    Case mapping is ASCII; the regular expressions have no `m` flag, so `^` is
    the start of the string only. A global replace is modelled as the scan the
    regular expression engine performs: try a match at the current position;
    on success emit the replacement and resume after the match, otherwise emit
    the code point and move on by one. */
module CaseTransforms {
  import opened Ascii
  import opened Wrappers
  import opened Counts

  /** `toUpperCase`: no small letter is left, and every code point equals the
      original up to case. */
  function ToUpper(s: string): (r: string)
    ensures |r| == |s|
    ensures forall k :: 0 <= k < |r| ==> !IsLower(r[k]) && LowerChar(r[k]) == LowerChar(s[k])
  {
    seq(|s|, k requires 0 <= k < |s| => UpperChar(s[k]))
  }

  /** `toLowerCase`: no capital letter is left, and every code point equals the
      original up to case. */
  function ToLower(s: string): (r: string)
    ensures |r| == |s|
    ensures forall k :: 0 <= k < |r| ==> !IsUpper(r[k]) && LowerChar(r[k]) == LowerChar(s[k])
  {
    seq(|s|, k requires 0 <= k < |s| => LowerChar(s[k]))
  }

  lemma ToUpperIdempotent(s: string)
    ensures ToUpper(ToUpper(s)) == ToUpper(s)
  {
  }

  lemma ToLowerIdempotent(s: string)
    ensures ToLower(ToLower(s)) == ToLower(s)
  {
  }

  /** The two regular expressions of the capitalize buttons. */
  datatype Pattern = WordStart | SentenceStart

  /** `\s*\w` matches at `q`: white space, then a word character. */
  predicate WordAfterSpaces(l: string, q: nat)
    requires q <= |l|
  {
    SpanEnd(l, q, true) < |l| && IsWordChar(l[SpanEnd(l, q, true)])
  }

  /** Length of the match of the pattern at position `p`, trying the
      alternatives in order, or `None`. */
  function MatchAt(pat: Pattern, l: string, p: nat): (m: Option<nat>)
    requires p < |l|
    ensures m.Some? ==> 1 <= m.value <= |l| - p
  {
    match pat
    case WordStart =>
      if IsWordChar(l[p]) && (p == 0 || !IsWordChar(l[p - 1])) then Some(1) else None
    case SentenceStart =>
      if p == 0 && WordAfterSpaces(l, 0) then Some(SpanEnd(l, 0, true) + 1)
      else if IsSentenceEnd(l[p]) && WordAfterSpaces(l, p + 1) then Some(SpanEnd(l, p + 1, true) + 1 - p)
      else None
  }

  /** `l.slice(p).replace(pattern, c => c.toUpperCase())` with the scan starting
      at `p`. */
  function ReplaceFrom(pat: Pattern, l: string, p: nat): string
    requires p <= |l|
    decreases |l| - p
  {
    if p == |l| then ""
    else
      var m := MatchAt(pat, l, p);
      if m.Some? then ToUpper(l[p..p + m.value]) + ReplaceFrom(pat, l, p + m.value)
      else [l[p]] + ReplaceFrom(pat, l, p + 1)
  }

  function CapitalizeWords(s: string): string
  {
    ReplaceFrom(WordStart, ToLower(s), 0)
  }

  function CapitalizeSentences(s: string): string
  {
    ReplaceFrom(SentenceStart, ToLower(s), 0)
  }

  // Reference definitions: which code points the capitalize transforms raise.

  /** Position `k` begins a maximal run of word characters. */
  predicate StartsWord(l: string, k: nat)
    requires k < |l|
  {
    IsWordChar(l[k]) && (k == 0 || !IsWordChar(l[k - 1]))
  }

  /** Before position `k` there is only white space, or the last code point
      that is not white space is `.`, `!` or `?`. */
  predicate OpensSentence(l: string, k: nat)
    requires k <= |l|
  {
    k == 0 || IsSentenceEnd(l[k - 1]) || (IsSpace(l[k - 1]) && OpensSentence(l, k - 1))
  }

  /** Position `k` holds the first word character of a sentence. */
  predicate StartsSentence(l: string, k: nat)
    requires k < |l|
  {
    IsWordChar(l[k]) && OpensSentence(l, k)
  }

  predicate Raised(pat: Pattern, l: string, k: nat)
    requires k < |l|
  {
    match pat
    case WordStart => StartsWord(l, k)
    case SentenceStart => StartsSentence(l, k)
  }

  /** The code point at `k` after the transform: raised or left alone. */
  function Expected(pat: Pattern, l: string, k: nat): char
    requires k < |l|
  {
    if Raised(pat, l, k) then UpperChar(l[k]) else l[k]
  }

  /** A position the scan can stand on: not inside a sentence match that began
      earlier. */
  predicate Aligned(pat: Pattern, l: string, p: nat)
    requires p <= |l|
  {
    pat == WordStart || !(0 < p && OpensSentence(l, p) && WordAfterSpaces(l, p))
  }

  lemma {:induction false} SpacesKeepOpen(l: string, q: nat, j: nat)
    requires q <= j <= |l| && OpensSentence(l, q)
    requires forall i :: q <= i < j ==> IsSpace(l[i])
    ensures OpensSentence(l, j)
    decreases j - q
  {
    if q < j {
      SpacesKeepOpen(l, q, j - 1);
    }
  }

  /** A match emits exactly the reference output over its span, and the scan
      resumes at an aligned position. */
  lemma MatchIsRaised(pat: Pattern, l: string, p: nat, n: nat)
    requires p < |l| && Aligned(pat, l, p) && MatchAt(pat, l, p) == Some(n)
    ensures forall k :: p <= k < p + n ==> ToUpper(l[p..p + n])[k - p] == Expected(pat, l, k)
    ensures Aligned(pat, l, p + n)
  {
    forall k | p <= k < p + n
      ensures ToUpper(l[p..p + n])[k - p] == Expected(pat, l, k)
    {
      MatchedCodePoint(pat, l, p, n, k);
    }
    if pat == SentenceStart {
      assert IsWordChar(l[p + n - 1]);
      assert !OpensSentence(l, p + n);
    }
  }

  /** Inside a match, upper-casing the matched text raises exactly the code
      point the reference raises: white space and punctuation have no case. */
  lemma MatchedCodePoint(pat: Pattern, l: string, p: nat, n: nat, k: nat)
    requires p < |l| && MatchAt(pat, l, p) == Some(n)
    requires p <= k < p + n
    ensures UpperChar(l[k]) == Expected(pat, l, k)
  {
    var j := p + n - 1;
    if pat == SentenceStart {
      if k < j {
        assert IsSpace(l[k]) || IsSentenceEnd(l[k]);
      } else if p == 0 && WordAfterSpaces(l, 0) {
        SpacesKeepOpen(l, 0, j);
      } else {
        SpacesKeepOpen(l, p + 1, j);
      }
    }
  }

  /** Where nothing matches, the reference leaves the code point alone and the
      next position is aligned. */
  lemma NoMatchIsKept(pat: Pattern, l: string, p: nat)
    requires p < |l| && Aligned(pat, l, p) && MatchAt(pat, l, p) == None
    ensures !Raised(pat, l, p)
    ensures Aligned(pat, l, p + 1)
  {
  }

  lemma ReplaceFromMatch(pat: Pattern, l: string, p: nat, n: nat)
    requires p < |l| && MatchAt(pat, l, p) == Some(n)
    ensures ReplaceFrom(pat, l, p) == ToUpper(l[p..p + n]) + ReplaceFrom(pat, l, p + n)
  {
    var m := MatchAt(pat, l, p);
    assert m.Some? && m.value == n;
  }

  lemma ReplaceFromNoMatch(pat: Pattern, l: string, p: nat)
    requires p < |l| && MatchAt(pat, l, p) == None
    ensures ReplaceFrom(pat, l, p) == [l[p]] + ReplaceFrom(pat, l, p + 1)
  {
  }

  /** The scan from `p` produces the reference output of the rest of the
      string. */
  predicate ScanAgrees(pat: Pattern, l: string, p: nat)
    requires p <= |l|
  {
    |ReplaceFrom(pat, l, p)| == |l| - p
    && forall k :: p <= k < |l| ==> ReplaceFrom(pat, l, p)[k - p] == Expected(pat, l, k)
  }

  lemma AgreesAfterMatch(pat: Pattern, l: string, p: nat, n: nat)
    requires p < |l| && Aligned(pat, l, p) && MatchAt(pat, l, p) == Some(n)
    requires ScanAgrees(pat, l, p + n)
    ensures ScanAgrees(pat, l, p)
  {
    ReplaceFromMatch(pat, l, p, n);
    MatchIsRaised(pat, l, p, n);
    var r, head, tail := ReplaceFrom(pat, l, p), ToUpper(l[p..p + n]), ReplaceFrom(pat, l, p + n);
    forall k | p <= k < |l|
      ensures r[k - p] == Expected(pat, l, k)
    {
      if k < p + n {
        assert r[k - p] == head[k - p];
      } else {
        assert r[k - p] == tail[k - (p + n)];
      }
    }
  }

  lemma AgreesAfterKeep(pat: Pattern, l: string, p: nat)
    requires p < |l| && Aligned(pat, l, p) && MatchAt(pat, l, p) == None
    requires ScanAgrees(pat, l, p + 1)
    ensures ScanAgrees(pat, l, p)
  {
    ReplaceFromNoMatch(pat, l, p);
    NoMatchIsKept(pat, l, p);
    var r, tail := ReplaceFrom(pat, l, p), ReplaceFrom(pat, l, p + 1);
    forall k | p <= k < |l|
      ensures r[k - p] == Expected(pat, l, k)
    {
      if k > p {
        assert r[k - p] == tail[k - (p + 1)];
      }
    }
  }

  /** From an aligned position, the scan produces the reference output. */
  lemma {:induction false} ReplaceFromIsRaised(pat: Pattern, l: string, p: nat)
    requires p <= |l| && Aligned(pat, l, p)
    ensures ScanAgrees(pat, l, p)
    decreases |l| - p
  {
    if p < |l| {
      var m := MatchAt(pat, l, p);
      if m.Some? {
        MatchIsRaised(pat, l, p, m.value);
        ReplaceFromIsRaised(pat, l, p + m.value);
        AgreesAfterMatch(pat, l, p, m.value);
      } else {
        NoMatchIsKept(pat, l, p);
        ReplaceFromIsRaised(pat, l, p + 1);
        AgreesAfterKeep(pat, l, p);
      }
    }
  }

  // What the two capitalize transforms do, stated on the input text.

  /** Whether a position starts a word or a sentence does not depend on case. */
  lemma {:induction false} OpensSentenceIgnoresCase(a: string, b: string, k: nat)
    requires EqualFold(a, b) && k <= |a|
    ensures OpensSentence(a, k) == OpensSentence(b, k)
    decreases k
  {
    if k > 0 {
      OpensSentenceIgnoresCase(a, b, k - 1);
      assert LowerChar(a[k - 1]) == LowerChar(b[k - 1]);
    }
  }

  lemma StartsSentenceIgnoresCase(a: string, b: string, k: nat)
    requires EqualFold(a, b) && k < |a|
    ensures StartsSentence(a, k) == StartsSentence(b, k)
  {
    OpensSentenceIgnoresCase(a, b, k);
    assert LowerChar(a[k]) == LowerChar(b[k]);
  }

  lemma StartsWordIgnoresCase(a: string, b: string, k: nat)
    requires EqualFold(a, b) && k < |a|
    ensures StartsWord(a, k) == StartsWord(b, k)
  {
    assert LowerChar(a[k]) == LowerChar(b[k]);
    if k > 0 {
      assert LowerChar(a[k - 1]) == LowerChar(b[k - 1]);
    }
  }

  /** Capitalize-words: the first code point of every maximal run of word
      characters is upper case, every other code point lower case. */
  lemma CapitalizeWordsSpec(s: string)
    ensures |CapitalizeWords(s)| == |s|
    ensures forall k :: 0 <= k < |s| ==>
      CapitalizeWords(s)[k] == if StartsWord(s, k) then UpperChar(s[k]) else LowerChar(s[k])
  {
    var l := ToLower(s);
    ReplaceFromIsRaised(WordStart, l, 0);
    forall k | 0 <= k < |s|
      ensures CapitalizeWords(s)[k] == if StartsWord(s, k) then UpperChar(s[k]) else LowerChar(s[k])
    {
      StartsWordIgnoresCase(l, s, k);
      assert CapitalizeWords(s)[k] == Expected(WordStart, l, k);
    }
  }

  /** Capitalize-sentences, position by position: a word character is upper
      case when only white space precedes it, or when the last code point
      before it that is not white space is `.`, `!` or `?`; every other code
      point is lower case. */
  function SentenceCase(s: string): (r: string)
    ensures |r| == |s|
  {
    seq(|s|, k requires 0 <= k < |s| => if StartsSentence(s, k) then UpperChar(s[k]) else LowerChar(s[k]))
  }

  /** The regular-expression replace of the capitalize-sentences button
      computes `SentenceCase`. */
  lemma CapitalizeSentencesSpec(s: string)
    ensures CapitalizeSentences(s) == SentenceCase(s)
  {
    var l := ToLower(s);
    ReplaceFromIsRaised(SentenceStart, l, 0);
    forall k | 0 <= k < |s|
      ensures CapitalizeSentences(s)[k] == SentenceCase(s)[k]
    {
      SentenceCaseAt(s, k);
      assert CapitalizeSentences(s)[k] == Expected(SentenceStart, l, k);
    }
  }

  /** The reference raise on the lower-cased text is `SentenceCase` of the
      original. */
  lemma SentenceCaseAt(s: string, k: nat)
    requires k < |s|
    ensures Expected(SentenceStart, ToLower(s), k) == SentenceCase(s)[k]
  {
    StartsSentenceIgnoresCase(ToLower(s), s, k);
  }

  /** A code point already raised or lowered as its position demands stays
      as it is when the rule is applied again. */
  lemma RaiseStable(c: char, raised: bool, d: char)
    requires c == (if raised then UpperChar(d) else LowerChar(d))
    ensures c == (if raised then UpperChar(c) else LowerChar(c))
  {
  }

  lemma CapitalizeWordsIdempotent(s: string)
    ensures CapitalizeWords(CapitalizeWords(s)) == CapitalizeWords(s)
  {
    var r := CapitalizeWords(s);
    CapitalizeWordsSpec(s);
    CapitalizeWordsSpec(r);
    var rr := CapitalizeWords(r);
    assert EqualFold(r, s);
    forall k | 0 <= k < |r| ensures rr[k] == r[k] {
      StartsWordIgnoresCase(r, s, k);
      RaiseStable(r[k], StartsWord(s, k), s[k]);
    }
  }

  lemma SentenceCaseIdempotent(s: string)
    ensures SentenceCase(SentenceCase(s)) == SentenceCase(s)
  {
    var r := SentenceCase(s);
    assert EqualFold(r, s);
    forall k | 0 <= k < |r| ensures SentenceCase(r)[k] == r[k] {
      StartsSentenceIgnoresCase(r, s, k);
      RaiseStable(r[k], StartsSentence(s, k), s[k]);
    }
  }

  lemma CapitalizeSentencesIdempotent(s: string)
    ensures CapitalizeSentences(CapitalizeSentences(s)) == CapitalizeSentences(s)
  {
    var r := CapitalizeSentences(s);
    CapitalizeSentencesSpec(s);
    CapitalizeSentencesSpec(r);
    SentenceCaseIdempotent(s);
  }

  /** Every word is capitalized, the rest lower-cased. */
  lemma CapitalizeWordsExample(s: string)
    requires s == "the Quick fox"
    ensures CapitalizeWords(s) == "The Quick Fox"
  {
    CapitalizeWordsSpec(s);
    var r := CapitalizeWords(s);
    assert r[0] == 'T';
    assert r[1] == 'h';
    assert r[2] == 'e';
    assert r[3] == ' ';
    assert r[4] == 'Q';
    assert r[5] == 'u';
    assert r[6] == 'i';
    assert r[7] == 'c';
    assert r[8] == 'k';
    assert r[9] == ' ';
    assert r[10] == 'F';
    assert r[11] == 'o';
    assert r[12] == 'x';
  }

  /** An apostrophe is not a word character, so the letter after it starts a word. */
  lemma CapitalizeWordsApostrophe(s: string)
    requires s == "don't"
    ensures CapitalizeWords(s) == "Don'T"
  {
    CapitalizeWordsSpec(s);
    var r := CapitalizeWords(s);
    assert r[0] == 'D';
    assert r[1] == 'o';
    assert r[2] == 'n';
    assert r[3] == '\'';
    assert r[4] == 'T';
  }

  /** The first word and the word after a full stop are capitalized. */
  lemma CapitalizeSentencesExample(s: string)
    requires s == "hello. world"
    ensures CapitalizeSentences(s) == "Hello. World"
  {
    CapitalizeSentencesSpec(s);
    var r := CapitalizeSentences(s);
    assert r[0] == 'H';
    assert r[1] == 'e';
    assert r[2] == 'l';
    assert r[3] == 'l';
    assert r[4] == 'o';
    assert r[5] == '.';
    assert r[6] == ' ';
    assert OpensSentence(s, 6);
    assert r[7] == 'W';
    assert r[8] == 'o';
    assert r[9] == 'r';
    assert r[10] == 'l';
    assert r[11] == 'd';
  }

  /** Every full stop opens a sentence, abbreviations included. */
  lemma CapitalizeSentencesAbbreviation(s: string)
    requires s == "e.g. foo"
    ensures CapitalizeSentences(s) == "E.G. Foo"
  {
    CapitalizeSentencesSpec(s);
    var r := CapitalizeSentences(s);
    assert r[0] == 'E';
    assert r[1] == '.';
    assert r[2] == 'G';
    assert r[3] == '.';
    assert r[4] == ' ';
    assert OpensSentence(s, 4);
    assert r[5] == 'F';
    assert r[6] == 'o';
    assert r[7] == 'o';
  }
}
