/** Operations on the editor's markup string: `normalizeTags` (app.js:103-109),
    four case-insensitive literal replacements that turn `<b>`/`<i>` into
    `<strong>`/`<em>`, and the whole-document branch of `applyFormat`
    (app.js:96), which wraps the markup in one more element. */
module Markup {
  import opened Ascii

  /** `s` begins with `pat`, up to ASCII case (the `i` flag). */
  predicate StartsWith(s: string, pat: string)
  {
    |pat| <= |s| && EqualFold(s[..|pat|], pat)
  }

  /** `pat` occurs somewhere in `s`, up to ASCII case. */
  predicate Occurs(s: string, pat: string)
    decreases |s|
  {
    StartsWith(s, pat) || (|s| > 0 && Occurs(s[1..], pat))
  }

  /** `s.replace(/pat/gi, rep)` for a literal pattern: scanning left to right,
      every occurrence is replaced and the scan resumes after it. */
  function Replace(s: string, pat: string, rep: string): string
    requires |pat| > 0
    decreases |s|
  {
    if s == [] then []
    else if StartsWith(s, pat) then rep + Replace(s[|pat|..], pat, rep)
    else [s[0]] + Replace(s[1..], pat, rep)
  }

  /** `normalizeTags` applied to a markup string. */
  function NormalizeTags(html: string): string
  {
    Replace(Replace(Replace(Replace(html, "<b>", "<strong>"), "</b>", "</strong>"), "<i>", "<em>"), "</i>", "</em>")
  }

  /** The whole-document branch of `applyFormat`: `<tag>` + markup + `</tag>`. */
  function Wrap(tag: string, html: string): (r: string)
    ensures |r| == |html| + 2 * |tag| + 5
    ensures r[|tag| + 2..|tag| + 2 + |html|] == html
  {
    "<" + tag + ">" + html + "</" + tag + ">"
  }

  /** Wrapping always adds an element and never removes one: the result is
      never the markup it started from, and wrapping twice nests twice. */
  lemma WrapNeverToggles(tag: string, html: string)
    ensures Wrap(tag, html) != html
    ensures Wrap(tag, Wrap(tag, html)) != Wrap(tag, html)
  {
    assert |Wrap(tag, html)| > |html|;
    assert |Wrap(tag, Wrap(tag, html))| > |Wrap(tag, html)|;
  }

  // Proof of the replacement chain.

  /** `x` and `pat` differ, up to case, at a position both have: nothing that
      begins with `x` begins with `pat`. */
  predicate Clash(x: string, pat: string)
    decreases |x|
  {
    |x| > 0 && |pat| > 0 && (LowerChar(x[0]) != LowerChar(pat[0]) || Clash(x[1..], pat[1..]))
  }

  /** A replacement `rep` that can neither start an occurrence of `pat` at any
      of its positions nor finish one that began before it. */
  predicate Separated(rep: string, pat: string)
  {
    (forall j :: 0 <= j < |rep| ==> Clash(rep[j..], pat))
    && (forall j :: 0 <= j < |pat| ==> Clash(rep, pat[j..]))
  }

  lemma StartsWithCons(c: char, t: string, pat: string)
    requires |pat| > 0
    ensures StartsWith([c] + t, pat) <==> LowerChar(c) == LowerChar(pat[0]) && StartsWith(t, pat[1..])
  {
    var s := [c] + t;
    if StartsWith(s, pat) {
      forall k | 0 <= k < |pat| - 1 ensures LowerChar(t[k]) == LowerChar(pat[1..][k]) {
        assert s[..|pat|][k + 1] == t[k];
      }
    }
    if LowerChar(c) == LowerChar(pat[0]) && StartsWith(t, pat[1..]) {
      forall k | 0 <= k < |pat| ensures LowerChar(s[..|pat|][k]) == LowerChar(pat[k]) {
        if k > 0 { assert s[..|pat|][k] == t[..|pat| - 1][k - 1]; }
      }
    }
  }

  lemma {:induction false} ClashBlocksStart(x: string, y: string, pat: string)
    requires Clash(x, pat)
    ensures !StartsWith(x + y, pat)
    decreases |x|
  {
    StartsWithCons(x[0], x[1..] + y, pat);
    assert x + y == [x[0]] + (x[1..] + y);
    if LowerChar(x[0]) == LowerChar(pat[0]) {
      ClashBlocksStart(x[1..], y, pat[1..]);
    }
  }

  /** An occurrence in `x + y` lies inside `y` when every suffix of `x` clashes
      with the pattern. */
  lemma {:induction false} OccursPastClashes(x: string, y: string, pat: string)
    requires forall j :: 0 <= j < |x| ==> Clash(x[j..], pat)
    requires Occurs(x + y, pat)
    ensures Occurs(y, pat)
    decreases |x|
  {
    if |x| > 0 {
      assert x[0..] == x;
      ClashBlocksStart(x, y, pat);
      assert (x + y)[1..] == x[1..] + y;
      forall j | 0 <= j < |x| - 1 ensures Clash(x[1..][j..], pat) {
        assert x[1..][j..] == x[j + 1..];
      }
      OccursPastClashes(x[1..], y, pat);
    } else {
      assert x + y == y;
    }
  }

  lemma {:induction false} OccursInSuffix(s: string, k: nat, pat: string)
    requires k <= |s| && Occurs(s[k..], pat)
    ensures Occurs(s, pat)
    decreases k
  {
    if k > 0 {
      assert s[1..][k - 1..] == s[k..];
      OccursInSuffix(s[1..], k - 1, pat);
    }
  }

  /** If the output of a replacement begins with `q`, so did its input. */
  lemma {:induction false} StartTransfers(s: string, pat: string, rep: string, q: string)
    requires |pat| > 0
    requires forall j :: 0 <= j < |q| ==> Clash(rep, q[j..])
    requires StartsWith(Replace(s, pat, rep), q)
    ensures StartsWith(s, q)
    decreases |q|
  {
    if |q| > 0 {
      if s == [] {
      } else if StartsWith(s, pat) {
        assert q[0..] == q;
        ClashBlocksStart(rep, Replace(s[|pat|..], pat, rep), q);
      } else {
        var tail := Replace(s[1..], pat, rep);
        StartsWithCons(s[0], tail, q);
        forall j | 0 <= j < |q| - 1 ensures Clash(rep, q[1..][j..]) {
          assert q[1..][j..] == q[j + 1..];
        }
        StartTransfers(s[1..], pat, rep, q[1..]);
        StartsWithCons(s[0], s[1..], q);
        assert [s[0]] + s[1..] == s;
      }
    }
  }

  /** Replacing `pat` by a separated `rep` creates no occurrence of `q`. */
  lemma {:induction false} OccurrenceTransfers(s: string, pat: string, rep: string, q: string)
    requires |pat| > 0 && |q| > 0 && Separated(rep, q)
    requires Occurs(Replace(s, pat, rep), q)
    ensures Occurs(s, q)
    decreases |s|
  {
    var r := Replace(s, pat, rep);
    if s == [] {
    } else if StartsWith(s, pat) {
      OccursPastClashes(rep, Replace(s[|pat|..], pat, rep), q);
      OccurrenceTransfers(s[|pat|..], pat, rep, q);
      OccursInSuffix(s, |pat|, q);
    } else if StartsWith(r, q) {
      StartTransfers(s, pat, rep, q);
    } else {
      assert r[1..] == Replace(s[1..], pat, rep);
      OccurrenceTransfers(s[1..], pat, rep, q);
    }
  }

  /** After replacing `pat` by a separated `rep`, no `pat` is left. */
  lemma {:induction false} NoneLeft(s: string, pat: string, rep: string)
    requires |pat| > 0 && Separated(rep, pat)
    ensures !Occurs(Replace(s, pat, rep), pat)
    decreases |s|
  {
    var r := Replace(s, pat, rep);
    if s == [] {
    } else if StartsWith(s, pat) {
      NoneLeft(s[|pat|..], pat, rep);
      if Occurs(r, pat) {
        OccursPastClashes(rep, Replace(s[|pat|..], pat, rep), pat);
      }
    } else {
      if StartsWith(r, pat) {
        StartTransfers(s, pat, rep, pat);
      }
      assert r[1..] == Replace(s[1..], pat, rep);
      NoneLeft(s[1..], pat, rep);
    }
  }

  /** Markup without the pattern passes through a replacement unchanged. */
  lemma {:induction false} ReplaceAbsent(s: string, pat: string, rep: string)
    requires |pat| > 0 && !Occurs(s, pat)
    ensures Replace(s, pat, rep) == s
    decreases |s|
  {
    if s != [] {
      ReplaceAbsent(s[1..], pat, rep);
    }
  }

  /** An opening or closing tag: `<` first and nowhere else. */
  predicate TagLike(s: string)
  {
    |s| > 0 && s[0] == '<' && forall j :: 0 < j < |s| ==> s[j] != '<'
  }

  lemma FoldAngle(c: char)
    ensures LowerChar(c) == '<' <==> c == '<'
  {
  }

  /** Two tags that differ, up to case, right after their `<` are separated. */
  lemma TagsClash(rep: string, pat: string)
    requires TagLike(rep) && TagLike(pat) && |rep| > 1 && |pat| > 1
    requires LowerChar(rep[1]) != LowerChar(pat[1])
    ensures Separated(rep, pat)
  {
    FoldAngle('<');
    assert Clash(rep[1..], pat[1..]);
    forall j | 0 <= j < |rep| ensures Clash(rep[j..], pat) {
      if j > 0 { FoldAngle(rep[j]); }
    }
    forall j | 0 <= j < |pat| ensures Clash(rep, pat[j..]) {
      if j > 0 { FoldAngle(pat[j]); }
    }
  }

  /** `</x...` against `</y...`: separated when they differ after the slash. */
  lemma ClosingTagsClash(rep: string, pat: string)
    requires TagLike(rep) && TagLike(pat) && |rep| > 2 && |pat| > 2
    requires rep[1] == '/' && pat[1] == '/' && LowerChar(rep[2]) != LowerChar(pat[2])
    ensures Separated(rep, pat)
  {
    FoldAngle('<');
    assert Clash(rep[1..][1..], pat[1..][1..]);
    assert Clash(rep[1..], pat[1..]);
    forall j | 0 <= j < |rep| ensures Clash(rep[j..], pat) {
      if j > 0 { FoldAngle(rep[j]); }
    }
    forall j | 0 <= j < |pat| ensures Clash(rep, pat[j..]) {
      if j > 0 { FoldAngle(pat[j]); }
    }
  }

  /** Every replacement of the chain is separated from its own pattern and
      from every pattern replaced before it. */
  lemma TagsSeparated()
    ensures Separated("<strong>", "<b>")
    ensures Separated("</strong>", "<b>") && Separated("</strong>", "</b>")
    ensures Separated("<em>", "<b>") && Separated("<em>", "</b>") && Separated("<em>", "<i>")
    ensures Separated("</em>", "<b>") && Separated("</em>", "</b>") && Separated("</em>", "<i>")
      && Separated("</em>", "</i>")
  {
    TagsClash("<strong>", "<b>");
    TagsClash("</strong>", "<b>");
    ClosingTagsClash("</strong>", "</b>");
    TagsClash("<em>", "<b>");
    TagsClash("<em>", "</b>");
    TagsClash("<em>", "<i>");
    TagsClash("</em>", "<b>");
    ClosingTagsClash("</em>", "</b>");
    TagsClash("</em>", "<i>");
    ClosingTagsClash("</em>", "</i>");
  }

  /** After `normalizeTags` no `<b>`, `</b>`, `<i>` or `</i>` is left, in any
      case: each replacement removes its own pattern and creates none of
      the patterns removed before it. */
  lemma NormalizeLeavesNoShortTags(html: string)
    ensures !Occurs(NormalizeTags(html), "<b>") && !Occurs(NormalizeTags(html), "</b>")
    ensures !Occurs(NormalizeTags(html), "<i>") && !Occurs(NormalizeTags(html), "</i>")
  {
    TagsSeparated();
    var a := Replace(html, "<b>", "<strong>");
    var b := Replace(a, "</b>", "</strong>");
    var c := Replace(b, "<i>", "<em>");
    var d := Replace(c, "</i>", "</em>");
    NoneLeft(html, "<b>", "<strong>");
    NoneLeft(a, "</b>", "</strong>");
    NoneLeft(b, "<i>", "<em>");
    NoneLeft(c, "</i>", "</em>");
    if Occurs(b, "<b>") { OccurrenceTransfers(a, "</b>", "</strong>", "<b>"); }
    if Occurs(c, "<b>") { OccurrenceTransfers(b, "<i>", "<em>", "<b>"); }
    if Occurs(c, "</b>") { OccurrenceTransfers(b, "<i>", "<em>", "</b>"); }
    if Occurs(d, "<b>") { OccurrenceTransfers(c, "</i>", "</em>", "<b>"); }
    if Occurs(d, "</b>") { OccurrenceTransfers(c, "</i>", "</em>", "</b>"); }
    if Occurs(d, "<i>") { OccurrenceTransfers(c, "</i>", "</em>", "<i>"); }
  }

  /** Markup holding none of the four short tags is left exactly as it is. */
  lemma NormalizeKeepsOtherMarkup(html: string)
    requires !Occurs(html, "<b>") && !Occurs(html, "</b>")
    requires !Occurs(html, "<i>") && !Occurs(html, "</i>")
    ensures NormalizeTags(html) == html
  {
    ReplaceAbsent(html, "<b>", "<strong>");
    ReplaceAbsent(html, "</b>", "</strong>");
    ReplaceAbsent(html, "<i>", "<em>");
    ReplaceAbsent(html, "</i>", "</em>");
  }

  /** Normalizing twice is normalizing once. */
  lemma NormalizeIdempotent(html: string)
    ensures NormalizeTags(NormalizeTags(html)) == NormalizeTags(html)
  {
    NormalizeLeavesNoShortTags(html);
    NormalizeKeepsOtherMarkup(NormalizeTags(html));
  }

  /** Text without `<` holds no tag. */
  lemma {:induction false} NoAngleNoTag(x: string, pat: string)
    requires TagLike(pat) && forall j :: 0 <= j < |x| ==> x[j] != '<'
    ensures !Occurs(x, pat)
    decreases |x|
  {
    if |x| > 0 {
      FoldAngle(x[0]);
      if |pat| <= |x| { assert x[..|pat|][0] == x[0]; }
      NoAngleNoTag(x[1..], pat);
    } else {
      assert !StartsWith(x, pat);
    }
  }

  /** A tag-like string contains a tag only at its start. */
  lemma TagOccursOnlyAtStart(s: string, pat: string)
    requires TagLike(s) && TagLike(pat) && !StartsWith(s, pat)
    ensures !Occurs(s, pat)
  {
    NoAngleNoTag(s[1..], pat);
  }

  /** A single tag that does not begin with any of the four short tags is
      left as it is. */
  lemma NormalizeKeepsTag(s: string)
    requires TagLike(s)
    requires !StartsWith(s, "<b>") && !StartsWith(s, "</b>")
    requires !StartsWith(s, "<i>") && !StartsWith(s, "</i>")
    ensures NormalizeTags(s) == s
  {
    TagOccursOnlyAtStart(s, "<b>");
    TagOccursOnlyAtStart(s, "</b>");
    TagOccursOnlyAtStart(s, "<i>");
    TagOccursOnlyAtStart(s, "</i>");
    NormalizeKeepsOtherMarkup(s);
  }

  /** `<br>` is not `<b>`: it survives. */
  lemma NormalizeKeepsBreak(s: string)
    requires s == "<br>"
    ensures NormalizeTags(s) == s
  {
    assert s[..3][2] == 'r' && s[..3][1] == 'b' && s[..4][1] == 'b';
    NormalizeKeepsTag(s);
  }

  /** `<u>` is not among the short tags: it survives. */
  lemma NormalizeKeepsUnderline(s: string)
    requires s == "<u>"
    ensures NormalizeTags(s) == s
  {
    assert s[..3][1] == 'u';
    NormalizeKeepsTag(s);
  }

  /** A tag with attributes is not the literal `<b>`: it survives. */
  lemma NormalizeKeepsAttributes(s: string)
    requires s == "<b class=x>"
    ensures NormalizeTags(s) == s
  {
    assert s[..3][2] == ' ' && s[..3][1] == 'b' && s[..4][1] == 'b';
    NormalizeKeepsTag(s);
  }

  lemma ReplaceWhole(s: string, pat: string, rep: string)
    requires |pat| > 0 && |s| == |pat| && StartsWith(s, pat)
    ensures Replace(s, pat, rep) == rep
  {
    assert s[|pat|..] == [];
    assert rep + [] == rep;
  }

  /** A tag that is not `pat` passes through the replacement of `pat`. */
  lemma TagUntouched(r: string, pat: string, rep: string)
    requires TagLike(r) && TagLike(pat) && !StartsWith(r, pat)
    ensures Replace(r, pat, rep) == r
  {
    TagOccursOnlyAtStart(r, pat);
    ReplaceAbsent(r, pat, rep);
  }

  /** The `i` flag: `<b>` in any case becomes `<strong>`. */
  lemma NormalizeBoldTag(s: string)
    requires EqualFold(s, "<b>")
    ensures NormalizeTags(s) == "<strong>"
  {
    var r := "<strong>";
    assert s[..3] == s;
    ReplaceWhole(s, "<b>", r);
    assert r[1] == 's';
    assert !StartsWith(r, "</b>") by { assert r[..4][1] == 's'; }
    assert !StartsWith(r, "<i>") by { assert r[..3][1] == 's'; }
    assert !StartsWith(r, "</i>") by { assert r[..4][1] == 's'; }
    TagUntouched(r, "</b>", "</strong>");
    TagUntouched(r, "<i>", "<em>");
    TagUntouched(r, "</i>", "</em>");
  }

  /** `</i>` in any case becomes `</em>`; the three earlier replacements
      leave it alone. */
  lemma NormalizeItalicCloseTag(s: string)
    requires EqualFold(s, "</i>")
    ensures NormalizeTags(s) == "</em>"
  {
    assert s[..4] == s;
    assert LowerChar(s[0]) == '<' && LowerChar(s[1]) == '/' && LowerChar(s[2]) == 'i';
    FoldAngle(s[0]);
    FoldAngle(s[1]);
    FoldAngle(s[2]);
    FoldAngle(s[3]);
    assert !StartsWith(s, "<b>") by { assert s[..3][1] == s[1]; }
    assert !StartsWith(s, "</b>") by { assert s[..4][2] == s[2]; }
    assert !StartsWith(s, "<i>") by { assert s[..3][1] == s[1]; }
    TagUntouched(s, "<b>", "<strong>");
    TagUntouched(s, "</b>", "</strong>");
    TagUntouched(s, "<i>", "<em>");
    ReplaceWhole(s, "</i>", "</em>");
  }
}
