/** The whole-document paths of the editor's buttons on the node tree: a
    text transform with nothing selected (app.js:146), reset formatting
    (app.js:130) and the format buttons with nothing selected (app.js:96). The
    first two replace the editor's content by one text node holding the new
    text; the last wraps the content in one more element. */
module Document {
  import opened Ascii
  import opened Glyphs
  import opened Social
  import opened CaseTransforms
  import Markup

  /** The four transform buttons (app.js:151-158). */
  datatype Transform = Upper | Lower | CapitalizeWordsButton | CapitalizeSentencesButton

  /** The function each button passes to `transformText`. */
  function Apply(t: Transform, s: string): string
  {
    match t
    case Upper => ToUpper(s)
    case Lower => ToLower(s)
    case CapitalizeWordsButton => CapitalizeWords(s)
    case CapitalizeSentencesButton => CapitalizeSentences(s)
  }

  /** Every transform keeps the text's length, code point for code point up
      to case. */
  lemma ApplyKeepsText(t: Transform, s: string)
    ensures |Apply(t, s)| == |s|
    ensures forall k :: 0 <= k < |s| ==> LowerChar(Apply(t, s)[k]) == LowerChar(s[k])
  {
    match t
    case Upper =>
    case Lower =>
    case CapitalizeWordsButton =>
      CapitalizeWordsSpec(s);
      forall k | 0 <= k < |s| ensures LowerChar(Apply(t, s)[k]) == LowerChar(s[k]) {
        FoldCase(s[k]);
      }
    case CapitalizeSentencesButton =>
      CapitalizeSentencesSpec(s);
      forall k | 0 <= k < |s| ensures LowerChar(Apply(t, s)[k]) == LowerChar(s[k]) {
        FoldCase(s[k]);
      }
  }

  lemma FoldCase(c: char)
    ensures LowerChar(UpperChar(c)) == LowerChar(c) && LowerChar(LowerChar(c)) == LowerChar(c)
  {
  }

  /** Pressing the same transform twice is pressing it once. */
  lemma ApplyIdempotent(t: Transform, s: string)
    ensures Apply(t, Apply(t, s)) == Apply(t, s)
  {
    match t
    case Upper => ToUpperIdempotent(s);
    case Lower => ToLowerIdempotent(s);
    case CapitalizeWordsButton => CapitalizeWordsIdempotent(s);
    case CapitalizeSentencesButton => CapitalizeSentencesIdempotent(s);
  }

  /** `editor.innerText = s`: the content becomes a single text node, or
      nothing for the empty string. */
  function SetText(s: string): (doc: seq<Node>)
    ensures TextOf(doc) == s
    ensures Unstyled(doc)
  {
    if s == [] then [] else [Text(s)]
  }

  /** `transformText(fn)` with nothing selected. */
  function TransformDocument(doc: seq<Node>, t: Transform): seq<Node>
  {
    SetText(Apply(t, TextOf(doc)))
  }

  /** `resetFormatBtn.onclick`: the text is written back over itself. */
  function ResetFormatting(doc: seq<Node>): seq<Node>
  {
    SetText(TextOf(doc))
  }

  /** A transform of the whole document keeps its text up to case and drops
      every element: the social export afterwards is the transformed text,
      unstyled. */
  lemma TransformDropsStyling(doc: seq<Node>, t: Transform)
    ensures TextOf(TransformDocument(doc, t)) == Apply(t, TextOf(doc))
    ensures Unstyled(TransformDocument(doc, t))
    ensures SocialText(TransformDocument(doc, t), []) == Apply(t, TextOf(doc))
  {
    UnstyledExportIsText(TransformDocument(doc, t), []);
  }

  /** Reset keeps the text, removes every element, and doing it twice is doing
      it once. */
  lemma ResetFormattingSpec(doc: seq<Node>)
    ensures TextOf(ResetFormatting(doc)) == TextOf(doc)
    ensures SocialText(ResetFormatting(doc), []) == TextOf(doc)
    ensures ResetFormatting(ResetFormatting(doc)) == ResetFormatting(doc)
  {
    UnstyledExportIsText(ResetFormatting(doc), []);
  }

  /** The format buttons with nothing selected, on the tree: the whole content
      becomes the single child of a new element. */
  function FormatDocument(doc: seq<Node>, tag: string): seq<Node>
  {
    [Elem(tag, doc)]
  }

  /** An HTML void element: it has no content and no closing tag. */
  predicate IsVoidTag(tag: string)
  {
    EqualFold(tag, "area") || EqualFold(tag, "base") || EqualFold(tag, "br") || EqualFold(tag, "col")
    || EqualFold(tag, "embed") || EqualFold(tag, "hr") || EqualFold(tag, "img") || EqualFold(tag, "input")
    || EqualFold(tag, "link") || EqualFold(tag, "meta") || EqualFold(tag, "source") || EqualFold(tag, "track")
    || EqualFold(tag, "wbr")
  }

  /** The markup `innerHTML` reads for a sequence of nodes: a void element as
      its opening tag alone, any other element wrapped around its children's
      markup, text as it is. */
  function Html(children: seq<Node>): string
    decreases children
  {
    if children == [] then ""
    else Html(children[..|children| - 1]) + HtmlOf(children[|children| - 1])
  }

  function HtmlOf(n: Node): string
    decreases n
  {
    match n
    case Text(s) => s
    case Elem(tag, cs) => if IsVoidTag(tag) then "<" + tag + ">" else Markup.Wrap(tag, Html(cs))
  }

  /** A line break between two pieces of text reads back as a single `<br>`
      with no closing tag. */
  lemma BreakHtml(a: string, b: string)
    ensures Html([Text(a), Elem("br", []), Text(b)]) == a + "<br>" + b
  {
    var d := [Text(a), Elem("br", []), Text(b)];
    assert d[..2][..1][..0] == [];
    assert Html(d[..2][..1]) == a;
    assert IsVoidTag("br");
    assert HtmlOf(Elem("br", [])) == "<br>";
    assert Html(d[..2]) == a + "<br>";
  }

  /** The tree-level format and the markup-level wrap of app.js:96 agree for
      the tags the format buttons pass, none of which is void: the markup of
      the formatted document is the old markup wrapped in the tag. */
  lemma FormatIsWrap(doc: seq<Node>, tag: string)
    requires !IsVoidTag(tag)
    ensures Html(FormatDocument(doc, tag)) == Markup.Wrap(tag, Html(doc))
  {
    assert FormatDocument(doc, tag)[..0] == [];
  }

  /** Formatting keeps the text and never gives back the document it was
      given: pressing bold on a document that is already bold nests a second
      `strong` instead of removing the first. */
  lemma FormatKeepsText(doc: seq<Node>, tag: string)
    ensures TextOf(FormatDocument(doc, tag)) == TextOf(doc)
    ensures FormatDocument(doc, tag) != doc
  {
    assert FormatDocument(doc, tag)[..0] == [];
    assert |FormatDocument(doc, tag)| == 1;
  }

  /** Bold on an unformatted document, then the social export: every letter
      comes out of the bold table and everything else is kept. */
  lemma BoldDocumentExport(doc: seq<Node>, tag: string)
    requires IsStrongTag(tag) && !IsEmTag(tag) && Unstyled(doc)
    ensures SocialText(FormatDocument(doc, tag), []) == Render(Style(true, false), TextOf(doc))
  {
    var f := FormatDocument(doc, tag);
    assert Cells(f, []) == Cells(doc, [tag]) by {
      assert f[..0] == [];
      assert [] + [tag] == [tag];
    }
    assert TextOf(f) == TextOf(doc) by {
      assert f[..0] == [];
    }
    Export(f, []);
    UnstyledCellsInherit(doc, [tag]);
    assert StyleOf([tag]) == Style(true, false) by {
      assert tag in [tag];
      forall t | t in [tag] ensures !IsEmTag(t) { }
    }
  }
}
