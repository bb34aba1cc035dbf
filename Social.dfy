/** The social export `convertSocial` (app.js:239-266): a walk over the editor's
    node tree that renders every element's text through the letter table its
    style selects.

    The tree is abstract: text nodes and element nodes. Where the source asks an
    element `closest("strong,b")` and `closest("em,i")`, the model passes the
    element's ancestor-or-self tag chain, `path`, from the document root down. */
module Social {
  import opened Ascii
  import opened Glyphs

  datatype Node = Text(value: string) | Elem(tag: string, children: seq<Node>)

  /** An element named `strong` or `b`, in any case. */
  predicate IsStrongTag(tag: string) { EqualFold(tag, "strong") || EqualFold(tag, "b") }

  /** An element named `em` or `i`, in any case. */
  predicate IsEmTag(tag: string) { EqualFold(tag, "em") || EqualFold(tag, "i") }

  /** The style of the element whose ancestor-or-self tags are `path`: whether
      `closest("strong,b")` and `closest("em,i")` find an element. */
  function StyleOf(path: seq<string>): (st: Style)
    ensures st.strong <==> exists t :: t in path && IsStrongTag(t)
    ensures st.em <==> exists t :: t in path && IsEmTag(t)
  {
    Style(exists t :: t in path && IsStrongTag(t), exists t :: t in path && IsEmTag(t))
  }

  /** A descendant's style includes its ancestor's: `closest` sees every
      ancestor. */
  lemma StyleGrows(path: seq<string>, tag: string)
    ensures Within(StyleOf(path), StyleOf(path + [tag]))
  {
    forall t | t in path ensures t in path + [tag] { }
  }

  /** The root of the walk has no enclosing element, hence no style. */
  lemma StyleOfRoot()
    ensures StyleOf([]) == Plain
  {
  }

  /** `closest` as an ancestor walk: one more element on the chain sets a
      flag exactly when that element's own tag does, and keeps the flags
      its ancestors set. */
  lemma StyleOfStep(path: seq<string>, tag: string)
    ensures StyleOf(path + [tag]) == Style(StyleOf(path).strong || IsStrongTag(tag), StyleOf(path).em || IsEmTag(tag))
  {
    assert tag in path + [tag];
    forall t | t in path + [tag] ensures t in path || t == tag { }
    StyleGrows(path, tag);
  }

  /** A string rendered through the table a style selects. */
  function Render(st: Style, s: string): (r: string)
    ensures |r| == |s|
    ensures forall k :: 0 <= k < |s| ==> r[k] == StyleChar(st, s[k])
  {
    seq(|s|, k requires 0 <= k < |s| => StyleChar(st, s[k]))
  }

  /** The result of `convertSocial` on an element with children `children`
      and ancestor-or-self tags `path`: the children's outputs in order, a
      text child's value as it is, an element child's own output rendered
      through the table of that child's style. */
  function SocialText(children: seq<Node>, path: seq<string>): string
    decreases children
  {
    if children == [] then ""
    else SocialText(children[..|children| - 1], path) + Piece(children[|children| - 1], path)
  }

  /** What one child contributes to its parent's output. */
  function Piece(n: Node, path: seq<string>): string
    decreases n
  {
    match n
    case Text(s) => s
    case Elem(tag, cs) => Render(StyleOf(path + [tag]), SocialText(cs, path + [tag]))
  }

  /** A code point of the document's text with the style of the innermost
      element around it. */
  datatype Cell = Cell(ch: char, style: Style)

  /** The text under an element, code point by code point, each with the
      style of the innermost element that encloses it. */
  function Cells(children: seq<Node>, path: seq<string>): seq<Cell>
    decreases children
  {
    if children == [] then []
    else Cells(children[..|children| - 1], path) + CellsOf(children[|children| - 1], path)
  }

  function CellsOf(n: Node, path: seq<string>): seq<Cell>
    decreases n
  {
    match n
    case Text(s) => seq(|s|, k requires 0 <= k < |s| => Cell(s[k], StyleOf(path)))
    case Elem(tag, cs) => Cells(cs, path + [tag])
  }

  /** The document's text: every text node's value, in document order. */
  function TextOf(children: seq<Node>): string
    decreases children
  {
    if children == [] then ""
    else TextOf(children[..|children| - 1]) + TextOfNode(children[|children| - 1])
  }

  function TextOfNode(n: Node): string
    decreases n
  {
    match n
    case Text(s) => s
    case Elem(_, cs) => TextOf(cs)
  }

  /** Every code point rendered by the style attached to it. */
  function Substitute(cells: seq<Cell>): (r: string)
    ensures |r| == |cells|
    ensures forall k :: 0 <= k < |cells| ==> r[k] == StyleChar(cells[k].style, cells[k].ch)
  {
    seq(|cells|, k requires 0 <= k < |cells| => StyleChar(cells[k].style, cells[k].ch))
  }

  lemma RenderAppend(st: Style, a: string, b: string)
    ensures Render(st, a + b) == Render(st, a) + Render(st, b)
  {
  }

  lemma SubstituteAppend(a: seq<Cell>, b: seq<Cell>)
    ensures Substitute(a + b) == Substitute(a) + Substitute(b)
  {
  }

  /** The cells under an element carry the text under it, code point for code
      point. */
  lemma {:induction false} CellsCarryText(children: seq<Node>, path: seq<string>)
    ensures |Cells(children, path)| == |TextOf(children)|
    ensures forall k :: 0 <= k < |TextOf(children)| ==> Cells(children, path)[k].ch == TextOf(children)[k]
    decreases children
  {
    if children != [] {
      var init, last := children[..|children| - 1], children[|children| - 1];
      CellsCarryText(init, path);
      CellsOfCarryText(last, path);
    }
  }

  lemma {:induction false} CellsOfCarryText(n: Node, path: seq<string>)
    ensures |CellsOf(n, path)| == |TextOfNode(n)|
    ensures forall k :: 0 <= k < |TextOfNode(n)| ==> CellsOf(n, path)[k].ch == TextOfNode(n)[k]
    decreases n
  {
    match n
    case Text(s) =>
    case Elem(tag, cs) => CellsCarryText(cs, path + [tag]);
  }

  /** Every cell under an element is styled at least as strongly as the
      element itself. */
  lemma {:induction false} CellsWithin(children: seq<Node>, path: seq<string>)
    ensures forall k :: 0 <= k < |Cells(children, path)| ==> Within(StyleOf(path), Cells(children, path)[k].style)
    decreases children
  {
    if children != [] {
      var init, last := children[..|children| - 1], children[|children| - 1];
      CellsWithin(init, path);
      CellsOfWithin(last, path);
    }
  }

  lemma {:induction false} CellsOfWithin(n: Node, path: seq<string>)
    ensures forall k :: 0 <= k < |CellsOf(n, path)| ==> Within(StyleOf(path), CellsOf(n, path)[k].style)
    decreases n
  {
    match n
    case Text(s) =>
    case Elem(tag, cs) =>
      CellsWithin(cs, path + [tag]);
      StyleGrows(path, tag);
  }

  /** Rendering already substituted text under a style that every cell's style
      includes changes nothing. */
  lemma RenderSubstituted(st: Style, cells: seq<Cell>)
    requires forall k :: 0 <= k < |cells| ==> Within(st, cells[k].style)
    ensures Render(st, Substitute(cells)) == Substitute(cells)
  {
    forall k | 0 <= k < |cells|
      ensures Render(st, Substitute(cells))[k] == Substitute(cells)[k]
    {
      RestyleIsIdentity(st, cells[k].style, cells[k].ch);
    }
  }

  /** The walk is a per-code-point substitution: rendered through the
      element's own table (which is what its parent does with it), the output
      of `convertSocial` on an element is its text with every code point
      rendered by the style of the innermost element enclosing it. */
  lemma {:induction false} SocialIsSubstitution(children: seq<Node>, path: seq<string>)
    ensures Render(StyleOf(path), SocialText(children, path)) == Substitute(Cells(children, path))
    decreases children
  {
    if children != [] {
      var init, last := children[..|children| - 1], children[|children| - 1];
      SocialIsSubstitution(init, path);
      PieceIsSubstitution(last, path);
      RenderAppend(StyleOf(path), SocialText(init, path), Piece(last, path));
      SubstituteAppend(Cells(init, path), CellsOf(last, path));
    }
  }

  lemma {:induction false} PieceIsSubstitution(n: Node, path: seq<string>)
    ensures Render(StyleOf(path), Piece(n, path)) == Substitute(CellsOf(n, path))
    decreases n
  {
    match n
    case Text(s) =>
    case Elem(tag, cs) =>
      var inner := path + [tag];
      SocialIsSubstitution(cs, inner);
      CellsWithin(cs, inner);
      StyleGrows(path, tag);
      RenderSubstituted(StyleOf(path), Cells(cs, inner));
  }

  /** At the editor, which no `strong`, `b`, `em` or `i` encloses, the export
      has exactly as many code points as the document's text, and code point
      k is code point k of the text rendered by the style of the innermost
      element around it: bold-italic when a `strong`/`b` and an `em`/`i` both
      enclose it, bold or italic when only one does, unchanged otherwise. */
  lemma Export(children: seq<Node>, path: seq<string>)
    requires StyleOf(path) == Plain
    ensures |SocialText(children, path)| == |TextOf(children)| == |Cells(children, path)|
    ensures forall k :: 0 <= k < |TextOf(children)| ==>
      SocialText(children, path)[k] == StyleChar(Cells(children, path)[k].style, TextOf(children)[k])
  {
    SocialIsSubstitution(children, path);
    CellsCarryText(children, path);
    var out := SocialText(children, path);
    assert Render(Plain, out) == out;
  }

  /** No element of the tree is a `strong`, `b`, `em` or `i`. */
  predicate Unstyled(children: seq<Node>)
    decreases children
  {
    forall k :: 0 <= k < |children| ==> UnstyledNode(children[k])
  }

  predicate UnstyledNode(n: Node)
    decreases n
  {
    match n
    case Text(_) => true
    case Elem(tag, cs) => !IsStrongTag(tag) && !IsEmTag(tag) && Unstyled(cs)
  }

  /** Below a path, a tree with no styling element gives every code point the
      path's own style. */
  lemma {:induction false} UnstyledCellsInherit(children: seq<Node>, path: seq<string>)
    requires Unstyled(children)
    ensures forall k :: 0 <= k < |Cells(children, path)| ==> Cells(children, path)[k].style == StyleOf(path)
    decreases children
  {
    if children != [] {
      var init, last := children[..|children| - 1], children[|children| - 1];
      assert Unstyled(init) by {
        forall k | 0 <= k < |init| ensures UnstyledNode(init[k]) {
          assert init[k] == children[k];
        }
      }
      assert UnstyledNode(last);
      UnstyledCellsInherit(init, path);
      match last
      case Text(_) =>
      case Elem(tag, cs) =>
        var inner := path + [tag];
        assert StyleOf(inner) == StyleOf(path) by {
          forall t | t in inner && (IsStrongTag(t) || IsEmTag(t)) ensures t in path {
          }
          StyleGrows(path, tag);
        }
        UnstyledCellsInherit(cs, inner);
        assert Cells(children, path) == Cells(init, path) + Cells(cs, inner);
    }
  }

  /** On a tree with no `strong`, `b`, `em` or `i` element (`u` and every other
      tag select no table), the export is the document's text unchanged. */
  lemma UnstyledExportIsText(children: seq<Node>, path: seq<string>)
    requires StyleOf(path) == Plain && Unstyled(children)
    ensures SocialText(children, path) == TextOf(children)
  {
    Export(children, path);
    UnstyledCellsInherit(children, path);
    CellsCarryText(children, path);
  }

  /** With the tables as `initMaps` fills them, mapping through the table of a
      style's family is rendering under that style. */
  lemma RemapIsRender(m: UnicodeMaps, st: Style, s: string)
    requires Filled(m) && st != Plain
    ensures Remap(m.Table(FamilyOf(st).value), s) == Render(st, s)
  {
    var t := m.Table(FamilyOf(st).value);
    forall k | 0 <= k < |s| ensures Remap(t, s)[k] == Render(st, s)[k] {
    }
  }

  /** `convertSocial(node)`: walks the children in order, appending a text
      child's value and an element child's own output mapped through the table
      its style selects. `path` is the node's ancestor-or-self tag chain. */
  method ConvertSocial(node: Node, path: seq<string>, maps: UnicodeMaps) returns (result: string)
    requires Filled(maps)
    ensures result == SocialText(if node.Text? then [] else node.children, path)
    decreases node
  {
    var children := if node.Text? then [] else node.children;
    result := "";
    var i := 0;
    while i < |children|
      invariant 0 <= i <= |children|
      invariant result == SocialText(children[..i], path)
    {
      var n := children[i];
      assert children[..i + 1][..i] == children[..i];
      if n.Text? {
        result := result + n.value;
      } else {
        var inner := ConvertSocial(n, path + [n.tag], maps);
        var st := StyleOf(path + [n.tag]);
        var hasStrong, hasEm := st.strong, st.em;
        if hasStrong && hasEm {
          RemapIsRender(maps, st, inner);
          result := result + Remap(maps.boldItalic, inner);
        } else if hasStrong {
          RemapIsRender(maps, st, inner);
          result := result + Remap(maps.bold, inner);
        } else if hasEm {
          RemapIsRender(maps, st, inner);
          result := result + Remap(maps.italic, inner);
        } else {
          assert Render(st, inner) == inner;
          result := result + inner;
        }
      }
      i := i + 1;
    }
    assert children[..i] == children;
  }
}
