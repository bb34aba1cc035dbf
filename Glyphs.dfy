/** The three letter tables of the social export (app.js:209-234): bold, italic
    and bold-italic letterforms from the Mathematical Alphanumeric Symbols block
    (U+1D400-U+1D7FF, section 22.2 of The Unicode Standard), reached by
    code-point arithmetic from a start per family. */
module Glyphs {
  import opened Ascii
  import opened Wrappers

  datatype Family = Bold | Italic | BoldItalic

  const BOLD_START: int := 0x1D400
  const ITALIC_START: int := 0x1D434
  const BOLD_ITALIC_START: int := 0x1D468

  /** Code point of the family's capital A; its small a is 26 further on. */
  function Start(f: Family): int
  {
    match f
    case Bold => BOLD_START
    case Italic => ITALIC_START
    case BoldItalic => BOLD_ITALIC_START
  }

  /** The letterform of an ASCII letter in a family. The arithmetic is followed
      as written: italic small h lands on U+1D455, which the block leaves
      unassigned. */
  function Glyph(f: Family, c: char): (g: char)
    requires IsLetter(c)
    ensures Start(f) <= g as int < Start(f) + 52
    ensures !IsLetter(g) && !IsSpace(g) && !IsWordChar(g)
  {
    var offset := if IsUpper(c) then LetterIndex(c) else 26 + LetterIndex(c);
    (Start(f) + offset) as char
  }

  /** Within one family and across families, distinct letters get distinct
      glyphs: the substitution is one-to-one. */
  lemma GlyphInjective(f1: Family, c1: char, f2: Family, c2: char)
    requires IsLetter(c1) && IsLetter(c2)
    requires Glyph(f1, c1) == Glyph(f2, c2)
    ensures f1 == f2 && c1 == c2
  {
  }

  lemma ItalicSmallH()
    ensures Glyph(Italic, 'h') as int == 0x1D455
  {
  }

  /** The styles `closest("strong,b")` and `closest("em,i")` report for an element. */
  datatype Style = Style(strong: bool, em: bool)

  const Plain := Style(false, false)

  /** Style `s` is weaker than or equal to `t`: every flag of `s` is set in `t`. */
  predicate Within(s: Style, t: Style)
  {
    (s.strong ==> t.strong) && (s.em ==> t.em)
  }

  /** The table a style selects, bold-italic taking priority over bold and italic. */
  function FamilyOf(st: Style): (r: Option<Family>)
    ensures r == None <==> st == Plain
    ensures st.strong && st.em ==> r == Some(BoldItalic)
  {
    if st.strong && st.em then Some(BoldItalic)
    else if st.strong then Some(Bold)
    else if st.em then Some(Italic)
    else None
  }

  /** One character as the social export renders it under a style: a letter is
      replaced by its glyph in the selected family; anything else, and
      everything under a plain style, passes through. */
  function StyleChar(st: Style, c: char): (r: char)
    ensures !IsLetter(c) || st == Plain ==> r == c
    ensures IsLetter(c) && st.strong && st.em ==> r == Glyph(BoldItalic, c)
    ensures IsLetter(c) && st.strong && !st.em ==> r == Glyph(Bold, c)
    ensures IsLetter(c) && !st.strong && st.em ==> r == Glyph(Italic, c)
  {
    match FamilyOf(st)
    case None => c
    case Some(f) => if IsLetter(c) then Glyph(f, c) else c
  }

  /** Rendering an already rendered character again under a weaker style
      changes nothing: a glyph lies outside every table, and a plain character
      stays plain under a weaker style. */
  lemma RestyleIsIdentity(s: Style, t: Style, c: char)
    requires Within(s, t)
    ensures StyleChar(s, StyleChar(t, c)) == StyleChar(t, c)
  {
  }

  /** The three dictionaries `unicodeMaps.bold`, `.italic`, `.boldItalic`. */
  datatype UnicodeMaps = UnicodeMaps(bold: map<char, char>, italic: map<char, char>, boldItalic: map<char, char>)
  {
    function Table(f: Family): map<char, char>
    {
      match f
      case Bold => bold
      case Italic => italic
      case BoldItalic => boldItalic
    }
  }

  /** `t` is defined on exactly the letters whose index is below `n`, and maps
      each to its glyph in family `f`. */
  ghost predicate FilledUpTo(t: map<char, char>, f: Family, n: int)
  {
    forall c :: (c in t <==> IsLetter(c) && LetterIndex(c) < n)
      && (c in t ==> IsLetter(c) && t[c] == Glyph(f, c))
  }

  ghost predicate Filled(m: UnicodeMaps)
  {
    FilledUpTo(m.bold, Bold, 26) && FilledUpTo(m.italic, Italic, 26)
    && FilledUpTo(m.boldItalic, BoldItalic, 26)
  }

  /** `String.fromCharCode(65 + i)` and `String.fromCharCode(97 + i)`. */
  function UpperAt(i: int): (c: char)
    requires 0 <= i < 26
    ensures IsUpper(c) && LetterIndex(c) == i
  {
    (65 + i) as char
  }

  function LowerAt(i: int): (c: char)
    requires 0 <= i < 26
    ensures IsLower(c) && LetterIndex(c) == i
  {
    (97 + i) as char
  }

  /** Adding letter number i of both cases to a table filled below i fills it
      below i + 1. */
  lemma {:induction false} FillNext(t: map<char, char>, f: Family, i: int)
    requires 0 <= i < 26 && FilledUpTo(t, f, i)
    ensures FilledUpTo(t[UpperAt(i) := Glyph(f, UpperAt(i))][LowerAt(i) := Glyph(f, LowerAt(i))], f, i + 1)
  {
    var t' := t[UpperAt(i) := Glyph(f, UpperAt(i))][LowerAt(i) := Glyph(f, LowerAt(i))];
    forall c
      ensures (c in t' <==> IsLetter(c) && LetterIndex(c) < i + 1)
      ensures c in t' ==> IsLetter(c) && t'[c] == Glyph(f, c)
    {
      if IsLetter(c) && LetterIndex(c) == i {
        assert c == UpperAt(i) || c == LowerAt(i);
      }
    }
  }

  /** What a filled table holds, letter number by letter number. */
  lemma FilledAt(t: map<char, char>, f: Family, i: int)
    requires FilledUpTo(t, f, 26) && 0 <= i < 26
    ensures UpperAt(i) in t && t[UpperAt(i)] as int == Start(f) + i
    ensures LowerAt(i) in t && t[LowerAt(i)] as int == Start(f) + 26 + i
  {
  }

  /** `initMaps`: fills the three tables letter by letter. Each table ends up
      defined on exactly `A-Z` and `a-z`, capital number i at the family's
      start plus i and small number i at the start plus 26 plus i. */
  method InitMaps() returns (m: UnicodeMaps)
    ensures Filled(m)
    ensures forall c :: c in m.bold <==> IsLetter(c)
    ensures forall c :: c in m.italic <==> IsLetter(c)
    ensures forall c :: c in m.boldItalic <==> IsLetter(c)
    ensures forall i :: 0 <= i < 26 ==>
      m.bold[UpperAt(i)] as int == 0x1D400 + i && m.bold[LowerAt(i)] as int == 0x1D41A + i
    ensures forall i :: 0 <= i < 26 ==>
      m.italic[UpperAt(i)] as int == 0x1D434 + i && m.italic[LowerAt(i)] as int == 0x1D44E + i
    ensures forall i :: 0 <= i < 26 ==>
      m.boldItalic[UpperAt(i)] as int == 0x1D468 + i && m.boldItalic[LowerAt(i)] as int == 0x1D482 + i
  {
    var bold, italic, boldItalic := map[], map[], map[];
    for i := 0 to 26
      invariant FilledUpTo(bold, Bold, i)
      invariant FilledUpTo(italic, Italic, i)
      invariant FilledUpTo(boldItalic, BoldItalic, i)
    {
      var upper := UpperAt(i);
      var lower := LowerAt(i);
      FillNext(bold, Bold, i);
      FillNext(italic, Italic, i);
      FillNext(boldItalic, BoldItalic, i);

      bold := bold[upper := (BOLD_START + i) as char];
      bold := bold[lower := (BOLD_START + 26 + i) as char];

      italic := italic[upper := (ITALIC_START + i) as char];
      italic := italic[lower := (ITALIC_START + 26 + i) as char];

      boldItalic := boldItalic[upper := (BOLD_ITALIC_START + i) as char];
      boldItalic := boldItalic[lower := (BOLD_ITALIC_START + 26 + i) as char];
    }
    m := UnicodeMaps(bold, italic, boldItalic);
    forall i | 0 <= i < 26
      ensures m.bold[UpperAt(i)] as int == 0x1D400 + i && m.bold[LowerAt(i)] as int == 0x1D41A + i
      ensures m.italic[UpperAt(i)] as int == 0x1D434 + i && m.italic[LowerAt(i)] as int == 0x1D44E + i
      ensures m.boldItalic[UpperAt(i)] as int == 0x1D468 + i && m.boldItalic[LowerAt(i)] as int == 0x1D482 + i
    {
      FilledAt(bold, Bold, i);
      FilledAt(italic, Italic, i);
      FilledAt(boldItalic, BoldItalic, i);
    }
  }

  /** `[...s].map(ch => table[ch] || ch).join("")`: every code point found in
      the table is replaced, every other one kept. */
  function Remap(t: map<char, char>, s: string): (r: string)
    ensures |r| == |s|
    ensures forall k :: 0 <= k < |s| && s[k] !in t ==> r[k] == s[k]
  {
    seq(|s|, k requires 0 <= k < |s| => if s[k] in t then t[s[k]] else s[k])
  }
}
