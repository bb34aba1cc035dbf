# text-dev editor core in Dafny

This project models the text-handling core of the duvofs text editor, a
single browser script (`app.js`). It covers:

- the **social export**. Three letter tables of Mathematical Alphanumeric
  Symbols are built by `initMaps`. The recursive `convertSocial` walk renders
  the text under `strong`/`b` and `em`/`i` elements through those tables.
- the four **case transforms**: upper, lower, capitalize-words and
  capitalize-sentences. They are applied to the whole document, which replaces
  the editor's content by one text node. Reset formatting is the same with
  the identity function.
- **tag normalisation**: `<b>`, `</b>`, `<i>`, `</i>` become `<strong>`,
  `</strong>`, `<em>`, `</em>`, case-insensitively.
- the **whole-document format wrap**, on the markup string and on the tree.
- the **font-size** state, clamped to [10, 32] and moved by the up and down
  buttons.
- the **character and word counters**.

Modules:

- `Ascii` holds the character classes. Letters, `\w` and case mapping are
  ASCII. `\s` and `trim` use the exact ECMAScript white-space set.
- `Glyphs` holds the tables, the styles and `InitMaps`, an imperative loop
  over three maps.
- `Social` holds the node tree, the specification `SocialText` of the walk,
  and `ConvertSocial`, a loop over the children with recursion into elements.
  It also proves that the walk is a per-code-point substitution.
- `CaseTransforms` holds the transforms. The global regular-expression replace
  is modelled as the engine's left-to-right scan and proved equal to a
  per-position definition of which characters are raised.
- `Markup` holds normalisation and the wrap.
- `Document` holds the whole-document paths on the tree.
- `FontSize` holds a class with the handlers as methods.
- `Counts` holds the two counters.

The editor's DOM tree is a datatype: `Node = Text(value) | Elem(tag,
children)`. A query `n.closest("strong,b")` is answered from `path`, the
element's ancestor-or-self tag chain. The editor itself carries no tag, so the
walk starts at path `[]`.

## Model

| member | source | states |
|---|---|---|
| Ascii.UpperChar | app.js:151 | a small letter becomes the capital of the same letter; every other code point is kept |
| Ascii.LowerChar | app.js:152 | a capital becomes the small letter of the same letter; every other code point is kept |
| Glyphs.Glyph | app.js:221-233 | the glyph of a letter lies in the family's 52 code points from its start and is neither a letter, a `\w` character nor white space |
| Glyphs.GlyphInjective | app.js:221-233 | two letters share a glyph only if they are the same letter in the same family |
| Glyphs.ItalicSmallH | app.js:229 | italic small h is U+1D455, as the arithmetic gives |
| Glyphs.FamilyOf | app.js:251-262 | no table exactly for a plain style; strong with em always selects the bold-italic table |
| Glyphs.StyleChar | app.js:251-262 | letters are rendered from the bold-italic, bold or italic table by the two flags; non-letters and plain text pass through |
| Glyphs.RestyleIsIdentity | app.js:255-260 | re-rendering a rendered character under a weaker style is the identity |
| Glyphs.UpperAt | app.js:222 | `fromCharCode(65 + i)` is the capital letter number i |
| Glyphs.LowerAt | app.js:223 | `fromCharCode(97 + i)` is the small letter number i |
| Glyphs.FilledAt | app.js:225-232 | a filled table maps letter number i to start + i (capital) and start + 26 + i (small) |
| Glyphs.InitMaps | app.js:216-234 | every table's domain is exactly A-Z and a-z; bold maps `'A'+i` to U+1D400+i and `'a'+i` to U+1D41A+i, italic to U+1D434+i and U+1D44E+i, bold-italic to U+1D468+i and U+1D482+i |
| Glyphs.Remap | app.js:255-259 | mapping through a table keeps the length and every code point the table lacks |
| Social.StyleGrows | app.js:249-252 | a child's style includes its parent's |
| Social.StyleOfRoot | app.js:249-252 | at the root, with no enclosing element, the style is plain |
| Social.StyleOfStep | app.js:249-252 | one more element on the ancestor chain sets the strong (em) flag exactly when its tag is `strong`/`b` (`em`/`i`), and keeps the flags its ancestors set |
| Social.SocialText | app.js:239-266 | the output of `convertSocial` for an element's children; `SocialIsSubstitution` and `Export` prove it substitutes every code point by its enclosing style, and `ConvertSocial` computes it |
| Social.Piece | app.js:243-262 | one child's contribution: a text child as it is, an element child's output rendered by its style; `PieceIsSubstitution` gives its meaning |
| Social.TextOf | app.js:75 | the editor's text, every text node in document order; `CellsCarryText` proves the styled cells carry exactly this text |
| Social.CellsCarryText | app.js:243-246 | the styled cells under an element carry its text, code point for code point |
| Social.CellsWithin | app.js:249-252 | every cell under a path is styled at least as strongly as the path |
| Social.RenderSubstituted | app.js:254-262 | rendering already substituted text under a weaker style changes nothing |
| Social.SocialIsSubstitution | app.js:239-266 | the walk, rendered by the path's style, equals substituting every code point by the style of its innermost enclosing element |
| Social.PieceIsSubstitution | app.js:243-262 | the same for one child: a text child or an element child's mapped output |
| Social.Export | app.js:239-266 | at the editor, the export has as many code points as the text, and code point k is text code point k rendered by its enclosing style |
| Social.UnstyledCellsInherit | app.js:260-261 | under a tree without `strong`/`b`/`em`/`i`, every code point has the style of the path above it |
| Social.UnstyledExportIsText | app.js:243-246 | without `strong`/`b`/`em`/`i` elements the export is the concatenated text, so `u` and other tags are dropped |
| Social.RemapIsRender | app.js:254-259 | mapping through the table a style selects, with the tables `initMaps` fills, is rendering under that style |
| Social.ConvertSocial | app.js:239-266 | the loop over the children, with recursion into elements and the four-way table choice, returns the specified walk |
| CaseTransforms.ToUpper | app.js:151 | no small letter is left; length is kept; every code point equals the input's up to case |
| CaseTransforms.ToLower | app.js:152 | no capital letter is left; length is kept; every code point equals the input's up to case |
| CaseTransforms.ToUpperIdempotent | app.js:151 | upper-casing twice is upper-casing once |
| CaseTransforms.ToLowerIdempotent | app.js:152 | lower-casing twice is lower-casing once |
| CaseTransforms.MatchAt | app.js:153-157 | a match is non-empty and lies inside the string |
| CaseTransforms.ReplaceFrom | app.js:153-157 | the `/g` replace scanning from a position, each match upper-cased and the scan resumed after it; `ReplaceFromIsRaised` proves it equals the per-position reference |
| CaseTransforms.MatchIsRaised | app.js:153-157 | the upper-cased match equals the reference at every position it covers |
| CaseTransforms.ReplaceFromIsRaised | app.js:153-157 | the global replace's scan produces, at every position, the reference character: raised exactly where a word (sentence) starts |
| CaseTransforms.OpensSentenceIgnoresCase | app.js:157 | whether a position opens a sentence does not depend on letter case |
| CaseTransforms.StartsSentenceIgnoresCase | app.js:157 | whether a position holds the first word character of a sentence does not depend on letter case |
| CaseTransforms.RaiseStable | app.js:153-157 | a code point already raised or lowered as its position demands is unchanged by the rule |
| CaseTransforms.SentenceCase | app.js:155-158 | the per-position reference of capitalize-sentences keeps the length; `CapitalizeSentencesSpec` proves the button computes it |
| CaseTransforms.SentenceCaseAt | app.js:155-158 | at every position, raising the lower-cased text where a sentence starts gives `SentenceCase` of the original |
| CaseTransforms.SentenceCaseIdempotent | app.js:155-158 | the reference output is a fixed point of itself |
| CaseTransforms.StartsWordIgnoresCase | app.js:154 | whether a position starts a word does not depend on letter case |
| CaseTransforms.CapitalizeWords | app.js:153-154 | `toLowerCase().replace(/\b\w/g, …)`; `CapitalizeWordsSpec` gives its output at every position and `CapitalizeWordsIdempotent` its idempotence |
| CaseTransforms.CapitalizeSentences | app.js:155-158 | `toLowerCase().replace(/(^\s*\w|[.!?]\s*\w)/g, …)`; `CapitalizeSentencesSpec` gives its output at every position and `CapitalizeSentencesIdempotent` its idempotence |
| CaseTransforms.CapitalizeWordsSpec | app.js:153-154 | the length is kept; each code point is upper-cased where a maximal `\w` run starts and lower-cased elsewhere |
| CaseTransforms.CapitalizeSentencesSpec | app.js:155-158 | the regular-expression replace equals `SentenceCase`: each code point is upper-cased where it is the first `\w` after the start or after `.`/`!`/`?` and white space, lower-cased elsewhere |
| CaseTransforms.CapitalizeWordsIdempotent | app.js:153-154 | capitalizing words twice is doing it once |
| CaseTransforms.CapitalizeSentencesIdempotent | app.js:155-158 | capitalizing sentences twice is doing it once |
| CaseTransforms.CapitalizeWordsExample | app.js:153-154 | "the Quick fox" becomes "The Quick Fox" |
| CaseTransforms.CapitalizeWordsApostrophe | app.js:153-154 | "don't" becomes "Don'T" |
| CaseTransforms.CapitalizeSentencesExample | app.js:155-158 | "hello. world" becomes "Hello. World" |
| CaseTransforms.CapitalizeSentencesAbbreviation | app.js:155-158 | "e.g. foo" becomes "E.G. Foo" |
| Markup.Replace | app.js:105-108 | `replace(/pat/gi, rep)` for a literal pattern; `NoneLeft` proves no occurrence is left when the replacement is separated from the pattern, `ReplaceAbsent` that markup without the pattern is unchanged |
| Markup.NormalizeTags | app.js:103-109 | the four replacements in source order; `NormalizeLeavesNoShortTags`, `NormalizeKeepsOtherMarkup` and `NormalizeIdempotent` give its meaning |
| Markup.Wrap | app.js:96 | the wrapped markup is longer by twice the tag plus five and holds the old markup inside |
| Markup.WrapNeverToggles | app.js:96 | wrapping never gives back the markup it was given, so pressing twice nests twice |
| Markup.StartsWithCons | app.js:105-108 | a case-insensitive prefix test splits into its first character and the rest |
| Markup.ClashBlocksStart | app.js:105-108 | a string starting with a clashing replacement does not start with the pattern |
| Markup.OccursPastClashes | app.js:105-108 | an occurrence after a clashing replacement lies past it |
| Markup.OccursInSuffix | app.js:105-108 | an occurrence in a suffix is an occurrence in the string |
| Markup.StartTransfers | app.js:105-108 | if a replacement's output starts with a pattern, its input did |
| Markup.OccurrenceTransfers | app.js:105-108 | a separated replacement creates no occurrence of a pattern |
| Markup.NoneLeft | app.js:105-108 | after replacing a pattern by a separated string, no occurrence of the pattern is left in any case |
| Markup.ReplaceAbsent | app.js:105-108 | markup without the pattern passes through unchanged |
| Markup.FoldAngle | app.js:105-108 | only `<` folds to `<` |
| Markup.TagsClash | app.js:105-108 | two tags that differ after `<` are separated |
| Markup.ClosingTagsClash | app.js:106-108 | two closing tags that differ after `</` are separated |
| Markup.TagsSeparated | app.js:105-108 | each replacement is separated from its own pattern and every earlier one |
| Markup.NormalizeLeavesNoShortTags | app.js:103-109 | no `<b>`, `</b>`, `<i>`, `</i>`, in any case, is left after normalising |
| Markup.NormalizeKeepsOtherMarkup | app.js:103-109 | markup holding none of the four short tags is unchanged |
| Markup.NormalizeIdempotent | app.js:103-109 | normalising twice is normalising once |
| Markup.NoAngleNoTag | app.js:105-108 | text without `<` contains no tag |
| Markup.TagOccursOnlyAtStart | app.js:105-108 | a tag-like string contains a tag only at its start |
| Markup.NormalizeKeepsTag | app.js:103-109 | a single tag that begins with none of the four short tags is left unchanged |
| Markup.NormalizeKeepsBreak | app.js:103-109 | `<br>` is left unchanged |
| Markup.NormalizeKeepsUnderline | app.js:103-109 | `<u>` is left unchanged |
| Markup.NormalizeKeepsAttributes | app.js:103-109 | `<b class=x>` is left unchanged |
| Markup.ReplaceWhole | app.js:105-108 | a string that is exactly the pattern, in any case, becomes the replacement |
| Markup.TagUntouched | app.js:105-108 | a tag that is not the pattern passes through |
| Markup.NormalizeBoldTag | app.js:103-105 | `<b>` in any case becomes `<strong>` |
| Markup.NormalizeItalicCloseTag | app.js:103-108 | `</i>` in any case becomes `</em>`, untouched by the first three replacements |
| FontSize.Clamp | app.js:48 | the result is in [10, 32]; an in-range value is kept, a lower one raised to 10, a higher one lowered to 32 |
| FontSize.ClampIdempotent | app.js:48 | clamping twice is clamping once |
| FontSize.Step | app.js:51-63 | one press of up or down; `StepInRange` gives its bounds and `FontSizeState.Up`/`Down` are proved to compute it |
| FontSize.AfterClicks | app.js:51-63 | the size after a sequence of presses; `AfterClicksInRange`, `UpsSaturate` and `UpThenDown` give its meaning |
| FontSize.StepInRange | app.js:51-63 | one press keeps the size in range, moves it by at most one, and is a no-op exactly at the bound it pushes against |
| FontSize.AfterClicksInRange | app.js:51-63 | any sequence of presses keeps the size in [10, 32] |
| FontSize.UpsSaturate | app.js:51-56 | n presses of up give the size plus n, saturated at 32 |
| FontSize.UpThenDown | app.js:51-63 | below 32, up then down returns to the start |
| FontSize.FontSizeState.constructor | app.js:44-49 | the loaded size is the clamped initial value, hence in range |
| FontSize.FontSizeState.Up | app.js:51-56 | the new size is one more below 32 and unchanged at 32; the range is kept |
| FontSize.FontSizeState.Down | app.js:58-63 | the new size is one less above 10 and unchanged at 10; the range is kept |
| Counts.CharCount | app.js:76 | `text.length` in UTF-16 code units; `CharCountBounds` bounds it by the code-point count |
| Counts.CharCountBounds | app.js:76 | `text.length` is between the code-point count and twice it, and equals it when no code point is astral |
| Counts.SpanEnd | app.js:77-78 | the end of a maximal run of white space (or non-white-space); it is also where `\s*` settles in the capitalize-sentences pattern |
| Counts.SpaceStart | app.js:77 | the start of the trailing white-space run |
| Counts.TrimStart | app.js:77 | leading white space ends here |
| Counts.TrimEnd | app.js:77 | trailing white space starts here |
| Counts.Trim | app.js:77 | the result is empty or starts and ends with non-white-space, and is empty exactly for blank text |
| Counts.TrimIsInfix | app.js:77 | the text is its leading white space, the trimmed text and its trailing white space |
| Counts.RunsOverWord | app.js:78 | counting runs across a run of non-white-space counts it once |
| Counts.RunsOverSpaces | app.js:78 | counting runs across white space counts nothing |
| Counts.RunsIgnoreTrailingSpaces | app.js:77 | trailing white space adds no run |
| Counts.Split | app.js:78 | `split(/\s+/)`; `SplitCountsRuns` and `SplitGivesWords` give its meaning on trimmed text |
| Counts.WordCount | app.js:77-79 | `trim()` then zero or the number of pieces; `WordCountIsRuns` and `WordCountZero` give its meaning |
| Counts.SplitCountsRuns | app.js:78 | on trimmed non-empty text `split(/\s+/)` yields one piece per maximal non-white-space run |
| Counts.SplitGivesWords | app.js:78 | on trimmed non-empty text every piece is non-empty and free of white space |
| Counts.WordCountIsRuns | app.js:77-79 | the word count is the number of maximal non-white-space runs in the text |
| Counts.WordCountZero | app.js:77-79 | the word count is zero exactly for blank text |
| Document.Apply | app.js:151-158 | the function each transform button passes; `ApplyKeepsText` and `ApplyIdempotent` give its meaning |
| Document.ApplyKeepsText | app.js:151-158 | every transform keeps the length and each code point up to case |
| Document.ApplyIdempotent | app.js:151-158 | pressing the same transform twice is pressing it once |
| Document.SetText | app.js:146 | after setting the text, the document's text is that string and no `strong`/`b`/`em`/`i` element is left |
| Document.TransformDocument | app.js:146 | `transformText` with nothing selected; `TransformDropsStyling` gives its meaning |
| Document.TransformDropsStyling | app.js:146 | a whole-document transform's text is the transformed text, no `strong`/`b`/`em`/`i` element is left, and the social export is that text unstyled |
| Document.ResetFormatting | app.js:130 | the reset button; `ResetFormattingSpec` gives its meaning |
| Document.ResetFormattingSpec | app.js:130 | reset keeps the text, the social export becomes the plain text, and resetting twice is resetting once |
| Document.FormatDocument | app.js:96 | the format buttons with nothing selected, on the tree; `FormatKeepsText`, `FormatIsWrap` and `BoldDocumentExport` give its meaning |
| Document.Html | app.js:96 | the `innerHTML` read of the template: a void element as its opening tag alone, any other element as `Markup.Wrap` of its children's markup; `BreakHtml` and `FormatIsWrap` give its meaning |
| Document.BreakHtml | app.js:96 | a `<br>` between two texts reads back as `<br>` alone, with no closing tag |
| Document.FormatIsWrap | app.js:96 | for a non-void tag, as the format buttons pass, the markup of the formatted tree is the old markup wrapped in the tag, so the tree-level format and `Markup.Wrap` agree |
| Document.FormatKeepsText | app.js:96 | formatting the whole document keeps its text and never gives back the document it was given |
| Document.BoldDocumentExport | app.js:96 | bold on an unformatted document makes the social export the text rendered from the bold table |

## Left out

- Selection paths: `document.execCommand` (app.js:93) and the range replacement in `transformText` (app.js:140-144) are browser behaviour. Only the nothing-selected branches are modelled.
- HTML parsing and serialisation: the model works on an abstract node tree and on markup strings. Parsing markup into a tree, which writing `innerHTML` or `innerText` does, is not modelled. Reading `innerHTML` is modelled by `Document.Html` and reading `innerText` by `Social.TextOf`, with the gaps listed below. The browser re-serialising tags such as `<B>` before `normalizeTags` sees them is not modelled either.
- Storage: `localStorage`, and the `parseInt`/`getComputedStyle` fallback of app.js:44-46. The constructor of `FontSizeState` takes the parsed value as an integer, so a `NaN` size is not modelled. `applyFontSize` (app.js:65-69) only writes the size out, so it is not modelled either.
- Clipboard, timers and button labels (app.js:178-204, 268-273): I/O and asynchrony.
- DOCX and PDF export (app.js:278-295): foreign libraries.
- Dark mode, keyboard shortcuts and element lookups: UI wiring only.
- Comment and other non-text, non-element nodes: `convertSocial` would throw on them, so the tree has only text and element nodes.
- The unused `tag` variable of `convertSocial` (app.js:248) has no effect and is not modelled.
- CaseTransforms.ToUpper: only ASCII letters change. `toUpperCase` also maps other scripts and can change the length (`ß` becomes `SS`).
- CaseTransforms.ToLower: only ASCII letters change. `toLowerCase` also maps other scripts.
- Glyphs.StyleChar: the tables hold ASCII letters only, as in the source, so no non-ASCII letter is ever styled.
- Document.SetText: the model writes a single text node. Setting `innerText` turns each line break into a `<br>` element, which `convertSocial` renders as nothing. Neither that split nor the line breaks it drops from the social export of multi-line text is captured, so `TransformDropsStyling` and `ResetFormattingSpec` state the export of single-line text.
- Document.Html: text is written as it is, while `innerHTML` escapes `<`, `>` and `&` in text. Tag names are written as the tree holds them, while `innerHTML` writes HTML tag names in lower case. Attributes are not modelled.
- Social.TextOf: it concatenates the text nodes, as `textContent` does. `innerText` (app.js:75, 130, 146) reads a `<br>` or a block boundary as a line break, where `TextOf` reads nothing, so the text the transforms and counters see for multi-line content is not captured.
- Document.BoldDocumentExport: the tree-level wrap is `Elem(tag, doc)`. The browser's re-parse of the wrapped markup is not modelled.

## Notes on the code

- With nothing selected, a format button only wraps the markup in one more element (app.js:96). A second press nests a second element rather than removing the first (`Markup.WrapNeverToggles`, `Document.FormatKeepsText`). The selected-text path goes through `execCommand` and is not modelled.
- A whole-document transform writes plain text over the editor (app.js:146), so every `strong`/`b`/`em`/`i` element is dropped (`Document.TransformDropsStyling`).
