# Discord ANSI text generator: style tree and serializer

This project models the core of a small web page that lets a user select
parts of a text, give them a style (bold, underline, a foreground colour or
a background "highlight" colour), and copy the result as a Discord message.
The message is a fenced ```` ```ansi ```` block. It uses ANSI SGR escapes:
`ESC[<code>m` turns a style on and `ESC[0m` resets all attributes (SGR parameters as in
section 8.3.117 of ECMA-48).

The model has four modules, one per concern of `app/page.tsx`:

- `Dom` (`dom.dfy`): the editor's content as a tree.
  - A node is a text node or an element.
  - An element has its DOM node name (`SPAN`, `BR`, `DIV`, ...), its
    optional `data-style` and `data-value` attributes, and its children.
  - The module also defines the span count, `textContent`, and an outline
    of the non-span nodes in document order.
- `Restyle` (`restyle.dfy`): what a style button does to the selected
  fragment.
  - The "remove previous styling" loop replaces each `span` (at any depth,
    in document order) by its children. `StripSpans` models this loop and
    is proved to compute `Flatten`.
  - One new `span` carrying `data-style`/`data-value` then wraps the
    flattened fragment.
- `Ansi` (`ansi.dfy`): the export serializer.
  - Holds the two 8-entry hex→code tables with their defaults and
    fallbacks, and the ASCII lower-casing of the colour before lookup.
  - Writes the code in decimal, as `toString` does.
  - `Serialize` is the recursive `htmlToAnsi`. A second reading of the
    output as a sequence of pieces (text, one opening escape, one reset)
    proves that the escapes nest and balance.
- `Editing` (`editor.dfy`): the session.
  - An `Editor` class holds the document as a sequence of top-level nodes.
  - `ApplyStyle` does nothing without a selection. Otherwise it replaces
    the selected slice by the restyled wrapper.
  - `Reset` puts the placeholder text back.
  - `Export` produces the fenced message.

Behaviour of the code worth knowing:

- A collapsed (empty) selection is not rejected. The code checks only that
  some selection exists (app/page.tsx:43), so a collapsed selection inserts an
  empty styled `span`.
- Stripping removes every `span` element, whatever its `data-style`, and only
  `span` elements (app/page.tsx:49). A styled element with another tag is kept.
  The serializer looks at `data-style` and never at the tag, except for `BR`.
- The reset text (`"Enter your text here..."`, app/page.tsx:79) differs from
  the text shown at load (`"Enter Your Text Here....."`, app/page.tsx:259).
  Both are modelled as written.
- A line break is a `BR` element. The serializer checks the node name `BR`
  before looking at any style (app/page.tsx:88-90).

## Model

| member | source | states |
|---|---|---|
| `Restyle.StripSpans` | app/page.tsx:48-52 | the loop that unwraps each span of the fragment, in document order, ends with exactly `Flatten(fragment)` and no span left |
| `Restyle.UnwrapFirstCount` | app/page.tsx:50-51 | replacing the first span by its children removes exactly one span from the fragment |
| `Restyle.UnwrapFirstFlatten` | app/page.tsx:50-51 | replacing the first span in document order by its children does not change `Flatten` of the fragment: the loop's invariant |
| `Restyle.FlattenLeavesNoSpans` | app/page.tsx:49-52 | no span remains at any depth after stripping |
| `Restyle.FlattenNoSpansUnchanged` | app/page.tsx:49-52 | a fragment without spans is left exactly as it is |
| `Restyle.FlattenIdempotent` | app/page.tsx:49-52 | stripping twice is stripping once |
| `Restyle.FlattenKeepsOutline` | app/page.tsx:49-52 | every text node and every non-span element (`BR`, `div`, ...) survives with the same nesting, in the same document order |
| `Restyle.FlattenKeepsText` | app/page.tsx:49-52 | stripping keeps the fragment's text content |
| `Restyle.RestyledShape` | app/page.tsx:49-69 | a style button yields exactly one new `span` whose `data-style`/`data-value` are the requested pair (lines 55-57), holding the stripped selection with no span beneath it |
| `Restyle.RestyledContent` | app/page.tsx:49-69 | the wrapper holds the selection's text and its non-span nodes in their order |
| `Restyle.LastStyleWins` | app/page.tsx:49-69 | styling the wrapper of an earlier style equals styling the original fragment directly: the later style wins |
| `Restyle.RestyleIdempotent` | app/page.tsx:49-69 | applying the same style twice gives the same wrapper as applying it once |
| `Ansi.ForegroundCode` | app/page.tsx:100-103 | a colour is a code from 30 to 37: the table's code for the lower-cased value, or 37 for any other value; an absent or empty value stands for `#000000` |
| `Ansi.BackgroundCode` | app/page.tsx:104-107 | a highlight is a code from 40 to 47: the table's code for the lower-cased value, or 43 for any other value; an absent or empty value stands for `#ffff00` |
| `Ansi.MissingColorFallsBack` | app/page.tsx:101-106 | an absent or empty colour gives 37 (foreground) and 43 (background), because neither default is in its table |
| `Ansi.ForegroundTableOneToOne` | app/page.tsx:19-28 | the foreground table's codes are exactly 30 to 37, each given to one colour |
| `Ansi.BackgroundTableOneToOne` | app/page.tsx:30-39 | the background table's codes are exactly 40 to 47, each given to one colour |
| `Ansi.SwatchCaseInsensitive` | app/page.tsx:102-106 | a swatch written in upper case gets the same code as the swatch itself |
| `Ansi.SgrCode` | app/page.tsx:95-108 | exactly the styles `bold`, `underline`, `color` and `highlight` select a code: 1, 4, a foreground code in 30..37, a background code in 40..47 |
| `Ansi.Decimal` | app/page.tsx:103 | a code is written as one or more decimal digits, with no leading zero except for 0 itself |
| `Ansi.DecimalRoundTrip` | app/page.tsx:103 | reading the written digits back gives the code |
| `Ansi.SerializeConcat` | app/page.tsx:111-115 | the output of a node sequence is the outputs of its parts, concatenated in order |
| `Ansi.StyledElement` | app/page.tsx:96-118 | a bold element is `ESC[1m` + its children's output + `ESC[0m`, underline uses `4`, a colour `3x` and a highlight `4x` |
| `Ansi.PlainElement` | app/page.tsx:111-120 | an element without a recognised style adds nothing of its own: exactly its children's output |
| `Ansi.SerializeRendersPieces` | app/page.tsx:83-121 | the output is exactly the tree's pieces written out: text, one single-code opening escape per styled element, one reset |
| `Ansi.PiecesBalanced` | app/page.tsx:117-118 | in every prefix of the sequence of escapes the serializer writes (text pieces aside), opening escapes are at least as many as resets, and over the whole sequence they are equal; text is written unescaped, so a text node holding escape characters is not covered at the character level |
| `Editing.RootSerializesToContent` | app/page.tsx:127 | serializing the editable `div` itself gives the serialization of its children |
| `Editing.FenceRoundTrip` | app/page.tsx:128 | the fenced message gives back exactly the serialized text when read as an `ansi` block |
| `Editing.Editor.constructor` | app/page.tsx:259 | the editor starts with the single text `Enter Your Text Here.....`, in which only spans carry styles |
| `Editing.Editor.ApplyStyle` | app/page.tsx:41-75 | with no selection the document is unchanged; otherwise the selected slice is replaced by the one restyled wrapper and nothing else changes; a document in which only spans carry styles stays so, and then the wrapper's output is one escape pair of the new style around the selection's plain text |
| `Editing.Editor.Reset` | app/page.tsx:77-81 | the document becomes the single text `Enter your text here...`, in which only spans carry styles |
| `Editing.Editor.Export` | app/page.tsx:123-129 | the message is the opening fence plus the serialized document plus the closing fence, and reading it back gives the serialized document |
| `Editing.SplicedFrame` | app/page.tsx:69-71 | the nodes before and after the selection are untouched and the selection becomes one node |
| `Editing.SplicedKeepsText` | app/page.tsx:69-71 | restyling never changes the document's text |
| `Editing.SplicedSerialize` | app/page.tsx:69-71 | the export after a restyle is the untouched nodes' output around the new wrapper's output |
| `Editing.RestyleAgainWins` | app/page.tsx:41-75 | restyling the wrapper just produced gives the same document as restyling the original selection directly |
| `Editing.FlattenDropsEscapes` | app/page.tsx:49-52 | when only spans carry styles, stripping keeps every text piece and line break of the output and removes every escape |
| `Editing.RestyleReplacesStyles` | app/page.tsx:49-69 | restyling such a selection, made of whole top-level nodes, leaves exactly one escape pair, the new style's, around the selection's plain text: the selection's earlier styles are replaced, not merged (a selection inside a styled span is not covered, see "Left out") |
| `Editing.SplicedKeepsStylesOnSpans` | app/page.tsx:55-71 | after a restyle, only spans still carry styles, so the previous property holds for every later restyle |
| `Editing.ResetExport` | app/page.tsx:79 | the reset document serializes to exactly the placeholder text, which holds no escape character |
| `Editing.BoldWordExample` | app/page.tsx:96-118 | `Hi ` followed by a bold `there` serializes to `Hi ESC[1mthereESC[0m` |
| `Editing.RecolorDropsEarlierStyles` | app/page.tsx:49-118 | colouring text that was made bold and then underlined leaves one blue wrapper, serialized as `ESC[34m` + text + `ESC[0m` |
| `Editing.UnknownColorExample` | app/page.tsx:100-107 | the colour `#123456` gives 37 as a foreground and 43 as a highlight |

## Left out

- Editing.Editor.ApplyStyle: the selection is a contiguous slice of top-level nodes of the editor. The browser's `Range.extractContents` can also split text nodes and elements that are only partly selected, and the selection may lie outside the editor. The model does not capture either case. In particular, a selection lying inside one styled span does not remove that span: `insertNode` (app/page.tsx:71) splits the text and puts the new span inside the old one. The earlier style then stays on the selection, and the inner `ESC[0m` also ends the outer style for the rest of that span. `Editing.RestyleReplacesStyles` and the last `ensures` of this method cover only selections whose ends lie between top-level nodes. `window.getSelection`, selection restoration after the edit (app/page.tsx:73-74) and the clipboard are browser services.
- Typing into the editable `div` is not modelled. The browser changes the document directly when the user types, and the model only covers the operations the page itself performs.
- The CSS assignments `fontWeight`, `textDecoration`, `color` and `backgroundColor` (app/page.tsx:59-67) are left out. They only affect how the page looks, and the serializer never reads them.
- The clipboard write, the `alert`s, `console.error` and the try/catch around them (app/page.tsx:130-135) are left out. They are I/O, and only the fenced string they carry is modelled.
- The `editorRef.current` null checks (app/page.tsx:78, 124) are left out. The editor element is always mounted while its buttons can be pressed.
- React state, the colour-picker swatch lists, their `onChange` wiring and the page layout (app/page.tsx:14-16, 138-272) are left out. They are UI glue. The picker supplies the `(style, value)` pair, and the model takes that pair as a parameter.
- DOM node kinds other than text and elements (comments, for example) are left out. The editor does not create them.
- Ansi.ForegroundCode, Ansi.BackgroundCode: the tables are modelled as plain dictionaries.
  - In the source they are JavaScript objects, so a lower-cased value naming an inherited property (`constructor`, `__proto__`) would find that property, not the fallback. The model does not capture this.
  - Lower-casing is ASCII only, while JavaScript's `toLowerCase` covers all of Unicode. The only non-ASCII characters whose lower-case form contains an ASCII letter are the Kelvin sign (to `k`) and dotted capital I (to `i` and a combining dot). Neither can complete a table key, which uses only `#`, digits and `a`–`f`, so every lookup has the same outcome.
