# Clipboard matchers for pasted tables

A model of the paste matchers of the quill-table-better editor module
(`src/utils/clipboard-matchers.ts`). When HTML holding a table is pasted, the
editor turns each element into a delta — a list of insert operations, each a
piece of text with a map of formatting attributes — and calls a matcher for
the table elements:

- `applyFormat` folds over a delta and adds one format key (or, for an object
  format, each of its keys in turn) to every operation that does not already
  have it;
- `matchTable` drops a blank row and tags the rest with the row's 1-based
  position (`table-cell`);
- `matchTableCell` gives an empty cell a placeholder newline, rewrites the
  `data-row` of every truthy `table-cell` in place, and tags every
  operation with the cell's position (`table-cell-block`);
- `matchTableCol` puts one `table-col` newline in front of the delta for each
  column a `col` element spans beyond the first;
- `matchTableTemporary` puts one `table-temporary` newline, carrying the
  element's `border`, `cellspacing` and `style` attributes, in front of the
  delta.

`deltas.dfy` (module `Deltas`) holds the data model: attribute values
(`Value`, with JavaScript truthiness), operations (`Op`), deltas as
sequences, the text and length of a delta, the shallow `extend` used by
`applyFormat`, and `MutableDelta`, a delta whose operation list is updated in
place. `clipboard_matchers.dfy` (module `ClipboardMatchers`) holds the
matchers. `applyFormat`, `matchTable` and `matchTableTemporary` are folds and
are modelled as functions; `matchTableCol` (a counting loop) and
`matchTableCell` (which changes its argument) are methods with loops.

The DOM reads the matchers start with are parameters: the row's inner HTML
(`innerHtml`), the index of the row among the table's rows and of the cell
among its row's cells (`rowIndex`, `cellIndex`, -1 when not found, as
`indexOf` gives), the row's `data-row` attribute (`dataRow`, `None` when
absent), the `span` already converted to an integer, the `width` attribute,
and the element's attributes as a map from name to value.

Several lemmas need the delta to have no empty insert (`NoEmptyInserts`):
the editor's `insert` never creates one. Without it, `applyFormat` drops an
empty insert that lacks a truthy value for the key, which the general
contracts (text, length, every operation has the key) still cover.

## Model

| member | source | states |
|---|---|---|
| `Deltas.HasTruthyMeaning` | src/utils/clipboard-matchers.ts:17 | The test an operation passes before it is left alone holds exactly when the key is present with a value other than null, false, zero and the empty string. |
| `Deltas.SpreadThenSet` | src/utils/clipboard-matchers.ts:52 | Spreading a `table-cell` value and setting `data-row` gives an object with `data-row` set and every other field of an object value kept; any non-object value leaves only `data-row`. |
| `Deltas.Extend` | src/utils/clipboard-matchers.ts:22 | The merged attributes have the op's keys plus the format key; every attribute the op had keeps its value; the format value appears only where the key was missing. |
| `Deltas.MutableDelta.Insert` | src/utils/clipboard-matchers.ts:49 | Inserting into the cell's delta appends one operation, or nothing when the text is empty. |
| `ClipboardMatchers.ApplyKey` | src/utils/clipboard-matchers.ts:16-24 | After `applyFormat` with a string format every operation has the key, no operation is added, and the concatenated text is unchanged. |
| `ClipboardMatchers.ApplyKeyKeepsKeys` | src/utils/clipboard-matchers.ts:16-24 | Formatting with one key never removes an attribute key: if every operation had a set of keys, every result operation has that set plus the format key. |
| `ClipboardMatchers.ApplyEntriesAddsKeys` | src/utils/clipboard-matchers.ts:12-14 | Folding an object format's entries keeps the text and leaves every operation with every key it had plus every key the object names. |
| `ClipboardMatchers.ApplyFormatAddsKeys` | src/utils/clipboard-matchers.ts:10-25 | `applyFormat`, with a string or an object format, keeps the concatenated text and leaves every operation carrying every key the format names. |
| `ClipboardMatchers.FormatStepIsFormatOp` | src/utils/clipboard-matchers.ts:17-23 | The push branch and the re-insert branch give the same operation: the existing value of the key wins, otherwise the new value is added. |
| `ClipboardMatchers.ApplyKeyPerOp` | src/utils/clipboard-matchers.ts:16-24 | On a delta without empty inserts, the result has the same operations in order, same texts, every old attribute kept, and the key added only where missing. |
| `ClipboardMatchers.ApplyKeyConcat` | src/utils/clipboard-matchers.ts:16-24 | Formatting a concatenation is the concatenation of the formatted parts. |
| `ClipboardMatchers.ApplyKeyIdempotent` | src/utils/clipboard-matchers.ts:17-18 | Applying a key a second time, with any value, gives the result of applying it once. |
| `ClipboardMatchers.ApplyObjectPerOp` | src/utils/clipboard-matchers.ts:11-14 | On a delta without empty inserts, an object format merges its entries beneath every operation's own attributes (first entry wins for a repeated key). |
| `ClipboardMatchers.ApplyEntriesSplit` | src/utils/clipboard-matchers.ts:11-14 | Applying an object format is applying its entries one after another: splitting the entries splits the fold. |
| `ClipboardMatchers.SingleEntryIsKey` | src/utils/clipboard-matchers.ts:11-14 | A one-entry object format equals the string format with that entry's value. |
| `ClipboardMatchers.StripWhitespace` | src/utils/clipboard-matchers.ts:34 | Removing whitespace leaves no whitespace character, never lengthens the string, keeps exactly the non-whitespace characters of the input, and leaves a string without whitespace unchanged. |
| `ClipboardMatchers.StripWhitespaceConcat` | src/utils/clipboard-matchers.ts:34 | Removing whitespace from a concatenation is the concatenation of the stripped parts, so the kept characters stay in order. |
| `ClipboardMatchers.BlankIffAllWhitespace` | src/utils/clipboard-matchers.ts:34 | A row is blank exactly when every character of its inner HTML is whitespace. |
| `ClipboardMatchers.MatchTable` | src/utils/clipboard-matchers.ts:27-36 | A blank row gives the empty delta; any other row keeps its text and every operation carries `table-cell`. |
| `ClipboardMatchers.MatchTableTagsRow` | src/utils/clipboard-matchers.ts:33-35 | On a non-blank row whose delta has no empty inserts, each operation keeps its own `table-cell` or gets the row's 1-based position, with nothing else changed. |
| `ClipboardMatchers.RowValueChoice` | src/utils/clipboard-matchers.ts:45-47 | The cell's row is its row's `data-row` when that attribute is present and non-empty, and the row's 1-based position otherwise. |
| `ClipboardMatchers.RewriteDataRowSpec` | src/utils/clipboard-matchers.ts:50-54 | Rewriting one operation keeps its text and attribute keys and every attribute but `table-cell`; a truthy `table-cell` becomes an object holding exactly its old fields (none when it was not an object) plus `data-row`, set to the row; an operation without a truthy `table-cell` is unchanged. |
| `ClipboardMatchers.CellPreparedRows` | src/utils/clipboard-matchers.ts:49-54 | After the in-place steps the delta is never empty, gains one placeholder operation (tagged `table-cell`) only when its length was zero, keeps every operation's text, and every truthy `table-cell` in it names the cell's row. |
| `ClipboardMatchers.MatchTableCell` | src/utils/clipboard-matchers.ts:38-56 | The argument delta becomes the placeholder-filled, `data-row`-rewritten delta, and the result is that delta tagged with the 1-based cell position. |
| `ClipboardMatchers.CellPreparedText` | src/utils/clipboard-matchers.ts:49-54 | The in-place steps keep the text, and add one newline only when the delta's length is zero. |
| `ClipboardMatchers.MatchTableCellText` | src/utils/clipboard-matchers.ts:49-55 | A pasted cell keeps its text, or is a single newline when it had none, and every operation carries `table-cell-block`. |
| `ClipboardMatchers.MatchTableCellEmpty` | src/utils/clipboard-matchers.ts:45-55 | An empty cell becomes exactly one newline with `table-cell: {data-row: row}` and `table-cell-block: cell`, where row is the non-empty `data-row` or else the row position. |
| `ClipboardMatchers.RewriteThenFormat` | src/utils/clipboard-matchers.ts:50-55 | One operation after the cell steps: same text; a truthy `table-cell` keeps its other fields and gets the row as `data-row`; its own `table-cell-block` wins over the cell position; other attributes are untouched and none but `table-cell-block` is added. |
| `ClipboardMatchers.MatchTableCellPerOp` | src/utils/clipboard-matchers.ts:50-55 | For a cell with content and no empty inserts, the result has one operation per input operation, each transformed as `RewriteThenFormat` states. |
| `ClipboardMatchers.SpanMarkerCount` | src/utils/clipboard-matchers.ts:59-65 | A zero span counts as one; the number of column markers is the span minus one for a span of two or more and zero otherwise. |
| `ClipboardMatchers.MatchTableCol` | src/utils/clipboard-matchers.ts:58-67 | The result is `max(span-1, 0)` `table-col` newlines carrying the width (a zero span counts as one), followed by the delta unchanged. |
| `ClipboardMatchers.MarkersLength` | src/utils/clipboard-matchers.ts:62-66 | Each column marker put in front of the delta adds exactly one to its length, so the result's length is the input's plus `max(span-1, 0)`. |
| `ClipboardMatchers.PickAttributesSpec` | src/utils/clipboard-matchers.ts:70-75 | The attribute fold yields exactly the accumulated keys plus the listed names the element has, each listed one mapped to the element's value. |
| `ClipboardMatchers.MatchTableTemporary` | src/utils/clipboard-matchers.ts:69-79 | The result is one newline whose only attribute `table-temporary` holds exactly the whitelisted attributes the element has, with their values, followed by the delta unchanged. |

## Left out

- DOM navigation (`parentNode`, `tagName`, `querySelectorAll`, `indexOf`, `getAttribute`, `hasAttribute`) is replaced by parameters; attribute names are taken as already lower-case.
- The conversion of the `span` attribute string to a 32-bit integer is not modelled; `span` is the converted integer.
- The delta library's merging of adjacent inserts with equal attributes in `push`, `insert` and `concat` is not modelled: these are sequence appends, and lengths are stated as the sum of insert lengths so they do not depend on merging. Embeds, retains and deletes are not modelled.
- `extend` is modelled as a shallow map union in which the operation's own attributes win; its deep-copy options and its skipping of `undefined` values are not modelled, since no attribute value here is `undefined`.
- The object spread of a `table-cell` value that is a non-empty string (which would yield its characters under index keys) is modelled as spreading to nothing; numbers, booleans and null spread to nothing as in JavaScript.
- Operations are values: aliasing between the attribute objects of different operations, which the in-place rewrite of `table-cell` could expose, is not modelled.
- `Deltas.Length` counts characters (Unicode scalar values), while the delta library counts UTF-16 code units; the length is only compared with zero, where the two agree.
- JavaScript numbers are modelled as unbounded integers; NaN and fractional values do not arise for row and cell positions.
- Registration of the matchers with the editor's clipboard module, rendering and clipboard events are not part of this file and not modelled.
