# x-cell spreadsheet view, modelled in Dafny

This project models the logic of the x-cell spreadsheet widget's view (`TableView` in
`client/js/table-view.js`) and its range helpers (`client/js/array-util.js`):

- **Footer sums.** `renderTableFooter` parses every cell of each column with ECMAScript
  `parseInt(s, 10)`. It adds up the numbers (NaN counts as 0) and shows the string `"0"` when the
  sum is zero and some cell parsed. Otherwise it shows the numeric sum.
- **The current cell.** `currentCellLocation` is set by `initCurrentCell` to (0, 0). A click sets
  it to the clicked `TD`'s `cellIndex` and its row's `rowIndex - 1`.
- **Rendering.** The body marks exactly the current cell with `current-cell`. The formula bar
  shows the stored value at the current cell, or `''` when that value is absent or empty.
- **Edit commit.** On `keyup`, `handleFormulaBarChange` writes the formula-bar text into the
  store at the current cell, then re-renders the body and footer.
- **Range helpers.** `getRange` builds consecutive integers. `getLetterRange` turns consecutive
  character codes into one-letter strings, and `getLetter` returns the last such letter.

Files and modules:

- `wrappers.dfy` (`Wrappers`): `Option`. It stands for JavaScript `undefined` (an absent store
  value) and `NaN` (a failed parse).
- `array_util.dfy` (`ArrayUtil`): `GetRange`, `GetLetterRange` and `GetLetter`. They work on
  UTF-16 code units (`JsString = seq<CodeUnit>`), so the 16-bit wrap-around of
  `String.fromCharCode` is written out (`ToUint16`). An empty first letter has char code NaN,
  which gives an empty range and the letter U+0000.
- `parse_int.dfy` (`JsNumber`): `ParseInt`, which is `parseInt(s, 10)` as in section 19.2.5 of
  ECMA-262 (2022). It also has `IntToString`, the decimal text JavaScript shows for an integer.
  White space is the StrWhiteSpaceChar set: TAB, VT, FF, ZWNBSP, the Unicode Space_Separator
  code points and the four line terminators.
- `grid.dfy` (`Store`): the store the view reads and writes. Its code (`table-model.js`) is not
  part of this model. `Grid` is a snapshot: a map from `Location` to string, plus `numCols` and
  `numRows`. The `TableModel` class is the mutable object the view holds and writes through.
- `footer.dfy` (`TableFooter`): specification functions for the footer fold. `RenderFooter` and
  `ScanColumn` are its two loops, each proved equal to the specification. The lemmas compare
  the fold with an independent definition, the sum of the values of the rows that parse.
- `body.dfy` (`TableBody`): the body grid, its highlight rule, the formula-bar text and the
  click-to-location conversion.
- `table_view.dfy` (`View`): the `TableView` class. Its fields are `currentCellLocation`, the
  formula-bar value, and the rendered header, body and footer. Each handler's contract gives the
  complete new state.

Facts about `table-view.js` that shape the model:

- It has no row or column selection, no value shifting and no add-row or add-column handler.
  The test file calls `handleAddRow` and `handleAddCol`, but `table-view.js` does not define
  them.
- The initial current cell is (0, 0).
- The footer sums column 0 like every other column.
- The header has `numCols` letter labels starting at `A`, with no blank first label. The header
  test expects a blank first label.

## Model

| member | source | states |
|---|---|---|
| `ArrayUtil.GetRange` | client/js/array-util.js:1-4 | `getRange(from, to)` has `to - from + 1` elements (none when `to < from`), and element `i` is `from + i` |
| `ArrayUtil.GetLetterRange` | client/js/array-util.js:6-11 | `getLetterRange(first, n)` has `n` labels (none for negative `n` or an empty `first`); label `i` is the one-unit string with code `code(first) + i` modulo 2^16 |
| `ArrayUtil.GetLetter` | client/js/array-util.js:13-17 | `getLetter(first, n)` is one code unit; for `n >= 1` it is the last label of `getLetterRange(first, n)`; for an empty `first` it is U+0000 |
| `ArrayUtil.GetRangeLength` | client/js/array-util.js:1-4 | `getRange(from, to)` has `to - from + 1` elements, and is empty (not an error) when `to < from` |
| `ArrayUtil.GetRangeAt` | client/js/array-util.js:2-3 | element `i` is `from + i`, and each element is one more than the one before |
| `ArrayUtil.GetRangeEnds` | client/js/array-util.js:1-4 | when `from <= to` the range is non-empty, starts at `from` and ends at `to` |
| `ArrayUtil.GetRangeMembers` | client/js/array-util.js:1-4 | `x` is in the range iff `from <= x <= to`, and the range is strictly increasing |
| `ArrayUtil.GetLetterRangeLength` | client/js/array-util.js:6-11 | `getLetterRange(first, n)` has `n` labels for `n >= 0` and a non-empty `first`; none for negative `n` or an empty `first` (char code NaN) |
| `ArrayUtil.GetLetterRangeAt` | client/js/array-util.js:7-10 | label `i` is the one-unit string with code `code(first) + i` modulo 2^16, and exactly that code when it is below 2^16 |
| `ArrayUtil.GetLetterIsLastOfRange` | client/js/array-util.js:13-17 | for `n >= 1`, `getLetter(first, n)` is the last of the `n` labels of `getLetterRange(first, n)` |
| `ArrayUtil.GetLetterBeforeFirst` | client/js/array-util.js:13-17 | for `n <= 0` the range is empty, but `getLetter` still returns the letter with code `code(first) + n - 1` (e.g. '@' for 'A', 0) |
| `ArrayUtil.LettersAreSingleUnits` | client/js/array-util.js:7-10 | for any first letter and any count, every label is a single code unit |
| `ArrayUtil.LettersDoNotWrapToTwoLetters` | client/js/array-util.js:7-10 | from 'A' with more than 26 labels, label 25 is 'Z' and label 26 is '[', not "AA" |
| `ArrayUtil.GetLetterRangeDistinct` | client/js/array-util.js:6-11 | with at most 65536 labels, all labels are pairwise distinct |
| `ArrayUtil.GetLetterRangeWraps` | client/js/array-util.js:10 | with more than 65536 labels, `fromCharCode`'s 16-bit wrap makes label 65536 equal to label 0 |
| `ArrayUtil.SixColumnHeader` | client/js/table-view.js:44-49 | the header of a six-column sheet is `A` to `F`, with no blank leading label |
| `JsNumber.TrimStartRemovesLeadingWhiteSpace` | client/js/table-view.js:83 | parseInt's trimming removes a run of white space from the front, all of it, and nothing else |
| `JsNumber.DigitPrefixIsLongestDigitRun` | client/js/table-view.js:83 | the digits parseInt reads are a prefix of the text, all decimal digits, and not followed by a digit |
| `JsNumber.ParseInt` | client/js/table-view.js:83 | `parseInt(s, 10)` gives NaN iff no digit follows the leading white space and optional sign, and gives a negative number only after a '-' |
| `JsNumber.ParseIntOfDisplayed` | client/js/table-view.js:83 | the decimal text of any integer, followed by text that does not start with a digit, parses to that integer |
| `JsNumber.ParseIntRoundTrip` | client/js/table-view.js:83-88 | parsing the displayed text of an integer gives the integer back |
| `JsNumber.ParseIntSkipsWhiteSpace` | client/js/table-view.js:83 | leading white space does not change the result |
| `JsNumber.ParseIntOfSignedDigits` | client/js/table-view.js:83 | any white space, an optional '+' or '-', a run of digits (leading zeros allowed) and text not starting with a digit parse to the run's decimal value, negated after '-' |
| `JsNumber.ParseIntLeadingZerosExample` | client/js/table-view.js:83 | '  +007x' gives 7 |
| `JsNumber.ParseIntExamplesValid` | client/js/test/table-view.test.js:40-54 | '5' gives 5, '-5' gives -5, '0' gives 0, and '+42px' gives 42 |
| `JsNumber.ParseIntExamplesNaN` | client/js/test/table-view.test.js:67-68 | 'invalid', '#*$&' and 'undefined' (an absent value converted to text) give NaN |
| `JsNumber.ParseIntEmptyIsNaN` | client/js/table-view.js:83 | the empty string gives NaN |
| `JsNumber.ParseIntSignOnlyIsNaN` | client/js/table-view.js:83 | a sign with no digits gives NaN |
| `Store.Grid.Set` | client/js/table-view.js:99 | `setValue` makes the key read back as the value written; every other key and both dimensions are unchanged |
| `Store.TableModel.constructor` | client/js/test/table-view.test.js:38 | a new store has the given dimensions and no values |
| `Store.TableModel.SetValue` | client/js/table-view.js:99 | the store's new state is the old one with exactly that key overwritten |
| `TableFooter.RenderFooter` | client/js/table-view.js:77-90 | the footer has exactly `numCols` cells (none for a negative count), cell `c` being column `c`'s footer cell |
| `TableFooter.ScanColumn` | client/js/table-view.js:80-86 | the row loop's `sum` is the fold over the column of each parse result, NaN counting as 0, and `hasValue` says that some row parsed |
| `TableFooter.FoldStep` | client/js/table-view.js:82-85 | each row adds its parse result (0 for NaN) to the sum, and a row that parses sets the flag |
| `TableFooter.ColumnSumIsSumOfParsed` | client/js/table-view.js:80-86 | the sum equals the sum of the parse results of exactly the rows that parse, and `hasValue` holds iff at least one row parses, one holding "0" included |
| `TableFooter.FooterCellOf` | client/js/table-view.js:80-88 | a column's cell is the string "0" iff some row parses and the parsed values sum to 0; otherwise it is the numeric sum of the parsed values |
| `TableFooter.Footer` | client/js/table-view.js:79-89 | the footer has one cell per column (none for a negative count); cell `c` is "0" iff some row of column `c` parses and the parsed values sum to 0, and otherwise their numeric sum |
| `TableFooter.NoParseableCellGivesNumericZero` | client/js/table-view.js:80-88 | a column where no row parses shows numeric 0, not the string "0" |
| `TableFooter.FooterText` | client/js/table-view.js:88 | the text `createTD(sum)` shows, taken to be the decimal text of a number and "0" for the string: it parses back to the cell's value, 0 for "0" (an assumption: see Left out) |
| `TableFooter.FooterTextReadsBack` | client/js/table-view.js:87-88 | under the same assumption about `createTD`, the text of a footer cell parses back to the column's sum, and the "0" branch shows the same text as numeric 0 |
| `TableFooter.ColumnSumUpdate` | client/js/table-view.js:84 | replacing one row's value changes the sum by the new row's contribution minus the old row's |
| `TableFooter.FooterAfterSet` | client/js/table-view.js:97-101 | a commit changes only its own column's footer, by the difference of the contributions; a write outside the grid changes no footer cell |
| `TableFooter.FooterExamples` | client/js/test/table-view.test.js:36-73 | in a 3 by 3 sheet, column 2 holding '5','3' shows 8; '5','-5' shows the string "0"; '5','invalid' shows 5 |
| `TableFooter.FooterSumExample` | client/js/test/table-view.test.js:35-46 | '5' and '3' in column 2 give the footer cell 8 |
| `TableFooter.FooterZeroStringExample` | client/js/test/table-view.test.js:48-59 | '5' and '-5' in column 2 give the string "0" |
| `TableFooter.FooterInvalidExample` | client/js/test/table-view.test.js:61-73 | '5' and 'invalid' in column 2 give 5 |
| `View.EditedColumnFooter` | client/js/test/table-view.test.js:79-97 | after '65' is committed at column 1, row 0 of a 3 by 3 sheet, column 1's footer cell is 65 |
| `TableFooter.FooterHasNoExtraColumn` | client/js/test/table-view.test.js:62-75 | a value stored at column 3 of a 3-column sheet adds no footer cell and leaves column 2's cell unchanged |
| `TableBody.IsCurrentCell` | client/js/table-view.js:51-54 | true iff both the row and the column equal the current cell's |
| `TableBody.RenderBody` | client/js/table-view.js:56-75 | the body has `numRows` rows of `numCols` cells; each cell shows the stored value and is marked iff it is the current cell |
| `TableBody.BodyShowsStore` | client/js/table-view.js:60-63 | every cell in the grid is rendered, showing the store's value at its position |
| `TableBody.HighlightIsCurrentCell` | client/js/table-view.js:51-67 | exactly the current cell is marked `current-cell` when it lies in the grid, and no cell otherwise; never more than one |
| `TableBody.NormalizeValueForRendering` | client/js/table-view.js:28-30 | a stored string is shown as it is; an absent value shows as ''; the result is '' iff the value is absent or empty |
| `TableBody.FormulaBarText` | client/js/table-view.js:32-34 | the formula bar shows the stored value at the current cell, and '' when there is none |
| `TableBody.FormulaBarShowsCommittedText` | client/js/table-view.js:97-99 | after the formula-bar text is written at the current cell, the formula bar derived from the store shows exactly that text |
| `TableBody.ClickLocation` | client/js/table-view.js:105-106 | the clicked location has column `cellIndex` and row `rowIndex - 1`; the row is a body row (not negative) iff `rowIndex` is past the header row |
| `TableBody.ClickSelectsClickedCell` | client/js/table-view.js:104-111 | clicking the cell in body row `r` (`rowIndex` `r + 1`) highlights exactly that cell and puts its value ('' if absent) in the formula bar |
| `View.TableView.constructor` | client/js/table-view.js:5-7 | the view holds the given store |
| `View.TableView.Init` | client/js/table-view.js:9-14 | after init the current cell is (0, 0), the formula bar shows its value, and header, body and footer match the store |
| `View.TableView.InitCurrentCell` | client/js/table-view.js:23-26 | the current cell becomes (0, 0) and the formula bar shows its value |
| `View.TableView.RenderFormulaBar` | client/js/table-view.js:32-36 | the formula bar shows the normalised value at the current cell |
| `View.TableView.RenderTable` | client/js/table-view.js:38-42 | header, body and footer all match the store and the current cell |
| `View.TableView.RenderTableHeader` | client/js/table-view.js:44-49 | the header holds `getLetterRange('A', numCols)` |
| `View.TableView.RenderTableBody` | client/js/table-view.js:56-75 | the body is rebuilt from the store and the current cell |
| `View.TableView.RenderTableFooter` | client/js/table-view.js:77-90 | the footer is rebuilt from the store |
| `View.TableView.HandleFormulaBarChange` | client/js/table-view.js:97-102 | the store is the old store with the formula-bar text written at the current cell and nothing else changed; the current cell and the formula bar are unchanged; the formula bar agrees with the store; body and footer are rebuilt from the new store; a header that matched still matches |
| `View.TableView.HandleSheetClick` | client/js/table-view.js:104-112 | the current cell becomes (`cellIndex`, `rowIndex - 1`); the store is unchanged; the formula bar shows the new cell's value; the body is rebuilt with the new cell marked; a rendered view stays rendered |

## Left out

- DOM work is not modelled: element lookup, `removeChildren`/`createTH`/`createTR`/`createTD`,
  document fragments, `focus()` and event wiring. The model keeps only the values these show.
  `dom-util.js` is not part of this model.
- The store's own code (`table-model.js`) is not part of this model. It is abstracted as a map
  that returns the stored string or nothing.
- Where the click comes from is not modelled. `HandleSheetClick` takes `cellIndex` and
  `rowIndex` as integers; a click that does not land on a `TD` is not modelled.
- Row and column selection, insertion shifting, and `handleAddRow`/`handleAddCol` are not in
  `table-view.js`, so they are not modelled.
- Numbers are unbounded integers, not IEEE doubles. `parseInt` of more than about 15
  significant digits, and sums beyond 2^53, lose precision in JavaScript but not here.
  `parseInt` of more than about 309 digits gives `Infinity` in JavaScript, and a column holding
  both `Infinity` and `-Infinity` sums to `NaN`, so the footer's `sum` is then `Infinity` or
  `NaN`; the model's integers never are. What `createTD` shows for them is not modelled. JavaScript's `-0` is the integer 0.
- TableFooter.FooterText: the text a footer cell shows comes from `createTD(sum)` in
  `dom-util.js`, which is not part of this model. The model assumes `createTD` shows every number
  as its decimal text, 0 included, and the string "0" as itself; nothing in `table-view.js`
  establishes this. Line 87 of `table-view.js` would have no visible effect under that
  assumption, which suggests `createTD` may show numeric 0 differently (for example through a
  falsy check). Integers of magnitude 10^21 and above would also be shown in exponent notation;
  the model shows all their digits.
- TableFooter.FooterTextReadsBack: rests on the same assumption about `createTD`. Its second
  clause, that the "0" branch shows the same text as numeric 0, follows from `FooterText`'s
  definition alone, not from the code.
- GetRange: `Array.from` throws a RangeError for lengths of 2^32 or more and caps lengths at
  2^53 - 1. The model builds a sequence of any length.
- Cell text is a sequence of Unicode code points, not UTF-16 code units. `parseInt` is
  unaffected, because no white space or digit lies outside the Basic Multilingual Plane. Labels
  from `array-util.js` are code units.
- The Space_Separator set is taken as of Unicode 14.
- The default argument `firstLetter = 'A'` is the constant `DefaultFirstLetter`, which callers
  pass in its place.
