# Leader list: selection, tally and rendering

This project models the page script `script.js`. The script reads a Google
Sheets sheet through the Google Visualization API and keeps the rows whose
role column holds the team-leader role `ប្រធានក្រុម-DI`. It tallies the kept
rows by the two Khmer gender literals `ប្រុស` (male) and `ស្រី` (female). It
then fills the page's table body and three statistic cards.

The model has four modules:

- `Cells` (`cells.dfy`) covers the parsed table. A row is the `c` array of a
  `table.rows[i]` entry, a sequence of optional cells. Each cell holds an
  optional scalar `v`. The module defines JavaScript truthiness and the
  `getCellVal` accessor.
- `Unwrap` (`unwrap.dfy`) covers the slice `text.substring(47, text.length - 2)`.
  This slice removes the wrapper around the JSON document. The module follows
  the clamping and argument swapping of `String.prototype.substring`.
- `RowFilter` (`row_filter.dfy`) holds the configured constants, the record
  built from a matching row, and a recursive specification of the selection
  pass. It also gives an independent index-based reference for that pass
  (`SourceRows`), the gender counts, and the selection loop itself as the
  method `SelectRows`.
- `Render` (`render.dfy`) produces abstract display rows, not markup. It
  defines `value || ''` as `Display`, `String.prototype.replace` with a
  one-character string pattern as `ReplaceFirst`, and the Telegram cell. It
  defines the rows `renderTable` produces, the table body as a class whose
  `RenderTable` method appends row by row, and the part of a fetch cycle that
  runs after parsing (`FetchCycle`).

The model follows what the code does, including these less obvious behaviours:

- The Telegram username drops the FIRST `@` wherever it stands, because
  `replace` with a string pattern does that. It is not restricted to a leading
  `@`.
- A truthy Telegram value that is not a string makes `replace` throw a
  TypeError inside `renderTable`. The rows already appended stay in the table.
  The statistic cards are not updated. So a failed cycle can leave a partly
  filled table.
- Text shorter than the wrapper is not rejected by the slicing. The clamped
  and swapped `substring` arguments select a slice of its last two
  characters, or the whole text when it has fewer than two.
- No markup escaping is performed, so none is modelled.

## Model

| member | source | states |
|---|---|---|
| `Cells.Truthy` | script.js:105 | definition: JavaScript truthiness of a possibly-null value; null, `''`, `0` and `false` are falsy, as tested by `if (item.telegram)` and `x \|\| ''` |
| `Cells.CellVal` | script.js:56 | null for an index past the end of the row or for a null cell, the cell's `v` otherwise; it never fails on a short row |
| `Cells.ShortRowReadsAsPadded` | script.js:56 | a short row reads exactly like the same row padded with null cells |
| `Unwrap.Substring` | script.js:44 | definition: `String.prototype.substring`, both arguments clamped to `[0, length]` and swapped when the start lies after the end |
| `Unwrap.Payload` | script.js:44 | definition: `text.substring(47, text.length - 2)`, the text handed to `JSON.parse` |
| `Unwrap.SubstringInRange` | script.js:44 | `substring` with in-range, ordered arguments is the plain slice |
| `Unwrap.SubstringSymmetric` | script.js:44 | `substring(a, b)` equals `substring(b, a)` (arguments are swapped when reversed) |
| `Unwrap.PayloadOfWrapped` | script.js:44 | for text of length at least 49 the payload is `text[47 .. len-2]`, of length `len - 49` |
| `Unwrap.PayloadRoundTrip` | script.js:44 | a document wrapped in any 47-character prefix and 2-character suffix comes back unchanged |
| `Unwrap.PayloadOfShortText` | script.js:44 | text shorter than 49 characters yields a slice of its last two characters: both for lengths 2 to 47, the second-to-last alone at length 48, the whole text below length 2 |
| `RowFilter.Matches` | script.js:58-61 | definition: the row's column-18 value strictly equals the filter role |
| `RowFilter.ToRecord` | script.js:64-71 | definition: the record of a row, id, name, gender, group, role and telegram read with `getCellVal` at columns 4, 11, 13, 6, 18 and 22 |
| `RowFilter.Selected` | script.js:52-71 | definition: the records pushed by the loop for the rows from index 8 below a bound, in row order |
| `RowFilter.Filtered` | script.js:47-71 | definition: `filteredData` after the loop has run over every row |
| `RowFilter.CountGender` | script.js:73-78 | definition: the number of records whose gender strictly equals a given literal |
| `RowFilter.TallyOf` | script.js:82-83 | definition: the figures handed to `updateStats`: `filteredData.length` and the male and female counts |
| `RowFilter.SourceRows` | script.js:52-61 | reference definition of the examined, matching row indices; each lies in `[8, hi)` |
| `RowFilter.SelectRows` | script.js:47-80 | the loop from index 8 returns exactly `Filtered(rows)`; `male` and `female` are the counts of records whose gender strictly equals the male or female literal |
| `RowFilter.SelectedIgnoresHeader` | script.js:51-52 | the selection up to any bound does not depend on the eight rows before index 8 |
| `RowFilter.HeaderRowsNeverSelected` | script.js:51-52 | rows 0..7 never affect the records, and a sheet of at most eight rows yields none |
| `RowFilter.RecordsAtIndex` | script.js:64-71 | the records built at a list of indices are, position by position, the records of those rows |
| `RowFilter.SelectedIsRecordsAt` | script.js:52-71 | the selection equals the records built at the selected indices, in order |
| `RowFilter.SelectedFromSourceRows` | script.js:52-71 | one record per matching index, in order, each built from the row at that index |
| `RowFilter.SourceRowsExactly` | script.js:52-61 | an index is selected iff it is at least 8, below the bound, and its role cell strictly equals the filter role |
| `RowFilter.SourceRowsIncreasing` | script.js:52 | selected indices are strictly increasing (source-row order) |
| `RowFilter.FilteredCharacterization` | script.js:52-71 | records correspond one-to-one and in order to the examined rows whose role matches; each has role = filter role and id, name, gender, group, telegram = the cells at columns 4, 11, 13, 6, 22 of its row |
| `RowFilter.CountGenderAppend` | script.js:73-78 | the gender count of a concatenation is the sum of the counts |
| `RowFilter.TallyBound` | script.js:73-83 | `male + female <= total`, with equality iff every record's gender is one of the two literals |
| `Render.Display` | script.js:116-120 | definition: `value \|\| ''`, a truthy value shown as it is and anything else blank |
| `Render.DisplayBlankIffFalsy` | script.js:116-120 | a field is blank iff its value is null or falsy, and otherwise shows that value |
| `Render.FirstIndexOf` | script.js:107 | the position of the first occurrence of a character, or the length when it is absent |
| `Render.ReplaceFirst` | script.js:107 | definition: `replace` with a one-character string pattern, cutting out the character at its first occurrence |
| `Render.ReplaceFirstAbsent` | script.js:106-107 | a string without `@` is left unchanged |
| `Render.ReplaceFirstSplit` | script.js:107 | for `s = a + [c] + b` with no `c` in `a`, replacing gives `a + b` |
| `Render.ReplaceFirstLeading` | script.js:106-107 | `"@alice"` becomes `"alice"` |
| `Render.ReplaceFirstInner` | script.js:107 | only the first `@` is removed, even when it is not leading: `"bob@x@y"` becomes `"bobx@y"` |
| `Render.TelegramFor` | script.js:104-109 | definition: `N/A` for a null or falsy value, a link to the value without its first `@` and with the value as text for a string, a TypeError for any other truthy value |
| `Render.TelegramCases` | script.js:104-109 | `N/A` iff the value is null or falsy; a TypeError iff it is truthy and not a string; a link's text is the original string and its username is that string with its first `@` removed |
| `Render.TelegramOfAlice` | script.js:104-109 | `"@alice"` gives a link to `alice` with text `@alice`; null and `''` give `N/A` |
| `Render.Throws` | script.js:105-107 | definition: rendering the record throws, because its Telegram value is truthy and has no `replace` method |
| `Render.RowFor` | script.js:111-122 | definition: the row for the record at position `index`, numbered `index + 1`, with name, id, gender, group and role displayed and the Telegram cell |
| `Render.RowsFor` | script.js:102-124 | definition: the rows the `forEach` appends, one per step, for the first `n` records |
| `Render.FirstThrowing` | script.js:102-109 | the position of the first record whose Telegram value throws: every earlier record renders |
| `Render.Rendered` | script.js:96-124 | definition: what `renderTable` leaves: the placeholder alone for no records, otherwise the rows appended before the first throwing record, and whether one threw |
| `Render.RowsForNumbered` | script.js:102-124 | the first `n` appended rows are the rows of records `0..n-1`, numbered `index + 1` |
| `Render.RenderedRows` | script.js:96-124 | no records give exactly one placeholder row; otherwise one row per record numbered 1..n with null or falsy fields blank, up to the first throwing record; the render throws iff some record throws |
| `Render.TableBody.Clear` | script.js:33 | the table body is emptied |
| `Render.TableBody.RenderTable` | script.js:96-124 | no records replace the body with the placeholder; otherwise the rendered rows are appended to the old body, and the method reports whether rendering threw |
| `Render.FetchCycle` | script.js:33-83 | after a cycle the body holds exactly the rendered rows of the selected records; the figures (total, male, female) are written only when rendering did not throw |
| `Render.TwoLeadersScenario` | script.js:47-124 | eight header rows of any content, two leaders (male, female) and one other row give two records, tallies (2, 1, 1) and data rows numbered 1 and 2 |

## Left out

- `fetch`, the `response.ok` check and `response.text()`: network I/O and async suspension. `FetchCycle` starts from the already parsed rows.
- `JSON.parse`: a foreign library call. Only the slicing before it (`Unwrap.Payload`) is modelled, and the parsed rows are an input.
- Markup: the placeholder's and rows' HTML, `createElement`, `appendChild`, `innerHTML` strings and the `t.me` URL text. Display rows are abstract values.
- The loader's `active` class, the error message written into the loader, and `console.error`: UI side effects of the `try`/`catch`/`finally`. `FetchCycle` reports a throwing render by returning no figures.
- `updateStats`' writes to `textContent`: `FetchCycle` returns the three figures instead of writing them.
- The print button listener, `window.print` and the `DOMContentLoaded` listener: browser plumbing.
- Unwrap.Payload, Unwrap.PayloadRoundTrip, Unwrap.PayloadOfShortText: positions and lengths count Unicode code points, while JavaScript's `length` and `substring` count UTF-16 code units. The two agree whenever the first 47 and the last 2 characters of the text lie in the Basic Multilingual Plane, as the ASCII wrapper of the Visualization API response does; a text with astral characters there is sliced differently.
- JavaScript numbers are modelled as integers. Floating point and `NaN` (which is falsy) are not modelled.
- The conversion of a displayed non-string value to text: `Field.Shown` keeps the value itself.
- Re-entrancy: two overlapping fetch cycles cannot be expressed in this sequential model.
