# ASCII art from a published coordinate table

This project models, in Dafny, the core of `fetch_from_google_doc.py`. That
script reads a published document that holds a table of coordinates and
draws the table as ASCII art. The model covers three parts:

- **`CoordinateTableParser`** collects the text of each `<td>` cell closed by
  `</td>`, in each `<tr>` row inside a `<table>` closed by `</tr>`. Each cell's text has non-breaking spaces
  turned into plain spaces and then loses its surrounding whitespace. The
  tokenizer that the parser is built on is not modelled. Its output, a stream
  of start-tag, end-tag and text events, is the input here (`TableParser.Event`).
  The three handlers become `StartTag`, `EndTag` and `HandleData`. `Feed`
  folds them over a stream, and `Parse` is the list of rows a fresh parser
  ends with.
- **`get_coordinate_data`** (`Decoder.Decode`) skips the first row, which it
  treats as a header. It turns each later row into a point `(x, y, glyph)`:
  `x` comes from the first cell, the glyph from the second (a space if that
  cell is empty) and `y` from the third. Rows that are too short, or whose
  coordinates are not integers, are dropped.
- **`render_ascii_art`** (`Renderer.Render`) sizes a grid to the bounding box
  of the points, with the y axis pointing up. It writes each glyph into its
  cell, so a later point on the same spot wins, and joins the rows into
  newline-separated text.

`Pipeline.FetchAndRender` chains the three parts for a downloaded page. It
returns which of the three reports the script would print.

Modules:

- `Wrappers` holds `Option`.
- `Text` holds Python's whitespace, `strip`, `replace`, `int()` on decimal
  text and `join`.
- `TableParser` is the parser.
- `FilterMaps` holds the keep-what-converts loop shape.
- `Decoder`, `Renderer` and `Pipeline` are the remaining parts.

Where the parser's behaviour may surprise a reader, the model follows the code:

- `</table>` only clears `in_table`. Rows of every later table are collected
  too, not only those of the first one (`TableParser.EveryTableIsCollected`).
- `</table>` leaves `in_row` and `in_cell` as they were
  (`TableParser.EndTableOnlyLeavesTable`).
- End tags that HTML lets a page omit are not filled in. A `<td>` without
  `</td>` loses its text when the next `<td>` empties the buffer, and a
  `<tr>` without `</tr>` is never collected, whether the next `<tr>` or
  `</table>` follows it (`TableParser.UnclosedCellIsLost`,
  `TableParser.UnclosedRowIsLost`). A row whose last `</td>` is missing is
  collected one cell short (first half of
  `TableParser.CellClosedAfterRowEndJoinsCollectedRow`).
- `<th>` is not recognised. A header row written with `<th>` cells collects
  nothing, so it is dropped as empty. The first `<td>` row then takes its
  place as the skipped header, and its point is never drawn
  (`TableParser.HeaderRowIsDropped`, `Pipeline.HeaderCellsCostFirstDataRow`).
- `rows.append(self.current_row)` stores the list object itself. A `<td>`
  still open at `</tr>` and closed afterwards therefore adds its text to the
  row already collected. The state's `rowRecorded` flag models this sharing
  (`TableParser.CellClosedAfterRowEndJoinsCollectedRow`).
- Whitespace means what Python's `str.isspace()` accepts, and that includes
  U+00A0 (`Text.IsSpace`).
  `int()` trims a narrower set: among the characters below U+007F it trims
  only ASCII whitespace, so the separators U+001C to U+001F around a number
  make it fail (`Text.ParseInt`, `Text.SeparatorPaddingFails`).

## Model

| member | source | states |
|---|---|---|
| TableParser.StartTag | fetch_from_google_doc.py:16-24 | a start tag never collects a row and at most opens a cell with an empty buffer; an unrecognised tag, `th` included, changes nothing; the table flag is set exactly when it was set or the tag is `table` |
| TableParser.EndTag | fetch_from_google_doc.py:26-36 | an end tag never touches the cell buffer; it adds exactly one row when it is a `</tr>` closing an open row with cells, and none otherwise; an unrecognised tag changes nothing; the table flag is cleared exactly by `</table>` |
| TableParser.HandleData | fetch_from_google_doc.py:38-40 | text leaves the collected rows and the current row as they were and can only extend the buffer; outside a cell nothing changes |
| TableParser.Step | fetch_from_google_doc.py:16-40 | an event adds at most one row, and adds one exactly when it is a `</tr>` that closes an open row with cells |
| TableParser.Feed | fetch_from_google_doc.py:16-40 | over a stream the rows never get fewer, and at most one is added per event |
| TableParser.Parse | fetch_from_google_doc.py:95-96 | a page yields at most as many rows as it has events |
| TableParser.DataOnlyExtendsBuffer | fetch_from_google_doc.py:38-40 | a text event changes nothing but the cell buffer; inside a cell the text is appended to it, elsewhere nothing changes |
| TableParser.EndTableOnlyLeavesTable | fetch_from_google_doc.py:35-36 | `</table>` clears the table flag and leaves every other field, including an open row or cell, as it was |
| TableParser.StepKeepsValid | fetch_from_google_doc.py:16-40 | every handler keeps the parser invariant: collected rows are non-empty and made of finished cells, and a row already collected is the one still being built |
| TableParser.FeedKeepsValid | fetch_from_google_doc.py:16-40 | the invariant holds after any stream of events |
| TableParser.ParsedRowsAreCleanAndNonEmpty | fetch_from_google_doc.py:27-34 | every collected row has at least one cell, and no cell contains U+00A0 or starts or ends with whitespace |
| TableParser.StepRows | fetch_from_google_doc.py:27-34 | the rows grow by exactly the current row on a `</tr>` that closes a non-empty row, and at no other event; earlier rows never change; the last row changes only when a cell left open after its `</tr>` is finished, and then that cell is appended |
| TableParser.FeedRows | fetch_from_google_doc.py:31-34 | over any stream the rows only grow, and every row before the last one collected keeps its contents |
| TableParser.NoTableNoRows | fetch_from_google_doc.py:16-22 | a stream with no `<table>` start yields no rows |
| TableParser.FeedCells | fetch_from_google_doc.py:22-30 | inside an open row, each `<td>text</td>` appends the normalised text, in order |
| TableParser.FeedRow | fetch_from_google_doc.py:19-34 | inside a table, a `<tr>` of `<td>` cells adds its normalised row, unless the row has no cells |
| TableParser.ParseTable | fetch_from_google_doc.py:16-36 | a table written as events parses to its non-empty rows with normalised cells |
| TableParser.ParseTableRoundTrip | fetch_from_google_doc.py:16-36 | non-empty rows of already finished cells come back from writing and parsing unchanged |
| TableParser.EveryTableIsCollected | fetch_from_google_doc.py:35-36 | two tables in a row yield the rows of both, first table first |
| TableParser.UnclosedCellIsLost | fetch_from_google_doc.py:22-30 | a `<td>` left without `</td>` contributes nothing: after the next cell closes, the row has gained only that cell's text |
| TableParser.UnclosedRowIsLost | fetch_from_google_doc.py:19-34 | a `<tr>` of cells left without `</tr>` and followed by the next `<tr>` or by `</table>` adds no row |
| TableParser.HeaderCellsChangeNothing | fetch_from_google_doc.py:16-24 | `<th>` events leave a parser that is not in a cell exactly as it was |
| TableParser.HeaderRowIsDropped | fetch_from_google_doc.py:31-34 | a `<th>` header row is not collected; the rows are exactly those of the `<td>` rows |
| TableParser.CellClosedAfterRowEndJoinsCollectedRow | fetch_from_google_doc.py:27-34 | a `<td>` open at `</tr>` is missing from the row when it is collected, and is appended to that collected row when it is closed later |
| Text.CellText | fetch_from_google_doc.py:29 | a cell contains no U+00A0 and has no whitespace at either end |
| Text.Strip | fetch_from_google_doc.py:29 | the result is a slice of the text with only whitespace around it and no whitespace at its ends |
| Text.ReplaceChar | fetch_from_google_doc.py:29 | the result has the text's length, and each character is the replacement where the text had the replaced character and the text's own character elsewhere |
| Text.CellTextIsStrip | fetch_from_google_doc.py:29 | the cell is a slice of the buffer with U+00A0 turned into spaces, and only whitespace lies outside it |
| Text.StripUnique | fetch_from_google_doc.py:29 | there is only one such slice, so `Strip` is Python's `strip()` |
| Text.CellTextIdempotent | fetch_from_google_doc.py:29 | normalising a cell a second time changes nothing |
| Text.CleanCellIsFixed | fetch_from_google_doc.py:29 | text without U+00A0 and without whitespace at its ends is its own cell text |
| Text.ParseInt | fetch_from_google_doc.py:51-53 | `int()` succeeds exactly when the stripped text is an optional sign followed by at least one digit and no U+001C to U+001F character, which `int()` does not trim, occurs in the text; the value of each accepted literal is stated by `Text.ParseIntOfLiteral` |
| Text.ParseIntOfLiteral | fetch_from_google_doc.py:51-53 | every spelling `int()` accepts reads as the number it spells: an optional `+` or `-`, any number of leading zeros and the digits of `n`, padded with whitespace `int()` trims, give `n`, or `-n` after a minus (so `"+07"` is 7 and `"-0"` is 0) |
| Text.ParseIntRoundTrip | fetch_from_google_doc.py:51-53 | the decimal text of any integer, padded with whitespace that `int()` trims, parses back to that integer |
| Text.SeparatorPaddingFails | fetch_from_google_doc.py:51-53 | the text of an integer after a U+001C to U+001F character does not parse, although `str.isspace()` holds for that character |
| Text.Concat | fetch_from_google_doc.py:84 | `''.join` gives a text that starts with the first part and is at least as long as every part |
| Text.ConcatOfSingles | fetch_from_google_doc.py:84 | joining one-character parts gives one character per part, in order |
| Text.JoinLines | fetch_from_google_doc.py:84 | `'\n'.join` of no lines is empty, and of `n` lines is at least `n - 1` characters long |
| Text.JoinLinesLayout | fetch_from_google_doc.py:84 | when every line is `w` characters wide, line `k` starts at `k * (w + 1)` of the joined text, a newline follows every line but the last, and nothing follows the last |
| Decoder.DecodeRow | fetch_from_google_doc.py:49-56 | a row yields a point exactly when it has at least three cells and its first and third cells parse; the glyph is never empty |
| Decoder.DecodeRowOfParsed | fetch_from_google_doc.py:50-54 | a row whose first and third cells parse to `x` and `y` decodes to the point `(x, y)` with the glyph of its second cell |
| Decoder.Glyph | fetch_from_google_doc.py:52 | the glyph is never empty: it is the middle cell when that has text, and a single space when it is empty |
| Decoder.DecodeAll | fetch_from_google_doc.py:47-57 | the data rows give at most one point each, and every glyph is non-empty |
| Decoder.Decode | fetch_from_google_doc.py:43-48 | fewer than two rows yield no points; otherwise there are at most as many points as rows after the header, and every glyph is non-empty |
| Decoder.DecodeIsInOrderImage | fetch_from_google_doc.py:47-57 | the points are the decodings, in order, of exactly the rows after the header that decode |
| Decoder.HeaderIsIgnored | fetch_from_google_doc.py:46-48 | the first row's contents never affect the points |
| Decoder.DecodeAppend | fetch_from_google_doc.py:48-56 | after the header, a row that does not decode adds nothing, and one that does adds its point at the end |
| Decoder.DecodeRowRoundTrip | fetch_from_google_doc.py:49-54 | a row holding a point's coordinates as text around its non-empty glyph decodes back to that point |
| Decoder.EmptyGlyphIsSpace | fetch_from_google_doc.py:52 | an empty glyph cell decodes to a single space |
| Renderer.Min | fetch_from_google_doc.py:66-67 | `min` returns an element of the list that is at most every element |
| Renderer.Max | fetch_from_google_doc.py:66-67 | `max` returns an element of the list that is at least every element |
| Renderer.Bounds | fetch_from_google_doc.py:64-79 | width and height are at least 1, and every point passes the plotting guard, so the guard never drops a point |
| Renderer.BoundsAreTight | fetch_from_google_doc.py:64-67 | each side of the bounding box touches a point |
| Renderer.LastGlyphIsLast | fetch_from_google_doc.py:76-80 | a spot has no glyph exactly when no point is there; otherwise its glyph is that of a point there that no later point there follows |
| Renderer.Blank | fetch_from_google_doc.py:73 | the grid has `height` rows of `width` cells, and every cell is a space |
| Renderer.PlotPoint | fetch_from_google_doc.py:77-80 | the grid keeps its shape; a point the guard accepts puts its glyph in its own cell, one it rejects changes nothing, and every other cell keeps its contents |
| Renderer.PlotAll | fetch_from_google_doc.py:76-80 | the plotting loop keeps the grid's shape; its contents are stated by `Renderer.PlotAllCell` |
| Renderer.PlotAllCell | fetch_from_google_doc.py:76-80 | after the loop a cell holds the glyph of the last point written to it, or its earlier contents if none was |
| Renderer.Plotted | fetch_from_google_doc.py:63-80 | the filled grid has one row per line of the bounding box and one cell per column; its contents are stated by `Renderer.PlottedCell` |
| Renderer.PlottedCell | fetch_from_google_doc.py:73-80 | last write wins: the cell for `(x, y)` holds the last glyph plotted there, or a space if no point is there |
| Renderer.Lines | fetch_from_google_doc.py:84 | there is one line per grid row, and each line is that row's cells joined |
| Renderer.Render | fetch_from_google_doc.py:59-61 | there is no art exactly when there are no points |
| Renderer.RenderMatchesReference | fetch_from_google_doc.py:59-84 | the art is the lines of the grid-free description, joined by newlines: line `r` shows y = max_y - r, and column `c` shows x = min_x + c |
| Renderer.RenderLayout | fetch_from_google_doc.py:69-84 | with one-character glyphs the art is `height` lines of exactly `width` characters, each ended by a newline except the last, and each character is the last glyph plotted at its spot or a space |
| Renderer.RenderIsNonEmpty | fetch_from_google_doc.py:73-84 | decoded points, whose glyphs are never empty, always render to a non-empty string |
| Renderer.DuplicateKeepsBounds | fetch_from_google_doc.py:64-70 | a point on a spot already taken leaves the bounding box, and so the grid size, unchanged |
| Renderer.DiagonalExample | fetch_from_google_doc.py:59-84 | the points (0,0,"A"), (1,1,"B") and (-1,-1,"C") render as `"  B\n A \nC  "` |
| Pipeline.FetchAndRender | fetch_from_google_doc.py:95-111 | "no coordinate data" is reported exactly when decoding finds no points |
| Pipeline.RenderNeverFails | fetch_from_google_doc.py:103-111 | the "failed to render" branch is never taken, and the art reported is the rendering of the decoded points |
| Pipeline.NoTableNoCoordinates | fetch_from_google_doc.py:95-101 | a page without a table reports no coordinate data |
| Pipeline.HeaderCellsCostFirstDataRow | fetch_from_google_doc.py:43-57 | after a `<th>` header row, the points come from the `<td>` rows after the first one only |

## Left out

- The download in `fetch_and_render` is not modelled: the HTTP request, its timeout and its error report. The page comes in as the parser's events.
- The script's printing is not modelled. `Pipeline.FetchAndRender` returns which report would be printed.
- `main` and its prompt for a URL are not modelled, since they are I/O.
- The HTML tokenizer (`HTMLParser.feed`) is not modelled. It lower-cases tag names, decodes character references, and splits text into data events, possibly several per cell. The model takes the resulting event stream as input.
- Tag attributes are not modelled, because the handlers ignore them.
- Text.ParseInt: covers an optional `+`/`-` and ASCII digits after Python's whitespace strip. It does not accept the `_` digit separators or the non-ASCII decimal digits that Python's `int()` also accepts. Rows that use them decode in Python but are dropped here.
- Text.ParseInt: has no limit on the number of digits. Python 3.11 and later, and the security releases of earlier versions, refuse text of more than 4300 digits by default, and the row is then dropped. The limit depends on the interpreter's version and configuration, so `Text.ParseIntRoundTrip` and `Decoder.DecodeRowRoundTrip` hold here for integers of any length.
- Renderer.RenderLayout: states the character-by-character layout only for one-character glyphs. A longer glyph widens its line, and that case is covered only by `Renderer.RenderMatchesReference`.
- Renderer.Render: the grid has `width * height` cells whatever the number of points, so two points far apart, such as x = 0 and x = 10^12, exhaust memory. Python then raises `MemoryError`, which `fetch_and_render` does not catch. The model has no memory bound: it returns the art, and `Pipeline.FetchAndRender` reports it as rendered.
- Pipeline.RenderNeverFails: holds only as long as the grid fits in memory. On a bounding box too large for memory the script dies with `MemoryError` before it reports anything.
