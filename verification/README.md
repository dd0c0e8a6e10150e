# Card2PDF in Dafny

Card2PDF is a small desktop tool that tiles card images onto printable PDF
pages with cutting guides between them. It can also import the card list of
a YGOPro deck file, fetching one picture per card id. This project models
the logic of that tool as pure Dafny functions and proves what the code
promises about it.

Three parts are modelled:

- **The tiling engine (`CardPDFWriter`).**
  - `CardPdfWriter` gives the writer as an immutable record: geometry in
    pixels, cursor, page index, open flag, and a trace of painter events.
  - Each painter event is `Line`, `NewPage`, or `Draw` with the target
    rectangle and page.
  - Geometry uses exact real arithmetic. Python's `int()` on a float and
    its `float % int` are written out in `PyNum`.
  - `WriterRuns` runs arbitrary sequences of `addCard`, `addPage` and
    `close` calls. It proves the open/closed guard, that every page has the
    same guides, and that, when a card fits between the margins, every
    drawn card lies inside them.
  - `TilingOrder` proves where the k-th card lands and how many pages the
    document has.
- **The deck import (`ygo_parser.py`).**
  - `YgoParser` covers reading the deck file line by line (with Python's
    universal newlines, so `\r\n` and `\r` line ends read as `\n`),
    counting card ids, and the worker's progress percentage.
  - `YgoImport` covers the download pass, with the download as a parameter,
    and merging the downloaded counts into the card table.
- **The GUI's bookkeeping (`main.py`).**
  - `FormatCheck` covers the settings validator `check_formats_ok` and how
    settings are read.
  - `CardTable` covers the parallel `imageNames`/`images` lists with the
    table's copy column, and parsing the copy counts.

Errors become values:

- The writer's `ValueError` on a closed file is `Failure(FileClosed)`.
- A zero truncated step in the constructor is `Failure(ZeroDivision)`.
- A step (card plus separation, in pixels) strictly between -1 and 1
  truncates to 0 and is the `ZeroDivision` above. A guide-line loop of
  page setup never ends when its step is at most -1 and the first guide
  (half a separation before the margin) lies before the paper edge. The
  model reports that as `Failure(GuidesNeverEnd)` instead of diverging.
- `removeSelected`'s `IndexError` is `Failure(IndexError(row))`.

## Model

| member | source | states |
|---|---|---|
| PyNum.Trunc | Card2PDF/CardPDFWriter.py:39-40 | `int()` on a float rounds toward zero: the result is the whole number at most one away from the input on the side of zero, and 0 exactly on the open interval (-1, 1) |
| PyNum.FloatMod | Card2PDF/CardPDFWriter.py:39-40 | Python's float remainder takes the divisor's sign, lies strictly within the divisor, and differs from the dividend by a whole multiple of it |
| PyNum.FloatModUnique | Card2PDF/CardPDFWriter.py:39-40 | any value in `[0, b)` that differs from `a` by a whole multiple of `b` is the remainder, so the remainder is characterised independently of how it is computed |
| CardPdfWriter.Mm2Pix | Card2PDF/CardPDFWriter.py:17-18 | at 300 dpi a millimetre is between 11 and 12 pixels; only 0 mm maps to 0 px |
| CardPdfWriter.Bleeding | Card2PDF/CardPDFWriter.py:38-40 | the centring margin is non-negative and less than half a truncated step, and the paper minus both margins is a whole number of truncated steps (mirrored for a negative step) |
| CardPdfWriter.Layout | Card2PDF/CardPDFWriter.py:38-41 | the geometry keeps the given sizes, and on both axes the margins leave a whole number of truncated steps |
| CardPdfWriter.Create | Card2PDF/CardPDFWriter.py:20-43 | construction fails with a division by zero exactly when a truncated card-plus-separation step is 0, and never ends exactly when both steps are non-zero but the guide loops would not terminate; so it succeeds exactly when both steps are non-zero and the guides end. On success the geometry is the `Layout` of the pixel sizes (so the margins are the centring bleed), the cursor starts on the margin, the page index is 0, the open flag is whether the file opened, and the trace is exactly the first page's guides with no card |
| CardPdfWriter.GuideCoordsSpec | Card2PDF/CardPDFWriter.py:49-58 | the setup loop visits `start + k*step` for k = 0, 1, …, each below the limit, and stops at the first coordinate that is not below it |
| CardPdfWriter.VerticalGuidePositions | Card2PDF/CardPDFWriter.py:49-52 | the k-th vertical guide is the full-height line at `x = bleed - sep/2 + k*(card+sep)`; every guide is left of the paper edge and the next one would not be |
| CardPdfWriter.HorizontalGuidePositions | Card2PDF/CardPDFWriter.py:55-58 | the k-th horizontal guide is the full-width line at `y = bleed - sep/2 + k*(card+sep)`; every guide is above the paper's bottom edge and the next one would not be |
| CardPdfWriter.StartPage | Card2PDF/CardPDFWriter.py:61-63 | a new page adds a page break and the guides, bumps the page index, draws no card and leaves the cursor alone |
| CardPdfWriter.AddPage | Card2PDF/CardPDFWriter.py:60-63 | fails with the closed-file error exactly when the file is closed; otherwise it appends a page break plus the guides and never moves the cursor |
| CardPdfWriter.PlaceOne | Card2PDF/CardPDFWriter.py:67-78 | one copy: a new page starts exactly when the cursor is below the last row that fits, and then the card goes on the margin; the card is drawn at the cursor with the card's size; the cursor then steps right, or wraps to the margin one row down when no further card fits |
| CardPdfWriter.PlaceOneTrace | Card2PDF/CardPDFWriter.py:68-72 | a placement adds to the painter output either just the card, or a page break, the guides and the card, in that order |
| CardPdfWriter.PlaceCopies | Card2PDF/CardPDFWriter.py:67 | for `n <= 0` the writer is unchanged: no card, no page, same cursor. Otherwise exactly `n` cards are appended to the drawing order and earlier draws are kept |
| CardPdfWriter.PlaceCopiesImages | Card2PDF/CardPDFWriter.py:72 | every card one `addCard` draws shows the image it was given |
| CardPdfWriter.AddCard | Card2PDF/CardPDFWriter.py:65-78 | fails exactly on a closed file. On success it appends `max(n, 0)` draws after the previous ones, and the geometry and open flag are unchanged |
| CardPdfWriter.Close | Card2PDF/CardPDFWriter.py:81-87 | fails exactly on a closed file; on success the writer is closed and nothing else changes |
| WriterRuns.Run | Card2PDF/CardPDFWriter.py:6-11 | a run of calls keeps the geometry, never loses drawn cards or pages, and its only possible error is the closed-file error |
| WriterRuns.RunAppend | Card2PDF/CardPDFWriter.py:6-11 | running two call sequences back to back equals running the first and continuing from its writer, and a raised error ends the run |
| WriterRuns.CloseIsFinal | Card2PDF/CardPDFWriter.py:81-87 | after a successful `close`, every further call raises, including a second `close` |
| WriterRuns.StartPageKeepsPages | Card2PDF/CardPDFWriter.py:61-63 | starting a page preserves the page invariant: every page break is followed by exactly the guides, and the page index counts the breaks |
| WriterRuns.PlaceOneKeepsPages | Card2PDF/CardPDFWriter.py:68-72 | one placement preserves the page invariant |
| WriterRuns.PlaceCopiesKeepsPages | Card2PDF/CardPDFWriter.py:65-78 | `addCard` preserves the page invariant |
| WriterRuns.RunKeepsPages | Card2PDF/CardPDFWriter.py:60-78 | every successful run of calls preserves the page invariant |
| WriterRuns.CreatedPages | Card2PDF/CardPDFWriter.py:43-63 | for any run from a freshly constructed writer, every page, including those `addPage` adds, carries the identical set of guides; apart from the drawn cards the painter output is exactly the guides followed by one page break plus the guides per page, so no other line is ever drawn; the page index equals the number of page breaks |
| WriterRuns.AppendDraw | Card2PDF/CardPDFWriter.py:72 | drawing a card keeps the page invariant, including the guides-only skeleton of the output |
| WriterRuns.AppendPage | Card2PDF/CardPDFWriter.py:61-63 | a page break followed by the guides keeps the page invariant and adds exactly one page break |
| WriterRuns.LaidOutPairwise | Card2PDF/CardPDFWriter.py:68-78 | the layout invariant read pairwise: each card is inside the margins with the card's size, and no card comes before an earlier one in reading order |
| WriterRuns.PlaceOneKeepsLayout | Card2PDF/CardPDFWriter.py:68-78 | when a card fits on each axis, one placement keeps the cursor within the margins and every card inside them, in reading order |
| WriterRuns.PlaceCopiesKeepsLayout | Card2PDF/CardPDFWriter.py:65-78 | `addCard` preserves the layout invariant |
| WriterRuns.RunKeepsLayout | Card2PDF/CardPDFWriter.py:60-87 | every successful run of calls preserves the layout invariant |
| WriterRuns.CreatedLayout | Card2PDF/CardPDFWriter.py:65-78 | when one card fits on each axis, for any run from the constructor: every drawn rectangle lies within `[bleed, paper - bleed]` on both axes, pages never go back, and within a page later cards are never higher |
| TilingOrder.PlacementOrder | Card2PDF/CardPDFWriter.py:65-78 | for any sequence of `addCard` calls on a fresh open writer where a card fits: all succeed, the k-th card drawn is the k-th requested image at page `k / cap` and slot `k % cap` (row-major), and there are `max(1, ceil(N / cap))` pages |
| TilingOrder.CreatedPlacementOrder | Card2PDF/CardPDFWriter.py:41-43 | the same order holds for the writer the constructor returns |
| YgoParser.SplitLinesSpec | Card2PDF/ygo_parser.py:33-34 | iterating over a file opened in text mode yields lines whose concatenation is the file's text with line ends translated (the text itself when it has no `\r`); every line but the last ends with a newline and holds no other, no line is empty, and there are no lines exactly for an empty file |
| YgoParser.Universal | Card2PDF/ygo_parser.py:33 | universal newlines never lengthen the text, empty stays empty and only empty becomes empty, and no `\r` survives |
| YgoParser.UniversalPlain | Card2PDF/ygo_parser.py:33 | a text without `\r` reads unchanged |
| YgoParser.UniversalCrLf | Card2PDF/ygo_parser.py:33 | a text saved with Windows `\r\n` line ends reads back as the `\n` original |
| YgoParser.UniversalCr | Card2PDF/ygo_parser.py:33 | a text saved with classic Mac OS `\r` line ends reads back as the `\n` original |
| YgoParser.LineEndsIrrelevant | Card2PDF/ygo_parser.py:31-38 | a deck file yields the same lines, and so the same card counts, whether it was saved with `\n`, `\r\n` or `\r` line ends |
| YgoParser.Key | Card2PDF/ygo_parser.py:37 | `line[:-1]` is the line without exactly its last character, and empty on an empty line |
| YgoParser.KeyOfLine | Card2PDF/ygo_parser.py:37 | a terminated line keys on its text, a bare newline keys on `""`, and an unterminated last line loses its last real character |
| YgoParser.ParseDeckCounts | Card2PDF/ygo_parser.py:31-38 | the count of every key equals the number of non-comment lines whose truncation is that key |
| YgoParser.ParseDeckTotal | Card2PDF/ygo_parser.py:31-38 | the counts add up to the number of non-comment lines |
| YgoParser.ParseDeckKeys | Card2PDF/ygo_parser.py:32-37 | keys appear once each with count at least 1, and a key is present exactly when some non-comment line names it |
| YgoParser.CommentIgnored | Card2PDF/ygo_parser.py:35-36 | inserting a `#` or `!` line anywhere leaves the result unchanged |
| YgoParser.BumpLookup | Card2PDF/ygo_parser.py:37 | `cards[k] += 1` adds one to `k` and changes no other key |
| YgoParser.FeedAppend | Card2PDF/ygo_parser.py:34-37 | reading two stretches of lines one after the other equals reading them concatenated |
| YgoParser.Progress | Card2PDF/ygo_parser.py:78 | the reported percentage lies in `[0, 100]` and is 100 exactly on the last item |
| YgoParser.ProgressMonotone | Card2PDF/ygo_parser.py:74-78 | the progress never decreases from one item to a later one |
| YgoParser.ReportsClimb | Card2PDF/ygo_parser.py:73-78 | over a whole run, the reports are non-decreasing, stay within `[0, 100]`, and hit 100 only on the last item |
| YgoImport.PutSpec | Card2PDF/ygo_parser.py:127 | `d[k] = v` keeps keys distinct, adds `k`, and reads `v` at `k` and the old value elsewhere |
| YgoImport.DownloadSpec | Card2PDF/ygo_parser.py:122-127 | after the download pass each picture path appears once; every fetched picture is recorded with the count of an id that fetched it; the ids not found are listed in deck order |
| YgoImport.MergeExistingSpec | Card2PDF/ygo_parser.py:139-149 | each listed name that was downloaded gets its old count plus the downloaded one. The old count is the cell's value when it is a non-negative int, else 0. The name leaves the pending map; every other row keeps its cell |
| YgoImport.MergeCountsShiftsCounts | Card2PDF/ygo_parser.py:150-155 | as written, when a downloaded picture fails to load, a later picture's row receives the failed picture's count |
| YgoImport.MergeCountsAgreeWhenAllLoad | Card2PDF/ygo_parser.py:150-155 | when every pending picture loads, the as-written update and the by-name update give the same state |
| YgoImport.MergeCountsByNameSpec | Card2PDF/ygo_parser.py:139-155 | corrected update: existing rows keep names and gain their downloaded count. New rows are exactly the downloaded, unlisted pictures that load, each with its own count. Names stay distinct |
| YgoImport.MergeCountsByNameKeepsCounts | Card2PDF/ygo_parser.py:150-155 | on the input where the as-written update shifts counts, the corrected update gives the loading picture its own count |
| YgoImport.ImportKeepsDistinct | Card2PDF/ygo_parser.py:139-155 | a whole deck import (read, count, fetch, merge) never lists a name (a path string) twice, with the table update as written and corrected alike; the two imports list the same names and images and warn alike, differing only in copy counts |
| FormatCheck.CheckFormats | Card2PDF/main.py:38-52 | the validator accepts exactly what `FormatsOk` describes. A list or tuple passes iff it has two numbers (a bool counts as an int). A dict passes iff every value passes, so the empty dict passes. Anything else fails |
| FormatCheck.DefaultsOk | Card2PDF/main.py:65-68 | the built-in paper, card and separation defaults pass the validator |
| FormatCheck.Choose | Card2PDF/main.py:71-76 | a supplied value that passes the validator is taken as is; a missing or failing one gives the default; so the chosen setting passes whenever the default does |
| FormatCheck.LoadSettings | Card2PDF/main.py:71-76 | each of the three format settings is the file's value when the file supplies one that passes the validator and the built-in default otherwise, so all three pass whatever the file holds |
| FormatCheck.ReloadSettings | Card2PDF/main.py:71-76 | reading back settings that were themselves read gives them unchanged |
| FormatCheck.LoadSettingsAcceptsWrongShapes | Card2PDF/main.py:71-76 | the validator lets through an empty dict as the separation and a bare pair as the paper table |
| FormatCheck.LoadSettingsChecked | Card2PDF/main.py:71-76 | corrected reading: paper and card formats are tables of pairs and the separation is a pair, and a supplied value of the right shape is taken |
| FormatCheck.CheckedIsStricter | Card2PDF/main.py:38-52 | every value the corrected reading accepts, the source's validator accepts too |
| CardTable.FilterAppend | Card2PDF/main.py:110-115 | keeping the names that load works piece by piece and in order: a concatenation keeps the kept parts of each piece, one after the other |
| CardTable.LoadAllAppend | Card2PDF/main.py:110-115 | the loading loop handles the names one after another: the images of a concatenation are the images of each piece in turn, and a single name yields its image exactly when it loads |
| CardTable.AddImgsToTable | Card2PDF/main.py:108-126 | the lists stay aligned, the old rows are untouched, the new rows are the given names that load, in the given order (which decides where each card lands in the PDF), each new row reads 1 copy, and the warning shows exactly when some image fails to load |
| CardTable.AllKeptIffNoneFails | Card2PDF/main.py:125 | the count test `new_len - old_len != len(new_images)` fires exactly when some image fails to load |
| CardTable.AddKeepsDistinct | Card2PDF/main.py:108-116 | adding distinct names not listed yet keeps the list free of repeats |
| CardTable.SelectImages | Card2PDF/main.py:100-106 | a cancelled or empty pick changes nothing and shows no warning. Otherwise the old rows are untouched, and the rows added are exactly the picked names not yet listed whose image loads, in the order they were picked; the warning shows exactly when such a name fails to load. The lists stay aligned |
| CardTable.SelectKeepsDistinct | Card2PDF/main.py:100-106 | picking images never lists a name (a path string) twice |
| CardTable.ClearList | Card2PDF/main.py:128-131 | both lists and the table become empty together |
| CardTable.ParseNumCopies | Card2PDF/main.py:153-162 | all or nothing: if every row holds a non-negative int, the result has one entry per row in row order; if any row does not, the result is empty |
| CardTable.Pop | Card2PDF/main.py:168-169 | `pop(i)` shifts every later element down by one and keeps the earlier ones |
| CardTable.SortDescPermutes | Card2PDF/main.py:165 | `sorted(..., reverse=True)` permutes the selected rows |
| CardTable.RemoveSelected | Card2PDF/main.py:164-169 | as written: a successful removal leaves the two lists and the table aligned and shorter by the number of selected items |
| CardTable.SortDescDistinct | Card2PDF/main.py:165 | `sorted(..., reverse=True)` of rows without repeats is strictly decreasing and has no repeats |
| CardTable.RemoveSelectedDistinct | Card2PDF/main.py:164-169 | when no row is selected twice, the as-written removal succeeds, equals the corrected one, and removes exactly the selected rows from names, images and copy column |
| CardTable.RemoveSelectedExtraRow | Card2PDF/main.py:164-169 | selecting both cells of a middle row also removes a row that was not selected |
| CardTable.RemoveSelectedRaises | Card2PDF/main.py:164-169 | selecting both cells of the bottom row makes the second `pop` raise `IndexError` |
| CardTable.PopRowsDescending | Card2PDF/main.py:166-169 | removing strictly descending rows in range removes exactly those indices, the same ones from names, images and copy column |
| CardTable.RemoveSelectedOnceSpec | Card2PDF/main.py:164-169 | corrected removal always succeeds and removes exactly the selected rows, the same indices from both lists and the table |

## Left out

- **Qt painting** (`QPainter`, `QPdfWriter`, pen width, page size and margins, `drawPixmap`, `drawLine`). These become trace events.
- **Pixel content of images.** An image is only the identifier passed to `addCard`.
- **Opening the output file** (`QFile.open`). It becomes the constructor's `fileOpened` flag. Flushing and closing the file become the open flag going false.
- **Floating point.** `mm2pix` and the geometry use exact real arithmetic, not IEEE doubles. A rounding difference at a row or page boundary could place a card differently in the real program.
- **Network and filesystem** (`download_file`, `download_pic_by_id`). The download is the function parameter `fetch`. The `.ydk` file's content is the text handed to `SplitLines`; its decoding from bytes (the platform's default encoding) is not modelled. Whether a picture loads (`QPixmap(...).isNull()`) is the parameter `loads`.
- **Threading.** The `Worker` thread, its signals and the `processEvents` loop are not modelled; only the progress formula and the per-id work are.
- **Settings file.** Reading and writing `Settings.json` and the "YGOPro Deck Folder" entry (a filesystem check) are left out. The three format entries are inputs.
- **Path identity.** File names are compared as strings, as the source's `in` tests do; no path normalisation is modelled. So one file reached under two spellings (`/` versus `\` separators, or through a symbolic link) can be listed twice. The distinctness lemmas speak about name strings only.
- **Other GUI code.** Dialogs, combo boxes, `makePDF`'s file dialog, and the table's name and preview columns are UI. The table is modelled as its copy column.
- CardTable.ParseNumCopies: Python's `int()` on the cell text is abstracted. Each cell is given as the int it parses to, or `None` when `int()` raises.
- YgoImport.DownloadSpec: when two card ids fetch the same picture path, it says the recorded count is the count of one of them. It does not say it is the count of the last one.
- TilingOrder.PlacementOrder: stated for runs made only of `addCard` calls on a fresh writer where a card fits. An explicit `addPage` does not reset the cursor, so the slot formula does not apply after one.
- CardPdfWriter.Mm2Pix: states bounds of the conversion rather than its value, which is `mm * 300 / 25.4` exactly.

## Findings

| source | as written | input that shows it | evidently intended | confidence | as-written member | corrected member |
|---|---|---|---|---|---|---|
| Card2PDF/main.py:164-169 | the row of every selected item is removed, and a row whose name and count cells are both selected is listed twice | in three rows, select both cells of row 1: rows 1 and 2 are removed. Select both cells of row 2: the second `pop(2)` raises `IndexError` | remove each selected row once (`sorted(set(rows), reverse=True)`) | medium, not executed | CardTable.RemoveSelectedExtraRow | CardTable.RemoveSelectedOnceSpec |
| Card2PDF/ygo_parser.py:150-155 | row `old_len + it` gets the count of the `it`-th pending key, although `addImgsToTable` skipped pictures that did not load | an empty table imports `a` twice and `b` three times, and `a`'s picture does not load: `b`'s row shows 2 | each new row gets the count of its own name | high, not executed | YgoImport.MergeCountsShiftsCounts | YgoImport.MergeCountsByNameSpec |
| Card2PDF/main.py:71-76 | one validator serves both a table of formats and a single format, so each accepts the other's shape | a settings file with `"Separation": {}` is accepted, and the writer then indexes an empty separation | check that the paper and card formats are tables of pairs and the separation is a pair | low, not executed | FormatCheck.LoadSettingsAcceptsWrongShapes | FormatCheck.LoadSettingsChecked |
