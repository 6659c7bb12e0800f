# Excel translation substitution, modelled in Dafny

The application takes two spreadsheets. The first is an "original" sheet whose rows pair a source text with its translation. The second is a sheet to translate. Every cell of the second sheet is rewritten in two passes.

**Pass 1** looks at each cell on its own:
- A cell with a non-empty exact translation becomes that translation.
- A text cell containing a comma is split into segments. Each segment is looked up, and the results are re-joined with `", "`.
- A compound cell where some segment found no translation is recorded as pending.

**Pass 2** revisits the pending cells. For each one it walks the translations longest key first. It replaces the first occurrence of each key found in the cell, and skips translations the user chose to ignore.

The model has five modules:

- `Wrappers`: `Option` and `Result`.
- `Strings`: the JavaScript builtins the engine relies on. These are `trim`, `indexOf`, `replace` with a string pattern, and `join`.
- `Segmenter`: `splitString`, the parenthesis-aware splitter on `", "`. It is modelled as a function (`Segments`) and as the source's loop (`SplitString`), and the two are proved equal.
- `TranslationIndex`: `parseOriginalSheet`. It builds a last-write-wins dictionary and a stably length-sorted list of entries, and fails when the sheet is missing.
- `SheetTransformer`: `replaceExcel`. Pass 1 is a traversal of the grid that records pending cells in row-major order. Pass 2 is a fold over the pending list.
  - The main theorem says every output cell is `FinalCell` of its input cell: pass 1, then the pass-2 inner loop if the cell was pending.
  - Pass 2 writes a cell after every changing key. The model writes once, with the result of the whole inner loop. Each iteration reads back what the previous one wrote, so the two agree.

## Behaviours of the code worth noting
- **Containment test.** Pass 2 tests whether the key occurs in the pending record's pass-1 text, which is never updated (app/page.tsx:128). The replacement itself works on the cell's current text (app/page.tsx:129-130). So a key that occurs only in text written by an earlier key is never applied. A key present in the pass-1 text may, however, replace text that an earlier key wrote. `EarlierValueRewritten` shows this.
- **Duplicate keys.** Pass 1 takes the first sorted entry with an equal key, which is the earliest such row (app/page.tsx:89-91). Pass 2 and exact hits use the dictionary, where the latest row wins (app/page.tsx:75, app/page.tsx:123). `DuplicateKeysDisagree` shows the two disagreeing.
- **Empty translations.** An empty translation never counts as a hit in pass 1 (JavaScript truthiness). In pass 2 it is applied, and the key is deleted from the cell. This covers a translation cell that is present but empty. A blank translation cell is absent from its row, so the value is `undefined`. Pass 2 then runs `replace(key, undefined)` (app/page.tsx:130), which writes the text "undefined" into the cell. The model does not cover rows with an absent column; see `ParseOriginalSheet` under "## Left out".

## Model

| member | source | states |
|---|---|---|
| Strings.Trim | app/utils/excel.ts:57 | The result has no ECMAScript whitespace at either end, and a string with none is returned unchanged. |
| Strings.TrimIsSpan | app/utils/excel.ts:57 | `trim` removes only leading and trailing whitespace: its result is a slice `s[a..b]` of the input, and everything before `a` and from `b` on is whitespace. |
| Strings.Join | app/page.tsx:99 | No contract. `Array.prototype.join`: the parts with the separator between neighbours. `Segmenter.ScanJoin`, `Segmenter.JoinRawSegments` and `Segmenter.CutsAreSplitPoints` state what it means for the segmenter's pieces. |
| Strings.IndexOf | app/page.tsx:128 | The result is the first index where the pattern occurs. `None` means it occurs nowhere. |
| Strings.ReplaceFirst | app/page.tsx:130 | Without an occurrence the string is unchanged. Otherwise only the first occurrence is replaced by the value, and the text around it is kept. |
| Segmenter.NextFlag | app/utils/excel.ts:50-54 | No contract. The parenthesis flag after one character: `(` sets it, `)` clears it, anything else keeps it. `Segmenter.FlagMeansOpenParen` characterises the flag it builds. |
| Segmenter.Scan | app/utils/excel.ts:47-63 | The loop body of `splitString` from index `i` on, returning the untrimmed pieces still to come. It always yields at least one piece; where it cuts is stated by `Segmenter.CutsAreSplitPoints`, and what the pieces rejoin to by `Segmenter.ScanJoin`. |
| Segmenter.Segments | app/utils/excel.ts:42-68 | `splitString` never returns an empty list, and every piece equals its own trim. |
| Segmenter.SplitString | app/utils/excel.ts:42-68 | The source's loop, including the skip of the space after a splitting comma, computes `Segments`, so its result is non-empty and every piece is trimmed. |
| Segmenter.ScanJoin | app/utils/excel.ts:47-63 | From any point of the scan, joining the untrimmed pieces with ", " gives back the text still to be read, after the current word. |
| Segmenter.JoinRawSegments | app/utils/excel.ts:56-61 | Before trimming, joining the pieces with ", " reproduces the input exactly. Only the delimiting comma and one space are dropped. |
| Segmenter.ScanCount | app/utils/excel.ts:47-59 | A scan started with the right flag yields one piece more than the split points still ahead. |
| Segmenter.SegmentCount | app/utils/excel.ts:47-65 | The number of segments is one plus the number of indices holding ", " where the parenthesis flag is clear. |
| Segmenter.FlagMeansOpenParen | app/utils/excel.ts:50-54 | The flag is set exactly when some `(` has no `)` anywhere after it. It is a single flag, not a depth counter. |
| Segmenter.ScanCutsAreSplitPoints | app/utils/excel.ts:47-63 | From any point of the scan, the end of every piece but the last, counted from where the current word began, is a split point. |
| Segmenter.SplitPointsAreScanCuts | app/utils/excel.ts:47-63 | From any point of the scan, every split point still ahead is the end of one of the pieces but the last. |
| Segmenter.CutsAreSplitPoints | app/utils/excel.ts:47-65 | `splitString` cuts exactly at the split points. For every piece but the last, the index just after the first k+1 pieces joined with ", " is a split point of the input, and every split point is such an index. |
| Segmenter.InsideParensNoSplit | app/utils/excel.ts:50-56 | A ", " after a `(` with no `)` in between is not a split point. By `CutsAreSplitPoints`, `splitString` therefore never cuts there. |
| Segmenter.AfterCloseParenSplits | app/utils/excel.ts:50-56 | A ", " after a `)` with no `(` in between is a split point, even inside nested parentheses. By `CutsAreSplitPoints`, `splitString` always cuts there. |
| Segmenter.NoParensSplitsEverywhere | app/utils/excel.ts:50-65 | For input without parentheses, the segments are exactly the trimmed pieces of the reference split at every ", ". |
| Segmenter.NoSeparatorSingleSegment | app/utils/excel.ts:65 | Input with no ", " yields exactly one segment, the trimmed input. |
| Segmenter.EmptyInput | app/utils/excel.ts:65 | The empty string yields the single empty segment. |
| Segmenter.TrimmedSegmentsRejoin | app/utils/excel.ts:56-65 | When no raw piece has surrounding whitespace, joining the segments with ", " gives back the input. |
| Segmenter.ParenthesisedExample | app/utils/excel.ts:50-56 | "a (b, c), d" splits into "a (b, c)" and "d". |
| Segmenter.NestedParensExample | app/utils/excel.ts:50-54 | "((a), b)" splits into "((a)" and "b)", because the first `)` clears the flag. |
| TranslationIndex.Dictionary | app/page.tsx:42-46 | No contract. The `reduce` that writes every row's value under its key, in row order. `TranslationIndex.DictionaryKeys` and `TranslationIndex.DictionaryLastWriteWins` describe it. |
| TranslationIndex.DictionaryKeys | app/page.tsx:42-46 | The dictionary's keys are exactly the rows' keys. |
| TranslationIndex.DictionaryLastWriteWins | app/page.tsx:42-46 | For every key, the dictionary holds the value of the last row with that key. |
| TranslationIndex.Insert | app/page.tsx:47-52 | Inserting into a list sorted by descending key length keeps it sorted and adds exactly the new entry, one element longer. |
| TranslationIndex.InsertWithKeyLength | app/page.tsx:52 | Insertion puts the entry in front of the entries of its own key length and leaves every other length class alone. Inserting earlier rows into the sorted later rows therefore keeps row order. |
| TranslationIndex.SortByKeyLength | app/page.tsx:47-52 | The sorted list is a permutation of the rows' pairs, ordered by non-increasing key length. |
| TranslationIndex.SortIsStable | app/page.tsx:52 | For every key length, the entries of that length appear in their original row order. |
| TranslationIndex.Find | app/page.tsx:89-91 | The result is the value of the first entry with an equal key, and `None` exactly when no entry has that key. |
| TranslationIndex.FindWithinKeyLength | app/page.tsx:89-91 | Looking a key up finds the same value as looking it up among the entries of that key's length only. |
| TranslationIndex.FirstMatchIsEarliestRow | app/page.tsx:89-91 | Looking a key up in the stably sorted list gives the value of the earliest row with that key. |
| TranslationIndex.DuplicateKeysDisagree | app/page.tsx:42-52 | With two rows for one key, the dictionary holds the later value while the sorted-list lookup finds the earlier one. |
| TranslationIndex.NotFoundMessageNamesSheet | app/page.tsx:35 | The corrected error text of the Findings row tells missing sheets apart: two sheets with the same message are the same sheet. |
| TranslationIndex.NotFoundMessageAsWrittenLosesName | app/page.tsx:35 | The message as written is identical for every missing sheet and differs from the message that names it. |
| TranslationIndex.BuildIndexes | app/page.tsx:42-53 | From any rows, the dictionary and sorted list together index the rows: last row wins, permutation, sorted, stable. |
| TranslationIndex.ParseOriginalSheet | app/page.tsx:27-56 | Fails exactly when the sheet is missing. The failure carries the corrected not-found message of the Findings row, which names the requested sheet. Otherwise it returns the dictionary and sorted list indexing the sheet's rows. |
| SheetTransformer.TranslateSegment | app/page.tsx:89-97 | A found translation is non-empty and is the value of the first sorted entry whose key equals the segment. No translation means that first entry's value is empty, or no entry has that key. |
| SheetTransformer.Translated | app/page.tsx:87-99 | The mapped segments are as many as the input. |
| SheetTransformer.TranslatedByFirstEntry | app/page.tsx:87-99 | Each mapped segment is the value of the first sorted entry with an equal key when that value is non-empty. Otherwise it is the segment itself, also when no entry has that key. |
| SheetTransformer.MatchCount | app/page.tsx:85-94 | No contract. The number of segments with a translation. `SheetTransformer.MatchCountShort` describes it. |
| SheetTransformer.MatchCountShort | app/page.tsx:85-100 | The match count never exceeds the number of segments, and is smaller exactly when some segment found no translation. |
| SheetTransformer.Pass1Cell | app/page.tsx:74-113 | No contract. Pass 1 on one cell. `ExactMatchCell`, `PlainCellUnchanged` and `CompoundCell` describe its three branches. |
| SheetTransformer.ExactMatchCell | app/page.tsx:75-76 | A cell with a non-empty exact value becomes exactly that value and is not pending. |
| SheetTransformer.PlainCellUnchanged | app/page.tsx:75-112 | A cell that is not an exact hit and not text with a comma is returned unchanged and is not pending. |
| SheetTransformer.CompoundCell | app/page.tsx:84-108 | A compound cell becomes the ", "-join of its translated segments. It is pending exactly when some segment stayed untranslated. |
| SheetTransformer.Pass1Row | app/page.tsx:74-113 | The inner `map` over one row keeps its length. `Pass1RowCells`, `Pass1RowSound` and `Pass1RowComplete` state what it holds and records. |
| SheetTransformer.Pass1RowCells | app/page.tsx:74-113 | Pass 1 on a row transforms each cell on its own. |
| SheetTransformer.Pass1RowSound | app/page.tsx:100-106 | Every record of a row names a pending cell of that row with its pass-1 text, left to right. |
| SheetTransformer.Pass1RowComplete | app/page.tsx:100-106 | Every pending cell of a row has a record. |
| SheetTransformer.Pass1Grid | app/page.tsx:73-114 | The outer `map` over the rows keeps the number of rows. `Pass1GridCells`, `Pass1GridSound`, `Pass1GridComplete` and `Pass1GridFacts` state the rest. |
| SheetTransformer.Pass1GridCells | app/page.tsx:73-114 | Pass 1 keeps the grid's shape and transforms every cell on its own. |
| SheetTransformer.Pass1GridSound | app/page.tsx:73-106 | Every pending record names an in-bounds pending cell with its pass-1 text, in row-major order. |
| SheetTransformer.Pass1GridComplete | app/page.tsx:73-106 | Every pending cell of the grid has a record. |
| SheetTransformer.Pass1GridFacts | app/page.tsx:73-114 | Pass 1 keeps the shape, transforms cells independently, and records exactly the pending cells in row-major order. |
| SheetTransformer.Resolve | app/page.tsx:122-136 | No contract. The inner loop of pass 2 for one pending cell. `IgnoredEntriesInert`, `NothingApplicable` and the three worked examples describe it. |
| SheetTransformer.Unignored | app/page.tsx:116-126 | Every kept entry is an entry whose dictionary value is not ignored, and every such entry is kept. |
| SheetTransformer.UnignoredIsSubsequence | app/page.tsx:116-126 | The kept entries are the unignored entries in their original order, with duplicates kept: an increasing map of positions picks them out, and it hits exactly the positions whose value is not ignored. |
| SheetTransformer.IgnoredEntriesInert | app/page.tsx:116-126 | The inner loop with an ignore list equals the loop without one, run over the entries whose value is not ignored. Ignored entries never write. |
| SheetTransformer.NothingApplicable | app/page.tsx:122-135 | If no key with an unignored value occurs in the pass-1 text, the inner loop leaves the cell unchanged. |
| SheetTransformer.Pass2Step | app/page.tsx:121-137 | Handling one pending record keeps the grid's shape. `Pass2Effect` states which cell it writes. |
| SheetTransformer.Pass2 | app/page.tsx:121-137 | The `forEach` over the pending records keeps the grid's shape. `Pass2Effect` states the rest. |
| SheetTransformer.Pass2Effect | app/page.tsx:121-137 | Pass 2 sets each pending cell to the inner loop's result from its pass-1 text, and leaves every other cell as it was. |
| SheetTransformer.FinalCell | app/page.tsx:73-137 | No contract. A cell's pass-1 result, followed by the pass-2 inner loop when it was pending. `ReplaceExcel` and the `Final…` lemmas describe it. |
| SheetTransformer.ReplaceExcel | app/page.tsx:58-140 | The output has the input's shape. Every cell is its own pass-1 result, followed by the inner loop if it was pending, whatever the other cells hold. |
| SheetTransformer.OnlyPendingCellsChange | app/page.tsx:121-137 | Every cell pass 1 did not leave pending ends with its pass-1 result. |
| SheetTransformer.FinalExactHit | app/page.tsx:75-106 | A cell with a non-empty exact value ends as that value; pass 2 never touches it. |
| SheetTransformer.FinalPlainCell | app/page.tsx:75-112 | A cell that is neither an exact hit nor text with a comma ends unchanged. |
| SheetTransformer.FinalFullyTranslated | app/page.tsx:84-108 | A compound cell whose every segment translates ends as the join of the translations. |
| SheetTransformer.UntranslatableCellSurvives | app/page.tsx:84-135 | A compound cell with no translatable segment, no whitespace around its pieces, and no applicable key ends exactly as it was. |
| SheetTransformer.AllValuesIgnored | app/page.tsx:116-126 | When every dictionary value is ignored, the output equals the pass-1 grid cell by cell. |
| SheetTransformer.LongestKeyFirst | app/page.tsx:122-130 | Longer keys are applied first. A shorter key found in the pass-1 text does nothing once its text is gone: "abcd" with "abc" and "ab" becomes "Yd". |
| SheetTransformer.IgnoredValueSkipped | app/page.tsx:123-126 | Ignoring the longer key's value lets the shorter key apply: "abcd" becomes "Zcd". |
| SheetTransformer.EarlierValueRewritten | app/page.tsx:128-130 | A later key replaces its first occurrence in the current text, even when that occurrence was written by an earlier key. |

## Left out
- The tag editor for ignored values (app/IgnoreText.tsx) is React UI state. The engine sees only its output, a list of strings, which is the `ignore` parameter.
- The spreadsheet codec wrappers `importExcelFromBuffer`, `exportExcelFile` and `sheet2JSON`, and `EXCEL_ACCEPT`, are calls into a third-party library. The model takes sheets as already-extracted rows (`Workbook`) and grids (`Grid`).
- The form, the upload handlers and `onFinish` (app/page.tsx:142-308) are UI and asynchronous file reading. `onFinish` only composes the two modelled functions.
- ReplaceExcel: takes the already-extracted grid of the sheet to translate. The lookup of that sheet and its conversion by `sheet2JSON` (app/page.tsx:65-66) are codec work. The code does not check that the sheet exists, and the missing-sheet path of `replaceExcel` is not modelled.
- ParseOriginalSheet: requires every row of the named sheet to carry both named columns. An absent column is `undefined` in JavaScript. Absent columns, and the `NaN` comparator result for an `undefined` key, are coercions outside a string model.
- JavaScript coercions are not modelled:
  - numeric cells used as object keys;
  - keys inherited from the object prototype;
  - `$` patterns in `replace` replacement strings.

  Non-text cells are an opaque `Other` that never matches.
- `console.log` and `console.error` calls are not modelled.
- SortByKeyLength: compares key lengths in Unicode characters, not in the UTF-16 code units JavaScript's `length` counts. A key with characters outside the Basic Multilingual Plane therefore sorts as shorter than it would in the source. Strings throughout are sequences of Unicode characters.
- Per-key write-back in pass 2: the source writes the cell after every changing key. The model writes once per pending cell, with the result of the whole inner loop. This is equivalent because the inner loop reads back the cell it wrote.

## Findings

| source | as written | input that shows it | evidently intended | confidence | as-written member | corrected member |
|---|---|---|---|---|---|---|
| app/page.tsx:35 | The error message appends the looked-up sheet. On this path that is always `undefined`, so the message is "sheet name not found:undefined". | a workbook without a sheet named "Sheet1", asked for "Sheet1" | append the requested sheet name, `originalSheetName` | high, not executed | TranslationIndex.NotFoundMessageAsWrittenLosesName | TranslationIndex.ParseOriginalSheet |
