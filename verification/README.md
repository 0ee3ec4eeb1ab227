# SKU Tool helpers — a Dafny model

A model of the data-handling core of the SKU Tool utilities, a set of small Python desktop
tools for people who maintain product (SKU) spreadsheets and databases. The model covers:

- **Duplicate remover** (`duplicate_remover.py`). Phrases are split on commas and line breaks, stripped, and optionally cut at their first colon. Duplicates are then dropped case-insensitively, keeping the first occurrence, and the tool reports its counts and its two warnings.
- **Excel SKU reorder** (`excel_sku_reorder_gui.py`):
  - reading a SKU list from a file or from the manual-entry dialog;
  - the default choice of key column;
  - rebuilding a sheet's rows in the order of the SKU list.
- **Hotkeys** (`HotKeys.py`):
  - the `=`-triggered arithmetic capture state machine and the character check before evaluation;
  - the sequential-paste cursor over a comma-separated word list;
  - the clipboard fix that collapses runs of spaces.
- **Backup selection** (`test_backup_validation.py`). For the SKU database and the cost database, the newest timestamped backup that exists, is not empty and holds non-empty JSON is chosen.
- **Drive service** (`ap_sku_tool_web_service.py`). Files are matched by name prefix and suffix and the latest is taken by name. Delete requests are resolved to a file, and uploads update an existing file or create a new one.

Python's string operations are modelled in `text.dfy`. They are restricted to ASCII:
- `strip` uses Python's ASCII whitespace, including U+001C..U+001F;
- `lower` lower-cases only A-Z;
- `split`, `join`, `replace` and `re.split` on a character class are modelled directly;
- string `<` compares code points.

Each tool is one module:

| file | module |
|---|---|
| `wrappers.dfy` | `Wrappers` |
| `text.dfy` | `Text` |
| `duplicates.dfy` | `DuplicateRemover` |
| `reorder.dfy` | `SkuReorder` |
| `hotkeys.dfy` | `HotKeys` |
| `backups.dfy` | `BackupSelection` |
| `drive.dfy` | `DriveService` |

Effects are modelled as data or parameters, as follows:
- Keyboard output, clipboard writes and replies are returned as data.
- The contents of files, the Drive folder listing, file checks on disk and the success of a download are parameters.
- Whether a regular expression compiles, which the reorder's search for similar keys depends on, is a parameter.

## Model

| member | source | states |
|---|---|---|
| `DuplicateRemover.SplitPhrases` | duplicate_remover.py:23-24 | every phrase is non-empty, has no surrounding whitespace and contains no comma, CR or LF |
| `DuplicateRemover.CutAtColon` | duplicate_remover.py:28 | the cut phrase has no colon and no surrounding whitespace |
| `DuplicateRemover.CutAtColonKeepsHead` | duplicate_remover.py:28 | a phrase `head:tail` with a colon-free head is cut to the stripped head |
| `DuplicateRemover.RemoveColonPartsAsHeads` | duplicate_remover.py:26-30 | colon removal over a list of phrases is exactly: take each phrase's text before its first colon, strip it, and drop the empty results, keeping the order |
| `DuplicateRemover.RemoveColonPartsInOrder` | duplicate_remover.py:26-30 | the phrases left are, in order and once each, the stripped colon heads of the phrases whose head is not blank |
| `DuplicateRemover.Phrases` | duplicate_remover.py:22-30 | without colon removal, the phrases are the non-blank separator-split pieces, stripped and in order; with it, they are the non-blank stripped colon heads of those phrases, in order |
| `DuplicateRemover.RemoveColonPartsClean` | duplicate_remover.py:26-30 | after cutting and dropping the empty results, every phrase is non-empty, colon-free and stripped |
| `DuplicateRemover.KeepFirstCoverage` | duplicate_remover.py:36-43 | de-duplication keeps exactly one phrase per lower-cased phrase of the input (same lower-case set; length equals its size) |
| `DuplicateRemover.KeepFirstNoDuplicates` | duplicate_remover.py:36-43 | no two kept phrases are equal once lower-cased |
| `DuplicateRemover.KeepFirstSelectsFirstOccurrences` | duplicate_remover.py:36-43 | the kept phrases are, in order, exactly the first occurrences of each phrase ignoring case |
| `DuplicateRemover.RemoveDuplicates` | duplicate_remover.py:36-43 | the loop with its `seen` set computes the order-preserving case-insensitive de-duplication |
| `DuplicateRemover.ProcessData` | duplicate_remover.py:12-48 | blank input warns "No Input"; no phrases left warns "No Data"; otherwise the report lists the first occurrences and original count = unique + removed |
| `DuplicateRemover.InstructionsExample` | duplicate_remover.py:193-194 | with colon removal, `phrase1: 123, phrase2: 456` yields `phrase1` and `phrase2` |
| `Text.StrippedNonBlankClean` | excel_sku_reorder_gui.py:417 | every kept line is non-empty and stripped, and characters absent from every line stay absent |
| `Text.StrippedNonBlankKeeps` | excel_sku_reorder_gui.py:417 | every line that is not blank is kept, stripped |
| `Text.StrippedNonBlankInOrder` | excel_sku_reorder_gui.py:417 | entry j of the result is the line at the j-th non-blank position, stripped, and there are exactly as many entries as non-blank lines: the filter keeps file order and multiplicity |
| `Text.StrippedNonBlankEmpty` | excel_sku_reorder_gui.py:388-395 | nothing is kept exactly when every piece is blank |
| `Text.NonBlankPositionsExact` | excel_sku_reorder_gui.py:417 | the positions the filters take their entries from are increasing and are exactly those of the pieces that are not blank |
| `Text.TokenizeRestores` | duplicate_remover.py:24 | the pieces `re.split` finds, with their separator runs, join back to the input |
| `SkuReorder.ReadSkuList` | excel_sku_reorder_gui.py:405-424 | the list is, in file order, exactly the non-blank lines of the file, stripped (CRLF, CR and LF all end a line; a final line end adds nothing); each entry is a one-line stripped SKU; an unreadable file gives the empty list |
| `SkuReorder.ReadSkuListRoundTrip` | excel_sku_reorder_gui.py:416-417 | SKUs written one per line read back as the same list |
| `SkuReorder.LoadSkuFile` | excel_sku_reorder_gui.py:195-210 | a failed read keeps the current list; a successful one gives the list `read_sku_list` gives |
| `SkuReorder.ParseManualSkus` | excel_sku_reorder_gui.py:374-398 | blank input is refused as "nothing entered"; other input is refused as "no valid SKUs" exactly when every comma piece of every stripped line is blank; an accepted list is, in order, exactly the non-blank comma pieces of the stripped lines, stripped, each non-empty and comma-free |
| `SkuReorder.LineSkusAsPieces` | excel_sku_reorder_gui.py:384-391 | both branches of the per-line parse give the line's non-blank comma pieces, stripped: a line with no comma is its own single piece |
| `SkuReorder.ManualEntryOnePerLine` | excel_sku_reorder_gui.py:380-392 | SKUs typed one per line are accepted as that list, the same list a file would give |
| `SkuReorder.ManualEntryCommaSeparated` | excel_sku_reorder_gui.py:380-392 | two or more SKUs typed on one line, separated by commas, are accepted as that list |
| `SkuReorder.DefaultColumn` | excel_sku_reorder_gui.py:154-160 | `SKU` when present, else `New SKU`, else the first column; with no columns the previous selection (initially `SKU`) is left unchanged |
| `SkuReorder.MatchingRows` | excel_sku_reorder_gui.py:478 | the rows whose key equals the SKU, as a subsequence of the sheet |
| `SkuReorder.MatchingRowsCount` | excel_sku_reorder_gui.py:478 | a matching row keeps all its copies, and any other row has none |
| `SkuReorder.ReorderedMultiplicity` | excel_sku_reorder_gui.py:476-497 | each row occurs in the output once for every time its key is listed: duplicate rows and repeated SKUs are kept, and unlisted rows are dropped |
| `SkuReorder.ReorderedRowsListed` | excel_sku_reorder_gui.py:476-483 | every output row is a row of the sheet whose key is listed |
| `SkuReorder.ReorderedEmpty` | excel_sku_reorder_gui.py:491-494 | the output is empty exactly when no row's key is listed |
| `SkuReorder.ReorderRows` | excel_sku_reorder_gui.py:476-497 | once keys and SKUs are stripped, there are two failures: "invalid pattern" exactly when some listed SKU matches no row and its first ten characters do not compile as a regular expression, and otherwise "no SKU matched" exactly when no row's key is listed; on success the rows come in list order with the multiplicities above |
| `SkuReorder.CollectMatching` | excel_sku_reorder_gui.py:476-490 | the loop stops exactly when some unmatched SKU's search pattern does not compile; otherwise it appends each SKU's rows in list order and `found` is set exactly when some row's key is listed |
| `SkuReorder.LiteralSkusNeverBreak` | excel_sku_reorder_gui.py:485-487 | SKUs with no regular-expression syntax never make the search for similar keys fail |
| `SkuReorder.MatchedSkusNeverBreak` | excel_sku_reorder_gui.py:478-487 | the search only runs for SKUs that match no row, so a list whose SKUs all match never fails there |
| `SkuReorder.TruncatedGroupBreaks` | excel_sku_reorder_gui.py:487 | `AB-100 (SSS)` is searched for as `AB-100 (SS`, an unclosed group, and a list holding it fails even when another SKU matches |
| `SkuReorder.ReorderBySku` | excel_sku_reorder_gui.py:427-541 | a missing column, an unmatched SKU whose search pattern does not compile, and "no SKU matched" are the three failures, each stated exactly; otherwise the keys and SKUs are stripped, the columns are kept, and the rows come in list order with the multiplicities above |
| `HotKeys.OnKeyEvent` | HotKeys.py:156-227 | disabled or key-up events change nothing; `=` starts a capture; while capturing, enter/esc/tab reset it, backspace drops the last character or, on an empty capture, ends it and erases the `=`, digits, operators, `decimal` (as `.`) and `space` extend the expression, shift/ctrl/alt change nothing, and any other key abandons the capture; every step keeps the state reachable |
| `HotKeys.RunKeepsValid` | HotKeys.py:156-227 | after any key sequence, an expression exists only while capturing and holds only digits, operators, parentheses, points and spaces |
| `HotKeys.ModifiersTransparent` | HotKeys.py:169-221 | any sequence of shift/ctrl/alt presses leaves the state as it was |
| `HotKeys.TypedThenErased` | HotKeys.py:169-218 | after `=` and an expression, one backspace per character leaves an empty capture, and one more ends it and erases the `=` |
| `HotKeys.TypingCapturesExpression` | HotKeys.py:169-218 | typing `=` and then an expression captures exactly that expression |
| `HotKeys.RunDisabled` | HotKeys.py:160-161 | while math capture is off, no key sequence changes the state |
| `HotKeys.CalculateMath` | HotKeys.py:98-143 | a blank expression is left alone; otherwise the capture is reset; the expression is evaluated exactly when every character is a digit, operator, parenthesis, point or whitespace, and, when that evaluation succeeds, it is erased with one backspace per character plus one for `=`; a rejection names a bad character |
| `HotKeys.CalculateKeepsValid` | HotKeys.py:133-142 | calculating leaves a reachable state |
| `HotKeys.CapturedExpressionEvaluates` | HotKeys.py:98-104 | an expression captured from the keyboard always passes the character check |
| `HotKeys.LoadList` | HotKeys.py:339-343 | the loaded words are, in order and unchanged, exactly the comma-separated entries that are not blank, and the position is reset to the first word |
| `HotKeys.NonBlankInOrder` | HotKeys.py:342 | entry j of the filter is the piece at the j-th non-blank position, with as many entries as non-blank pieces |
| `HotKeys.LoadListRoundTrip` | HotKeys.py:339-343 | non-blank, comma-free words entered joined by commas load back as the same list in the same order |
| `HotKeys.ClearList` | HotKeys.py:345-349 | the list is emptied and the position reset |
| `HotKeys.SequentialPaste` | HotKeys.py:230-257 | no words: nothing; auto-enter: all words typed and the position reset; otherwise one stripped word typed, and the position advances and wraps |
| `HotKeys.TypeAllLayout` | HotKeys.py:237-243 | auto-enter types word k at step 2k, with Enter after every word except the last |
| `HotKeys.PasteFullCycle` | HotKeys.py:248-257 | one press per word from the start types the whole list in order and returns to the first word |
| `HotKeys.AutoEnterMatchesCycle` | HotKeys.py:235-257 | without its Enter presses, an auto-enter paste types exactly what a full cycle of single pastes types |
| `HotKeys.CollapseSpaces` | HotKeys.py:47 | the result has no double space, is no longer, starts with the same character, and keeps every non-space character in order |
| `HotKeys.CollapseSpacesByRuns` | HotKeys.py:47 | dropping each space followed by a space equals replacing each maximal run of spaces with one space |
| `HotKeys.CollapseSpacesIdempotent` | HotKeys.py:45-50 | collapsing twice is collapsing once |
| `HotKeys.CollapseSpacesChanges` | HotKeys.py:45-49 | the fix changes the text exactly when the text contains a double space |
| `HotKeys.MonitorStep` | HotKeys.py:43-53 | an unchanged clipboard is left alone; a changed one ends as its text with every run of spaces collapsed to one, and that text is remembered |
| `HotKeys.MonitorSettles` | HotKeys.py:43-53 | a poll right after a poll finds nothing to do |
| `BackupSelection.Candidates` | test_backup_validation.py:49-64 | the listed names that have the database's prefix, `.json`, no `_temp`, and a timestamp that is neither empty nor `temp`, each with its timestamp |
| `BackupSelection.BackupNameRoundTrip` | test_backup_validation.py:58-60 | a backup named prefix + timestamp + `.json`, with a timestamp of digits, dashes and underscores, is a candidate and its timestamp is recovered |
| `BackupSelection.DatabaseBackupNameRoundTrip` | test_backup_validation.py:52-110 | the same holds for both real prefixes, `sku_database_` and `cost_db_` |
| `BackupSelection.SortNewestFirst` | test_backup_validation.py:66 | the sort is a permutation, ordered newest timestamp first |
| `BackupSelection.Check` | test_backup_validation.py:72-98 | a file is usable exactly when it exists, is not empty and loads as non-empty JSON |
| `BackupSelection.FirstUsableIsNewest` | test_backup_validation.py:69-87 | the first usable entry of the newest-first list is at least as new as every usable one |
| `BackupSelection.SelectLatest` | test_backup_validation.py:49-98 | the choice is a usable candidate with no newer usable candidate; nothing is chosen exactly when no candidate is usable |
| `BackupSelection.SelectDatabases` | test_backup_validation.py:100-148 | for each of the SKU and cost prefixes, the choice is a usable listed candidate with no newer usable candidate, and nothing is chosen exactly when none is usable |
| `DriveService.Matching` | ap_sku_tool_web_service.py:167 | exactly the listed files whose name starts with the prefix and ends with the suffix |
| `DriveService.MatchingConcat` | ap_sku_tool_web_service.py:167 | matching a listing in two parts gives the matches of the first part followed by those of the second, so the matches keep the listing order |
| `DriveService.MatchingAppend` | ap_sku_tool_web_service.py:167 | a file listed last is added last to the matches when it matches, and nothing is added otherwise |
| `DriveService.LatestByName` | ap_sku_tool_web_service.py:170-171 | the chosen file has the greatest name, and every file listed before it has a smaller name (first among equals, as the stable sort gives) |
| `DriveService.LatestIsGreatest` | ap_sku_tool_web_service.py:170-171 | no matching file has a greater name than the latest |
| `DriveService.ApiLatestDbFileId` | ap_sku_tool_web_service.py:145-172 | prefix and suffix default to `sku_database_` and `.json`; the 404 reply comes exactly when nothing matches; otherwise the reply is the latest matching file |
| `DriveService.ApiPullLatestDb` | ap_sku_tool_web_service.py:174-222 | the same file as `/latest_db_file_id` is chosen; a failed download is the 500 reply |
| `DriveService.ApiList` | ap_sku_tool_web_service.py:364-386 | exactly the files matching the prefix and suffix, which default to empty |
| `DriveService.ApiListConcat` | ap_sku_tool_web_service.py:385 | the `/list` reply keeps the listing order: for a listing in two parts it is the reply for the first part followed by the reply for the second |
| `DriveService.ApiListDefaults` | ap_sku_tool_web_service.py:370-386 | with no prefix or suffix, the whole folder is returned in order |
| `DriveService.ApiDelete` | ap_sku_tool_web_service.py:343-362 | a non-empty id wins; otherwise a name resolves to the first file of that name (404 when there is none); neither gives 400; a deleted file is gone and every other file stays |
| `DriveService.NamedFirst` | ap_sku_tool_web_service.py:89-98 | the file a name resolves to is the first one the listing gives with that name |
| `DriveService.NamedAppend` | ap_sku_tool_web_service.py:89-110 | a file listed last is added last to the files of its own name, and the files of every other name are unchanged |
| `DriveService.DeleteByNameIsDeleteById` | ap_sku_tool_web_service.py:346-359 | deleting by name is deleting by the id of the first file with that name |
| `DriveService.UploadName` | ap_sku_tool_web_service.py:128 | the Drive name is `drive_filename` when non-empty, else the base name of the local path |
| `DriveService.UploadFile` | ap_sku_tool_web_service.py:83-111 | an existing file of that name is updated and its id returned, with the folder unchanged; otherwise one file is created; no file is lost |
| `DriveService.UploadTwice` | ap_sku_tool_web_service.py:97-111 | a second upload of the same name returns the same id and adds no file |

## Left out

- Tkinter windows, dialogs, message boxes, window titles and threads: they only display what the model computes.
- The evaluation itself (`eval`) in `calculate_math` and the typing of its value. The model stops at the decision to evaluate and the number of backspaces that follow a successful evaluation. An expression that passes the character check but fails to evaluate (`1/0`, `2**`, `(`) is erased nowhere and nothing is typed; the model does not distinguish that case.
- Real keyboard and clipboard effects, and the timing of polls. A clipboard change made by another program between the write and the re-read in `monitor_clipboard` is not modelled.
- pandas I/O: reading and writing Excel files, `astype(str)` conversion of cells (cells are already text), and the diagnostic prints. This includes what the "similar SKUs" search finds and the printed order check after saving; only whether the search's pattern compiles is modelled, because a pattern that does not compile aborts the whole reorder.
- Python's regular-expression compiler: whether a pattern compiles is the parameter `compiles`. The model assumes nothing about it except in `SkuReorder.LiteralSkusNeverBreak`, whose hypothesis is that plain text compiles.
- Opening files and decoding them as UTF-8: the file's text, or its absence, is a parameter. The JSON parser is left out too: a backup's load result is a parameter.
- The Google Drive API, OAuth and Flask plumbing. The folder is a list of files; the server-side `name contains` query is assumed to return a superset of what the local filter keeps, and the 1000-file page limit is not modelled.
- Failures of Drive calls (500 replies), other than a failed download in `/pull_latest_db` and a delete whose id is not in the folder, and request fields that are not strings.
- DriveService.ApiDelete: the model knows only the folder, so an id that is not one of its files is answered with the 500 reply. The real endpoint passes any id to Drive with no check that the file is in the folder. A trashed file, a file elsewhere, or the folder itself (and with it every file in it) would be deleted with a success reply. "Every other file stays" therefore holds only for ids of files in the folder.
- Unicode: `strip`, `lower`, `isdigit` and `\s` are modelled on ASCII only.
- `os.path.basename` is modelled with `/` as the only separator; Windows drive letters and `\` are not.
- BackupSelection.SortNewestFirst: proved a newest-first permutation, but its stability (equal timestamps keep listing order) is not stated.
- The expectations printed by the validation script (test_backup_validation.py:154-163) are not modelled. Its fixture's valid files carry a word before the prefix, so no fixture name is a candidate.
- `title_case_selected`, `copy_selected_to_entry`, the toggles, `download_file` and `manual_download` are not modelled. They only move text between the clipboard, the GUI and Drive.
- The standalone Markdown-to-PDF tool and the main SKU Tool application are not part of this model.
