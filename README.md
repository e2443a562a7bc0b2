# Verified model of the backup renamer, the MySQL uploader and the update-mask reconciliation

The repository holds three independent Python utilities. This project models their core
logic in Dafny and proves properties about it.

- **update_mask.py** (`UpdateMask`). It compares a "before" and an "after" snapshot of a
  table. Every cell is first turned into text and normalised: each "00:00:00" is removed
  and surrounding whitespace is stripped. The two tables are then aligned row by row on
  their key columns. The longer table drives a walk that pads the shorter one with null
  rows, or inserts key-only lines where a key is missing. A positional equality mask is
  built from the result. One mask row is dropped for the first "after" row whose
  dup-check cell is null.
  - Modules: `Frames` (`update_mask_frames.dfy`: tables and the key sort), `Alignment`
    (`update_mask_align.dfy`: the walk) and `Reconciliation` (`update_mask.dfy`: the
    normaliser, the row serialiser, the mask and the `UpdateMask` class).
- **df_mysql_uploader.py** (`DfToMySqlUploader`). It sanitises column names and writes a
  `CREATE TABLE` from a dtype map. It also writes one multi-row `INSERT` holding every
  cell of the table.
  - Module `SqlUploader` (`df_mysql_uploader.dfy`). The table is a `DataFrame` class whose
    columns the operations rewrite in place. The connection is not modelled: the
    operations return the SQL text they would execute.
- **backup_manager.py** (`BackupManager`). Before a file is overwritten, it is renamed to
  `name_YYYYMMDD.ext`, or to `name_YYYYMMDD_N.ext` for N = 1..4 when that name is taken.
  Names that already carry their date are recognised. The previous backup of a file is
  looked up among the files of its folder.
  - Module `Backup` (`backup_manager.dfy`). The folder is a `Folder` class holding its
    entries in scan order: name, modification date and modification time.

Shared helpers:

- `Text` (`text.dfy`) models Python's `str.replace`, `strip`, `lower`, `join`, `split`,
  `in`, `rfind` and slice bounds.
- `Wrappers` (`wrappers.dfy`) holds `Option` and `Result`.

Where the code and its documentation disagree, the model follows the code:

- **Column names.** Sanitising is not idempotent. Replacing "__" with "_" is a single
  left-to-right pass, so "a___b" becomes "a__b" and then "a_b"
  (`SqlUploader.SanitiseNotIdempotent`).
- **Newlines in cells.** Newlines and carriage returns are not stripped from cells.
  The `replace` chain at df_mysql_uploader.py:133 builds a value that is never stored.
  Only single quotes are removed, per cell, at line 142.
- **Quoting of numbers.** Numeric columns are quoted like text. By the time
  df_mysql_uploader.py:147 tests the dtype for `float64`/`int64`, line 129 has already
  turned every column into `object`.
- **The "nan" rewrite.** It applies to the whole query text. A cell "banana" is sent as
  `'banulla'` (`SqlUploader.NullRewriteInsideLiteral`).
- **fillna.** The `fillna('')` calls at update_mask.py:26-27 discard their result. Nulls
  therefore stay null, and a null cell never equals anything in the mask.
- **Keys 1,2 against keys 1,3.** With one key column and two rows on each side, this
  pair does not align to two tables of three rows. The walk runs only two positions, so
  the "before" table ends with three rows and the "after" table with two. The comparison
  then raises and no mask is produced (`Reconciliation.UnresolvedOneTwoOneThree`).
- **Counter names.** A renamed file carrying a counter (`x_20220101_1.csv`) is not
  recognised as dated: after the date comes '_', not '.'. The folder-wide pass is
  therefore not idempotent on such names (`Backup.CounterCandidateUndated`).

## Model

| member | source | states |
|---|---|---|
| Frames.NullRow | update_mask.py:85 | the appended row has the table's column count and is null in every column |
| Frames.StrLeTotal | update_mask.py:77-78 | text comparison by code point is total |
| Frames.KeyLeTotal | update_mask.py:77-78 | comparison of key tuples is total |
| Frames.SortByKeys | update_mask.py:77-78 | `sort_values` returns a permutation of the rows, of the same length |
| Frames.InsertByKeySorted | update_mask.py:77-78 | inserting a row into a key-sorted table keeps it key-sorted |
| Frames.SortByKeysSorted | update_mask.py:77-78 | after `sort_values` the rows are in ascending key order |
| Frames.SortOfSorted | update_mask.py:120-121 | sorting a table already in key order leaves it unchanged |
| Frames.SortKeepsShape | update_mask.py:77-78 | sorting keeps the column count and the presence of every key |
| Alignment.MatchingRows | update_mask.py:146-148 | every selected row is a row of the table that matches every lookup entry |
| Alignment.MatchingRowsEmpty | update_mask.py:103-104 | the selection is empty iff no row of the table matches the lookup |
| Alignment.MatchingRowsInOrder | update_mask.py:148 | the selection keeps the table's row order (it is a subsequence) |
| Alignment.MatchingRowsComplete | update_mask.py:146-148 | the boolean mask keeps every matching row, as many times as the table holds it, and no other row |
| Alignment.FilterMatches | update_mask.py:146-148 | filtering with the AND-ed column mask selects exactly the matching rows |
| Alignment.ValuesFoundInDf | update_mask.py:139-151 | the loop returns the matching rows, or no rows when a column is missing or the lookup is empty (`KeyError`) |
| Alignment.KeyOnlyRowAgrees | update_mask.py:101-113 | the inserted line carries the source row's key values, agrees with it on every key and has all its keys |
| Alignment.KeyOnlyLine | update_mask.py:101-113 | the line built column by column is the key-only row: key values from the source row, null elsewhere |
| Alignment.AlignAt | update_mask.py:84-115 | one loop pass pads, keeps, inserts into the target or inserts into the driver exactly as `Step` says |
| Alignment.WalkLengths | update_mask.py:81-115 | after k passes the target has at least k rows, and each pass adds at most one row overall |
| Alignment.StepKeepsRows | update_mask.py:84-115 | one pass loses no row of either table and keeps their order |
| Alignment.WalkKeepsRows | update_mask.py:81-115 | the walk loses no row of either table and keeps their order |
| Alignment.WalkShape | update_mask.py:81-115 | every row of both tables keeps the column count |
| Alignment.StepAligns | update_mask.py:84-115 | after the pass at i, positions up to i hold a padding row or rows whose keys agree |
| Alignment.WalkAligns | update_mask.py:81-115 | after k passes, every position below k holds a padding row or rows whose keys agree |
| Alignment.WalkIdentical | update_mask.py:81-118 | walking a table against itself changes nothing |
| Alignment.WalkTables | update_mask.py:81-118 | the loop runs exactly as many passes as the sorted driver had rows and yields `Walk` |
| Alignment.AlignTables | update_mask.py:75-125 | sort both, walk, sort both again |
| Alignment.AlignShape | update_mask.py:75-125 | both aligned tables keep the column count |
| Alignment.LabelledShape | update_mask.py:64-72 | both results keep the column count |
| Alignment.LabelledKeepsArguments | update_mask.py:64-72 | every input row survives in its own result table and no table shrinks |
| Alignment.MakeTwoDataframesIdenticallyLabelled | update_mask.py:64-72 | the longer table drives (ties: the first), and the results come back in argument order |
| Reconciliation.Normalise | update_mask.py:157 | the normalised text neither starts nor ends with whitespace |
| Reconciliation.NormaliseDate | update_mask.py:157 | a date stored with a midnight time ("2022-03-03 00:00:00") normalises to the date alone |
| Reconciliation.RemoveMidnight | update_mask.py:157 | the replace removes exactly the trailing time part of such a date |
| Reconciliation.NormaliseClean | update_mask.py:157 | a text without "00:00:00" and without surrounding whitespace is unchanged |
| Reconciliation.NormaliseSinglePass | update_mask.py:157 | the removal is one pass: "000:00:000:00:00" normalises to "00:00:00", which normalises to "" |
| Reconciliation.NormaliseTable | update_mask.py:154-157 | same shape, every cell a text without surrounding whitespace |
| Reconciliation.NormaliseShape | update_mask.py:154-157 | normalising keeps the column count, and afterwards every key is present |
| Reconciliation.NormaliseTableClean | update_mask.py:154-157 | a table of clean texts is its own normal form |
| Reconciliation.ChangeAllColtypesToStr | update_mask.py:154-157 | the column-by-column loop yields the normalised table |
| Reconciliation.RowLine | update_mask.py:131-134 | a serialised line neither starts nor ends with the bar character |
| Reconciliation.RowLineSplit | update_mask.py:131-134 | without the bar character in any cell and with non-empty end cells, the line is the texts joined by the bar character, and splitting it gives them back |
| Reconciliation.RowLineDropsEmptyEnds | update_mask.py:134 | an empty first cell leaves no trace: the serialisation is lossy |
| Reconciliation.RowToLine | update_mask.py:131-134 | the cell loop followed by the strip yields `RowLine` |
| Reconciliation.ConvertDfToListOfStr | update_mask.py:128-136 | one line per row, in row order |
| Reconciliation.EqualityMask | update_mask.py:59 | a mask cell is true iff both cells are the same text |
| Reconciliation.MaskSymmetric | update_mask.py:59 | the mask does not depend on the order of the operands |
| Reconciliation.FirstNullRow | update_mask.py:49-52 | the first row whose dup-check cell is null, or none when every row has one |
| Reconciliation.TrimMask | update_mask.py:53 | the mask row at that position is dropped and every other row keeps its order |
| Reconciliation.UpdateMask.constructor | update_mask.py:21-42 | the snapshots are normalised and aligned with "after" first, and the mask is saved |
| Reconciliation.UpdateMask.SaveMask | update_mask.py:58-60 | the mask is absent when the lengths differ, otherwise it is the equality mask, trimmed |
| Reconciliation.UpdateMask.ReadjustMaskWithNewSize | update_mask.py:47-56 | only the mask changes, trimmed at the first null dup-check row |
| Reconciliation.SortedNormalisedTexts | update_mask.py:154-157 | after normalising and sorting every cell is a text |
| Reconciliation.MaskOfTexts | update_mask.py:47-59 | a table of texts compared with itself gives an all-true mask and no row is trimmed |
| Reconciliation.LabelledIdentical | update_mask.py:64-125 | the same table on both sides aligns to itself in key order |
| Reconciliation.IdenticalSnapshots | update_mask.py:21-42 | identical snapshots: both results are the normalised snapshot in key order (the snapshot itself if already in order), and the mask is all true |
| Reconciliation.UnresolvedMismatch | update_mask.py:75-125 | two sorted rows per side, first keys equal, second keys different: the results have 2 and 3 rows and no mask is produced |
| Reconciliation.UnresolvedOneTwoOneThree | update_mask.py:75-125 | keys 1,2 against keys 1,3 end with 2 and 3 rows |
| Reconciliation.LabelledOfSorted | update_mask.py:64-125 | for sorted inputs the alignment is the walk over the first table, sorted |
| Reconciliation.WalkTwoMismatch | update_mask.py:81-115 | for such a pair the walk leaves 2 driver rows and 3 target rows |
| SqlUploader.SqlType | df_mysql_uploader.py:37-44 | a dtype becomes its MySQL type when the map has it, otherwise it stays as it is |
| SqlUploader.SqlTypeStable | df_mysql_uploader.py:59 | translating a translated type changes nothing |
| SqlUploader.ReplaceKeepsClean | df_mysql_uploader.py:92-93 | a replace introduces no removed character and no upper-case letter that its replacement lacks |
| SqlUploader.SanitiseChainClean | df_mysql_uploader.py:92-93 | the sanitised name has no upper-case letter and none of " ()/.:\\$" |
| SqlUploader.ColumnNameClean | df_mysql_uploader.py:92-94 | the same after the "index" rename |
| SqlUploader.PlainName | df_mysql_uploader.py:94 | "req_index" and other plain names are clean |
| SqlUploader.SanitiseOnlyCollapses | df_mysql_uploader.py:92-93 | on a clean name the chain only collapses "__" to "_", in one pass |
| SqlUploader.CollapseThree | df_mysql_uploader.py:92 | "a___b" collapses to "a__b" |
| SqlUploader.SanitiseThree | df_mysql_uploader.py:92-93 | sanitising "a___b" gives "a__b" |
| SqlUploader.SanitiseTwo | df_mysql_uploader.py:92-93 | sanitising "a__b" gives "a_b" |
| SqlUploader.SanitiseNotIdempotent | df_mysql_uploader.py:92-94 | sanitising twice differs from sanitising once |
| SqlUploader.CategoryAsText | df_mysql_uploader.py:98-108 | a category column becomes text; other columns are unchanged |
| SqlUploader.CleanColumn | df_mysql_uploader.py:88-94 | same cells, no category dtype, a clean name |
| SqlUploader.AsText | df_mysql_uploader.py:111-113 | same name and cells, dtype `object` |
| SqlUploader.DefinitionCommas | df_mysql_uploader.py:59 | with no ',' in names or dtypes the column list has exactly one comma between neighbouring definitions |
| SqlUploader.CellLiteral | df_mysql_uploader.py:142-152 | "nan", "NaT" and empty cells are written bare, every other cell is its quote-free text cut to its first min(length, 255) characters between two quotes; the only quotes are the two around a quoted cell |
| SqlUploader.NullRewriteKeepsQuotes | df_mysql_uploader.py:158 | the null rewrite neither adds nor removes a quote |
| SqlUploader.NullRewriteInsideLiteral | df_mysql_uploader.py:158 | the rewrite also reaches inside quoted text: "banana" is sent as 'banulla' |
| SqlUploader.RewriteBanana | df_mysql_uploader.py:158 | the replace on that literal |
| SqlUploader.LiteralQuotes | df_mysql_uploader.py:142-152 | a row's literals hold two quotes per quoted cell |
| SqlUploader.GroupQuotes | df_mysql_uploader.py:138-154 | a row group holds two quotes per quoted cell of the row |
| SqlUploader.GroupsQuotes | df_mysql_uploader.py:137-154 | the row groups hold two quotes per quoted cell of the table |
| SqlUploader.RawQueryQuotes | df_mysql_uploader.py:136-155 | the query has exactly two quotes per quoted cell: no cell text adds a quote of its own |
| SqlUploader.InsertQueryQuotes | df_mysql_uploader.py:136-158 | the same for the query that is returned |
| SqlUploader.ZeroColumnsUnquoted | df_mysql_uploader.py:140-152 | a table without columns has no quoted cells |
| SqlUploader.ChangeCategoryTypeColumnToStr | df_mysql_uploader.py:97-108 | every category column becomes text and nothing else changes |
| SqlUploader.ChangeAllColumnsDataToStr | df_mysql_uploader.py:110-113 | every column becomes text with the same cells |
| SqlUploader.CleanupTblColumns | df_mysql_uploader.py:87-94 | the columns become the cleaned columns, with their number and row count kept |
| SqlUploader.CreateTbl | df_mysql_uploader.py:52-67 | the statements are the drop followed by the create over the cleaned columns |
| SqlUploader.AppendRowGroup | df_mysql_uploader.py:138-154 | one row adds "(" + its literals joined by ", " + "), "; a row without cells cuts one character instead |
| SqlUploader.BuiltFinal | df_mysql_uploader.py:155 | cutting the last two characters and adding ";" gives the raw query |
| SqlUploader.GenerateInsertQuery | df_mysql_uploader.py:115-161 | the columns become text and the query is the insert query of the table as given |
| SqlUploader.RawQueryIgnoresDtype | df_mysql_uploader.py:131-155 | the query depends only on the cells, not on dtypes or names |
| Backup.LastSeparator | backup_manager.py:52 | the last '/' or '\\' of the path, or -1 when there is none |
| Backup.Basename | backup_manager.py:52 | the basename is a separator-free suffix of the path, and the whole path when it has no separator |
| Backup.FirstMatch | backup_manager.py:50-55 | the first entry whose name contains the basename, or none |
| Backup.FirstMatchAt | backup_manager.py:51-52 | an entry containing the basename, with none before it, is the first match |
| Backup.FirstMatchMayBeAnotherFile | backup_manager.py:52 | "ba.csv" scanned before "a.csv" gives "a.csv" the date of "ba.csv" |
| Backup.CandidateWithoutDot | backup_manager.py:28-34 | without a '.', "data" becomes "dat_20220101a" |
| Backup.CandidatesDistinct | backup_manager.py:31-34 | the five candidates are pairwise different |
| Backup.CandidateDiffers | backup_manager.py:34 | a candidate never equals the original name |
| Backup.FindDate | backup_manager.py:71 | the leftmost match of `_(\d{8})\.` at or after a position |
| Backup.FirstDateInName | backup_manager.py:71-74 | the digits of the leftmost match, or none iff there is no match |
| Backup.FileNameHasModifiedDate | backup_manager.py:70-81 | true exactly when the name holds a match and the leftmost match's digits are the scanned date; then that date is eight digits |
| Backup.NoMatchAcross | backup_manager.py:71 | a match cannot start in a match-free stem followed by '_' |
| Backup.DatedCandidate | backup_manager.py:28-34 | the first candidate of a name with an extension and a match-free stem is recognised with exactly the inserted date |
| Backup.CounterCandidateUndated | backup_manager.py:31-34 | candidates 1..4 are not recognised as dated |
| Backup.CounterTailUndated | backup_manager.py:71 | no match lies in or across "_date_N.ext" |
| Backup.FreeFrom | backup_manager.py:31-40 | the first candidate from `count` on that is not taken, or none when all are taken |
| Backup.RenameEntry | backup_manager.py:37 | only the renamed entry's name changes |
| Backup.RenameKeepsUnique | backup_manager.py:37 | renaming to a free name keeps names unique and swaps the source for the target in the name set |
| Backup.Folder.Rename | backup_manager.py:36-40 | renames iff the target is free; otherwise nothing changes |
| Backup.Folder.Write | backup_manager.py:21-23 | the written name exists afterwards: an existing entry of that name is overwritten in place with the new date and time, other entries unchanged; otherwise a new entry is appended |
| Backup.Folder.GetFileModifiedDate | backup_manager.py:45-57 | the scan returns the date of the first entry containing the basename, or "" |
| Backup.ChangeFileNameWithModifiedDate | backup_manager.py:25-43 | renames to the first free candidate and answers true; answers false with the folder unchanged when all five are taken |
| Backup.SaveDataframeToCsv | backup_manager.py:17-23 | a new file is written; an existing one is first renamed, and nothing is written when no candidate is free |
| Backup.Matching | backup_manager.py:92-95 | the entries whose names contain the stem, and only those |
| Backup.MatchingStep | backup_manager.py:93-95 | one more scanned entry is appended iff its name matches |
| Backup.CollectMatching | backup_manager.py:92-95 | the scan collects the matching entries in scan order |
| Backup.InsertByMtime | backup_manager.py:97 | inserting adds the entry and nothing else |
| Backup.SortByMtime | backup_manager.py:97 | the sort is a permutation |
| Backup.InsertWithMtime | backup_manager.py:97 | the inserted entry goes before every entry of its own time |
| Backup.SortByMtimeStable | backup_manager.py:97 | `sorted` is stable: for every time, the entries of that time keep their scan order |
| Backup.InsertByMtimeSorted | backup_manager.py:97 | inserting keeps the time order |
| Backup.SortByMtimeSorted | backup_manager.py:97 | the sorted entries are in ascending time order |
| Backup.Keys | backup_manager.py:108 | the keys are the entry names, in order |
| Backup.GetNthKey | backup_manager.py:104-112 | the key at n (from the end when negative), or `IndexError` exactly when no position matches |
| Backup.LastBackupIsSecondNewest | backup_manager.py:84-102 | with unique names and two or more matches, the result names the second newest matching entry, and every second newest entry has that name. Second newest: another matching entry, with another name, is at least as new, and no other is newer. Ties go by scan order: the entry is the last scanned of its time when the newest is strictly newer, and the second last, with the newest last, when both are as new |
| Backup.SecondNewestUnique | backup_manager.py:97-102 | at most one entry is second newest, so the tie-break singles out the returned name |
| Backup.SecondNewestIsSortedSecondLast | backup_manager.py:97-102 | an entry is second newest exactly when it is the second last entry of the stable time sort |
| Backup.SortedSecondNewest | backup_manager.py:97-102 | the second last sorted entry is second newest |
| Backup.SortedLastOfItsTime | backup_manager.py:97-102 | in the stable sort, the second last entry is the last of its time in scan order when the last sorted entry is strictly newer, and otherwise the second last of its time, followed by the last sorted entry |
| Backup.NewerThanSecondLast | backup_manager.py:97-102 | only the last sorted entry is newer than the second last |
| Backup.MatchingUnique | backup_manager.py:92-95 | the matching entries of a folder have unique names |
| Backup.LastTwoDiffer | backup_manager.py:97-102 | the last two sorted entries have different names |
| Backup.GetLastBackedUpFileName | backup_manager.py:83-102 | collects, sorts by time and returns the second newest name, or "" when there are fewer than two |

## Left out

- I/O is not modelled: the MySQL connection, cursor and commit; `to_csv` and the CSV files
  it writes; `print`. The uploader's operations return the statements they would execute.
  `drop_tbl`, `get_all_data_from_tbl`, `insert_all_data_from_df` and `close` only pass
  such text to the cursor.
- Clock, timestamps and time zones are not modelled. A directory entry carries its
  formatted date and a number for its modification time, both as inputs.
  `SaveDataframeToCsv` takes today's date and the current time as parameters.
- Cell conversion and dtype inference are not modelled. Cells enter already as the text
  `str()` gives them, nulls as null. Dtypes are names. The `try/except` around the dtype
  test (df_mysql_uploader.py:101-105) cannot fail on these names.
- Pandas indexes and labels are not modelled. Tables are sequences of rows addressed by
  position, and columns are addressed by index. `reset_index` therefore has nothing to do,
  and the `try/except` at df_mysql_uploader.py:141-144 (a non-reset index) cannot fire.
  The stale `cur_str` that branch would reuse is not modelled.
- `sort_values`: Frames.SortByKeys is a stable sort. Pandas' default single-column sort is
  not stable, so the order of rows with equal keys is not captured. The relative order of
  nulls is modelled as "nulls last".
- `ChangeCategoryTypeColumnToStr` runs one loop over the columns. The source collects the
  names first and converts them in a second loop, with the same result.
- `change_file_names_in_folder` (backup_manager.py:60-67) is not modelled. It joins a
  folder path with a doubled backslash, and then looks up the date of a bare name in the
  current directory instead of in the folder. Paths in this model have no folder part:
  every path is looked up in one `Folder`.
- Backup.Basename: Windows drive letters are not treated as separators.
- Backup.FindDate: `\d` in the date pattern is read as the ASCII digits '0'..'9'. Python's
  `re` also accepts other Unicode decimal digits there, such as Arabic-Indic digits.
- Reconciliation.UpdateMask.constructor: its requires clauses ask for a dup-check column
  and key columns that exist (`colDupCheck < ncols`, `colList[j] < ncols`). A misnamed
  column makes `sort_values` (update_mask.py:77-78) or the null test (update_mask.py:49)
  raise `KeyError`, and that error path is not modelled.
- Text is compared and lowered character by character. There is no Unicode case folding,
  and `lower` changes only ASCII letters.
- Backup.Folder.Rename: renaming onto an existing name is an error, as on Windows
  (`FileExistsError`). On POSIX `os.rename` would overwrite silently. The source needs the
  error for its retry loop.
- The dictionary `files_dict` is a sequence of entries with unique names (those of a
  folder), so keys and insertion order coincide.
- Reconciliation.UpdateMask: the file path of the mask and the `latest_before.csv` output
  are not modelled, since they are only written to disk.
