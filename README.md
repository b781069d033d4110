# Duplicate-name checker and video merger, modelled in Dafny

The repository holds two desktop tools written with tkinter.

- **file_duplicate_checker.py** walks a folder tree twice. The first walk
  counts the files. The second builds a dictionary from each file name to
  the directories it was found in. The tool then keeps the names found in
  more than one directory and shows them, most-repeated first, in a result
  table whose columns can be re-sorted by clicking.
- **video_merger.py** keeps an editable list of video files. The list can
  be added to without repeats, reordered by dragging, moved up or down,
  deleted from and naturally sorted. Before a merge the tool checks that
  ffprobe reports the same stream for every file. It then writes an ffmpeg
  concat list, runs `ffmpeg -f concat -c copy`, watches the cancel flag
  while reading ffmpeg's stderr, judges the result and cleans up.

The model lifts the deterministic logic out of both tools.

- **Inputs are parameters.** The directory walk, the ffprobe results, the
  ffmpeg exit code and stderr lines, file sizes, and the answers of
  dialogs are all parameters.
- **The cancel flag is one number.** A worker polls its flag (`scanning`,
  `processing`) at fixed checkpoints. Assuming the flag is not set again
  while that worker runs (see "Left out"), the flag's whole history is one
  number: the first checkpoint, in the order the worker reaches them, that
  sees it cleared.
- **State that the source updates in place is a class.** The windows' state
  (`DuplicateChecker.Checker`, `VideoMergerApp.VideoMerger`) is a class
  whose methods update their fields.
- **Loops stay loops.** The source's loops are methods with loop invariants,
  each proved equal to a specification function. The properties are proved
  about those functions.

Modules, in dependency order:

| module | file | what it holds |
|---|---|---|
| `Text` | text.dfy | `Option`; decimal rendering and parsing; `:02d`; ASCII `lower`; `split`/`join` on one character |
| `Paths` | paths.dfy | POSIX `os.path.basename`, `dirname` and `join` |
| `Sorting` | sorting.dfy | Python's stable `sorted`/`list.sort` with `key=` and `reverse=`; Python's ordering of strings and lists |
| `FileList` | file_list.dfy | the edits of the merger's file list |
| `NaturalSort` | natural_sort.dfy | the natural-sort key of `sort_files_by_name` |
| `Duration` | duration.dfy | `_format_duration` |
| `MergeCheck` | merge_check.dfy | the ffmpeg version banner, `_check_video_compatibility`, the checks of `start_merge`, the merge-button condition |
| `MergeRun` | merge_run.dfy | `_merge_videos_thread`: the concat list, the command, stderr collection, the outcome and the cleanup |
| `VideoMergerApp` | video_merger.dfy | the merger window's state and its handlers |
| `DuplicateScan` | dup_scan.dfy | `_count_total_files` and `_scan_files_thread` |
| `DuplicateChecker` | dup_checker.dfy | the checker window's state, `_display_results`, `sort_by_column` |

The model follows the code where it departs from the usual description of
the tools.

- **Cancelling needs no running job.** `cancel_scan` and `cancel_merge`
  clear the flag and set their status text whether or not a job runs.
- **Paths are written as given.** The concat list holds each path exactly
  as it was chosen, with backslashes doubled on Windows. The paths are not
  made absolute.
- **Moves drop a neighbour.** `move_selected_up` never puts back the file
  just above the selection, and `move_selected_down` never puts back the
  file just below it. Each move therefore makes the list one file shorter.
  This is stated as it behaves (`FileList.MovedUpDropsNeighbour`,
  `FileList.MovedDownDropsNeighbour`), not as a permutation.
- **Unreadable directories are skipped.** `os.walk` is called without
  `onerror`, so a directory that cannot be listed is left out of the walk
  without notice. In the model that is a walk without it. A `Raise` step
  stands for any exception raised while iterating.

## Model

| member | source | states |
|---|---|---|
| Text.ParseNatToString | file_duplicate_checker.py:455 | `int(str(n)) == n`: the count cell reads back as the count it shows |
| Text.NatToString | file_duplicate_checker.py:329 | `str(n)` is one or more digits, and a single digit exactly when `n < 10` |
| Text.Pad2 | video_merger.py:923-925 | `f"{n:02d}"` is all digits, at least two of them, exactly two below 100, and reads back as `n` |
| Text.Lower | file_duplicate_checker.py:457 | `lower()` keeps the length and maps each character on its own, leaving no upper-case ASCII letter |
| Text.Split | video_merger.py:253 | `split(sep)` gives at least one piece, and no piece holds the separator |
| Text.JoinSplit | video_merger.py:253 | joining the pieces of `split(sep)` with `sep` gives the text back |
| Text.SplitJoin | file_duplicate_checker.py:324 | splitting a join of separator-free pieces gives the pieces back |
| Text.SplitFirst | video_merger.py:253 | `split('\n')[0]` is the longest prefix without a line break: the break or the end follows it |
| Paths.Basename | video_merger.py:366 | `os.path.basename` holds no '/' |
| Paths.StripSlashes | video_merger.py:403 | the head of a path loses only its trailing slashes, and ends in no slash |
| Paths.SplitUnder | video_merger.py:403-405 | a name without '/' joined under a directory splits back into that directory and that name |
| Paths.SplitUnderRoot | video_merger.py:403-405 | the same under a directory made only of slashes, such as "/" |
| Paths.JoinDirname | video_merger.py:403-405 | `dirname(join(dirname(p), b)) == dirname(p)` and `basename(...) == b` for any `p` and any `b` without '/' |
| Sorting.SortByKeyPermutation | file_duplicate_checker.py:300 | `sorted(..., key=...)` holds the same items, as many times each |
| Sorting.SortByKeySorted | file_duplicate_checker.py:300 | for a total preorder, every item precedes every later one in the requested direction |
| Sorting.SortByKeyStable | file_duplicate_checker.py:300 | items with equal keys keep their order, with `reverse=True` as well |
| Sorting.LexLeTotal | video_merger.py:368 | Python's list and string ordering over a strict total order compares any two sequences |
| Sorting.LexLeTransitive | video_merger.py:368 | that ordering is transitive |
| Sorting.LexLeAntisymmetric | video_merger.py:368 | two sequences each at most the other are equal |
| Sorting.StringLeTotalPreorder | file_duplicate_checker.py:457 | `<=` on strings is a total preorder, so sorting by a text cell is well defined |
| FileList.AddNew | video_merger.py:392-396 | the new list is at least the old one and at most the old one plus every chosen path |
| FileList.AddNewProperties | video_merger.py:392-396 | the old list stays in front; a file is in the result exactly when it was in the list or chosen; a list without repeats keeps none |
| FileList.AddFiles | video_merger.py:392-396 | the append loop builds `AddNew` and counts the files it added |
| FileList.DefaultOutputPlace | video_merger.py:402-406 | the proposed output lies in the first file's directory and is named after that file's name up to its first dot, plus `_merged.mp4` |
| FileList.DescendingStrict | video_merger.py:420 | the selection sorted in reverse holds the same positions, each strictly below the one before |
| FileList.DeleteBelowMarks | video_merger.py:423-425 | deleting position `d` after all larger marked positions were deleted deletes the file originally at `d` |
| FileList.RemoveAt | video_merger.py:420-425 | the deletion loop leaves exactly the files at unselected positions, in their order |
| FileList.DraggedMoves | video_merger.py:331-345 | a drag keeps the length and the files, puts the dragged file at the adjusted target, and keeps the other files in order |
| FileList.AscendingStrict | video_merger.py:439 | the sorted selection holds the same positions in strictly increasing order |
| FileList.AppendPicked | video_merger.py:453-454 | appending the selected files adds them in the order of the positions |
| FileList.PrependPicked | video_merger.py:491-492 | inserting them at the front in reverse leaves them in the order of the positions |
| FileList.MoveUp | video_merger.py:446-461 | the `moved`-flag loop builds: files before `f-1`, the selected files, then the unselected files after `f-1` |
| FileList.MoveDown | video_merger.py:484-499 | the downward loop builds: the unselected files up to `l`, the selected files from the largest down, then the files after `l+1` |
| FileList.MovedUpDropsNeighbour | video_merger.py:450-458 | moving up leaves one file fewer; with the file just above the selection the files are the same as before |
| FileList.MovedUpBlock | video_merger.py:450-458 | the selected files stand together in ascending order from `f-1` |
| FileList.MovedUpOthers | video_merger.py:450-458 | around that block, the files neither selected nor at `f-1` keep their order |
| FileList.MovedDownDropsNeighbour | video_merger.py:488-496 | moving down leaves one file fewer; with the file just below the selection the files are the same as before |
| FileList.MovedDownBlock | video_merger.py:488-496 | the selected files stand together, largest position first, ending at `l`, after the unselected files up to `l` |
| FileList.MovedDownOthers | video_merger.py:488-496 | around that block, the files neither selected nor at `l+1` keep their order |
| FileList.KeepRangeDistinct | video_merger.py:423-425 | leaving files out of a list without repeats leaves no repeats |
| FileList.EditsKeepDistinct | video_merger.py:413-505 | deleting, dragging and moving up or down keep the list free of repeats |
| NaturalSort.TextRun | video_merger.py:366 | the text run before `\d+`: digit-free and followed by a digit or the end |
| NaturalSort.DigitRun | video_merger.py:366 | `\d+` is maximal: all digits, followed by a non-digit or the end |
| NaturalSort.SplitDigits | video_merger.py:366 | `re.split('(\d+)', s)` alternates text and non-empty digit runs, starts and ends with text, and joins back to `s`; `""` splits to `[""]` |
| NaturalSort.NaturalKeyAlternates | video_merger.py:365-366 | a key has odd length, with numbers exactly at the odd positions |
| NaturalSort.KeysAlign | video_merger.py:365-368 | two keys hold a number at the same positions, so the comparison never puts an `int` against a `str` |
| NaturalSort.PartLtStrictTotalOrder | video_merger.py:366-368 | `<` on key elements is a strict total order |
| NaturalSort.NameLeTotalPreorder | video_merger.py:368 | `<=` on keys is a total preorder |
| NaturalSort.SortedByName | video_merger.py:368 | sorting keeps the length |
| NaturalSort.SortedByNamePermutation | video_merger.py:368 | the sorted list holds the same files |
| NaturalSort.SortedByNameOrdered | video_merger.py:368 | the sorted list is in ascending key order |
| NaturalSort.SortedByNameStable | video_merger.py:368 | files with equal keys, such as `a01` and `a1`, keep their order |
| NaturalSort.SplitNumbered | video_merger.py:366 | a digit-free word followed by digits splits into the word, the digits and `""` |
| NaturalSort.NumberedKey | video_merger.py:365-366 | the key of word + number is `[lower(word), number, ""]` |
| NaturalSort.NumbersByValue | video_merger.py:364-368 | after the same word, names sort by the value of their number: `clip9` before `clip10` |
| Duration.Clock | video_merger.py:918-920 | minutes and seconds lie in 0..59, and `h*3600 + m*60 + s` is the floor of the duration |
| Duration.ClockParts | video_merger.py:918-920 | `seconds // 3600`, `(seconds % 3600) // 60` and `seconds % 60` give minutes and seconds in 0..59 that add up, with the hours, to the whole seconds |
| Duration.FormatDuration | video_merger.py:915-916 | a string argument is returned unchanged |
| Duration.HourShown | video_merger.py:922-925 | the hour field is shown exactly when the duration is at least one hour |
| Duration.FormatDurationRoundTrip | video_merger.py:913-925 | reading the text back gives the whole seconds, in three fields when there is an hour and two otherwise |
| MergeCheck.NonSpaceRun | video_merger.py:254 | `\S+` takes the longest whitespace-free prefix |
| MergeCheck.SearchVersionSound | video_merger.py:254 | a version found by `re.search` is non-empty, whitespace-free and follows an occurrence of `ffmpeg version ` |
| MergeCheck.StandardBanner | video_merger.py:253-256 | output starting with `ffmpeg version v` followed by a blank or the end gives back `v` |
| MergeCheck.CheckCompatibility | video_merger.py:594-628 | the verdict passes exactly when the message is empty |
| MergeCheck.FirstFailure | video_merger.py:603-612 | the position of the first failed probe: every earlier probe succeeded |
| MergeCheck.SurveyLists | video_merger.py:615-628 | from any position on, with every probe read, the listed files are exactly those whose stream differs from the first, in increasing order |
| MergeCheck.ProbedUpToFirstFailure | video_merger.py:603-612 | the verdict depends only on the probes up to the first failed one: no file after it is probed |
| MergeCheck.UnreadableVerdict | video_merger.py:603-612 | with ffmpeg and two or more files, a failed probe fails the check at once, with the first-file message for file 0 and the general message naming the path otherwise |
| MergeCheck.ReadableVerdict | video_merger.py:609-628 | the incompatible list holds exactly the later files whose stream differs from the first, as (1-based position, base name), in order; the check passes exactly when all streams are equal |
| MergeCheck.NoMismatchIff | video_merger.py:615-628 | no file is listed exactly when every stream equals the first |
| MergeCheck.MessagePrefixes | video_merger.py:729-734 | both unreadable-file messages start with "无法读取", and no other message of the check does |
| MergeCheck.UnreadableIffPrefix | video_merger.py:729-734 | the message starts with "无法读取" exactly when, with ffmpeg and two or more files, some probe failed |
| MergeCheck.StartError | video_merger.py:712-750 | an error dialog is shown exactly when the merge neither starts nor is declined |
| MergeCheck.EnabledPassesFirstChecks | video_merger.py:712-726 | an enabled merge button (the condition at line 929) is exactly what passes the first three checks of `start_merge` |
| MergeCheck.StartedMeans | video_merger.py:711-760 | a started merge had the button's condition, every probe succeeded, every stream matched or the warning was accepted, and a directory was created exactly when the output's directory was missing |
| MergeCheck.DeclinedWhen | video_merger.py:728-739 | the merge is declined exactly when the button's condition holds and the check fails with a message that is not an unreadable-file one |
| MergeCheck.DeclinedMeans | video_merger.py:728-739 | the user is asked, and can decline, exactly when the button's condition holds, every probe succeeded and some stream differs |
| MergeRun.DoubleBackslashes | video_merger.py:780 | doubling backslashes adds no line break |
| MergeRun.HalveDouble | video_merger.py:778-782 | the doubling is undone by its own inverse, halving: the escaping loses nothing |
| MergeRun.WriteDescriptor | video_merger.py:776-785 | the writing loop produces one `file '<path>'` line per input, in order |
| MergeRun.DescriptorRoundTrip | video_merger.py:776-785 | the list determines its inputs: undoing the writing gives the input paths, in order, for paths without line breaks |
| MergeRun.FfmpegArgs | video_merger.py:792-800 | the command has 11 words: `ffmpeg` first, the list file after `-i`, then `-c copy` and `-y`, the output last |
| MergeRun.CollectStderr | video_merger.py:812-825 | the lines are collected up to and including the one after which the flag is found cleared, or all of them |
| MergeRun.ErrorTail | video_merger.py:865-869 | the error detail is the last `min(n, 10)` stderr lines |
| MergeRun.MergeVideosThread | video_merger.py:765-903 | the worker, step by step, ends as the specification function `Merge` says |
| MergeRun.WorkerStatus | video_merger.py:838-891 | every outcome posts a status line except a success with the size warning |
| MergeRun.CancelledIff | video_merger.py:812-846 | a run is cancelled exactly when ffmpeg started and the flag was found cleared at one of its reads |
| MergeRun.SucceededIff | video_merger.py:849-861 | success needs exit code 0 and an existing, non-empty output, and warns exactly when the output is under 80% of the inputs' total size |
| MergeRun.FailureReport | video_merger.py:862-872 | a failure reports the exit code and the last `min(n, 10)` stderr lines |
| MergeRun.Cleanup | video_merger.py:836-900 | once created, the list file is removed on every path, a failed write to it included; an existing output is removed on cancel and failure, and on no other path |
| DuplicateScan.CountTotalFiles | file_duplicate_checker.py:241-253 | the count is the number of walked files, or -1 when the flag is seen cleared after a directory or the walk raises; `failed` marks the raise |
| DuplicateScan.RecordedIsIndex | file_duplicate_checker.py:277-280 | the dict's keys are the walked names in first-seen order, and each name's list holds exactly its directories, in walk order |
| DuplicateScan.RecordedSize | file_duplicate_checker.py:277-283 | the lists add up to the number of files recorded: each file is recorded exactly once |
| DuplicateScan.Statuses | file_duplicate_checker.py:288-290 | the `k`-th status refresh shows `100*(k+1)` files |
| DuplicateScan.Refresh | file_duplicate_checker.py:288-290 | the status is refreshed exactly at every 100th file |
| DuplicateScan.ScanFile | file_duplicate_checker.py:271-290 | one file: check the flag, record the file, count it, divide by the total (raising when it is 0), refresh every 100th |
| DuplicateScan.ScanDirectory | file_duplicate_checker.py:270-290 | the inner loop records the files of the directory up to the one where it stops, and stops as `DirRun` says |
| DuplicateScan.IndexFiles | file_duplicate_checker.py:269-294 | the outer loop records the walked files up to the stop, in walk order, and stops as `Run` says |
| DuplicateScan.DuplicatesMembers | file_duplicate_checker.py:297 | the comprehension keeps exactly the entries with more than one location |
| DuplicateScan.DuplicatesOfWalk | file_duplicate_checker.py:297 | a name is reported, with its directories, exactly when it was walked in more than one directory |
| DuplicateScan.SortByCountPermutation | file_duplicate_checker.py:300 | the sort keeps every duplicate |
| DuplicateScan.SortByCountOrdered | file_duplicate_checker.py:300 | duplicates come in non-increasing order of their location counts |
| DuplicateScan.SortByCountStable | file_duplicate_checker.py:300 | names with equal counts keep their first-seen order |
| DuplicateScan.ScanFilesThread | file_duplicate_checker.py:255-313 | the worker ends as `ScanResult` says: cancelled, count error, walk error, or the sorted duplicates with the total |
| DuplicateScan.FoundMeansUninterrupted | file_duplicate_checker.py:255-304 | results are shown only when no walk raised, the flag stayed set at every check, and the total is the walk's file count |
| DuplicateScan.UninterruptedScanFindsDuplicates | file_duplicate_checker.py:255-304 | an uninterrupted scan reports exactly the names found in more than one directory, most-repeated first |
| DuplicateChecker.PathTextParts | file_duplicate_checker.py:322-326 | the locations cell splits back into the first `min(n,3)` paths and, exactly when `n > 3`, a note of the `n-3` not shown |
| DuplicateChecker.RowsFor | file_duplicate_checker.py:321-330 | one row per duplicate, in order, showing the name, the count and the locations text |
| DuplicateChecker.InfoFor | file_duplicate_checker.py:318-330 | `full_file_info` holds exactly the new item ids, each with its duplicate |
| DuplicateChecker.InsertRows | file_duplicate_checker.py:321-330 | the insertion loop builds those rows and that map |
| DuplicateChecker.NextSort | file_duplicate_checker.py:444-448 | after a click the sort column is the clicked one |
| DuplicateChecker.NextSortToggles | file_duplicate_checker.py:444-448 | a new column sorts ascending; the same column flips the order, and flipping twice restores it |
| DuplicateChecker.SortRowsSorted | file_duplicate_checker.py:450-457 | re-sorting keeps the rows and orders them by count as numbers, or by the lower-cased cell text, in the chosen direction |
| DuplicateChecker.SortRowsStable | file_duplicate_checker.py:457 | rows with equal lower-cased text keep their order |
| DuplicateChecker.SortRowsStableByCount | file_duplicate_checker.py:455 | rows with equal counts keep their order |
| DuplicateChecker.ConsistentPermuted | file_duplicate_checker.py:459-461 | reordering the rows keeps each row matching its saved information |
| DuplicateChecker.ConsistentAfterDisplay | file_duplicate_checker.py:318-330 | rows appended with fresh ids keep every row matching the saved information |
| DuplicateChecker.DisplayedRowsMatchInfo | file_duplicate_checker.py:329-330 | each displayed row's id maps to its duplicate, and the row shows that name and count |
| DuplicateChecker.OutcomeStatus | file_duplicate_checker.py:255-313 | the status changes exactly when the scan completed or the walk raised; a walk error shows a text starting with "扫描失败", the permission text exactly for a `PermissionError`; a completed scan shows neither failure text |
| DuplicateChecker.Checker.constructor | file_duplicate_checker.py:117-137 | no scan, no rows, no saved information, no sort column, ascending, the ready text |
| DuplicateChecker.Checker.ScanFiles | file_duplicate_checker.py:211-239 | an invalid folder changes nothing; otherwise the table is emptied, the status says counting and `scanning` is set |
| DuplicateChecker.Checker.DisplayResults | file_duplicate_checker.py:315-336 | the saved information is replaced by the new duplicates, their rows are appended, the totals are reported and scanning stops |
| DuplicateChecker.Checker.FinishScan | file_duplicate_checker.py:255-313 | whatever the outcome, the scan controls are reset; the status becomes `OutcomeStatus`'s text or stays; only a completed scan adds rows and replaces the saved information |
| DuplicateChecker.Checker.CancelScan | file_duplicate_checker.py:479-482 | the flag is cleared and the status says cancelling; nothing else changes |
| DuplicateChecker.Checker.ResetScanUi | file_duplicate_checker.py:484-489 | the flag is cleared; nothing else changes |
| DuplicateChecker.Checker.ClearResults | file_duplicate_checker.py:434-439 | rows and saved information are emptied and the status says so |
| DuplicateChecker.Checker.SortByColumn | file_duplicate_checker.py:441-462 | the sort state moves as `NextSort` says and the rows are re-sorted in the new order |
| VideoMergerApp.FfmpegStatusText | video_merger.py:253-263 | "not found" exactly when ffmpeg could not be run; the version when the banner names one |
| VideoMergerApp.LoadedText | video_merger.py:993-996 | the ready text exactly when the list is empty |
| VideoMergerApp.VideoMerger.constructor | video_merger.py:16-180 | empty list, no output, not processing; the ffmpeg flag, version and label as the version check found them |
| VideoMergerApp.VideoMerger.AddVideos | video_merger.py:372-411 | new paths are appended without repeats; when the refreshed list's sizes can be read, the output is proposed from the first file when unset and the status counts the added files, and otherwise both stay |
| VideoMergerApp.VideoMerger.RemoveSelected | video_merger.py:413-429 | the selected positions are removed; the status counts the selection unless the refresh raises |
| VideoMergerApp.VideoMerger.OnItemClick | video_merger.py:316-320 | the row under the pointer becomes the drag source |
| VideoMergerApp.VideoMerger.OnItemDrag | video_merger.py:322-347 | a drag onto another row moves the file there, and the drag source follows it unless the refresh raises; otherwise nothing changes |
| VideoMergerApp.VideoMerger.MoveSelectedUp | video_merger.py:431-467 | the list becomes `SelectionMovedUp`, unchanged when the first file is selected |
| VideoMergerApp.VideoMerger.MoveSelectedDown | video_merger.py:469-505 | the list becomes `SelectionMovedDown`, unchanged when the last file is selected |
| VideoMergerApp.VideoMerger.SortFilesByName | video_merger.py:359-370 | with two or more files, the list is naturally sorted, and the status says so unless the refresh raises |
| VideoMergerApp.VideoMerger.ClearFileList | video_merger.py:349-357 | a confirmed clear of a non-empty list empties it |
| VideoMergerApp.VideoMerger.BrowseOutput | video_merger.py:669-694 | a chosen path becomes the output; a cancelled dialog changes nothing |
| VideoMergerApp.VideoMerger.TypeOutput | video_merger.py:123-125 | text typed into the output entry, the empty text included, becomes the output path; nothing else changes |
| VideoMergerApp.VideoMerger.StartMerge | video_merger.py:696-763 | the outcome is `StartMerge`'s; a started merge sets `processing`, any other outcome resets the interface |
| VideoMergerApp.VideoMerger.CancelMerge | video_merger.py:975-978 | the flag is cleared and the status says cancelling |
| VideoMergerApp.VideoMerger.ResetUi | video_merger.py:980-996 | not processing; the merge button is enabled exactly when there are two or more files, an output and ffmpeg |

## Left out

- Widgets, layout, fonts, icons, message boxes, dialogs, context menus, the clipboard and the heading arrows are interface only. What a dialog answers is a parameter.
- Threads, `root.after`, the progress polling loops and `join` timeouts are concurrency. The cancel flags are modelled as the first checkpoint that sees them cleared, under the no-re-entry assumption below.
- Running ffmpeg and ffprobe is a foreign process. The terminate, wait and kill steps are left out; the exit code, the stderr lines and the probe results are inputs.
- `os.walk`, `getsize`, `exists`, `remove`, `makedirs`, `tempfile` and JSON decoding are file-system and library I/O. Their results are inputs.
- `_format_size`, the merge progress estimate and the placeholder progress steps depend on floating-point arithmetic and `%.2f`/`%.1f` formatting.
- The progress bar value `processed_files / total_files * 100` is a float and is not modelled.
- DuplicateScan.ScanStatus: the percentage in the scan status text is the exact floor of `100 * processed / total`. The source's `int(processed_files / total_files * 100)` rounds in binary floating point and can show one less when `total` divides `100 * processed`: 2900 of 10000 files shows 28% there and 29% in the model. IEEE-754 rounding is not modelled.
- DuplicateScan.Statuses: the status texts carry `ScanStatus`'s exact percentage, so they inherit the same one-off difference.
- The totals line that `_update_file_list` shows, and `_get_video_duration` and `_get_video_duration_seconds`, are computed from probes and file sizes, so they are I/O. What the handlers do when its unguarded `getsize` raises is modelled through `sizesReadable`.
- Partially rebuilt tree rows after `_update_file_list` raises are interface state and are not modelled.
- `_on_closing` of both windows is interface and thread shutdown.
- `show_file_details`, `copy_filename` and `copy_all_locations` are interface and clipboard code.
- The `_format_duration` at video_merger.py:212 and the `_update_merge_button_state` at video_merger.py:278 are shadowed by the later definitions. They are dead code.
- How ffmpeg reads the concat list is not modelled. Its concat reader keeps backslashes inside single quotes as written, so the doubled backslashes written on Windows reach it doubled. A path holding `'` is written unescaped (video_merger.py:785) and ffmpeg reads a different path, e.g. `file 'it's.mp4'` reads as `its.mp4`. `MergeRun.DescriptorRoundTrip` is about the model's own inverse of the writing.
- Paths are POSIX paths. Windows path rules in `os.path` are not modelled; the doubled backslashes of the concat list are.
- `isdigit`, `\d` and `lower()` are modelled on ASCII. Python's Unicode digits and case mappings are not.
- Duration.FormatDuration: NaN and infinite durations are not modelled, because they are floating-point values `int()` rejects.
- Negative durations are not covered by `Duration.FormatDurationRoundTrip`, which requires a non-negative duration. The formatting itself is defined for them, with floor division as Python does it.
- The selection restored in the tree after a move or a drag is interface state and is not modelled.
- Dialog exceptions caught by `add_videos` and `browse_output` are not modelled, because dialogs are not. The one other exception `add_videos` catches, from `_update_file_list`, is modelled.
- VideoMergerApp.VideoMerger.constructor: `launched == false` stands for the errors `_check_ffmpeg_available` catches, `SubprocessError` and `FileNotFoundError`. Any other error from running `ffmpeg -version`, such as a `PermissionError` for an ffmpeg that cannot be executed, escapes `__init__` and no window exists. The constructor does not represent that case.
- No re-entry while a worker runs is assumed, not proved. In the source a job can start while an older worker still runs. The Return key is bound to `scan_files` (file_duplicate_checker.py:67-68) even while the scan button is disabled, so a second scan can set `scanning` again under a running first worker. After `cancel_merge`, selecting a row re-enables the merge button (video_merger.py:929), so `start_merge` can set `processing` again while the cancelled worker still reads stderr; that worker's final `_reset_ui` then clears the new run's flag. The model treats each run's flag as cleared at most once and never set again while the run's worker is alive.
- MergeRun.WorkerStatus: the status text of a success with the size warning is not modelled, because it formats sizes with `_format_size`.
- DuplicateChecker.SortRowsSorted: lower-casing is ASCII only, as for the natural sort.
