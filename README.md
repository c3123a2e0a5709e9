# Temp files cleaner — a Dafny model

This project models the core of `log_cleaner.py`, a small desktop tool that
finds bulk log and temporary files below a folder and deletes them.

It models three actions of the tool:

- **Find** (`on_find`) chooses the folder to scan and walks it twice. The
  first pass counts every file and folder, which sizes the progress bar. The
  second pass collects results:
  - in the default mode, the files whose extension or whole name is in the
    safe-to-delete set;
  - in the "include all" mode, every file and every sub-folder.
- **Delete** (`on_delete`) needs found files and the user's confirmation. It
  then:
  - optionally writes a zip backup of those files first; a failed backup
    stops everything;
  - removes the files one by one, counting failures and carrying on;
  - runs a deepest-first `rmdir` loop over `found_dirs`; nothing ever fills
    that list, so no folder is removed (see "## Findings");
  - empties `found_files` and `found_dirs` and keeps `found_folders`.
- **Show More** (`show_more_window`) lists the results under a header per
  section.

The model is split into modules that follow the program's pieces:

| module | what it holds |
|---|---|
| `Strings` | `str.rfind`/`find` of one character, `lower()` and `strip()` with Python's white-space set |
| `Classifier` | the safe-to-delete set, `os.path.splitext`, and the file selection rule |
| `Paths` | POSIX `os.path.join` and `os.path.basename` |
| `FileSystem` | an abstract filesystem value (files, directories, paths whose removal is refused), with `os.path.exists`, `os.remove` and `os.rmdir` |
| `Scan` | the counts and lists the two scan passes produce over the triples `os.walk` yields |
| `Deletion` | the backup gate, the best-effort file loop and the deepest-first folder loop |
| `Listing` | the text of the "Show More" window |
| `Cleaner` | the path choice, and a `Session` class whose fields are the program's global lists, with `Find`, `Delete` and `ShowMoreWindow` |

`os.walk`, the user's answers (list selection, typed path, confirmation,
check boxes) and whether the archive can be written are parameters.

Two behaviours of the code that the model keeps as they are:

- `zipfile.ZipFile.write` with an `arcname` already in the archive adds a
  second entry of that name (log_cleaner.py:145-147). So `Deletion.Backup`
  keeps both entries (`Deletion.DuplicateBaseNamesKept`).
- "Include all" mode adds each folder's sub-folder count twice
  (log_cleaner.py:100 and :105). So the final progress overshoots
  `total_items`, and `Scan.Progress` states by how much.

## Model

| member | source | states |
|---|---|---|
| Strings.Strip | log_cleaner.py:33 | the typed path without surrounding white space: a slice of the entry with only white space before and after it, empty exactly when the entry is all white space, and otherwise neither starting nor ending with white space |
| Strings.Lower | log_cleaner.py:87 | `lower()` keeps the length, leaves no capital letter, changes only capitals, and maps each to its small letter |
| Classifier.ExtStart | log_cleaner.py:87 | where `splitext` cuts: at a dot after which the path has no further dot or separator, or at the end |
| Classifier.SplitExt | log_cleaner.py:87 | `splitext`: root + extension gives back the name; the extension is empty or starts with a dot and holds no further dot or separator; it is empty exactly when every dot of the last path component has only dots before it in that component |
| Classifier.IsSafeToDelete | log_cleaner.py:87-88 | a file is selected exactly when its whole name is in the set, or its lower-cased extension is one of the ten listed extensions |
| Classifier.MarkersMatchOnlyByName | log_cleaner.py:22-23 | a lower-cased extension can never equal `.DS_Store` or `Thumbs.db`, so those two entries of the set match only by whole name |
| Classifier.LastIndexOfLower | log_cleaner.py:87 | lower-casing does not move the last dot |
| Classifier.ExtensionOfLower | log_cleaner.py:87 | taking the extension and lower-casing commute |
| Classifier.ExtensionTestIgnoresCase | log_cleaner.py:87-88 | two names that differ only in letter case, neither a whole-name entry, are selected alike |
| Classifier.SelectedByExtension | log_cleaner.py:87-88 | `app.LOG` and `a.b.cache` are selected: the extension test ignores case and uses the last dot |
| Classifier.OtherExtensionRejected | log_cleaner.py:87-88 | `notes.txt` is not selected |
| Classifier.ThumbsDbIsCaseSensitive | log_cleaner.py:87-88 | `Thumbs.db` is selected by name; `thumbs.db` is not |
| Classifier.DsStoreIsCaseSensitive | log_cleaner.py:87-88 | `.DS_Store` has no extension and is selected by its exact name only; `.ds_store` is not selected |
| Classifier.MarkerIsNotAnExtension | log_cleaner.py:87-88 | `x.DS_Store` is not selected, although its extension is `.DS_Store` |
| Classifier.LeadingDotsHaveNoExtension | log_cleaner.py:87-88 | a leading dot does not start an extension: `.log` has an empty extension and is selected by its whole name, while `..log` is not selected |
| Paths.Join | log_cleaner.py:89-94 | an absolute second part replaces the folder; otherwise the result is the folder followed by the name, with a separator between them unless the folder is empty or already ends in one |
| Paths.Basename | log_cleaner.py:147 | the base name is the suffix of the path after its last separator: it holds no separator, and it is the whole path or a separator comes right before it |
| Paths.BasenameOfJoin | log_cleaner.py:147 | the base name of a joined path is the entry name that was joined |
| FileSystem.RemoveFile | log_cleaner.py:163 | `os.remove` succeeds exactly on an existing file whose removal is not refused, and then removes that file and nothing else; a missing file fails as "no such file" |
| FileSystem.RemoveDir | log_cleaner.py:176 | `os.rmdir` succeeds exactly on an existing, empty folder whose removal is not refused, and then removes that folder and nothing else |
| Scan.TotalItems | log_cleaner.py:61-65 | pass 1's `total_items` is zero exactly when every folder of the walk has no sub-folder and no file |
| Scan.AllFiles | log_cleaner.py:93-94 | "include all" collects a path exactly when it is a walked folder joined with one of that folder's files |
| Scan.AllFolders | log_cleaner.py:92 | "include all" collects a folder path exactly when it is a walked folder joined with one of its sub-folder names |
| Scan.Progress | log_cleaner.py:80-107 | the final progress count equals `total_items` in the default mode, and in "include all" mode exceeds it by the number of folders found, so the two agree only when no sub-folder exists |
| Scan.SelectByBasename | log_cleaner.py:87-89 | the paths kept are exactly those of the list whose base name the rule selects |
| Scan.IncludeAllCoversTotal | log_cleaner.py:61-97 | in "include all" mode the found files and folders together number exactly the pass-1 total |
| Scan.NothingCountedNothingFound | log_cleaner.py:61-97 | when pass 1 counts nothing, pass 2 would find nothing in either mode |
| Scan.SafeFilesFilterAllFiles | log_cleaner.py:81-97 | the default mode's result is the "include all" file list filtered by the selection rule on base names, in the same order; so a path is collected exactly when "include all" would collect it and its base name is selected |
| Scan.BasenamesOfSafeFiles | log_cleaner.py:83-89 | the base names of the selected paths are the selected entry names, in walk order |
| Deletion.Backup | log_cleaner.py:134-152 | the backup succeeds exactly when the archive can be written and every file still exists; then its entries are the base names of the files, in order, none with a separator |
| Deletion.DuplicateBaseNamesKept | log_cleaner.py:145-147 | two files with one base name give two archive entries of that name |
| Deletion.RemoveEach | log_cleaner.py:161-166 | every file is counted as deleted or listed as failed; every failure names a listed path; files only disappear; folders and refusals are untouched |
| Deletion.RemoveEachAccounts | log_cleaner.py:154-166 | every file is counted either as deleted or as failed; the files that disappear are exactly the listed ones that existed and were not refused; the deleted count is the number that disappeared; folders are untouched |
| Deletion.FailuresInOrder | log_cleaner.py:161-166 | for distinct paths, the failures are exactly the listed paths that were missing or refused, in list order, with their causes |
| Deletion.OneVanishedFileOfThree | log_cleaner.py:161-166 | a file that vanished between scan and delete is reported as failed and the loop goes on to delete the rest |
| Deletion.DeleteFiles | log_cleaner.py:154-169 | the file loop yields the counts and filesystem of the best-effort removal, and deleted plus failed is the number of files |
| Deletion.DeepestFirst | log_cleaner.py:174 | the folder order is a permutation of the folders with lengths never increasing |
| Deletion.RemoveDirs | log_cleaner.py:173-179 | no more folders are counted than tried; folders only disappear; files and refusals are untouched |
| Deletion.RemoveDirsAccounts | log_cleaner.py:173-179 | the removed count is the number of folders that disappeared; only listed folders go; files are untouched |
| Deletion.RemovedAreListed | log_cleaner.py:174-177 | the folders that go are among the folders handed to the loop |
| Deletion.RemoveFolders | log_cleaner.py:173-179 | the folder loop removes, deepest first, what `os.rmdir` allows, counts exactly the folders that disappeared, and touches nothing else |
| Deletion.NestedChainOrder | log_cleaner.py:174 | the longest-first order puts `/a/b/c` before `/a/b` before `/a` |
| Deletion.DeepestFirstRemovesChain | log_cleaner.py:173-179 | deepest first, a chain of three empty nested folders is removed entirely |
| Deletion.OutermostFirstFails | log_cleaner.py:173-179 | outermost first, the same chain loses nothing: each folder still holds the next |
| Deletion.ShallowFirstRemovesOne | log_cleaner.py:173-179 | in the shallow-to-deep order only the innermost folder goes, which is why the code sorts |
| Listing.ShowMore | log_cleaner.py:192-198 | no window when both lists are empty; otherwise titled "Found Files" or "Found Files and Folders" by the mode |
| Listing.SplitLinesOfLines | log_cleaner.py:212-213 | writing entries one per line and splitting the text back gives the entries |
| Listing.SafeListingLines | log_cleaner.py:209-213 | in the default mode the window's lines are the files header followed by the files, one per line |
| Listing.IncludeAllListingLines | log_cleaner.py:214-224 | in "include all" mode the lines are the folder section (header and folders) when there are folders, then a blank line, the files header and the files when there are files |
| Cleaner.ChosenPath | log_cleaner.py:32-44 | a selected default path wins; otherwise the typed path with its surrounding white space stripped, absent exactly when nothing is selected and the entry is all white space |
| Cleaner.Session.constructor | log_cleaner.py:26-27 | the session starts with no found files and no found folders |
| Cleaner.Session.Find | log_cleaner.py:30-119 | the path choice and its three early exits (no path, path does not exist, nothing below it), each leaving the lists empty; after a scan, the lists are those of the selection rule or of "include all", the total is the pass-1 count, and the progress meets the total as `Scan.Progress` says |
| Cleaner.Session.CountItems | log_cleaner.py:61-63 | pass 1 counts every sub-folder and file of the walk |
| Cleaner.Session.Collect | log_cleaner.py:80-107 | pass 2 fills the lists with the scan's specified result and returns the specified progress count |
| Cleaner.Session.CollectSafe | log_cleaner.py:83-107 | one folder in the default mode appends its selected files, in order, and counts its files and sub-folders once |
| Cleaner.Session.AppendIfSafe | log_cleaner.py:87-89 | one file is appended, joined with its folder, exactly when the rule selects it; the folder list is untouched |
| Cleaner.Session.CollectAll | log_cleaner.py:90-107 | one folder in "include all" mode appends all its sub-folders and files and counts the sub-folders twice |
| Cleaner.Session.Delete | log_cleaner.py:123-189 | nothing happens without found files, without confirmation, or when a requested backup fails; otherwise the backup, the file loop and the folder loop over `found_dirs` run, the file list is cleared, the folder list is kept, and no folder is removed |
| Cleaner.Session.DeleteIntended | log_cleaner.py:173-187 | the corrected action: the same gates and file loop, then the scanned folders removed deepest first; exactly those that disappear are counted, all of them were scanned, and both lists are cleared |
| Cleaner.Session.ShowMoreWindow | log_cleaner.py:192-198 | the window opens exactly when either list is non-empty |
| Cleaner.BackupOfSafeScan | log_cleaner.py:145-147 | after a default-mode scan, a successful backup's entries are the names of the selected files, in walk order |
| Cleaner.LeftoverFolderExample | log_cleaner.py:173-179 | "include all" on `/r` holding `x.log` and an empty `a`: the delete removes the file, reports zero folders, and `/r/a` stays |
| Cleaner.IntendedCleanupExample | log_cleaner.py:173-179 | the same scan with the corrected delete removes the file and the empty folder `/r/a` |

## Left out

- The tkinter window, its widgets and message boxes, and the text of the result labels: only the outcome each label reports is modelled (`FindOutcome`, `DeleteOutcome`).
- The progress bars and `root.update()`: the model keeps the progress count but not the widgets. Events that `root.update()` lets run during a scan or a deletion are not modelled; each action runs to completion.
- `os.walk` itself: its triples are a parameter, assumed identical on both passes and consistent with the filesystem. Errors `os.walk` swallows are not modelled.
- Windows path rules (`ntpath`, drive letters, `\` separators): paths follow POSIX, with `/` as the only separator.
- Strings.Lower: lower-cases ASCII letters only. Python's `str.lower()` also maps other characters, but only one non-ASCII character lowers to a single ASCII letter: the Kelvin sign, to `k`. U+0130 lowers to two characters. No entry of the safe-to-delete set contains `k`, so the selection rule agrees with Python's on every name.
- The backup's location (`~/Desktop/TempBackup`), the folder creation, the timestamped name, compression and file contents. The archive is its list of entry names. Failure is reduced to two causes: an archive that cannot be written, and a file that no longer exists.
- The text `str(e)` of a removal error: a failure records the path and a cause (`NoSuchFile` or `AccessDenied`).
- Which default paths the list box offers and the initial entry text: the selection and the typed text are parameters.
- The unused `threading` import and the `tempfile` lookup of default paths.
- `found_dirs` before the first scan: the program would fail to read it, but the delete action returns before reading it while no files were found. The model starts it empty.
- Deletion.DeepestFirst: states that the order is longest first and a permutation, not that equal lengths keep their scan order (Python's sort is stable).
- Cleaner.Session.Find: does not state the contents of the text box showing the chosen path, or which buttons are shown.

## Findings

| source | as written | input that shows it | evidently intended | confidence | as-written member | corrected member |
|---|---|---|---|---|---|---|
| log_cleaner.py:173-179 | the folder loop iterates `found_dirs`, which `on_find` resets to `[]` and nothing ever fills, so no folder is ever removed and "0 empty folders removed" is always reported | "include all" scan of `/r` holding `x.log` and an empty sub-folder `a`, confirmed, no backup: `x.log` goes, `/r/a` stays | remove the scanned `found_folders` deepest first, each one that is empty by then, and clear that list | not executed | Cleaner.LeftoverFolderExample | Cleaner.Session.DeleteIntended |
