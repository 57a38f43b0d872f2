# FoCUSco combiner, modelled in Dafny

FoCUSco combines per-image focus-count CSV files from an experiment
directory. Each sub-folder of the directory holds `<name>_results.csv`
files. The program does the following:

- It detects the sample names from the folder names. A sample name is the
  part of the folder name before its last underscore (on the name's first
  line).
- It offers to delete old `CombinedResults*` output folders.
- It counts the CSV files and reads them all. Each row is tagged with its
  file name (`Sample`), the file's group key (`SampleGroup`) and whether
  `NumFoci` reaches the user's threshold (`Positive`).
- For each sample name whose subset of rows is non-empty, it writes
  `<sample>_results_combined.csv` into a fresh
  `CombinedResults_(yy.mm.dd-HH.MM.SS)` folder. A name with no rows gets
  no file.
- It summarises the rows per group, as positive count and total.

The model covers all of this except the dialogs and the plotting. The
modules follow the program's parts:

- `Strings`: prefix, suffix and substring predicates, and string order.
- `Naming`: the group-key regex `(.*)_` under `re.match`, and the key of a
  result file after its last 12 characters are dropped.
- `FileSystem`: the directory listing as an ordered sequence of entries.
  A folder holds files, and each file carries the outcome of reading it:
  a table, `EmptyDataError`, or some other error.
- `Scanner`: `detectSampleNames`, `countCSVFiles`, and the list of files
  `gatherCSVs` visits.
- `Ingestion`: the loop of `gatherCSVs` as a fold over the visited files.
- `Output`: `writeCombinedResults`. This covers the substring partition,
  the folder name, `mkdir`, and `to_csv` as updates of the listing.
- `Replace`: the loop of `checkForOldCombinedResults` as a fold over the
  listing.
- `Summary`: the `groupby` counts at the top of `plotResults`.
- `Pipeline`: the order of the steps in `main`.
- `Experiment`: the directory as a class `ExperimentDir`.
  - Its field `entries` is the listing.
  - Its methods `GatherCSVs`, `CheckForOldCombinedResults`,
    `WriteCombinedResults` and `RunMain` run the source's loops step by
    step.
  - Each method is proved equal to the matching function above.

Inputs from outside the program are parameters:

- the answers to the dialogs: `choice` and `confirm` for the two
  replacement questions, `samplesConfirmed`, and `threshold` (`None` when
  the threshold dialog is cancelled);
- the clock reading `now`;
- the iteration order of the set of sample names, `order`, which lists
  each detected name exactly once.

The `sys.exit` calls are outcomes of the run, and so are the three
uncaught exceptions the model keeps: `AttributeError` for a file name
without a key, `FileExistsError` from `mkdir`, and `KeyError` from the
summary's `groupby` when no file was read.

Where the program's own descriptions and its code disagree, the model
follows the code:

- The regex is greedy, so the group key is the part before the LAST
  underscore, not the first. A name whose only underscore is its first
  character has the empty key.
- `detectSampleNames` has no `is_dir` test, so a plain file at the top
  level contributes a sample name too. Hidden entries are left out of
  name detection, but hidden folders are still counted and read.
- The three derived columns are set by assignment. A source column called
  `Sample`, `SampleGroup` or `Positive` is therefore replaced, not kept.
- `groupby` sorts by key, so the summary rows are in ascending order of
  `SampleGroup`, not in order of first appearance.
- The folder name carries seconds (`HH.MM.SS`), although the docstring of
  `writeCombinedResults` says `HH.MM`.
- Rows are selected when `Sample` contains the sample name anywhere, not
  only as a prefix.
- A file that reads but whose truncated name has no underscore raises
  `AttributeError` outside the `try`. This ends the run; the file is not
  skipped.
- Cancelling the threshold dialog is a third point where the user can
  abort.
- When every CSV file is empty or unreadable, the run does not end in a
  reported "nothing to write": `gatherCSVs` returns a frame without
  columns, nothing is written, and `groupby('SampleGroup')` raises
  `KeyError`.

## Model

| member | source | states |
|---|---|---|
| Naming.KeyEnd | FoCUSco.py:103-104 | `re.match` of `(.*)_` succeeds exactly when some underscore is preceded by no newline, and the match ends at the last such underscore (greedy `.*`, and `.` does not match a newline) |
| Naming.GroupKey | FoCUSco.py:103-104 | `group(1)` exists exactly when the regex matches; it is a newline-free prefix of the name followed by `_`, and no longer match exists |
| Naming.KeyBeforeLastUnderscore | FoCUSco.py:103-104 | for a name without a newline, there is a key iff the name contains `_`, and the name is key + `_` + a rest with no `_` in it (the key ends at the last underscore) |
| Naming.LeadingUnderscoreGivesEmptyKey | FoCUSco.py:103-104 | a name starting with `_` always matches, and its key is the empty string when, on one line, that is its only underscore |
| Naming.FileGroupKey | FoCUSco.py:63-64 | defines the `SampleGroup` of a file as the key of its name less 12 characters; its meaning is stated by the three lemmas below |
| Naming.StripResultsSuffix | FoCUSco.py:64 | `name[:-12]` drops exactly 12 characters, and gives the empty string for a shorter name |
| Naming.FileKeyOfResultsName | FoCUSco.py:63-64 | the key of `<stem>_results.csv` is the key of `<stem>` |
| Naming.FileKeyIsPrefix | FoCUSco.py:62-64 | a file's key is a prefix of, and is contained in, its `Sample` value |
| Naming.ShortFileNameHasNoKey | FoCUSco.py:64 | a file name of at most 12 characters has no key |
| FileSystem.Glob | FoCUSco.py:53 | `glob("*.csv")` returns only `.csv` files of the folder, and no more files than it holds |
| FileSystem.GlobMembers | FoCUSco.py:53 | `glob("*.csv")` keeps exactly the files whose name ends in `.csv`, and never more files than the folder holds |
| FileSystem.RemoveEntry | FoCUSco.py:162 | `rmtree` leaves exactly the entries with another name |
| FileSystem.RemoveOnlyEntry | FoCUSco.py:162 | removing a folder whose name no other entry has removes just that entry, in place |
| Scanner.DetectSampleNames | FoCUSco.py:103-104 | defines `detectSampleNames` as the set of keys of visible, non-output entries; for names on one line, `DetectedNamesAreSound` and `DetectedNamesAreComplete` together say it is exactly the set of parts before their last underscore |
| Scanner.CountCSVFiles | FoCUSco.py:86 | defines `countCSVFiles`; `CountIsCandidateFiles` and `HiddenFolderIsCountedButNotNamed` state what it counts |
| Scanner.CandidateFiles | FoCUSco.py:51-53 | defines the files `gatherCSVs` visits, in order; `CandidateFilesMembers` states which they are |
| Scanner.DetectedNamesAreSound | FoCUSco.py:104 | every detected name comes from an entry that is neither hidden nor an output folder, and whose name starts with that name plus `_`; when that entry's name is on one line, no `_` follows, so the name ends at the last underscore |
| Scanner.DetectedNamesAreComplete | FoCUSco.py:103-104 | every such entry whose name is on one line and is key + `_` + a rest without `_` contributes its key |
| Scanner.DetectDependsOnCandidates | FoCUSco.py:104 | detection depends only on the entries that are neither hidden nor output folders |
| Scanner.CountIsCandidateFiles | FoCUSco.py:86 | `countCSVFiles` equals the number of files `gatherCSVs` visits |
| Scanner.CandidateFilesMembers | FoCUSco.py:51-53 | the visited files are exactly the `.csv` files of folders whose name does not start with `CombinedResults` |
| Scanner.CountOfInputFolders | FoCUSco.py:86 | count and visited files depend only on the sequence of input folders |
| Scanner.HiddenFolderIsCountedButNotNamed | FoCUSco.py:104 | a hidden folder adds its CSV files to the count and to ingestion, but no sample name |
| Scanner.PlainFileIsNamedButNotCounted | FoCUSco.py:104 | a plain top-level file with a key adds a sample name, but nothing to the count or to ingestion |
| Ingestion.Step | FoCUSco.py:54-69 | defines one pass of the inner loop body (skip, crash, or tag and append); `StepOutcomes` and `IngestIsConcat` state its effect |
| Ingestion.Ingest | FoCUSco.py:51-69 | defines the loop as a fold of `Step` over the visited files; `IngestIsConcat` relates it to `Concat` |
| Ingestion.Gather | FoCUSco.py:48-74 | defines `gatherCSVs` on a listing; `ProcessedWithinCount` and `RowsAreTagged` state its properties |
| Ingestion.Concat | FoCUSco.py:74 | the reference definition: the tagged tables of the files that read, one after another; `IngestIsConcat` proves the loop equal to it |
| Ingestion.TagRows | FoCUSco.py:62-66 | each row keeps its other columns and `NumFoci`, gets `Sample` = file name and `SampleGroup` = key, and is `Positive` iff `NumFoci >= threshold`, row for row |
| Ingestion.IngestIsConcat | FoCUSco.py:48-74 | the run crashes iff some visited file reads but has no key; otherwise the table is the in-order concatenation of the tagged tables and `processed_files` counts the files that read |
| Ingestion.CrashAtFirstFatalFile | FoCUSco.py:54-64 | the crash names the first visited file that reads without a key |
| Ingestion.SkippedFilesLeaveNoTrace | FoCUSco.py:54-61 | empty and unreadable files change nothing: the result equals that of the readable files alone |
| Ingestion.NothingReadGivesEmptyTable | FoCUSco.py:74 | when no file reads, the result is the empty table with count 0 |
| Ingestion.CrashIsFinal | FoCUSco.py:51-64 | once raised, the exception is the result whatever files follow |
| Ingestion.RowsAreTagged | FoCUSco.py:62-66 | every combined row comes from a visited file that read, named by `Sample`, keyed by `SampleGroup`, with `Positive` iff `NumFoci >= threshold` |
| Ingestion.RowSampleContainsGroup | FoCUSco.py:62-64 | each row's `Sample` contains its own `SampleGroup` |
| Ingestion.ProcessedWithinCount | FoCUSco.py:67-70 | `processed_files` never exceeds `total_files` |
| Output.Partition | FoCUSco.py:217 | the subset keeps exactly the rows whose `Sample` contains the name, in order, and is no longer than the table |
| Output.PartitionAppend | FoCUSco.py:217 | filtering distributes over concatenation |
| Output.PartitionIdempotent | FoCUSco.py:217 | filtering a subset again by the same name gives it back |
| Output.SubstringMatchOverMatches | FoCUSco.py:217 | the substring test selects `BA_1_results.csv` for sample `A` |
| Output.TwoDigitsRoundTrip | FoCUSco.py:212-213 | a two-digit field reads back as its value |
| Output.FolderName | FoCUSco.py:219 | the folder name has 35 characters |
| Output.FolderNameRoundTrip | FoCUSco.py:211-219 | the six fields (year mod 100) read back from the folder name, and the name starts with `CombinedResults`, so later scans exclude it |
| Output.FolderNamesCollideOnlyOnSameSecond | FoCUSco.py:211-219 | two clock readings give one folder name only when they agree down to the second (year mod 100) |
| Output.OutputFileNameInjective | FoCUSco.py:222 | distinct sample names give distinct output file names |
| Output.Serialize | FoCUSco.py:224 | a written row holds `NumFoci`, its other columns unchanged, `Sample`, `SampleGroup`, and `Positive` printed as `True` for a positive row and `False` otherwise; it has exactly those columns and no others |
| Output.MakeFolder | FoCUSco.py:220 | `mkdir(exist_ok=True)` fails exactly when a plain file has the folder's name |
| Output.UpsertLookup | FoCUSco.py:224 | after `to_csv` the file of that name has the new content and every other file is unchanged |
| Output.WriteSample | FoCUSco.py:217-227 | defines one pass of the loop over `sample_list`; `WriteSampleShape` states its effect |
| Output.WriteSamples | FoCUSco.py:216-227 | defines the loop over `sample_list`; `WrittenFilesHoldSubsets`, `OtherFilesUntouched` and `FolderMadeOnlyWhenNeeded` state its effect |
| Output.WriteCombined | FoCUSco.py:211-229 | defines `writeCombinedResults`, which writes nothing for an empty table; `WriteKeepsScans` states that later scans are unaffected |
| Output.WriteSampleShape | FoCUSco.py:217-227 | one sample: blocked only by a plain file and only with rows to write; with no rows nothing changes; otherwise only the folder entry changes, and it is a folder afterwards |
| Output.WriteTouchesOnlyFolder | FoCUSco.py:215-227 | writing changes only the output folder's entry and keeps the listing well formed |
| Output.WriteBlockedMeansPlainFile | FoCUSco.py:220 | a blocked write means a plain file of that name existed and some sample had rows |
| Output.FolderMadeOnlyWhenNeeded | FoCUSco.py:218-220 | the folder exists afterwards iff it existed or some sample name had rows |
| Output.OtherFilesUntouched | FoCUSco.py:224 | files of the folder not named after a written sample keep their content |
| Output.WrittenFilesHoldSubsets | FoCUSco.py:216-224 | each sample name with rows has its file, holding exactly its subset |
| Output.WriteKeepsScans | FoCUSco.py:219 | after writing, detection, the visited files and the count are as before |
| Replace.Sweep | FoCUSco.py:157-170 | defines the loop of `checkForOldCombinedResults` as a fold over the listing; its meaning is stated by the four lemmas below |
| Replace.AbortsIffSomeFolderAborts | FoCUSco.py:157-170 | the run aborts iff the answers for some old output folder are Cancel, or Yes then No |
| Replace.AbortStopsTheSweep | FoCUSco.py:164-170 | no folder after the first abort is processed |
| Replace.SweepRemovesOnlyConfirmedFolders | FoCUSco.py:157-170 | the result is part of the listing; entries that are not old output folders are never removed; a removed entry got Yes then Yes; without an abort, only those are removed and every old folder left got No |
| Replace.SweepKeepsScans | FoCUSco.py:157-162 | the sweep changes neither detection, nor the visited files, nor the count |
| Replace.SweepKeepsWellFormed | FoCUSco.py:162 | the listing stays free of duplicate names |
| Summary.Summarize | FoCUSco.py:290-292 | defines the `groupby` counts as insertion of each row into a sorted list; its meaning is stated by the lemmas below |
| Summary.SummarizeSorted | FoCUSco.py:290 | the summary is strictly ascending by `SampleGroup` |
| Summary.SummarizeCounts | FoCUSco.py:290-292 | for every group, the summary has a row iff the group occurs, holding its positive count and its row count |
| Summary.SummarizeTotal | FoCUSco.py:292 | the totals add up to the number of rows |
| Summary.PositiveAtMostCount | FoCUSco.py:291-292 | a group's positive count is at most its row count, which is positive for each present group |
| Summary.SummaryRowsAreSound | FoCUSco.py:290-294 | one row per distinct group in ascending order, each with `0 < Total`, `Positive <= Total` and the true counts, and no group missing |
| Pipeline.EarlyExits | FoCUSco.py:327-339 | an abort in the sweep or the name check ends the run, as does an empty count; those runs write nothing; with an empty count the threshold answer does not matter |
| Pipeline.Main | FoCUSco.py:316-345 | defines the run of `main` on a listing, with `order` listing the detected names once each (line 343 writes for `sample_list`); its meaning is stated by the lemmas below |
| Pipeline.CompletedRunReadsTheOriginalListing | FoCUSco.py:323-345 | a completed run reports the count and names of the original listing and summarises the table gathered from it, because sweeping first changes nothing that is read; at least one file was read |
| Pipeline.CompletedRunWritesEveryDetectedName | FoCUSco.py:324-343 | after a completed run, every detected name with rows has `<name>_results_combined.csv` in the new folder holding exactly its subset, and every other file of that folder is as the sweep left it |
| Pipeline.NothingReadFailsTheSummary | FoCUSco.py:74 | past the dialogs and a non-zero count, when no visited file reads, nothing is written and `groupby('SampleGroup')` (line 290) raises on the column-less frame |
| Pipeline.SummaryFailureMeansNothingRead | FoCUSco.py:290 | that `KeyError` happens only when the dialogs and count let the run go on and every visited file was empty or unreadable; the swept listing is left |
| Pipeline.CrashNamesAFatalFile | FoCUSco.py:341 | an ingestion crash names a visited file that reads but has no key |
| Experiment.GatherFolder | FoCUSco.py:53-69 | the inner loop continues `all_dfs` and `processed_files` exactly as the fold over that folder's files does, or returns the crash the fold ends in |
| Experiment.ExperimentDir.GatherCSVs | FoCUSco.py:48-74 | the nested loop returns exactly `Gather` of the listing |
| Experiment.ExperimentDir.CheckForOldCombinedResults | FoCUSco.py:157-170 | deleting in place leaves exactly the sweep's listing and abort flag, and keeps the listing well formed |
| Experiment.ExperimentDir.WriteCombinedResults | FoCUSco.py:211-229 | the writing loop leaves exactly `WriteCombined`'s listing; a blocked `mkdir` is reported and the listing is left unchanged |
| Experiment.ExperimentDir.RunMain | FoCUSco.py:323-345 | the steps of `main`, in order, writing for the detected names, give exactly `Main`'s outcome and final listing |

## Left out

- Tk dialogs (`selectDirectory`, `confirmSampleNames`, `getReplaceChoice`, `setPositiveThreshold`): their answers are parameters. `threshold` is the dialog's final answer: `Some(t)` after a Submit that parses, `None` after Cancel or closing the window. A Submit that does not parse raises `ValueError` inside the Tk callback (FoCUSco.py:268) before the window is destroyed, so the dialog stays open and waits for a further answer (FoCUSco.py:283); that intermediate step is not modelled.
- The progress-bar percentage and the progress window (FoCUSco.py:70-71 and 73), `giveFeedback`'s message box (its numbers are part of the `Completed` outcome), and every `print`: they are UI only.
- The plotting in `plotResults` (FoCUSco.py:297-314), including its failure at FoCUSco.py:308. That line selects the summary row whose `SampleGroup` EQUALS the detected name, so `.iloc[0]` raises for every detected name that is not the `SampleGroup` of some row. This includes names whose rows were written: a folder `Ctrl_rep1` gives the name `Ctrl`, but its file `Ctrl_rep1_img1_results.csv` gives the group `Ctrl_rep1`. Only the counts of the summary (FoCUSco.py:290-292) are modelled, including the `KeyError` they raise when no file read (the `SummaryFailed` outcome).
- `PctPositive` (FoCUSco.py:293): it is float rounding. The model keeps the integer `Positive` and `Total` it is computed from.
- CSV parsing by pandas: each file is given with its read outcome. A header-only file reads as an empty table, and it is counted as processed.
- A missing or non-numeric `NumFoci` column: rows carry an integer `NumFoci`. In the source, the comparison at FoCUSco.py:66 sits outside the `try` of lines 54-61. A file that reads but has no `NumFoci` column raises `KeyError` there, and a column of strings raises `TypeError`. Either one ends the run, like the `AttributeError` at line 64. The model's integer `NumFoci` excludes that path.
- Column alignment of `pd.concat` across files with different columns: each row keeps its own column map.
- Failures of `rmtree`, `mkdir` other than a plain file in the way, and `to_csv`: those operations are given as succeeding.
- The order of `iterdir`, of `glob` and of iterating the set of sample names: each is taken as given (the listing order, the file order, and `order`).
- `datetime.now()` is the `now` parameter. `sys.exit` is an outcome of the run.
- Newlines in names only matter for the regex; no other character is treated specially.
- FileSystem.Glob: matches `.csv` case-sensitively, as `pathlib` does on POSIX systems; on Windows `glob("*.csv")` also matches `X.CSV`, which the model does not capture.
