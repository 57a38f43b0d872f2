/** The order of the steps of `main`, on a directory listing. The answers to
    the dialogs are inputs: `choice` and `confirm` for the old-results
    questions, `samplesConfirmed` for the confirmation of the detected
    names, and `threshold` for the threshold dialog (`None` when it is
    cancelled or closed). `order` is the iteration order of the set of
    sample names and `now` the clock reading taken by the writer. */
module Pipeline {
  import opened Optional
  import opened Strings
  import opened FileSystem
  import opened Scanner
  import opened Ingestion
  import opened Replace
  import opened Output
  import opened Summary

  /** How a run ends: one of the three `sys.exit` calls after a dialog, the
      `sys.exit` on an empty count, an uncaught exception in ingestion or in
      `mkdir`, the `KeyError` of `groupby('SampleGroup')` on the column-less
      frame `gatherCSVs` returns when no file read, or completion with the
      numbers shown by `giveFeedback` and the summary table of
      `plotResults`. */
  datatype Outcome =
    | Aborted
    | NoCsvFiles
    | IngestCrashed(file: string)
    | WriteFailed
    | SummaryFailed
    | Completed(filesReported: nat, samplesDetected: nat, summary: seq<SummaryRow>)

  /** The outcome and the directory left behind. */
  datatype Run = Run(outcome: Outcome, entries: seq<Entry>)

  /** `order` lists the set `detectSampleNames` returned, each name once,
      in the order the set is iterated. */
  predicate ListsNames(order: seq<string>, es: seq<Entry>)
  {
    (forall s :: s in order ==> s in DetectSampleNames(es)) &&
    (forall s :: s in DetectSampleNames(es) ==> s in order) &&
    (forall i, j :: 0 <= i < j < |order| ==> order[i] != order[j])
  }

  function Main(es: seq<Entry>, choice: string -> Choice, confirm: string -> bool, samplesConfirmed: bool,
                threshold: Option<int>, order: seq<string>, now: Timestamp): Run
    requires ValidTimestamp(now) && ListsNames(order, es)
  {
    var names := DetectSampleNames(es);
    var swept := Sweep(es, choice, confirm);
    if swept.aborted || !samplesConfirmed then Run(Aborted, swept.entries)
    else
      var total := CountCSVFiles(swept.entries);
      if total == 0 then Run(NoCsvFiles, swept.entries)
      else if threshold.None? then Run(Aborted, swept.entries)
      else match Gather(swept.entries, threshold.value)
        case Crashed(f) => Run(IngestCrashed(f), swept.entries)
        case Gathered(rows, processed) =>
          match WriteCombined(swept.entries, rows, order, now)
          case FolderBlocked => Run(WriteFailed, swept.entries)
          case Wrote(after) =>
            if processed == 0 then Run(SummaryFailed, after)
            else Run(Completed(total, |names|, Summarize(rows)), after)
  }

  /** Nothing is read or written unless the replace check and the name
      confirmation both let the run go on, and an empty count ends the run
      before the threshold is asked for, whatever its answer. */
  lemma EarlyExits(es: seq<Entry>, choice: string -> Choice, confirm: string -> bool, samplesConfirmed: bool,
                   threshold: Option<int>, order: seq<string>, now: Timestamp)
    requires ValidTimestamp(now) && ListsNames(order, es)
    ensures var run := Main(es, choice, confirm, samplesConfirmed, threshold, order, now);
      (run.outcome == Aborted || run.outcome == NoCsvFiles) ==>
        run.entries == Sweep(es, choice, confirm).entries
    ensures Sweep(es, choice, confirm).aborted || !samplesConfirmed ==>
      Main(es, choice, confirm, samplesConfirmed, threshold, order, now).outcome == Aborted
    ensures !Sweep(es, choice, confirm).aborted && samplesConfirmed && CountCSVFiles(es) == 0 ==>
      Main(es, choice, confirm, samplesConfirmed, threshold, order, now).outcome == NoCsvFiles
    ensures CountCSVFiles(es) == 0 ==>
      Main(es, choice, confirm, samplesConfirmed, threshold, order, now) ==
      Main(es, choice, confirm, samplesConfirmed, None, order, now)
  {
    SweepKeepsScans(es, choice, confirm);
  }

  /** Deleting old output folders before ingestion changes nothing that is
      read: a completed run reports the count of the original listing, the
      names detected in it, and the summary of the table gathered from it,
      and ends with that table written next to the swept listing. */
  lemma CompletedRunReadsTheOriginalListing(es: seq<Entry>, choice: string -> Choice, confirm: string -> bool,
                                            samplesConfirmed: bool, threshold: Option<int>, order: seq<string>,
                                            now: Timestamp)
    requires ValidTimestamp(now) && ListsNames(order, es)
    requires Main(es, choice, confirm, samplesConfirmed, threshold, order, now).outcome.Completed?
    ensures threshold.Some? && Gather(es, threshold.value).Gathered?
    ensures var run := Main(es, choice, confirm, samplesConfirmed, threshold, order, now);
      var rows := Gather(es, threshold.value).rows;
      && run.outcome == Completed(CountCSVFiles(es), |DetectSampleNames(es)|, Summarize(rows))
      && CountCSVFiles(es) > 0 && Gather(es, threshold.value).processed > 0
      && WriteCombined(Sweep(es, choice, confirm).entries, rows, order, now) == Wrote(run.entries)
  {
    SweepKeepsScans(es, choice, confirm);
  }

  /** A completed run leaves, for every detected name with rows, the file
      `<name>_results_combined.csv` in the new folder holding exactly that
      name's subset of the table; every other file of that folder is as the
      sweep left it. */
  lemma CompletedRunWritesEveryDetectedName(es: seq<Entry>, choice: string -> Choice, confirm: string -> bool,
                                            samplesConfirmed: bool, threshold: Option<int>, order: seq<string>,
                                            now: Timestamp)
    requires ValidTimestamp(now) && ListsNames(order, es)
    requires Main(es, choice, confirm, samplesConfirmed, threshold, order, now).outcome.Completed?
    ensures threshold.Some? && Gather(es, threshold.value).Gathered?
    ensures var after := Main(es, choice, confirm, samplesConfirmed, threshold, order, now).entries;
      var rows := Gather(es, threshold.value).rows;
      forall k :: k in DetectSampleNames(es) && HasRows(rows, k) ==>
        FileIn(after, FolderName(now), OutputFileName(k)) == Some(Parsed(SerializeAll(Partition(rows, k))))
    ensures var after := Main(es, choice, confirm, samplesConfirmed, threshold, order, now).entries;
      var rows := Gather(es, threshold.value).rows;
      forall n :: (forall k :: k in DetectSampleNames(es) && HasRows(rows, k) ==> n != OutputFileName(k)) ==>
        FileIn(after, FolderName(now), n) == FileIn(Sweep(es, choice, confirm).entries, FolderName(now), n)
  {
    CompletedRunReadsTheOriginalListing(es, choice, confirm, samplesConfirmed, threshold, order, now);
    var swept := Sweep(es, choice, confirm).entries;
    var rows := Gather(es, threshold.value).rows;
    var folder := FolderName(now);
    if rows != [] {
      assert WriteCombined(swept, rows, order, now) == WriteSamples(swept, rows, order, folder);
      forall k | k in DetectSampleNames(es) && HasRows(rows, k)
        ensures FileIn(WriteSamples(swept, rows, order, folder).entries, folder, OutputFileName(k)) ==
          Some(Parsed(SerializeAll(Partition(rows, k))))
      {
        WrittenFilesHoldSubsets(swept, rows, order, folder, k);
      }
      forall n | forall k :: k in DetectSampleNames(es) && HasRows(rows, k) ==> n != OutputFileName(k)
        ensures FileIn(WriteSamples(swept, rows, order, folder).entries, folder, n) == FileIn(swept, folder, n)
      {
        OtherFilesUntouched(swept, rows, order, folder, n);
      }
    }
  }

  /** When the run gets past the dialogs and the count but no visited file
      reads, `gatherCSVs` returns a frame without columns, nothing is
      written, and `groupby('SampleGroup')` raises `KeyError`; the swept
      listing is what is left. */
  lemma NothingReadFailsTheSummary(es: seq<Entry>, choice: string -> Choice, confirm: string -> bool,
                                   samplesConfirmed: bool, threshold: Option<int>, order: seq<string>,
                                   now: Timestamp)
    requires ValidTimestamp(now) && ListsNames(order, es)
    requires !Sweep(es, choice, confirm).aborted && samplesConfirmed && threshold.Some?
    requires CountCSVFiles(es) > 0 && forall f :: f in CandidateFiles(es) ==> !f.content.Parsed?
    ensures Main(es, choice, confirm, samplesConfirmed, threshold, order, now) ==
      Run(SummaryFailed, Sweep(es, choice, confirm).entries)
  {
    SweepKeepsScans(es, choice, confirm);
    NothingReadGivesEmptyTable(CandidateFiles(es), threshold.value);
  }

  /** Conversely, that failure means every visited file was empty or
      unreadable, and the old output folders were handled first. */
  lemma SummaryFailureMeansNothingRead(es: seq<Entry>, choice: string -> Choice, confirm: string -> bool,
                                       samplesConfirmed: bool, threshold: Option<int>, order: seq<string>,
                                       now: Timestamp)
    requires ValidTimestamp(now) && ListsNames(order, es)
    requires Main(es, choice, confirm, samplesConfirmed, threshold, order, now).outcome == SummaryFailed
    ensures !Sweep(es, choice, confirm).aborted && samplesConfirmed && threshold.Some? && CountCSVFiles(es) > 0
    ensures forall f :: f in CandidateFiles(es) ==> !f.content.Parsed?
    ensures Main(es, choice, confirm, samplesConfirmed, threshold, order, now).entries == Sweep(es, choice, confirm).entries
  {
    SweepKeepsScans(es, choice, confirm);
    var swept := Sweep(es, choice, confirm).entries;
    var files := CandidateFiles(es);
    var g := Gather(swept, threshold.value);
    assert g.Gathered? && g.processed == 0;
    assert g == Ingest(files, threshold.value);
    IngestIsConcat(files, threshold.value);
    NoSuccessesMeansNothingRead(files);
    NothingReadGivesEmptyTable(files, threshold.value);
  }

  /** A crash in ingestion names a file of the original listing that reads
      but has no key. */
  lemma CrashNamesAFatalFile(es: seq<Entry>, choice: string -> Choice, confirm: string -> bool,
                             samplesConfirmed: bool, threshold: Option<int>, order: seq<string>, now: Timestamp)
    requires ValidTimestamp(now) && ListsNames(order, es)
    requires Main(es, choice, confirm, samplesConfirmed, threshold, order, now).outcome.IngestCrashed?
    ensures exists f ::
      && f in CandidateFiles(es) && Fatal(f)
      && f.name == Main(es, choice, confirm, samplesConfirmed, threshold, order, now).outcome.file
  {
    SweepKeepsScans(es, choice, confirm);
    var files := CandidateFiles(es);
    CrashAtFirstFatalFile(files, threshold.value);
    var i :| 0 <= i < |files| && Fatal(files[i]) && files[i].name == Ingest(files, threshold.value).file;
    assert files[i] in files;
  }
}
