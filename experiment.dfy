/** The experiment directory as a mutable object, and the three steps of the
    program that work on it one entry at a time: gathering the CSV files,
    sweeping away old output folders, and writing the combined results.
    Each method is proved against the function of the same behaviour in
    `Ingestion`, `Replace` and `Output`. */
module Experiment {
  import opened Optional
  import opened Strings
  import opened Naming
  import opened FileSystem
  import opened Scanner
  import opened Ingestion
  import opened Replace
  import opened Output
  import opened Summary
  import opened Pipeline

  /** A crash in one folder is the result of the whole gathering: the
      folders not yet visited do not change it. */
  lemma CrashReachesTheEnd(es: seq<Entry>, i: nat, threshold: int)
    requires i < |es|
    requires Ingest(CandidateFiles(es[..i]) + FolderCsvs(es[i]), threshold).Crashed?
    ensures Gather(es, threshold) == Ingest(CandidateFiles(es[..i]) + FolderCsvs(es[i]), threshold)
  {
    assert es == es[..i + 1] + es[i + 1..];
    CandidateFilesAppend(es[..i + 1], es[i + 1..]);
    CandidateFilesSnoc(es, i);
    CrashIsFinal(CandidateFiles(es[..i]) + FolderCsvs(es[i]), CandidateFiles(es[i + 1..]), threshold);
  }

  /** The inner loop of `gatherCSVs`, over the CSV files of one folder:
      continues the tables `allDfs` and the count `processed` gathered from
      the files visited before, or reports the file whose name has no key. */
  method GatherFolder(csvs: seq<File>, threshold: int, ghost visited: seq<File>,
                      allDfs0: seq<seq<TaggedRow>>, processed0: nat)
    returns (allDfs: seq<seq<TaggedRow>>, processed: nat, crashed: Option<string>)
    requires Ingest(visited, threshold) == Gathered(Flatten(allDfs0), processed0)
    ensures crashed.None? ==> Ingest(visited + csvs, threshold) == Gathered(Flatten(allDfs), processed)
    ensures crashed.Some? ==> Ingest(visited + csvs, threshold) == Crashed(crashed.value)
  {
    allDfs, processed := allDfs0, processed0;
    assert csvs[..0] == [] && visited + [] == visited;
    var j := 0;
    while j < |csvs|
      invariant 0 <= j <= |csvs|
      invariant Ingest(visited + csvs[..j], threshold) == Gathered(Flatten(allDfs), processed)
    {
      var file := csvs[j];
      match file.content {
        case EmptyData =>
          FolderSkips(visited, csvs, j, threshold, allDfs, processed);
        case ReadError(_) =>
          FolderSkips(visited, csvs, j, threshold, allDfs, processed);
        case Parsed(table) =>
          var key := FileGroupKey(file.name);
          if key.None? {
            FolderCrashes(visited, csvs, j, threshold, allDfs, processed);
            crashed := Some(file.name);
            CrashSkipsTheRest(visited, csvs, j, threshold);
            return;
          }
          FolderReads(visited, csvs, j, threshold, allDfs, processed, table, key.value);
          var tagged := TagRows(table, file.name, key.value, threshold);
          allDfs := allDfs + [tagged];
          processed := processed + 1;
      }
      j := j + 1;
    }
    assert csvs[..j] == csvs;
    crashed := None;
  }

  /** One more file of the folder through the loop body: a file that
      fails to read changes nothing, ... */
  lemma FolderSkips(visited: seq<File>, csvs: seq<File>, j: nat, threshold: int,
                    tables: seq<seq<TaggedRow>>, n: nat)
    requires j < |csvs| && Ingest(visited + csvs[..j], threshold) == Gathered(Flatten(tables), n)
    requires !csvs[j].content.Parsed?
    ensures Ingest(visited + csvs[..j + 1], threshold) == Gathered(Flatten(tables), n)
  {
    NextVisited(visited, csvs, j);
    IngestOneMore(visited + csvs[..j], csvs[j], threshold, tables, n);
  }

  /** ... a file that reads without a key crashes the run, ... */
  lemma FolderCrashes(visited: seq<File>, csvs: seq<File>, j: nat, threshold: int,
                      tables: seq<seq<TaggedRow>>, n: nat)
    requires j < |csvs| && Ingest(visited + csvs[..j], threshold) == Gathered(Flatten(tables), n)
    requires Fatal(csvs[j])
    ensures Ingest(visited + csvs[..j + 1], threshold) == Crashed(csvs[j].name)
  {
    NextVisited(visited, csvs, j);
    IngestOneMore(visited + csvs[..j], csvs[j], threshold, tables, n);
  }

  /** ... and any other file adds its tagged table and is counted. */
  lemma FolderReads(visited: seq<File>, csvs: seq<File>, j: nat, threshold: int,
                    tables: seq<seq<TaggedRow>>, n: nat, table: seq<Row>, key: string)
    requires j < |csvs| && Ingest(visited + csvs[..j], threshold) == Gathered(Flatten(tables), n)
    requires csvs[j].content == Parsed(table) && FileGroupKey(csvs[j].name) == Some(key)
    ensures Ingest(visited + csvs[..j + 1], threshold) ==
      Gathered(Flatten(tables + [TagRows(table, csvs[j].name, key, threshold)]), n + 1)
  {
    NextVisited(visited, csvs, j);
    IngestOneMore(visited + csvs[..j], csvs[j], threshold, tables, n);
  }

  lemma NextVisited(visited: seq<File>, csvs: seq<File>, j: nat)
    requires j < |csvs|
    ensures visited + csvs[..j + 1] == (visited + csvs[..j]) + [csvs[j]]
  {
    assert csvs[..j + 1] == csvs[..j] + [csvs[j]];
  }

  lemma CrashSkipsTheRest(visited: seq<File>, csvs: seq<File>, j: nat, threshold: int)
    requires j < |csvs| && Ingest(visited + csvs[..j + 1], threshold).Crashed?
    ensures Ingest(visited + csvs, threshold) == Ingest(visited + csvs[..j + 1], threshold)
  {
    assert visited + csvs == (visited + csvs[..j + 1]) + csvs[j + 1..];
    CrashIsFinal(visited + csvs[..j + 1], csvs[j + 1..], threshold);
  }

  /** In a well-formed listing, removing a folder by name removes just that
      entry, and what is left is well formed. */
  lemma RemoveFromWellFormed(a: seq<Entry>, x: Entry, b: seq<Entry>)
    requires WellFormed(a + [x] + b)
    ensures RemoveEntry(a + [x] + b, x.name) == a + b
    ensures WellFormed(a + b)
  {
    var l := a + [x] + b;
    assert l[|a|] == x;
    forall e | e in a ensures e.name != x.name {
      var k :| 0 <= k < |a| && a[k] == e;
      assert l[k] == e;
    }
    forall e | e in b ensures e.name != x.name {
      var k :| 0 <= k < |b| && b[k] == e;
      assert l[|a| + 1 + k] == e;
    }
    RemoveOnlyEntry(a, x, b);
    DropKeepsWellFormed(a, x, b);
  }

  lemma DropKeepsWellFormed(a: seq<Entry>, x: Entry, b: seq<Entry>)
    requires WellFormed(a + [x] + b)
    ensures WellFormed(a + b)
  {
    var l := a + [x] + b;
    var r := a + b;
    forall i, j | 0 <= i < j < |r| ensures r[i].name != r[j].name {
      var i', j' := if i < |a| then i else i + 1, if j < |a| then j else j + 1;
      assert r[i] == l[i'] && r[j] == l[j'];
    }
    forall i | 0 <= i < |r| ensures DistinctFileNames(r[i].files) {
      assert r[i] == l[if i < |a| then i else i + 1];
    }
  }

  /** The sweep of the rest of a listing, after the entries kept so far. */
  function After(kept: seq<Entry>, rest: Swept): Swept
  {
    Swept(kept + rest.entries, rest.aborted)
  }

  /** An entry whose answers end the sweep ends it with the listing as it
      stands. */
  lemma SweepAborts(kept: seq<Entry>, listing: seq<Entry>, i: nat, choice: string -> Choice, confirm: string -> bool)
    requires i < |listing| && Aborts(listing[i], choice, confirm)
    ensures After(kept, Sweep(listing[i..], choice, confirm)) == Swept(kept + listing[i..], true)
  {
  }

  /** An entry whose answers delete it leaves the listing without it, still
      well formed. */
  lemma SweepDeletes(kept: seq<Entry>, listing: seq<Entry>, i: nat, choice: string -> Choice, confirm: string -> bool)
    requires i < |listing| && WellFormed(kept + listing[i..]) && Deletes(listing[i], choice, confirm)
    ensures After(kept, Sweep(listing[i..], choice, confirm)) == After(kept, Sweep(listing[i + 1..], choice, confirm))
    ensures RemoveEntry(kept + listing[i..], listing[i].name) == kept + listing[i + 1..]
    ensures WellFormed(kept + listing[i + 1..])
  {
    var x := listing[i];
    assert listing[i..] == [x] + listing[i + 1..];
    assert kept + listing[i..] == kept + [x] + listing[i + 1..];
    RemoveFromWellFormed(kept, x, listing[i + 1..]);
  }

  /** Any other entry stays, and joins the entries kept so far. */
  lemma SweepKeeps(kept: seq<Entry>, listing: seq<Entry>, i: nat, choice: string -> Choice, confirm: string -> bool)
    requires i < |listing| && !Aborts(listing[i], choice, confirm) && !Deletes(listing[i], choice, confirm)
    ensures After(kept, Sweep(listing[i..], choice, confirm)) == After(kept + [listing[i]], Sweep(listing[i + 1..], choice, confirm))
    ensures kept + listing[i..] == (kept + [listing[i]]) + listing[i + 1..]
  {
    var x := listing[i];
    assert listing[i..] == [x] + listing[i + 1..];
    assert listing[i..][0] == x && listing[i..][1..] == listing[i + 1..];
    var rest := Sweep(listing[i + 1..], choice, confirm).entries;
    assert kept + ([x] + rest) == (kept + [x]) + rest;
  }

  /** One pass of the loop over `sample_list`, as the method takes it: skip,
      blocked `mkdir`, or folder made and the sample's file written. */
  lemma WriteAdvances(es: seq<Entry>, combined: seq<TaggedRow>, samples: seq<string>, k: nat, folder: string)
    requires WellFormed(es) && k < |samples|
    ensures !HasRows(combined, samples[k]) ==>
      WriteSamples(es, combined, samples[k..], folder) == WriteSamples(es, combined, samples[k + 1..], folder)
    ensures HasRows(combined, samples[k]) && MakeFolder(es, folder).None? ==>
      WriteSamples(es, combined, samples[k..], folder) == FolderBlocked &&
      !(Lookup(es, folder).Some? && Lookup(es, folder).value.isDir)
    ensures HasRows(combined, samples[k]) && MakeFolder(es, folder).Some? ==>
      var after := PutFile(MakeFolder(es, folder).value, folder, OutputFile(combined, samples[k]));
      && WriteSamples(es, combined, samples[k..], folder) == WriteSamples(after, combined, samples[k + 1..], folder)
      && WellFormed(after)
      && Lookup(after, folder).Some? && Lookup(after, folder).value.isDir
  {
    assert samples[k..][0] == samples[k] && samples[k..][1..] == samples[k + 1..];
    WriteSampleShape(es, combined, samples[k], folder);
  }

  class ExperimentDir {
    /** The direct children of the directory, in `iterdir` order. */
    var entries: seq<Entry>

    ghost predicate Valid()
      reads this
    {
      WellFormed(entries)
    }

    constructor(listing: seq<Entry>)
      requires WellFormed(listing)
      ensures Valid() && entries == listing
    {
      entries := listing;
    }

    /** `gatherCSVs`: the nested loop over the input folders and their CSV
        files, collecting the tagged tables in `all_dfs` and counting the
        files read in `processed_files`. */
    method GatherCSVs(threshold: int) returns (result: Gathered)
      ensures result == Gather(entries, threshold)
    {
      var listing := entries;
      var allDfs: seq<seq<TaggedRow>> := [];
      var processed: nat := 0;
      ghost var visited: seq<File> := [];
      var i := 0;
      while i < |listing|
        invariant 0 <= i <= |listing|
        invariant visited == CandidateFiles(listing[..i])
        invariant Ingest(visited, threshold) == Gathered(Flatten(allDfs), processed)
      {
        var folder := listing[i];
        CandidateFilesStep(listing, i);
        if folder.isDir && !IsOutputName(folder.name) {
          var crashed;
          allDfs, processed, crashed := GatherFolder(Glob(folder.files), threshold, visited, allDfs, processed);
          if crashed.Some? {
            result := Crashed(crashed.value);
            CrashReachesTheEnd(listing, i, threshold);
            return;
          }
          visited := visited + Glob(folder.files);
        }
        i := i + 1;
      }
      assert listing[..i] == listing;
      result := Gathered(Flatten(allDfs), processed);
    }

    /** `checkForOldCombinedResults`: asks about every old output folder of
        the listing taken at the start, deleting it, keeping it, or ending
        the run, as the answers say. */
    method CheckForOldCombinedResults(choice: string -> Choice, confirm: string -> bool) returns (aborted: bool)
      requires Valid()
      modifies this
      ensures Valid()
      ensures Swept(entries, aborted) == Sweep(old(entries), choice, confirm)
    {
      var listing := entries;
      ghost var kept: seq<Entry> := [];
      var i := 0;
      while i < |listing|
        invariant 0 <= i <= |listing|
        invariant entries == kept + listing[i..]
        invariant WellFormed(kept + listing[i..])
        invariant Sweep(listing, choice, confirm) == After(kept, Sweep(listing[i..], choice, confirm))
      {
        var folder := listing[i];
        if folder.isDir && IsOutputName(folder.name) {
          var c := choice(folder.name);
          if c == Yes {
            if confirm(folder.name) {
              SweepDeletes(kept, listing, i, choice, confirm);
              entries := RemoveEntry(entries, folder.name);
              i := i + 1;
              continue;
            } else {
              SweepAborts(kept, listing, i, choice, confirm);
              aborted := true;
              return;
            }
          } else if c == Cancel {
            SweepAborts(kept, listing, i, choice, confirm);
            aborted := true;
            return;
          }
        }
        SweepKeeps(kept, listing, i, choice, confirm);
        kept := kept + [folder];
        i := i + 1;
      }
      aborted := false;
      assert listing[i..] == [];
    }

    /** `writeCombinedResults` at time `now`: for every sample name with rows,
        make the output folder if needed and write that sample's file into
        it; nothing at all when the combined table is empty. Returns false
        when `mkdir` is blocked by a plain file of the folder's name, which
        leaves the directory as it was. */
    method WriteCombinedResults(combined: seq<TaggedRow>, samples: seq<string>, now: Timestamp) returns (ok: bool)
      requires Valid() && ValidTimestamp(now)
      modifies this
      ensures Valid()
      ensures ok ==> WriteCombined(old(entries), combined, samples, now) == Wrote(entries)
      ensures !ok ==> WriteCombined(old(entries), combined, samples, now) == FolderBlocked && entries == old(entries)
    {
      ok := true;
      var folder := FolderName(now);
      if combined != [] {
        var k := 0;
        while k < |samples|
          invariant 0 <= k <= |samples|
          invariant WellFormed(entries)
          invariant WriteSamples(old(entries), combined, samples, folder) ==
            WriteSamples(entries, combined, samples[k..], folder)
          invariant entries == old(entries) || (Lookup(entries, folder).Some? && Lookup(entries, folder).value.isDir)
        {
          var sample := samples[k];
          WriteAdvances(entries, combined, samples, k, folder);
          var subset := Partition(combined, sample);
          if subset != [] {
            var made := MakeFolder(entries, folder);
            if made.None? {
              ok := false;
              return;
            }
            entries := PutFile(made.value, folder, File(OutputFileName(sample), Parsed(SerializeAll(subset))));
          }
          k := k + 1;
        }
      }
    }

    /** `main` after the directory is chosen: detect the names, sweep the
        old output folders, check the answers and the count, gather, write,
        and summarise. `order` is the iteration order of the detected set;
        a run in which no file read ends in the `KeyError` of the summary. */
    method RunMain(choice: string -> Choice, confirm: string -> bool, samplesConfirmed: bool,
                   threshold: Option<int>, order: seq<string>, now: Timestamp) returns (outcome: Outcome)
      requires Valid() && ValidTimestamp(now) && ListsNames(order, entries)
      modifies this
      ensures Valid()
      ensures Run(outcome, entries) == Main(old(entries), choice, confirm, samplesConfirmed, threshold, order, now)
    {
      var sampleList := DetectSampleNames(entries);
      var aborted := CheckForOldCombinedResults(choice, confirm);
      if aborted || !samplesConfirmed {
        return Aborted;
      }
      var totalFiles := CountCSVFiles(entries);
      if totalFiles == 0 {
        return NoCsvFiles;
      }
      if threshold.None? {
        return Aborted;
      }
      var combined := GatherCSVs(threshold.value);
      if combined.Crashed? {
        return IngestCrashed(combined.file);
      }
      var ok := WriteCombinedResults(combined.rows, order, now);
      if !ok {
        return WriteFailed;
      }
      if combined.processed == 0 {
        return SummaryFailed;
      }
      outcome := Completed(totalFiles, |sampleList|, Summarize(combined.rows));
    }
  }
}
