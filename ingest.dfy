/** Ingestion (`gatherCSVs`): each visited CSV file is read; a file that is
    empty or unreadable is skipped; the rows of every other file are tagged
    with `Sample`, `SampleGroup` and `Positive` and appended in visiting
    order. The key of a successfully read file is taken outside the `try`,
    so a file name without one ends the whole run. */
module Ingestion {
  import opened Optional
  import opened Strings
  import opened Naming
  import opened FileSystem
  import opened Scanner

  /** A row of the combined table: the source columns other than the three
      derived ones (pandas' assignment replaces a source column of the same
      name), `NumFoci`, and the three derived columns. */
  datatype TaggedRow = TaggedRow(cols: map<string, string>, numFoci: int,
                                 sample: string, sampleGroup: string, positive: bool)

  const DerivedColumns: set<string> := {"Sample", "SampleGroup", "Positive"}

  /** What the loop has produced so far: the rows appended and the count of
      files read, or the uncaught `AttributeError` raised at `file`. */
  datatype Gathered = Gathered(rows: seq<TaggedRow>, processed: nat) | Crashed(file: string)

  /** Lines 62-66 applied to one table. */
  function TagRows(rows: seq<Row>, fileName: string, group: string, threshold: int): (r: seq<TaggedRow>)
    ensures |r| == |rows|
    ensures forall i :: 0 <= i < |r| ==>
      r[i].sample == fileName && r[i].sampleGroup == group &&
      r[i].numFoci == rows[i].numFoci && r[i].cols == rows[i].cols - DerivedColumns &&
      (r[i].positive <==> rows[i].numFoci >= threshold)
  {
    if rows == [] then []
    else
      [TaggedRow(rows[0].cols - DerivedColumns, rows[0].numFoci, fileName, group, rows[0].numFoci >= threshold)]
      + TagRows(rows[1..], fileName, group, threshold)
  }

  /** A visited file that the run cannot get past: it reads, but its
      truncated name has no key. */
  predicate Fatal(f: File)
  {
    f.content.Parsed? && FileGroupKey(f.name).None?
  }

  /** One pass of the inner loop body. */
  function Step(g: Gathered, f: File, threshold: int): Gathered
  {
    match g
    case Crashed(_) => g
    case Gathered(rows, n) =>
      match f.content
      case EmptyData => g
      case ReadError(_) => g
      case Parsed(table) =>
        match FileGroupKey(f.name)
        case None => Crashed(f.name)
        case Some(k) => Gathered(rows + TagRows(table, f.name, k, threshold), n + 1)
  }

  /** The loop over the visited files, one file at a time. */
  function Ingest(files: seq<File>, threshold: int): Gathered
  {
    if files == [] then Gathered([], 0)
    else Step(Ingest(files[..|files| - 1], threshold), files[|files| - 1], threshold)
  }

  /** The loop's `all_dfs` joined end to end (the value line 74 returns),
      empty when nothing was appended. */
  function Flatten(tables: seq<seq<TaggedRow>>): seq<TaggedRow>
  {
    if tables == [] then [] else Flatten(tables[..|tables| - 1]) + tables[|tables| - 1]
  }

  /** One more file visited is one more step of the loop. */
  lemma IngestSnoc(files: seq<File>, f: File, threshold: int)
    ensures Ingest(files + [f], threshold) == Step(Ingest(files, threshold), f, threshold)
  {
    assert (files + [f])[..|files|] == files;
  }

  /** The three outcomes of one step after a file that did not crash the
      loop. */
  lemma StepOutcomes(rows: seq<TaggedRow>, n: nat, f: File, threshold: int)
    ensures !f.content.Parsed? ==> Step(Gathered(rows, n), f, threshold) == Gathered(rows, n)
    ensures Fatal(f) ==> Step(Gathered(rows, n), f, threshold) == Crashed(f.name)
    ensures f.content.Parsed? && !Fatal(f) ==>
      Step(Gathered(rows, n), f, threshold) ==
      Gathered(rows + TagRows(f.content.rows, f.name, FileGroupKey(f.name).value, threshold), n + 1)
  {
  }

  /** One more table collected is appended to the concatenation. */
  lemma FlattenSnoc(tables: seq<seq<TaggedRow>>, t: seq<TaggedRow>)
    ensures Flatten(tables + [t]) == Flatten(tables) + t
  {
    assert (tables + [t])[..|tables|] == tables;
  }

  /** One more file through the loop body, on the collected tables. */
  lemma IngestOneMore(done: seq<File>, f: File, threshold: int, tables: seq<seq<TaggedRow>>, n: nat)
    requires Ingest(done, threshold) == Gathered(Flatten(tables), n)
    ensures !f.content.Parsed? ==> Ingest(done + [f], threshold) == Gathered(Flatten(tables), n)
    ensures Fatal(f) ==> Ingest(done + [f], threshold) == Crashed(f.name)
    ensures f.content.Parsed? && !Fatal(f) ==>
      Ingest(done + [f], threshold) ==
      Gathered(Flatten(tables + [TagRows(f.content.rows, f.name, FileGroupKey(f.name).value, threshold)]), n + 1)
  {
    IngestSnoc(done, f, threshold);
    StepOutcomes(Flatten(tables), n, f, threshold);
    if f.content.Parsed? && !Fatal(f) {
      FlattenSnoc(tables, TagRows(f.content.rows, f.name, FileGroupKey(f.name).value, threshold));
    }
  }

  /** `gatherCSVs` on a directory listing. */
  function Gather(es: seq<Entry>, threshold: int): Gathered
  {
    Ingest(CandidateFiles(es), threshold)
  }

  /** The files that read successfully, in order. */
  function Successes(files: seq<File>): (r: seq<File>)
    ensures |r| <= |files|
  {
    if files == [] then []
    else
      var last := files[|files| - 1];
      assert files == files[..|files| - 1] + [last];
      Successes(files[..|files| - 1]) + (if last.content.Parsed? then [last] else [])
  }

  /** The tagged table of one file on its own; empty for a skipped file. */
  function TableOf(f: File, threshold: int): seq<TaggedRow>
  {
    if f.content.Parsed? && FileGroupKey(f.name).Some? then
      TagRows(f.content.rows, f.name, FileGroupKey(f.name).value, threshold)
    else []
  }

  /** The reference definition of the combined table, file by file: the
      tagged tables of the files, one after another. `IngestIsConcat` proves
      the loop equal to it. */
  function Concat(files: seq<File>, threshold: int): seq<TaggedRow>
  {
    if files == [] then [] else TableOf(files[0], threshold) + Concat(files[1..], threshold)
  }

  lemma {:induction false} ConcatAppend(a: seq<File>, f: File, threshold: int)
    ensures Concat(a + [f], threshold) == Concat(a, threshold) + TableOf(f, threshold)
  {
    if a == [] {
      assert [f][1..] == [];
    } else {
      var t0, tf := TableOf(a[0], threshold), TableOf(f, threshold);
      assert (a + [f])[0] == a[0];
      assert (a + [f])[1..] == a[1..] + [f];
      ConcatAppend(a[1..], f, threshold);
      var rest := Concat(a[1..], threshold);
      assert Concat(a + [f], threshold) == t0 + (rest + tf);
      assert t0 + (rest + tf) == (t0 + rest) + tf;
    }
  }

  /** A fatal file is in the last file or among the ones before it. */
  lemma FatalSplit(files: seq<File>)
    requires files != []
    ensures var prefix := files[..|files| - 1];
      (exists i :: 0 <= i < |files| && Fatal(files[i])) <==>
      (exists i :: 0 <= i < |prefix| && Fatal(prefix[i])) || Fatal(files[|files| - 1])
  {
    var prefix := files[..|files| - 1];
    if exists i :: 0 <= i < |files| && Fatal(files[i]) {
      var i :| 0 <= i < |files| && Fatal(files[i]);
      if i < |prefix| { assert prefix[i] == files[i]; }
    }
    if exists i :: 0 <= i < |prefix| && Fatal(prefix[i]) {
      var i :| 0 <= i < |prefix| && Fatal(prefix[i]);
      assert prefix[i] == files[i];
    }
  }

  lemma ConcatSnoc(files: seq<File>, threshold: int)
    requires files != []
    ensures Concat(files, threshold) ==
      Concat(files[..|files| - 1], threshold) + TableOf(files[|files| - 1], threshold)
  {
    assert files == files[..|files| - 1] + [files[|files| - 1]];
    ConcatAppend(files[..|files| - 1], files[|files| - 1], threshold);
  }

  /** A step past a file that does not crash appends that file's own
      table and counts it when it reads. */
  lemma StepAppendsTable(rows: seq<TaggedRow>, n: nat, f: File, threshold: int)
    requires !Fatal(f)
    ensures Step(Gathered(rows, n), f, threshold) ==
      Gathered(rows + TableOf(f, threshold), n + if f.content.Parsed? then 1 else 0)
  {
    if !f.content.Parsed? {
      assert rows + [] == rows;
    }
  }

  /** The last step of a run that has not crashed keeps the table the
      concatenation of the tables read and the count the number of files
      read. */
  lemma LastStepGathered(files: seq<File>, threshold: int)
    requires files != [] && !Fatal(files[|files| - 1])
    requires var prefix := files[..|files| - 1];
      Ingest(prefix, threshold) == Gathered(Concat(prefix, threshold), |Successes(prefix)|)
    ensures Ingest(files, threshold) == Gathered(Concat(files, threshold), |Successes(files)|)
  {
    var prefix, last := files[..|files| - 1], files[|files| - 1];
    ConcatSnoc(files, threshold);
    assert |Successes(files)| == |Successes(prefix)| + if last.content.Parsed? then 1 else 0;
    assert Ingest(files, threshold) == Step(Ingest(prefix, threshold), last, threshold);
    StepAppendsTable(Concat(prefix, threshold), |Successes(prefix)|, last, threshold);
  }

  /** The run crashes exactly when some visited file reads but has no key;
      otherwise the table is the concatenation of the tables of the files
      in visiting order (empty when nothing read) and `processed_files`
      counts the files that read. */
  lemma {:induction false} IngestIsConcat(files: seq<File>, threshold: int)
    ensures Ingest(files, threshold).Crashed? <==> exists i :: 0 <= i < |files| && Fatal(files[i])
    ensures Ingest(files, threshold).Gathered? ==>
      Ingest(files, threshold) == Gathered(Concat(files, threshold), |Successes(files)|)
  {
    if files != [] {
      var prefix, last := files[..|files| - 1], files[|files| - 1];
      IngestIsConcat(prefix, threshold);
      FatalSplit(files);
      var prev := Ingest(prefix, threshold);
      assert Ingest(files, threshold) == Step(prev, last, threshold);
      if prev.Crashed? {
        assert Ingest(files, threshold) == prev;
      } else if Fatal(last) {
        assert Ingest(files, threshold) == Crashed(last.name);
      } else {
        LastStepGathered(files, threshold);
      }
    }
  }

  /** The crash reports the FIRST visited file that reads without a key:
      nothing after it is looked at. */
  lemma {:induction false} CrashAtFirstFatalFile(files: seq<File>, threshold: int)
    requires Ingest(files, threshold).Crashed?
    ensures exists i ::
      && 0 <= i < |files| && Fatal(files[i])
      && files[i].name == Ingest(files, threshold).file
      && (forall j :: 0 <= j < i ==> !Fatal(files[j]))
  {
    var prefix, last := files[..|files| - 1], files[|files| - 1];
    assert forall i :: 0 <= i < |prefix| ==> prefix[i] == files[i];
    if Ingest(prefix, threshold).Crashed? {
      CrashAtFirstFatalFile(prefix, threshold);
      var i :| 0 <= i < |prefix| && Fatal(prefix[i]) && prefix[i].name == Ingest(prefix, threshold).file &&
        forall j :: 0 <= j < i ==> !Fatal(prefix[j]);
      assert Fatal(files[i]);
    } else {
      IngestIsConcat(prefix, threshold);
      assert Fatal(files[|files| - 1]);
    }
  }

  /** The skip policy: files that fail to read leave no trace, so the
      result is the same as ingesting only the files that read. */
  lemma {:induction false} SkippedFilesLeaveNoTrace(files: seq<File>, threshold: int)
    ensures Ingest(files, threshold) == Ingest(Successes(files), threshold)
  {
    if files != [] {
      var prefix, last := files[..|files| - 1], files[|files| - 1];
      SkippedFilesLeaveNoTrace(prefix, threshold);
      if last.content.Parsed? {
        var s := Successes(prefix) + [last];
        assert Successes(files) == s;
        assert s[..|s| - 1] == Successes(prefix);
      } else {
        assert Successes(files) == Successes(prefix);
      }
    }
  }

  /** With no file read successfully the combined table is empty. */
  lemma NothingReadGivesEmptyTable(files: seq<File>, threshold: int)
    requires forall f :: f in files ==> !f.content.Parsed?
    ensures Ingest(files, threshold) == Gathered([], 0)
  {
    SkippedFilesLeaveNoTrace(files, threshold);
    NoSuccesses(files);
  }

  lemma {:induction false} NoSuccesses(files: seq<File>)
    requires forall f :: f in files ==> !f.content.Parsed?
    ensures Successes(files) == []
  {
    if files != [] {
      assert files[|files| - 1] in files;
      assert forall f :: f in files[..|files| - 1] ==> f in files;
      NoSuccesses(files[..|files| - 1]);
    }
  }

  /** No file counted as processed means no file read. */
  lemma {:induction false} NoSuccessesMeansNothingRead(files: seq<File>)
    requires |Successes(files)| == 0
    ensures forall f :: f in files ==> !f.content.Parsed?
  {
    if files != [] {
      var prefix := files[..|files| - 1];
      NoSuccessesMeansNothingRead(prefix);
      assert files == prefix + [files[|files| - 1]];
    }
  }

  /** A crash, once it happens, is the final result however many files
      follow (the exception leaves both loops). */
  lemma {:induction false} CrashIsFinal(a: seq<File>, b: seq<File>, threshold: int)
    requires Ingest(a, threshold).Crashed?
    ensures Ingest(a + b, threshold) == Ingest(a, threshold)
  {
    if b == [] {
      assert a + b == a;
    } else {
      var b' := b[..|b| - 1];
      assert (a + b)[..|a + b| - 1] == a + b';
      CrashIsFinal(a, b', threshold);
    }
  }

  /** Every row of the combined table carries its provenance: it comes from
      a visited file that read, `Sample` is that file's name, `SampleGroup`
      its key, and `Positive` holds exactly when `NumFoci` reaches the one
      threshold of the run (equality counts). */
  lemma {:induction false} RowsAreTagged(files: seq<File>, threshold: int)
    requires Ingest(files, threshold).Gathered?
    ensures forall r :: r in Ingest(files, threshold).rows ==>
      (exists f :: f in files && f.content.Parsed? && f.name == r.sample &&
                   FileGroupKey(f.name) == Some(r.sampleGroup)) &&
      (r.positive <==> r.numFoci >= threshold)
  {
    if files != [] {
      var prefix, last := files[..|files| - 1], files[|files| - 1];
      RowsAreTagged(prefix, threshold);
      assert forall f :: f in prefix ==> f in files;
    }
  }

  /** Every row's own `Sample` contains its own `SampleGroup`, so a row
      whose group was detected always lands in that group's output file. */
  lemma RowSampleContainsGroup(files: seq<File>, threshold: int, r: TaggedRow)
    requires Ingest(files, threshold).Gathered? && r in Ingest(files, threshold).rows
    ensures Contains(r.sample, r.sampleGroup)
  {
    RowsAreTagged(files, threshold);
    var f :| f in files && f.content.Parsed? && f.name == r.sample && FileGroupKey(f.name) == Some(r.sampleGroup);
    FileKeyIsPrefix(f.name);
  }

  /** On a directory: `processed_files` never exceeds the count that sized
      the progress bar. */
  lemma ProcessedWithinCount(es: seq<Entry>, threshold: int)
    requires Gather(es, threshold).Gathered?
    ensures Gather(es, threshold).processed <= CountCSVFiles(es)
  {
    var files := CandidateFiles(es);
    IngestIsConcat(files, threshold);
    CountIsCandidateFiles(es);
  }
}
