/** Output (`writeCombinedResults`): the combined table is cut into one
    subset per detected sample name (rows whose `Sample` CONTAINS the name),
    and each non-empty subset is written as `<sample>_results_combined.csv`
    into the folder `CombinedResults_(yy.mm.dd-HH.MM.SS)`, which is made on
    the first write (`mkdir(parents=True, exist_ok=True)`). */
module Output {
  import opened Optional
  import opened Strings
  import opened FileSystem
  import opened Scanner
  import opened Ingestion

  // ---------------------------------------------------------------------
  // Partition

  /** `combined_df[combined_df['Sample'].str.contains(sample, regex=False)]` */
  function Partition(rows: seq<TaggedRow>, sample: string): (r: seq<TaggedRow>)
    ensures |r| <= |rows|
    ensures forall x :: x in r <==> x in rows && Contains(x.sample, sample)
  {
    if rows == [] then []
    else (if Contains(rows[0].sample, sample) then [rows[0]] else []) + Partition(rows[1..], sample)
  }

  /** The subset keeps the table's order: cutting commutes with
      concatenation. */
  lemma {:induction false} PartitionAppend(a: seq<TaggedRow>, b: seq<TaggedRow>, sample: string)
    ensures Partition(a + b, sample) == Partition(a, sample) + Partition(b, sample)
  {
    if a == [] {
      assert a + b == b;
    } else {
      assert (a + b)[0] == a[0];
      assert (a + b)[1..] == a[1..] + b;
      PartitionAppend(a[1..], b, sample);
    }
  }

  /** Filtering a written subset again by its own name gives it back. */
  lemma {:induction false} PartitionIdempotent(rows: seq<TaggedRow>, sample: string)
    ensures Partition(Partition(rows, sample), sample) == Partition(rows, sample)
  {
    if rows != [] {
      PartitionIdempotent(rows[1..], sample);
      var head := if Contains(rows[0].sample, sample) then [rows[0]] else [];
      PartitionAppend(head, Partition(rows[1..], sample), sample);
      if Contains(rows[0].sample, sample) {
        assert Partition(head, sample) == head by {
          assert head[1..] == [];
        }
      }
    }
  }

  /** An example of what `Partition`'s contract already says: the
      containment test over-matches, so the name `A` also selects the rows
      of a sample called `BA_1_results.csv`. */
  lemma SubstringMatchOverMatches(r: TaggedRow)
    requires r.sample == "BA_1_results.csv"
    ensures Partition([r], "A") == [r]
  {
    assert OccursAt(r.sample, "A", 1);
    assert [r][1..] == [];
  }

  // ---------------------------------------------------------------------
  // Output folder name

  /** A value of `datetime.now()`, down to the second. */
  datatype Timestamp = Timestamp(year: int, month: int, day: int, hour: int, minute: int, second: int)

  predicate ValidTimestamp(t: Timestamp)
  {
    1 <= t.year <= 9999 && 1 <= t.month <= 12 && 1 <= t.day <= 31 &&
    0 <= t.hour < 24 && 0 <= t.minute < 60 && 0 <= t.second < 60
  }

  /** The six two-digit fields of a folder name; `yy` is the year modulo
      100, as `%y` prints it. */
  datatype Stamp = Stamp(yy: int, month: int, day: int, hour: int, minute: int, second: int)

  function Digit(d: int): (c: char)
    requires 0 <= d < 10
    ensures '0' <= c <= '9' && c as int - '0' as int == d
  {
    ('0' as int + d) as char
  }

  /** `%02d`-style formatting as strftime's `%y %m %d %H %M %S` do it. */
  function TwoDigits(n: int): (s: string)
    requires 0 <= n < 100
    ensures |s| == 2
  {
    [Digit(n / 10), Digit(n % 10)]
  }

  function ParseTwoDigits(s: string): (r: Option<int>)
    requires |s| == 2
    ensures r.Some? ==> 0 <= r.value < 100
  {
    if '0' <= s[0] <= '9' && '0' <= s[1] <= '9' then
      Some((s[0] as int - '0' as int) * 10 + (s[1] as int - '0' as int))
    else None
  }

  lemma TwoDigitsRoundTrip(n: int)
    requires 0 <= n < 100
    ensures ParseTwoDigits(TwoDigits(n)) == Some(n)
  {
  }

  function StampOf(t: Timestamp): Stamp
  {
    Stamp(t.year % 100, t.month, t.day, t.hour, t.minute, t.second)
  }

  const FolderOpen := "CombinedResults_("

  /** `f"CombinedResults_({date_str}-{time_str})"` with
      `date_str = now.strftime("%y.%m.%d")`, `time_str = now.strftime("%H.%M.%S")`. */
  function FolderName(t: Timestamp): (r: string)
    requires ValidTimestamp(t)
    ensures |r| == 35
  {
    FolderOpen + TwoDigits(t.year % 100) + "." + TwoDigits(t.month) + "." + TwoDigits(t.day)
    + "-" + TwoDigits(t.hour) + "." + TwoDigits(t.minute) + "." + TwoDigits(t.second) + ")"
  }

  /** Reads the six fields back out of a folder name. */
  function ParseFolderName(s: string): Option<Stamp>
  {
    if |s| != 35 || s[..17] != FolderOpen || s[19] != '.' || s[22] != '.' || s[25] != '-'
       || s[28] != '.' || s[31] != '.' || s[34] != ')' then None
    else
      var yy, mo, dd := ParseTwoDigits(s[17..19]), ParseTwoDigits(s[20..22]), ParseTwoDigits(s[23..25]);
      var hh, mi, ss := ParseTwoDigits(s[26..28]), ParseTwoDigits(s[29..31]), ParseTwoDigits(s[32..34]);
      if yy.Some? && mo.Some? && dd.Some? && hh.Some? && mi.Some? && ss.Some? then
        Some(Stamp(yy.value, mo.value, dd.value, hh.value, mi.value, ss.value))
      else None
  }

  /** The folder name records the timestamp to the second (within its
      century), and it begins with the reserved prefix, so the scans of a
      later run skip it. */
  lemma FolderNameRoundTrip(t: Timestamp)
    requires ValidTimestamp(t)
    ensures ParseFolderName(FolderName(t)) == Some(StampOf(t))
    ensures IsOutputName(FolderName(t))
  {
    var s := FolderName(t);
    assert s[..17] == FolderOpen;
    assert s[17..19] == TwoDigits(t.year % 100);
    assert s[20..22] == TwoDigits(t.month);
    assert s[23..25] == TwoDigits(t.day);
    assert s[26..28] == TwoDigits(t.hour);
    assert s[29..31] == TwoDigits(t.minute);
    assert s[32..34] == TwoDigits(t.second);
    TwoDigitsRoundTrip(t.year % 100);
    TwoDigitsRoundTrip(t.month);
    TwoDigitsRoundTrip(t.day);
    TwoDigitsRoundTrip(t.hour);
    TwoDigitsRoundTrip(t.minute);
    TwoDigitsRoundTrip(t.second);
    assert s[..|OutputPrefix|] == OutputPrefix;
  }

  /** Two runs share an output folder only when they start in the same
      second of the same century. */
  lemma FolderNamesCollideOnlyOnSameSecond(t1: Timestamp, t2: Timestamp)
    requires ValidTimestamp(t1) && ValidTimestamp(t2)
    requires FolderName(t1) == FolderName(t2)
    ensures StampOf(t1) == StampOf(t2)
  {
    FolderNameRoundTrip(t1);
    FolderNameRoundTrip(t2);
  }

  // ---------------------------------------------------------------------
  // Output files

  /** `f"{sample}_results_combined.csv"` */
  function OutputFileName(sample: string): string
  {
    sample + "_results_combined.csv"
  }

  lemma OutputFileNameInjective(s1: string, s2: string)
    requires OutputFileName(s1) == OutputFileName(s2)
    ensures s1 == s2
  {
    assert s1 == OutputFileName(s1)[..|s1|];
    assert s2 == OutputFileName(s2)[..|s2|];
  }

  /** A row as `to_csv(index=False)` writes it: the derived columns become
      ordinary columns, `Positive` spelt as pandas spells a bool. */
  function Serialize(t: TaggedRow): (r: Row)
    ensures r.numFoci == t.numFoci
    ensures "Sample" in r.cols && r.cols["Sample"] == t.sample
    ensures "SampleGroup" in r.cols && r.cols["SampleGroup"] == t.sampleGroup
    ensures "Positive" in r.cols && r.cols["Positive"] == (if t.positive then "True" else "False")
    ensures forall c :: c in t.cols && c !in DerivedColumns ==> c in r.cols && r.cols[c] == t.cols[c]
    ensures r.cols.Keys == t.cols.Keys + DerivedColumns
  {
    Row(t.cols["Sample" := t.sample]["SampleGroup" := t.sampleGroup]
              ["Positive" := if t.positive then "True" else "False"], t.numFoci)
  }

  function SerializeAll(rows: seq<TaggedRow>): (r: seq<Row>)
    ensures |r| == |rows| && forall i :: 0 <= i < |r| ==> r[i] == Serialize(rows[i])
  {
    seq(|rows|, i requires 0 <= i < |rows| => Serialize(rows[i]))
  }

  // ---------------------------------------------------------------------
  // Effects on the directory listing

  /** The content of file `name` in folder `folder`, if both exist. */
  function FileIn(es: seq<Entry>, folder: string, name: string): Option<ReadOutcome>
  {
    match Lookup(es, folder)
    case None => None
    case Some(e) => FileLookup(e.files, name)
  }

  /** `b` differs from `a` at most in the entries called `name`, which may
      also have been appended. */
  predicate TouchesOnly(a: seq<Entry>, b: seq<Entry>, name: string)
  {
    |a| <= |b| &&
    (forall i :: 0 <= i < |a| ==> b[i].name == a[i].name && (a[i].name != name ==> b[i] == a[i])) &&
    (forall i :: |a| <= i < |b| ==> b[i].name == name)
  }

  lemma TouchesOnlyTransitive(a: seq<Entry>, b: seq<Entry>, c: seq<Entry>, name: string)
    requires TouchesOnly(a, b, name) && TouchesOnly(b, c, name)
    ensures TouchesOnly(a, c, name)
  {
  }

  /** Writing a file into a folder: replaces the file of that name or adds
      it at the end (`to_csv` overwrites). */
  function Upsert(fs: seq<File>, f: File): (r: seq<File>)
    ensures f in r
    ensures forall g :: g in r ==> g == f || g in fs
  {
    if fs == [] then [f]
    else if fs[0].name == f.name then [f] + fs[1..]
    else [fs[0]] + Upsert(fs[1..], f)
  }

  lemma {:induction false} UpsertLookup(fs: seq<File>, f: File, n: string)
    ensures FileLookup(Upsert(fs, f), n) == if n == f.name then Some(f.content) else FileLookup(fs, n)
  {
    if fs != [] && fs[0].name != f.name {
      UpsertLookup(fs[1..], f, n);
    }
  }

  lemma {:induction false} UpsertDistinct(fs: seq<File>, f: File)
    requires DistinctFileNames(fs)
    ensures DistinctFileNames(Upsert(fs, f))
  {
    if fs != [] {
      var r := Upsert(fs, f);
      if fs[0].name == f.name {
        forall i, j | 0 <= i < j < |r| ensures r[i].name != r[j].name {
          assert r[j] == fs[j];
          if i > 0 { assert r[i] == fs[i]; }
        }
      } else {
        var tail := Upsert(fs[1..], f);
        UpsertDistinct(fs[1..], f);
        forall i, j | 0 <= i < j < |r| ensures r[i].name != r[j].name {
          assert r[j] == tail[j - 1];
          if i == 0 {
            assert tail[j - 1] in tail;
            if tail[j - 1] != f {
              var k :| 0 <= k < |fs[1..]| && fs[1..][k] == tail[j - 1];
              assert fs[k + 1] == tail[j - 1];
            }
          } else {
            assert r[i] == tail[i - 1];
          }
        }
      }
    }
  }

  /** Writes `f` into the first entry called `folder`; nothing else moves. */
  function PutFile(es: seq<Entry>, folder: string, f: File): (r: seq<Entry>)
    ensures |r| == |es|
    ensures forall i :: 0 <= i < |es| ==>
      r[i].name == es[i].name && r[i].isDir == es[i].isDir && (es[i].name != folder ==> r[i] == es[i])
  {
    if es == [] then []
    else if es[0].name == folder then [es[0].(files := Upsert(es[0].files, f))] + es[1..]
    else [es[0]] + PutFile(es[1..], folder, f)
  }

  lemma {:induction false} PutFileLookup(es: seq<Entry>, folder: string, f: File, x: string)
    ensures Lookup(PutFile(es, folder, f), x).Some? == Lookup(es, x).Some?
    ensures Lookup(es, x).Some? ==> Lookup(PutFile(es, folder, f), x).value.isDir == Lookup(es, x).value.isDir
  {
    if es != [] && es[0].name != folder {
      PutFileLookup(es[1..], folder, f, x);
    }
  }

  lemma {:induction false} PutFileFileIn(es: seq<Entry>, folder: string, f: File, n: string)
    ensures FileIn(PutFile(es, folder, f), folder, n) ==
      if n == f.name && Lookup(es, folder).Some? then Some(f.content) else FileIn(es, folder, n)
  {
    if es != [] {
      if es[0].name == folder {
        UpsertLookup(es[0].files, f, n);
      } else {
        PutFileFileIn(es[1..], folder, f, n);
      }
    }
  }

  lemma PutFileWellFormed(es: seq<Entry>, folder: string, f: File)
    requires WellFormed(es)
    ensures WellFormed(PutFile(es, folder, f))
  {
    var r := PutFile(es, folder, f);
    forall i | 0 <= i < |r| ensures DistinctFileNames(r[i].files) {
      if es[i].name == folder {
        PutFileShape(es, folder, f, i);
        UpsertDistinct(es[i].files, f);
      }
    }
  }

  /** An entry PutFile changed got exactly the file added. */
  lemma {:induction false} PutFileShape(es: seq<Entry>, folder: string, f: File, i: nat)
    requires i < |es|
    ensures PutFile(es, folder, f)[i] == es[i] || PutFile(es, folder, f)[i].files == Upsert(es[i].files, f)
  {
    if es != [] && es[0].name != folder && i > 0 {
      PutFileShape(es[1..], folder, f, i - 1);
    }
  }

  function NewFolder(name: string): Entry
  {
    Entry(name, true, [])
  }

  lemma {:induction false} LookupAppendAbsent(es: seq<Entry>, e: Entry, x: string)
    requires Lookup(es, e.name).None?
    ensures Lookup(es + [e], x) == if x == e.name then Some(e) else Lookup(es, x)
  {
    if es == [] {
      assert es + [e] == [e];
    } else {
      assert (es + [e])[1..] == es[1..] + [e];
      LookupAppendAbsent(es[1..], e, x);
    }
  }

  /** `new_dir.mkdir(parents=True, exist_ok=True)`: an existing folder is
      reused, a missing one is added empty, and a plain file in the way
      raises `FileExistsError`. */
  function MakeFolder(es: seq<Entry>, name: string): (r: Option<seq<Entry>>)
    ensures r.None? <==> Lookup(es, name).Some? && !Lookup(es, name).value.isDir
  {
    match Lookup(es, name)
    case Some(e) => if e.isDir then Some(es) else None
    case None => Some(es + [NewFolder(name)])
  }

  /** After `mkdir` the folder is there, as a folder, with the files it had
      (none if it is new), and nothing else moved. */
  lemma MakeFolderFacts(es: seq<Entry>, name: string, n: string)
    requires MakeFolder(es, name).Some?
    ensures Lookup(MakeFolder(es, name).value, name).Some?
    ensures Lookup(MakeFolder(es, name).value, name).value.isDir
    ensures FileIn(MakeFolder(es, name).value, name, n) == FileIn(es, name, n)
    ensures TouchesOnly(es, MakeFolder(es, name).value, name)
    ensures WellFormed(es) ==> WellFormed(MakeFolder(es, name).value)
  {
    if Lookup(es, name).None? {
      var r := es + [NewFolder(name)];
      LookupAppendAbsent(es, NewFolder(name), name);
      if WellFormed(es) {
        forall i, j | 0 <= i < j < |r| ensures r[i].name != r[j].name {
          if j == |es| { assert r[i] in es; }
        }
      }
    }
  }

  /** What one pass of the loop over `sample_list` leaves behind. */
  datatype WriteResult = Wrote(entries: seq<Entry>) | FolderBlocked

  /** The file written for a sample name with rows. */
  function OutputFile(combined: seq<TaggedRow>, sample: string): File
  {
    File(OutputFileName(sample), Parsed(SerializeAll(Partition(combined, sample))))
  }

  /** A sample name that has something to write. */
  predicate HasRows(combined: seq<TaggedRow>, s: string)
  {
    Partition(combined, s) != []
  }

  /** Lines 217-227 for one sample name. */
  function WriteSample(es: seq<Entry>, combined: seq<TaggedRow>, sample: string, folder: string): WriteResult
  {
    if !HasRows(combined, sample) then Wrote(es)
    else match MakeFolder(es, folder)
      case None => FolderBlocked
      case Some(es') => Wrote(PutFile(es', folder, OutputFile(combined, sample)))
  }

  /** The loop over `sample_list`, from a given state; the exception of a
      blocked `mkdir` ends it. */
  function WriteSamples(es: seq<Entry>, combined: seq<TaggedRow>, samples: seq<string>, folder: string): WriteResult
    decreases |samples|
  {
    if samples == [] then Wrote(es)
    else match WriteSample(es, combined, samples[0], folder)
      case FolderBlocked => FolderBlocked
      case Wrote(es') => WriteSamples(es', combined, samples[1..], folder)
  }

  /** `writeCombinedResults` on a directory listing. */
  function WriteCombined(es: seq<Entry>, combined: seq<TaggedRow>, samples: seq<string>, now: Timestamp): WriteResult
    requires ValidTimestamp(now)
  {
    if combined == [] then Wrote(es) else WriteSamples(es, combined, samples, FolderName(now))
  }

  /** One pass: blocked only by a plain file of the folder's name when there
      is something to write; otherwise only the folder's entry changes, and
      it changes only when there is something to write. */
  lemma WriteSampleShape(es: seq<Entry>, combined: seq<TaggedRow>, sample: string, folder: string)
    ensures WriteSample(es, combined, sample, folder).FolderBlocked? <==>
      HasRows(combined, sample) && Lookup(es, folder).Some? && !Lookup(es, folder).value.isDir
    ensures !HasRows(combined, sample) ==> WriteSample(es, combined, sample, folder) == Wrote(es)
    ensures WriteSample(es, combined, sample, folder).Wrote? ==>
      var after := WriteSample(es, combined, sample, folder).entries;
      && TouchesOnly(es, after, folder)
      && (WellFormed(es) ==> WellFormed(after))
      && (Lookup(after, folder).Some? <==> Lookup(es, folder).Some? || HasRows(combined, sample))
      && (Lookup(after, folder).Some? && Lookup(es, folder).Some? ==>
            Lookup(after, folder).value.isDir == Lookup(es, folder).value.isDir)
      && (HasRows(combined, sample) ==> Lookup(after, folder).value.isDir)
  {
    if HasRows(combined, sample) && MakeFolder(es, folder).Some? {
      var made := MakeFolder(es, folder).value;
      MakeFolderFacts(es, folder, "");
      PutFileLookup(made, folder, OutputFile(combined, sample), folder);
      if WellFormed(es) {
        PutFileWellFormed(made, folder, OutputFile(combined, sample));
      }
      var after := PutFile(made, folder, OutputFile(combined, sample));
      assert TouchesOnly(made, after, folder);
      TouchesOnlyTransitive(es, made, after, folder);
    }
  }

  /** One pass, seen from one file name of the folder. */
  lemma WriteSampleFile(es: seq<Entry>, combined: seq<TaggedRow>, sample: string, folder: string, n: string)
    requires WriteSample(es, combined, sample, folder).Wrote?
    ensures FileIn(WriteSample(es, combined, sample, folder).entries, folder, n) ==
      if HasRows(combined, sample) && n == OutputFileName(sample)
      then Some(OutputFile(combined, sample).content)
      else FileIn(es, folder, n)
  {
    if HasRows(combined, sample) {
      var made := MakeFolder(es, folder).value;
      MakeFolderFacts(es, folder, n);
      PutFileFileIn(made, folder, OutputFile(combined, sample), n);
    }
  }

  /** Writing touches only the output folder's entry, and keeps the listing
      well formed. */
  lemma {:induction false} WriteTouchesOnlyFolder(es: seq<Entry>, combined: seq<TaggedRow>, samples: seq<string>, folder: string)
    requires WriteSamples(es, combined, samples, folder).Wrote?
    ensures TouchesOnly(es, WriteSamples(es, combined, samples, folder).entries, folder)
    ensures WellFormed(es) ==> WellFormed(WriteSamples(es, combined, samples, folder).entries)
    decreases |samples|
  {
    if samples != [] {
      var w := WriteSample(es, combined, samples[0], folder);
      WriteSampleShape(es, combined, samples[0], folder);
      WriteTouchesOnlyFolder(w.entries, combined, samples[1..], folder);
      TouchesOnlyTransitive(es, w.entries, WriteSamples(es, combined, samples, folder).entries, folder);
    }
  }

  /** `mkdir` fails only on a plain file that holds the folder's name, and
      only when there is something to write. */
  lemma {:induction false} WriteBlockedMeansPlainFile(es: seq<Entry>, combined: seq<TaggedRow>, samples: seq<string>, folder: string)
    requires WriteSamples(es, combined, samples, folder).FolderBlocked?
    ensures Lookup(es, folder).Some? && !Lookup(es, folder).value.isDir
    ensures exists s :: s in samples && HasRows(combined, s)
    decreases |samples|
  {
    var w := WriteSample(es, combined, samples[0], folder);
    WriteSampleShape(es, combined, samples[0], folder);
    if w.Wrote? {
      WriteBlockedMeansPlainFile(w.entries, combined, samples[1..], folder);
      var s :| s in samples[1..] && HasRows(combined, s);
      assert s in samples;
    }
  }

  /** The folder exists afterwards exactly when it existed before or some
      sample name had rows to write: nothing to write, no folder. */
  lemma {:induction false} FolderMadeOnlyWhenNeeded(es: seq<Entry>, combined: seq<TaggedRow>, samples: seq<string>, folder: string)
    requires WriteSamples(es, combined, samples, folder).Wrote?
    ensures Lookup(WriteSamples(es, combined, samples, folder).entries, folder).Some? <==>
      Lookup(es, folder).Some? || exists s :: s in samples && HasRows(combined, s)
    decreases |samples|
  {
    if samples != [] {
      var w := WriteSample(es, combined, samples[0], folder);
      WriteSampleShape(es, combined, samples[0], folder);
      FolderMadeOnlyWhenNeeded(w.entries, combined, samples[1..], folder);
      assert forall s :: s in samples <==> s == samples[0] || s in samples[1..];
    }
  }

  /** Every other file of the folder is left as it was: nothing is removed
      and nothing is rolled back. */
  lemma {:induction false} OtherFilesUntouched(es: seq<Entry>, combined: seq<TaggedRow>, samples: seq<string>, folder: string, n: string)
    requires WriteSamples(es, combined, samples, folder).Wrote?
    requires forall s :: s in samples && HasRows(combined, s) ==> n != OutputFileName(s)
    ensures FileIn(WriteSamples(es, combined, samples, folder).entries, folder, n) == FileIn(es, folder, n)
    decreases |samples|
  {
    if samples != [] {
      var w := WriteSample(es, combined, samples[0], folder);
      WriteSampleFile(es, combined, samples[0], folder, n);
      OtherFilesUntouched(w.entries, combined, samples[1..], folder, n);
    }
  }

  /** After a successful run every sample name with rows has its file, and
      it holds exactly that name's subset. */
  lemma {:induction false} WrittenFilesHoldSubsets(es: seq<Entry>, combined: seq<TaggedRow>, samples: seq<string>, folder: string, s: string)
    requires WriteSamples(es, combined, samples, folder).Wrote?
    requires s in samples && HasRows(combined, s)
    ensures FileIn(WriteSamples(es, combined, samples, folder).entries, folder, OutputFileName(s)) ==
      Some(Parsed(SerializeAll(Partition(combined, s))))
    decreases |samples|
  {
    var w := WriteSample(es, combined, samples[0], folder);
    var rest := samples[1..];
    if s in rest {
      WrittenFilesHoldSubsets(w.entries, combined, rest, folder, s);
    } else {
      assert s == samples[0];
      WriteSampleFile(es, combined, s, folder, OutputFileName(s));
      forall s' | s' in rest && HasRows(combined, s') ensures OutputFileName(s) != OutputFileName(s') {
        if OutputFileName(s) == OutputFileName(s') { OutputFileNameInjective(s, s'); }
      }
      OtherFilesUntouched(w.entries, combined, rest, folder, OutputFileName(s));
    }
  }

  /** Under an output-named folder, every scan of the directory sees the
      same thing before and after: the sample names, the visited CSV files
      and their count. */
  lemma {:induction false} TouchingOutputFolderKeepsScans(a: seq<Entry>, b: seq<Entry>, name: string)
    requires TouchesOnly(a, b, name) && IsOutputName(name)
    ensures InputFolders(a) == InputFolders(b)
    ensures forall e :: NameCandidate(e) ==> (e in a <==> e in b)
  {
    InputFoldersOfTouched(a, b, name);
    forall e | NameCandidate(e) ensures e in a <==> e in b {
      if e in b {
        var i :| 0 <= i < |b| && b[i] == e;
        assert i < |a| && a[i] == e;
      }
      if e in a {
        var i :| 0 <= i < |a| && a[i] == e;
        assert b[i] == e;
      }
    }
  }

  lemma {:induction false} InputFoldersOfTouched(a: seq<Entry>, b: seq<Entry>, name: string)
    requires TouchesOnly(a, b, name) && IsOutputName(name)
    ensures InputFolders(a) == InputFolders(b)
  {
    if a == [] {
      NoInputFolders(b, name);
    } else {
      assert TouchesOnly(a[1..], b[1..], name) by {
        assert forall i :: 0 <= i < |a[1..]| ==> a[1..][i] == a[i + 1] && b[1..][i] == b[i + 1];
        assert forall i :: |a[1..]| <= i < |b[1..]| ==> b[1..][i] == b[i + 1];
      }
      InputFoldersOfTouched(a[1..], b[1..], name);
      assert IsInputFolder(a[0]) <==> IsInputFolder(b[0]);
      assert IsInputFolder(a[0]) ==> a[0] == b[0];
    }
  }

  lemma {:induction false} NoInputFolders(b: seq<Entry>, name: string)
    requires IsOutputName(name) && forall i :: 0 <= i < |b| ==> b[i].name == name
    ensures InputFolders(b) == []
  {
    if b != [] {
      NoInputFolders(b[1..], name);
    }
  }

  /** Writing the results changes none of the scans a later run makes. */
  lemma WriteKeepsScans(es: seq<Entry>, combined: seq<TaggedRow>, samples: seq<string>, now: Timestamp)
    requires ValidTimestamp(now) && WriteCombined(es, combined, samples, now).Wrote?
    ensures DetectSampleNames(WriteCombined(es, combined, samples, now).entries) == DetectSampleNames(es)
    ensures CandidateFiles(WriteCombined(es, combined, samples, now).entries) == CandidateFiles(es)
    ensures CountCSVFiles(WriteCombined(es, combined, samples, now).entries) == CountCSVFiles(es)
  {
    var after := WriteCombined(es, combined, samples, now).entries;
    if combined != [] {
      FolderNameRoundTrip(now);
      WriteTouchesOnlyFolder(es, combined, samples, FolderName(now));
      TouchingOutputFolderKeepsScans(es, after, FolderName(now));
      DetectDependsOnCandidates(es, after);
      CountOfInputFolders(es, after);
    }
  }

}
