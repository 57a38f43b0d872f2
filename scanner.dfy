/** Scanning the experiment directory: `detectSampleNames` (group keys of
    entry names) and `countCSVFiles` (how many CSV files ingestion will
    visit), plus the flat list of those files in visiting order. */
module Scanner {
  import opened Strings
  import opened Naming
  import opened FileSystem

  /** An entry whose name `detectSampleNames` looks at. The source tests
      only the name, so plain files at the top level count as well as
      folders. */
  predicate NameCandidate(e: Entry)
  {
    !IsHiddenName(e.name) && !IsOutputName(e.name)
  }

  /** `detectSampleNames`: the set of keys of the candidate entries that
      have one. */
  function DetectSampleNames(es: seq<Entry>): (names: set<string>)
  {
    set e | e in es && NameCandidate(e) && GroupKey(e.name).Some? :: GroupKey(e.name).value
  }

  /** Every detected name comes from a visible, non-output entry whose name
      starts with that name followed by an underscore, and for a name on
      one line that underscore is its last one. */
  lemma DetectedNamesAreSound(es: seq<Entry>, k: string)
    requires k in DetectSampleNames(es)
    ensures exists e ::
      && e in es && NameCandidate(e) && |k| < |e.name| && e.name[..|k| + 1] == k + "_"
      && '\n' !in k && ('\n' !in e.name ==> '_' !in e.name[|k| + 1..])
  {
    var e :| e in es && NameCandidate(e) && GroupKey(e.name).Some? && GroupKey(e.name).value == k;
    assert e.name[..|k| + 1] == k + "_";
    if '\n' !in e.name {
      KeyBeforeLastUnderscore(e.name);
    }
  }

  /** Every visible, non-output, one-line name with an underscore yields
      the part before its last underscore. */
  lemma DetectedNamesAreComplete(es: seq<Entry>, e: Entry, k: string, rest: string)
    requires e in es && NameCandidate(e)
    requires e.name == k + "_" + rest && '\n' !in e.name && '_' !in rest
    ensures k in DetectSampleNames(es)
  {
    KeyBeforeLastUnderscore(e.name);
    assert '_' in e.name by { assert e.name[|k|] == '_'; }
    var key := GroupKey(e.name).value;
    assert e.name[..|key|] == key;
    assert |key| == |k| by {
      assert MatchEnd(e.name, |k|);
      assert |key| < |k| + 1 + |rest|;
      assert |key| >= |k|;
      assert e.name[|key|] == '_';
    }
    assert k == e.name[..|k|];
  }

  /** The detected names depend only on the candidate entries. */
  lemma DetectDependsOnCandidates(a: seq<Entry>, b: seq<Entry>)
    requires forall e :: NameCandidate(e) ==> (e in a <==> e in b)
    ensures DetectSampleNames(a) == DetectSampleNames(b)
  {
  }

  /** How many names in a folder end in `.csv`. */
  function CsvCount(fs: seq<File>): nat
  {
    if fs == [] then 0 else (if EndsWith(fs[0].name, ".csv") then 1 else 0) + CsvCount(fs[1..])
  }

  /** `countCSVFiles`: the number of CSV files in folders not named
      `CombinedResults...`; hidden folders are counted. */
  function CountCSVFiles(es: seq<Entry>): nat
  {
    if es == [] then 0
    else (if IsInputFolder(es[0]) then CsvCount(es[0].files) else 0) + CountCSVFiles(es[1..])
  }

  /** The CSV files of one entry that ingestion visits. */
  function FolderCsvs(e: Entry): seq<File>
  {
    if IsInputFolder(e) then Glob(e.files) else []
  }

  /** Every file `gatherCSVs` visits, in visiting order. */
  function CandidateFiles(es: seq<Entry>): seq<File>
  {
    if es == [] then [] else FolderCsvs(es[0]) + CandidateFiles(es[1..])
  }

  lemma {:induction false} GlobCount(fs: seq<File>)
    ensures |Glob(fs)| == CsvCount(fs)
  {
    if fs != [] {
      GlobCount(fs[1..]);
    }
  }

  /** The count that sizes the progress bar is exactly the number of files
      ingestion visits. */
  lemma {:induction false} CountIsCandidateFiles(es: seq<Entry>)
    ensures CountCSVFiles(es) == |CandidateFiles(es)|
  {
    if es != [] {
      CountIsCandidateFiles(es[1..]);
      if IsInputFolder(es[0]) {
        GlobCount(es[0].files);
      }
    }
  }

  lemma {:induction false} CandidateFilesAppend(a: seq<Entry>, b: seq<Entry>)
    ensures CandidateFiles(a + b) == CandidateFiles(a) + CandidateFiles(b)
  {
    if a == [] {
      assert a + b == b;
    } else {
      assert (a + b)[1..] == a[1..] + b;
      CandidateFilesAppend(a[1..], b);
    }
  }

  /** The visited files are exactly the `.csv` files of the input folders. */
  lemma {:induction false} CandidateFilesMembers(es: seq<Entry>, f: File)
    ensures f in CandidateFiles(es) <==>
      exists e :: e in es && IsInputFolder(e) && f in e.files && EndsWith(f.name, ".csv")
  {
    if es != [] {
      CandidateFilesMembers(es[1..], f);
      GlobMembers(es[0].files, f);
      assert forall e :: e in es <==> e == es[0] || e in es[1..];
    }
  }

  /** One more entry of the listing visited. */
  lemma CandidateFilesSnoc(es: seq<Entry>, i: nat)
    requires i < |es|
    ensures CandidateFiles(es[..i + 1]) == CandidateFiles(es[..i]) + FolderCsvs(es[i])
  {
    assert es[..i + 1] == es[..i] + [es[i]];
    CandidateFilesAppend(es[..i], [es[i]]);
    assert CandidateFiles([es[i]]) == FolderCsvs(es[i]) by {
      assert CandidateFiles([es[i]][1..]) == [];
    }
  }

  /** One more entry visited, by kind of entry. */
  lemma CandidateFilesStep(es: seq<Entry>, i: nat)
    requires i < |es|
    ensures IsInputFolder(es[i]) ==> CandidateFiles(es[..i + 1]) == CandidateFiles(es[..i]) + Glob(es[i].files)
    ensures !IsInputFolder(es[i]) ==> CandidateFiles(es[..i + 1]) == CandidateFiles(es[..i])
  {
    CandidateFilesSnoc(es, i);
    assert CandidateFiles(es[..i]) + [] == CandidateFiles(es[..i]);
  }

  /** The list of input folders, in order. */
  function InputFolders(es: seq<Entry>): (r: seq<Entry>)
    ensures forall e :: e in r <==> e in es && IsInputFolder(e)
  {
    if es == [] then [] else (if IsInputFolder(es[0]) then [es[0]] else []) + InputFolders(es[1..])
  }

  /** The visited files depend only on the input folders, in order. */
  lemma {:induction false} CandidateFilesOfInputFolders(es: seq<Entry>)
    ensures CandidateFiles(es) == CandidateFiles(InputFolders(es))
  {
    if es != [] {
      CandidateFilesOfInputFolders(es[1..]);
      if IsInputFolder(es[0]) {
        assert InputFolders(es) == [es[0]] + InputFolders(es[1..]);
        assert ([es[0]] + InputFolders(es[1..]))[1..] == InputFolders(es[1..]);
      } else {
        assert InputFolders(es) == InputFolders(es[1..]);
      }
    }
  }

  /** The same holds of the count. */
  lemma CountOfInputFolders(a: seq<Entry>, b: seq<Entry>)
    requires InputFolders(a) == InputFolders(b)
    ensures CountCSVFiles(a) == CountCSVFiles(b)
    ensures CandidateFiles(a) == CandidateFiles(b)
  {
    CandidateFilesOfInputFolders(a);
    CandidateFilesOfInputFolders(b);
    CountIsCandidateFiles(a);
    CountIsCandidateFiles(b);
  }

  /** The asymmetry between the two scans: a hidden folder adds its CSV
      files to the count and to ingestion but never adds a sample name. */
  lemma HiddenFolderIsCountedButNotNamed(es: seq<Entry>, e: Entry)
    requires e.isDir && IsHiddenName(e.name)
    ensures CountCSVFiles(es + [e]) == CountCSVFiles(es) + CsvCount(e.files)
    ensures CandidateFiles(es + [e]) == CandidateFiles(es) + Glob(e.files)
    ensures DetectSampleNames(es + [e]) == DetectSampleNames(es)
  {
    assert !IsOutputName(e.name) by { assert e.name[0] == '.'; }
    CandidateFilesAppend(es, [e]);
    assert CandidateFiles([e]) == Glob(e.files) by {
      assert CandidateFiles([e][1..]) == [];
    }
    CountIsCandidateFiles(es + [e]);
    CountIsCandidateFiles(es);
    GlobCount(e.files);
    DetectDependsOnCandidates(es + [e], es);
  }

  /** The other side of it: a plain top-level file with a key adds a sample
      name but nothing to ingest. */
  lemma PlainFileIsNamedButNotCounted(es: seq<Entry>, e: Entry)
    requires !e.isDir && NameCandidate(e) && GroupKey(e.name).Some?
    ensures DetectSampleNames(es + [e]) == DetectSampleNames(es) + {GroupKey(e.name).value}
    ensures CandidateFiles(es + [e]) == CandidateFiles(es)
    ensures CountCSVFiles(es + [e]) == CountCSVFiles(es)
  {
    CandidateFilesAppend(es, [e]);
    assert CandidateFiles([e]) == [] by {
      assert CandidateFiles([e][1..]) == [];
    }
    CountIsCandidateFiles(es + [e]);
    CountIsCandidateFiles(es);
  }
}
