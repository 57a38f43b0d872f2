/** The experiment directory as the program sees it: an ordered listing of
    entries (in the order `iterdir` yields them), each a sub-folder or a plain
    file, and the files of each sub-folder. Reading a file with
    `pd.read_csv` is abstracted to its outcome. */
module FileSystem {
  import opened Optional
  import opened Strings

  /** One measurement row: `numFoci` is its `NumFoci` column, `cols` holds
      every other column of the CSV by name. */
  datatype Row = Row(cols: map<string, string>, numFoci: int)

  /** What `pd.read_csv` does with a file: a table (possibly with a header
      and no rows), `EmptyDataError`, or any other exception. */
  datatype ReadOutcome = Parsed(rows: seq<Row>) | EmptyData | ReadError(cause: string)

  datatype File = File(name: string, content: ReadOutcome)

  /** A direct child of the experiment directory; `files` is meaningful only
      for a folder. */
  datatype Entry = Entry(name: string, isDir: bool, files: seq<File>)

  /** The reserved prefix of output folders. */
  const OutputPrefix := "CombinedResults"

  predicate IsOutputName(name: string)
  {
    StartsWith(name, OutputPrefix)
  }

  predicate IsHiddenName(name: string)
  {
    StartsWith(name, ".")
  }

  /** A folder `gatherCSVs` and `countCSVFiles` look into. */
  predicate IsInputFolder(e: Entry)
  {
    e.isDir && !IsOutputName(e.name)
  }

  /** A pre-existing output folder that `checkForOldCombinedResults` asks
      about. */
  predicate IsOldResults(e: Entry)
  {
    e.isDir && IsOutputName(e.name)
  }

  /** `folder.glob("*.csv")`: the files whose name ends in `.csv`, in listing
      order. */
  function Glob(files: seq<File>): (r: seq<File>)
    ensures |r| <= |files|
    ensures forall f :: f in r ==> f in files && EndsWith(f.name, ".csv")
  {
    if files == [] then []
    else (if EndsWith(files[0].name, ".csv") then [files[0]] else []) + Glob(files[1..])
  }

  /** The glob keeps exactly the `.csv` files, and no more files than
      there are. */
  lemma {:induction false} GlobMembers(files: seq<File>, f: File)
    ensures f in Glob(files) <==> f in files && EndsWith(f.name, ".csv")
    ensures |Glob(files)| <= |files|
  {
    if files != [] {
      GlobMembers(files[1..], f);
      assert forall g :: g in files <==> g == files[0] || g in files[1..];
    }
  }

  /** A directory listing never holds two entries of one name, nor a folder
      two files of one name. */
  ghost predicate WellFormed(es: seq<Entry>)
  {
    (forall i, j :: 0 <= i < j < |es| ==> es[i].name != es[j].name) &&
    (forall i :: 0 <= i < |es| ==> DistinctFileNames(es[i].files))
  }

  ghost predicate DistinctFileNames(fs: seq<File>)
  {
    forall i, j :: 0 <= i < j < |fs| ==> fs[i].name != fs[j].name
  }

  /** The entry called `name`, if the listing has one. */
  function Lookup(es: seq<Entry>, name: string): (r: Option<Entry>)
    ensures r.Some? ==> r.value in es && r.value.name == name
    ensures r.None? ==> forall e :: e in es ==> e.name != name
  {
    if es == [] then None
    else if es[0].name == name then Some(es[0])
    else Lookup(es[1..], name)
  }

  /** The content of the file called `name` in a folder, if it has one. */
  function FileLookup(fs: seq<File>, name: string): (r: Option<ReadOutcome>)
    ensures r.None? <==> forall f :: f in fs ==> f.name != name
    ensures r.Some? ==> File(name, r.value) in fs
  {
    if fs == [] then None
    else if fs[0].name == name then Some(fs[0].content)
    else FileLookup(fs[1..], name)
  }

  /** `shutil.rmtree`: the listing without the entry called `name`. */
  function RemoveEntry(es: seq<Entry>, name: string): (r: seq<Entry>)
    ensures forall e :: e in r <==> e in es && e.name != name
  {
    if es == [] then []
    else (if es[0].name == name then [] else [es[0]]) + RemoveEntry(es[1..], name)
  }

  lemma {:induction false} RemoveEntryAppend(a: seq<Entry>, b: seq<Entry>, name: string)
    ensures RemoveEntry(a + b, name) == RemoveEntry(a, name) + RemoveEntry(b, name)
  {
    if a == [] {
      assert a + b == b;
    } else {
      assert (a + b)[1..] == a[1..] + b;
      RemoveEntryAppend(a[1..], b, name);
    }
  }

  lemma {:induction false} RemoveAbsentEntry(es: seq<Entry>, name: string)
    requires forall e :: e in es ==> e.name != name
    ensures RemoveEntry(es, name) == es
  {
    if es != [] {
      RemoveAbsentEntry(es[1..], name);
    }
  }

  /** Removing a folder by name removes exactly that entry when no other
      entry shares its name. */
  lemma RemoveOnlyEntry(a: seq<Entry>, x: Entry, b: seq<Entry>)
    requires forall e :: e in a ==> e.name != x.name
    requires forall e :: e in b ==> e.name != x.name
    ensures RemoveEntry(a + [x] + b, x.name) == a + b
  {
    var n := x.name;
    RemoveEntryAppend(a + [x], b, n);
    RemoveEntryAppend(a, [x], n);
    RemoveAbsentEntry(a, n);
    RemoveAbsentEntry(b, n);
    assert RemoveEntry([x], n) == [] by {
      assert [x][1..] == [];
    }
    assert RemoveEntry(a + [x], n) == a;
  }
}
