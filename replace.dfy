/** The replacement protocol (`checkForOldCombinedResults`): each folder
    whose name starts with `CombinedResults` is offered for replacement.
    Yes, then yes again, deletes it; yes then no, or cancel, aborts the run
    (`sys.exit`); no keeps it. The listing is taken once, before the first
    question. */
module Replace {
  import opened FileSystem
  import opened Scanner

  /** The answer to `askyesnocancel`: `True`, `False` or `None`. */
  datatype Choice = Yes | No | Cancel

  /** What the sweep leaves behind: the listing, and whether the run was
      aborted. */
  datatype Swept = Swept(entries: seq<Entry>, aborted: bool)

  /** The answers to the two dialogs for a folder end the run. */
  predicate Aborts(e: Entry, choice: string -> Choice, confirm: string -> bool)
  {
    IsOldResults(e) && (choice(e.name) == Cancel || (choice(e.name) == Yes && !confirm(e.name)))
  }

  /** The answers to the two dialogs for a folder delete it. */
  predicate Deletes(e: Entry, choice: string -> Choice, confirm: string -> bool)
  {
    IsOldResults(e) && choice(e.name) == Yes && confirm(e.name)
  }

  /** The loop over the listing; `choice` and `confirm` are the user's
      answers to the first and the second dialog for each folder name. */
  function Sweep(es: seq<Entry>, choice: string -> Choice, confirm: string -> bool): Swept
  {
    if es == [] then Swept([], false)
    else if Aborts(es[0], choice, confirm) then Swept(es, true)
    else
      var rest := Sweep(es[1..], choice, confirm);
      if Deletes(es[0], choice, confirm) then rest
      else Swept([es[0]] + rest.entries, rest.aborted)
  }

  /** The run aborts exactly when the answers for some old output folder
      abort it. */
  lemma {:induction false} AbortsIffSomeFolderAborts(es: seq<Entry>, choice: string -> Choice, confirm: string -> bool)
    ensures Sweep(es, choice, confirm).aborted <==> exists i :: 0 <= i < |es| && Aborts(es[i], choice, confirm)
  {
    if es != [] {
      AbortsIffSomeFolderAborts(es[1..], choice, confirm);
      assert forall i :: 1 <= i < |es| ==> es[i] == es[1..][i - 1];
      if exists i :: 1 <= i < |es| && Aborts(es[i], choice, confirm) {
        var i :| 1 <= i < |es| && Aborts(es[i], choice, confirm);
        assert Aborts(es[1..][i - 1], choice, confirm);
      }
    }
  }

  /** Nothing after the first aborting folder is processed: the listing is
      the swept part before it followed by everything from it on. */
  lemma {:induction false} AbortStopsTheSweep(es: seq<Entry>, choice: string -> Choice, confirm: string -> bool, k: nat)
    requires k < |es| && Aborts(es[k], choice, confirm)
    requires forall i :: 0 <= i < k ==> !Aborts(es[i], choice, confirm)
    ensures Sweep(es, choice, confirm) == Swept(Sweep(es[..k], choice, confirm).entries + es[k..], true)
  {
    if k == 0 {
      assert es[..0] == [];
      assert es[0..] == es;
    } else {
      assert forall i :: 0 <= i < k - 1 ==> es[1..][i] == es[i + 1];
      AbortStopsTheSweep(es[1..], choice, confirm, k - 1);
      assert es[..k][1..] == es[1..][..k - 1];
      assert es[1..][k - 1..] == es[k..];
      SweepWithoutAbort(es[..k][1..], choice, confirm);
    }
  }

  lemma {:induction false} SweepWithoutAbort(es: seq<Entry>, choice: string -> Choice, confirm: string -> bool)
    requires forall i :: 0 <= i < |es| ==> !Aborts(es[i], choice, confirm)
    ensures !Sweep(es, choice, confirm).aborted
  {
    AbortsIffSomeFolderAborts(es, choice, confirm);
  }

  /** The sweep only ever removes entries: what is left is an order-keeping
      part of the listing. It removes exactly the old output folders the
      user agreed twice to delete (before an abort), never any other entry,
      and without an abort every old output folder that is left was kept by
      a `No`. */
  lemma {:induction false} SweepRemovesOnlyConfirmedFolders(es: seq<Entry>, choice: string -> Choice, confirm: string -> bool)
    ensures forall e :: e in Sweep(es, choice, confirm).entries ==> e in es
    ensures forall e :: e in es && !IsOldResults(e) ==> e in Sweep(es, choice, confirm).entries
    ensures forall e :: e in es && !Deletes(e, choice, confirm) && !Sweep(es, choice, confirm).aborted ==>
      e in Sweep(es, choice, confirm).entries
    ensures forall e :: e in es && e !in Sweep(es, choice, confirm).entries ==> Deletes(e, choice, confirm)
    ensures !Sweep(es, choice, confirm).aborted ==>
      forall e :: e in Sweep(es, choice, confirm).entries && IsOldResults(e) ==> choice(e.name) == No
  {
    if es != [] && !Aborts(es[0], choice, confirm) {
      SweepRemovesOnlyConfirmedFolders(es[1..], choice, confirm);
      assert forall e :: e in es <==> e == es[0] || e in es[1..];
    }
  }

  /** The sweep keeps the input folders in order, so the scans that follow
      it in `main` see what they would have seen before it. */
  lemma {:induction false} SweepKeepsInputFolders(es: seq<Entry>, choice: string -> Choice, confirm: string -> bool)
    ensures InputFolders(Sweep(es, choice, confirm).entries) == InputFolders(es)
  {
    if es != [] && !Aborts(es[0], choice, confirm) {
      SweepKeepsInputFolders(es[1..], choice, confirm);
      var rest := Sweep(es[1..], choice, confirm).entries;
      var head := if IsInputFolder(es[0]) then [es[0]] else [];
      assert InputFolders(es) == head + InputFolders(es[1..]);
      if Deletes(es[0], choice, confirm) {
        assert head == [];
      } else {
        var r := [es[0]] + rest;
        assert r[0] == es[0] && r[1..] == rest;
        assert InputFolders(r) == head + InputFolders(rest);
      }
    }
  }

  lemma SweepKeepsScans(es: seq<Entry>, choice: string -> Choice, confirm: string -> bool)
    ensures DetectSampleNames(Sweep(es, choice, confirm).entries) == DetectSampleNames(es)
    ensures CandidateFiles(Sweep(es, choice, confirm).entries) == CandidateFiles(es)
    ensures CountCSVFiles(Sweep(es, choice, confirm).entries) == CountCSVFiles(es)
  {
    var after := Sweep(es, choice, confirm).entries;
    SweepRemovesOnlyConfirmedFolders(es, choice, confirm);
    forall e | NameCandidate(e) ensures e in es <==> e in after {
      assert !IsOldResults(e);
    }
    DetectDependsOnCandidates(es, after);
    SweepKeepsInputFolders(es, choice, confirm);
    CountOfInputFolders(es, after);
  }

  /** A well-formed listing stays well formed. */
  lemma {:induction false} SweepKeepsWellFormed(es: seq<Entry>, choice: string -> Choice, confirm: string -> bool)
    requires WellFormed(es)
    ensures WellFormed(Sweep(es, choice, confirm).entries)
  {
    if es != [] && !Aborts(es[0], choice, confirm) {
      assert WellFormed(es[1..]) by {
        assert forall i :: 0 <= i < |es| - 1 ==> es[1..][i] == es[i + 1];
      }
      SweepKeepsWellFormed(es[1..], choice, confirm);
      SweepRemovesOnlyConfirmedFolders(es[1..], choice, confirm);
      var rest := Sweep(es[1..], choice, confirm).entries;
      if !Deletes(es[0], choice, confirm) {
        var r := [es[0]] + rest;
        forall i, j | 0 <= i < j < |r| ensures r[i].name != r[j].name {
          if i == 0 {
            assert r[j] in rest;
            var k :| 0 <= k < |es[1..]| && es[1..][k] == r[j];
            assert es[k + 1] == r[j];
          } else {
            assert r[i] == rest[i - 1] && r[j] == rest[j - 1];
          }
        }
        forall i | 0 <= i < |r| ensures DistinctFileNames(r[i].files) {
          if i > 0 { assert r[i] == rest[i - 1]; }
        }
      }
    }
  }
}
