/** The summary at the top of `plotResults`:
    `df.groupby('SampleGroup').agg(Positive=('Positive','sum'), Total=('Positive','size'))`.
    `groupby` sorts its keys by default, so the summary has one row per
    distinct `SampleGroup`, in ascending string order. It is built here by
    inserting the rows one at a time into a sorted list of counters. */
module Summary {
  import opened Optional
  import opened Strings
  import opened Ingestion

  datatype SummaryRow = SummaryRow(group: string, positive: nat, total: nat)

  /** Rows of the table in group `g`. */
  function Count(rows: seq<TaggedRow>, g: string): nat
  {
    if rows == [] then 0 else (if rows[0].sampleGroup == g then 1 else 0) + Count(rows[1..], g)
  }

  /** Rows of the table in group `g` with `Positive` set. */
  function CountPositive(rows: seq<TaggedRow>, g: string): nat
  {
    if rows == [] then 0
    else (if rows[0].sampleGroup == g && rows[0].positive then 1 else 0) + CountPositive(rows[1..], g)
  }

  /** The groups present in the table. */
  function Groups(rows: seq<TaggedRow>): set<string>
  {
    set r | r in rows :: r.sampleGroup
  }

  ghost predicate Sorted(ss: seq<SummaryRow>)
  {
    forall i, j :: 0 <= i < j < |ss| ==> Less(ss[i].group, ss[j].group)
  }

  /** The summary row of group `g`, if there is one. */
  function Find(ss: seq<SummaryRow>, g: string): (r: Option<SummaryRow>)
    ensures r.Some? ==> r.value in ss && r.value.group == g
    ensures r.None? ==> forall x :: x in ss ==> x.group != g
  {
    if ss == [] then None else if ss[0].group == g then Some(ss[0]) else Find(ss[1..], g)
  }

  function Bit(b: bool): nat
  {
    if b then 1 else 0
  }

  /** Counting one more row into a group's counter, new or existing. */
  function Bump(prev: Option<SummaryRow>, r: TaggedRow): SummaryRow
  {
    match prev
    case None => SummaryRow(r.sampleGroup, Bit(r.positive), 1)
    case Some(x) => SummaryRow(x.group, x.positive + Bit(r.positive), x.total + 1)
  }

  /** Counts row `r` into a sorted list of counters. */
  function Insert(ss: seq<SummaryRow>, r: TaggedRow): (res: seq<SummaryRow>)
    ensures forall x :: x in res ==> x.group == r.sampleGroup || exists y :: y in ss && y.group == x.group
  {
    if ss == [] then [Bump(None, r)]
    else if ss[0].group == r.sampleGroup then [Bump(Some(ss[0]), r)] + ss[1..]
    else if Less(r.sampleGroup, ss[0].group) then [Bump(None, r)] + ss
    else [ss[0]] + Insert(ss[1..], r)
  }

  /** The summary of a table. */
  function Summarize(rows: seq<TaggedRow>): seq<SummaryRow>
  {
    if rows == [] then [] else Insert(Summarize(rows[1..]), rows[0])
  }

  function TotalOf(ss: seq<SummaryRow>): nat
  {
    if ss == [] then 0 else ss[0].total + TotalOf(ss[1..])
  }

  lemma {:induction false} SortedTail(ss: seq<SummaryRow>)
    requires Sorted(ss) && ss != []
    ensures Sorted(ss[1..])
    ensures forall x :: x in ss[1..] ==> Less(ss[0].group, x.group)
  {
    forall x | x in ss[1..] ensures Less(ss[0].group, x.group) {
      var k :| 0 <= k < |ss[1..]| && ss[1..][k] == x;
      assert ss[k + 1] == x;
    }
  }

  lemma {:induction false} SortedCons(x: SummaryRow, ss: seq<SummaryRow>)
    requires Sorted(ss) && forall y :: y in ss ==> Less(x.group, y.group)
    ensures Sorted([x] + ss)
  {
    var r := [x] + ss;
    forall i, j | 0 <= i < j < |r| ensures Less(r[i].group, r[j].group) {
      assert r[j] == ss[j - 1];
      if i > 0 { assert r[i] == ss[i - 1]; }
    }
  }

  /** Insertion keeps the counters sorted by group. */
  lemma {:induction false} InsertSorted(ss: seq<SummaryRow>, r: TaggedRow)
    requires Sorted(ss)
    ensures Sorted(Insert(ss, r))
  {
    if ss != [] {
      SortedTail(ss);
      var g := r.sampleGroup;
      if ss[0].group == g {
        SortedCons(Bump(Some(ss[0]), r), ss[1..]);
      } else if Less(g, ss[0].group) {
        forall y | y in ss ensures Less(g, y.group) {
          if y != ss[0] {
            assert y in ss[1..];
            LessTransitive(g, ss[0].group, y.group);
          }
        }
        SortedCons(Bump(None, r), ss);
      } else {
        InsertSorted(ss[1..], r);
        LessTotal(g, ss[0].group);
        SortedCons(ss[0], Insert(ss[1..], r));
      }
    }
  }

  /** Insertion counts the row into its own group's counter and leaves every
      other counter alone. */
  lemma {:induction false} InsertFind(ss: seq<SummaryRow>, r: TaggedRow, k: string)
    requires Sorted(ss)
    ensures Find(Insert(ss, r), k) == if k == r.sampleGroup then Some(Bump(Find(ss, k), r)) else Find(ss, k)
  {
    if ss != [] {
      SortedTail(ss);
      var g := r.sampleGroup;
      if ss[0].group == g {
      } else if Less(g, ss[0].group) {
        if k == g {
          assert Find(ss, k).None? by {
            forall y | y in ss ensures y.group != g {
              if y != ss[0] {
                assert y in ss[1..];
                LessTransitive(g, ss[0].group, y.group);
                LessIrreflexive(g);
              }
            }
          }
        }
      } else {
        InsertFind(ss[1..], r, k);
      }
    }
  }

  lemma {:induction false} InsertTotal(ss: seq<SummaryRow>, r: TaggedRow)
    ensures TotalOf(Insert(ss, r)) == TotalOf(ss) + 1
  {
    if ss != [] && ss[0].group != r.sampleGroup && !Less(r.sampleGroup, ss[0].group) {
      InsertTotal(ss[1..], r);
    }
  }

  lemma {:induction false} SummarizeSorted(rows: seq<TaggedRow>)
    ensures Sorted(Summarize(rows))
  {
    if rows != [] {
      SummarizeSorted(rows[1..]);
      InsertSorted(Summarize(rows[1..]), rows[0]);
    }
  }

  lemma GroupsCons(rows: seq<TaggedRow>)
    requires rows != []
    ensures Groups(rows) == {rows[0].sampleGroup} + Groups(rows[1..])
  {
    assert forall x :: x in rows <==> x == rows[0] || x in rows[1..];
  }

  /** The summary holds, for exactly the groups of the table, the number of
      rows and of positive rows of that group. */
  lemma {:induction false} SummarizeCounts(rows: seq<TaggedRow>, g: string)
    ensures Find(Summarize(rows), g) == Expected(rows, g)
  {
    if rows != [] {
      var prev := Summarize(rows[1..]);
      SummarizeCounts(rows[1..], g);
      SummarizeSorted(rows[1..]);
      InsertFind(prev, rows[0], g);
      ExpectedCons(rows, g);
    }
  }

  /** What the summary should say about group `g`. */
  function Expected(rows: seq<TaggedRow>, g: string): Option<SummaryRow>
  {
    if g in Groups(rows) then Some(SummaryRow(g, CountPositive(rows, g), Count(rows, g))) else None
  }

  lemma ExpectedCons(rows: seq<TaggedRow>, g: string)
    requires rows != []
    ensures Expected(rows, g) ==
      if g == rows[0].sampleGroup then Some(Bump(Expected(rows[1..], g), rows[0])) else Expected(rows[1..], g)
  {
    GroupsCons(rows);
    if g !in Groups(rows[1..]) {
      CountOutsideGroups(rows[1..], g);
    }
  }

  lemma {:induction false} CountOutsideGroups(rows: seq<TaggedRow>, g: string)
    requires g !in Groups(rows)
    ensures Count(rows, g) == 0 && CountPositive(rows, g) == 0
  {
    if rows != [] {
      assert rows[0] in rows;
      assert Groups(rows[1..]) <= Groups(rows) by {
        assert forall x :: x in rows[1..] ==> x in rows;
      }
      CountOutsideGroups(rows[1..], g);
    }
  }

  /** The totals add up to the number of rows of the table. */
  lemma {:induction false} SummarizeTotal(rows: seq<TaggedRow>)
    ensures TotalOf(Summarize(rows)) == |rows|
  {
    if rows != [] {
      SummarizeTotal(rows[1..]);
      InsertTotal(Summarize(rows[1..]), rows[0]);
    }
  }

  lemma {:induction false} PositiveAtMostCount(rows: seq<TaggedRow>, g: string)
    ensures CountPositive(rows, g) <= Count(rows, g)
    ensures g in Groups(rows) ==> Count(rows, g) > 0
  {
    if rows != [] {
      PositiveAtMostCount(rows[1..], g);
      assert forall x :: x in rows <==> x == rows[0] || x in rows[1..];
    }
  }

  /** Row by row: one summary row per distinct group (no group twice, in
      ascending order), each with `0 < Total` and `Positive <= Total`. */
  lemma SummaryRowsAreSound(rows: seq<TaggedRow>)
    ensures forall i, j :: 0 <= i < j < |Summarize(rows)| ==>
      Less(Summarize(rows)[i].group, Summarize(rows)[j].group)
    ensures forall x :: x in Summarize(rows) ==>
      x.group in Groups(rows) && 0 < x.total && x.positive <= x.total &&
      x.total == Count(rows, x.group) && x.positive == CountPositive(rows, x.group)
    ensures forall g :: g in Groups(rows) ==> exists x :: x in Summarize(rows) && x.group == g
  {
    var ss := Summarize(rows);
    SummarizeSorted(rows);
    forall x | x in ss
      ensures x.group in Groups(rows) && 0 < x.total && x.positive <= x.total
      ensures x.total == Count(rows, x.group) && x.positive == CountPositive(rows, x.group)
    {
      SummarizeCounts(rows, x.group);
      FindIsUnique(ss, x);
      PositiveAtMostCount(rows, x.group);
    }
    forall g | g in Groups(rows) ensures exists x :: x in ss && x.group == g {
      SummarizeCounts(rows, g);
    }
  }

  /** In a sorted list Find returns the only row of its group. */
  lemma FindIsUnique(ss: seq<SummaryRow>, x: SummaryRow)
    requires Sorted(ss) && x in ss
    ensures Find(ss, x.group) == Some(x)
  {
    var y := Find(ss, x.group).value;
    if y != x {
      var i :| 0 <= i < |ss| && ss[i] == x;
      var j :| 0 <= j < |ss| && ss[j] == y;
      assert i != j;
      LessIrreflexive(x.group);
    }
  }
}
