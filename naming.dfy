/** The sample-group key: `re.compile(r'(.*)_').match(name).group(1)`.

    `re.match` anchors at the start of the name, `.` matches every character
    except a newline, and `.*` is greedy, so the match ends at the LAST
    underscore that is still on the first line of the name. The key is
    therefore the longest prefix `p` such that `p + "_"` starts the name and
    `p` holds no newline; there is no key when the first line has no
    underscore. */
module Naming {
  import opened Optional
  import opened Strings

  /** `j` is a place where the regex `(.*)_` can stop: an underscore with no
      newline before it. */
  predicate MatchEnd(name: string, j: int)
  {
    0 <= j < |name| && name[j] == '_' && forall i :: 0 <= i < j ==> name[i] != '\n'
  }

  /** The position of the underscore the greedy match ends on. */
  function KeyEnd(name: string): (r: Option<nat>)
    ensures r.Some? <==> exists j :: MatchEnd(name, j)
    ensures r.Some? ==> MatchEnd(name, r.value) && forall j :: MatchEnd(name, j) ==> j <= r.value
  {
    if name == [] || name[0] == '\n' then
      assert forall j :: !MatchEnd(name, j) by {
        forall j | 0 <= j < |name| ensures !MatchEnd(name, j) {
          assert name[0] == '\n';
        }
      }
      None
    else
      var tail := name[1..];
      assert forall j :: 0 <= j < |tail| ==> (MatchEnd(name, j + 1) <==> MatchEnd(tail, j)) by {
        forall j | 0 <= j < |tail| ensures MatchEnd(name, j + 1) <==> MatchEnd(tail, j) {
          if MatchEnd(tail, j) {
            forall i | 0 <= i < j + 1 ensures name[i] != '\n' {
              if i > 0 { assert name[i] == tail[i - 1]; }
            }
          }
          if MatchEnd(name, j + 1) {
            forall i | 0 <= i < j ensures tail[i] != '\n' {
              assert tail[i] == name[i + 1];
            }
          }
        }
      }
      match KeyEnd(tail)
      case Some(j) =>
        assert MatchEnd(name, j + 1);
        assert forall k :: MatchEnd(name, k) ==> k <= j + 1 by {
          forall k | MatchEnd(name, k) && k > 0 ensures k <= j + 1 {
            assert MatchEnd(tail, k - 1);
          }
        }
        Some(j + 1)
      case None =>
        assert forall k :: MatchEnd(name, k) ==> k == 0 by {
          forall k | 0 < k < |name| ensures !MatchEnd(name, k) {
            assert !MatchEnd(tail, k - 1);
          }
        }
        if name[0] == '_' then assert MatchEnd(name, 0); Some(0) else assert !MatchEnd(name, 0); None
  }

  /** The group captured by `(.*)_`, or `None` where `match` returns `None`. */
  function GroupKey(name: string): (r: Option<string>)
    ensures r.Some? <==> exists j :: MatchEnd(name, j)
    ensures r.Some? ==> |r.value| < |name| && name[..|r.value|] == r.value && name[|r.value|] == '_'
    ensures r.Some? ==> '\n' !in r.value
    ensures r.Some? ==> forall j :: MatchEnd(name, j) ==> j <= |r.value|
  {
    match KeyEnd(name)
    case Some(j) => Some(name[..j])
    case None => None
  }

  /** For a name on one line the key is everything before the last
      underscore: the name is `key + "_" + rest` with no underscore in
      `rest`; and there is a key exactly when the name has an underscore. */
  lemma KeyBeforeLastUnderscore(name: string)
    requires '\n' !in name
    ensures GroupKey(name).Some? <==> '_' in name
    ensures GroupKey(name).Some? ==>
      var key := GroupKey(name).value;
      name == key + "_" + name[|key| + 1..] && '_' !in name[|key| + 1..]
  {
    if '_' in name {
      var j :| 0 <= j < |name| && name[j] == '_';
      assert MatchEnd(name, j);
    }
    if GroupKey(name).Some? {
      var key := GroupKey(name).value;
      var rest := name[|key| + 1..];
      assert name == name[..|key|] + [name[|key|]] + rest;
      forall i | 0 <= i < |rest| ensures rest[i] != '_' {
        assert name[|key| + 1 + i] == rest[i];
        assert rest[i] == '_' ==> MatchEnd(name, |key| + 1 + i);
      }
    }
  }

  /** The key may be empty: a name that starts with an underscore always
      matches, and its key is empty when that is its only underscore on
      one line. */
  lemma LeadingUnderscoreGivesEmptyKey(name: string)
    requires |name| > 0 && name[0] == '_'
    ensures GroupKey(name).Some?
    ensures forall k :: 0 < k < |name| && name[k] == '\n' ==> k > |GroupKey(name).value|
    ensures '\n' !in name && '_' !in name[1..] ==> GroupKey(name) == Some("")
  {
    assert MatchEnd(name, 0);
    var key := GroupKey(name).value;
    assert 0 < |key| ==> name[|key|] == name[1..][|key| - 1];
  }

  /** `len('_results.csv')`, the number of characters `gatherCSVs` drops from
      a file name before it looks for the key. */
  const ResultsSuffixLength: nat := |"_results.csv"|

  /** `file.name[:-12]`: Python's slice drops the last twelve characters and
      yields "" for a shorter name; nothing checks that the dropped part
      really is `_results.csv`. */
  function StripResultsSuffix(fileName: string): (r: string)
    ensures |fileName| >= ResultsSuffixLength ==> |r| == |fileName| - ResultsSuffixLength && fileName == r + fileName[|r|..]
    ensures |fileName| < ResultsSuffixLength ==> r == ""
  {
    if |fileName| >= ResultsSuffixLength then fileName[..|fileName| - ResultsSuffixLength] else ""
  }

  /** The `SampleGroup` that `gatherCSVs` gives the rows of a file. */
  function FileGroupKey(fileName: string): Option<string>
  {
    GroupKey(StripResultsSuffix(fileName))
  }

  /** A file named `<stem>_results.csv` gets the key of `<stem>`. */
  lemma FileKeyOfResultsName(stem: string)
    ensures FileGroupKey(stem + "_results.csv") == GroupKey(stem)
  {
    var name := stem + "_results.csv";
    assert name[..|name| - ResultsSuffixLength] == stem;
  }

  /** The file key is a prefix of the file name, so the file's own name
      contains its own key. */
  lemma FileKeyIsPrefix(fileName: string)
    requires FileGroupKey(fileName).Some?
    ensures StartsWith(fileName, FileGroupKey(fileName).value)
    ensures Contains(fileName, FileGroupKey(fileName).value)
  {
    var stem := StripResultsSuffix(fileName);
    var key := FileGroupKey(fileName).value;
    assert stem[..|key|] == key;
    assert fileName[..|stem|] == stem;
    assert fileName[..|key|] == stem[..|key|];
    PrefixIsContained(fileName, key);
  }

  /** A file name of twelve characters or fewer has no key at all, whatever
      it holds: the slice left for the regex is empty. */
  lemma ShortFileNameHasNoKey(fileName: string)
    requires |fileName| <= ResultsSuffixLength
    ensures FileGroupKey(fileName).None?
  {
    var stem := StripResultsSuffix(fileName);
    assert stem == [];
  }
}
