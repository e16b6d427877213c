/**
 * Duplicate GTI detection, shared by the five validators that report
 * clusters (Flask4.py, Flask.py, Flask3.py, Flask2.py, app1.py).
 *
 * The source marks every row whose GTI occurs more than once
 * (`df.duplicated("GTI", keep=False)`), takes the distinct marked values in
 * order of first appearance (`.unique()`), and for each value collects the
 * rows whose GTI equals it (`df.index[df["GTI"] == gti]`). Values here are
 * the column's cells, one per row; None is an absent cell.
 */
module Duplicates {
  import opened Tables
  import opened Lists

  /** The rows holding Some(v), ascending. */
  function Positions(vals: seq<Option<string>>, v: string): (r: seq<nat>)
    ensures forall k :: k in r <==> 0 <= k < |vals| && vals[k] == Some(v)
    ensures forall a, b :: 0 <= a < b < |r| ==> r[a] < r[b]
  {
    if vals == [] then []
    else
      var n := |vals| - 1;
      var ps := Positions(vals[..n], v);
      assert forall j :: 0 <= j < |ps| ==> ps[j] in ps;
      ps + (if vals[n] == Some(v) then [n] else [])
  }

  /** One row per occurrence of the value. */
  lemma {:induction false} PositionsCount(vals: seq<Option<string>>, v: string)
    ensures |Positions(vals, v)| == multiset(vals)[Some(v)]
  {
    if vals != [] {
      var n := |vals| - 1;
      PositionsCount(vals[..n], v);
      assert vals == vals[..n] + [vals[n]];
    }
  }

  /** v is reported at row k: k is where v first appears, and v appears at
      least twice. Absent cells are never reported. */
  function FirstOfDuplicate(vals: seq<Option<string>>, k: nat): seq<string>
  {
    if k < |vals| && vals[k].Some? && multiset(vals)[vals[k]] >= 2 && vals[k] !in vals[..k]
    then [vals[k].value]
    else []
  }

  /** The duplicated GTI values in order of first appearance. */
  function DuplicatedValues(vals: seq<Option<string>>): seq<string>
  {
    Gather(vals, |vals|, FirstOfDuplicate)
  }

  /** The first row holding Some(v), or -1 when there is none. */
  function FirstPosition(vals: seq<Option<string>>, v: string): int
  {
    var ps := Positions(vals, v);
    if ps == [] then -1 else ps[0]
  }

  /** Where a value first appears is where Positions starts. */
  lemma FirstPositionAt(vals: seq<Option<string>>, k: nat)
    requires k < |vals| && vals[k].Some? && vals[k] !in vals[..k]
    ensures FirstPosition(vals, vals[k].value) == k
  {
    var ps := Positions(vals, vals[k].value);
    assert k in ps;
    assert ps[0] in ps;
  }

  /** A value is reported exactly when it occurs in at least two rows. */
  lemma DuplicatedValuesMember(vals: seq<Option<string>>, v: string)
    ensures v in DuplicatedValues(vals) <==> multiset(vals)[Some(v)] >= 2
  {
    GatherMember(vals, |vals|, FirstOfDuplicate, v);
    PositionsCount(vals, v);
    if multiset(vals)[Some(v)] >= 2 {
      var k := FirstPosition(vals, v);
      var ps := Positions(vals, v);
      assert ps[0] in ps;
      assert forall j :: 0 <= j < k ==> vals[j] != Some(v);
      assert Some(v) !in vals[..k];
      assert v in FirstOfDuplicate(vals, k);
    }
  }

  /** Values are reported in order of first appearance, hence each once. */
  lemma DuplicatedValuesInFirstAppearanceOrder(vals: seq<Option<string>>)
    ensures forall a, b :: 0 <= a < b < |DuplicatedValues(vals)| ==>
      FirstPosition(vals, DuplicatedValues(vals)[a]) < FirstPosition(vals, DuplicatedValues(vals)[b])
  {
    var key := (v: string) => FirstPosition(vals, v);
    forall i, e | 0 <= i < |vals| && e in FirstOfDuplicate(vals, i)
      ensures key(e) == 0 + i
    {
      FirstPositionAt(vals, i);
    }
    GatherStrictlyAscending(vals, |vals|, FirstOfDuplicate, key, 0);
  }

  /** Every reported value's rows: at least two, ascending, exactly the rows
      holding it, and starting with its first appearance. */
  lemma ClusterRows(vals: seq<Option<string>>, v: string)
    requires v in DuplicatedValues(vals)
    ensures |Positions(vals, v)| >= 2
    ensures Positions(vals, v)[0] == FirstPosition(vals, v) < |vals|
    ensures forall j :: 0 <= j < FirstPosition(vals, v) ==> vals[j] != Some(v)
  {
    DuplicatedValuesMember(vals, v);
    PositionsCount(vals, v);
    var ps := Positions(vals, v);
    assert ps[0] in ps;
    assert forall j :: 0 <= j < ps[0] ==> vals[j] != Some(v);
  }

  /** The row numbers a report shows for value v: `[row + 2 for row in
      df.index[df["GTI"] == v]]`. */
  function ClusterRowNumbers(vals: seq<Option<string>>, v: string): seq<int>
  {
    Shift(Positions(vals, v), 2)
  }

  /** A reported cluster lists every row holding its value, the first
      occurrence included, in ascending order, and at least two rows. */
  lemma ClusterRowNumbersFacts(vals: seq<Option<string>>, v: string)
    requires v in DuplicatedValues(vals)
    ensures forall j :: j in ClusterRowNumbers(vals, v) <==> 2 <= j < |vals| + 2 && vals[j - 2] == Some(v)
    ensures forall a, b :: 0 <= a < b < |ClusterRowNumbers(vals, v)| ==> ClusterRowNumbers(vals, v)[a] < ClusterRowNumbers(vals, v)[b]
    ensures |ClusterRowNumbers(vals, v)| >= 2
    ensures ClusterRowNumbers(vals, v)[0] == FirstPosition(vals, v) + 2
  {
    ClusterRows(vals, v);
    ClusterRowNumbersMember(vals, v);
    var ps := Positions(vals, v);
    assert forall a, b :: 0 <= a < b < |ps| ==> ps[a] < ps[b];
  }

  /** The row numbers shown for v are exactly those of the rows holding it. */
  lemma ClusterRowNumbersMember(vals: seq<Option<string>>, v: string)
    ensures forall j :: j in ClusterRowNumbers(vals, v) <==> 2 <= j < |vals| + 2 && vals[j - 2] == Some(v)
  {
    forall j
      ensures j in ClusterRowNumbers(vals, v) <==> 2 <= j < |vals| + 2 && vals[j - 2] == Some(v)
    {
      if j in ClusterRowNumbers(vals, v) {
        ShownRowHolds(vals, v, j);
      }
      if 2 <= j < |vals| + 2 && vals[j - 2] == Some(v) {
        HoldingRowShown(vals, v, j - 2);
      }
    }
  }

  lemma ShownRowHolds(vals: seq<Option<string>>, v: string, j: int)
    requires j in ClusterRowNumbers(vals, v)
    ensures 2 <= j < |vals| + 2 && vals[j - 2] == Some(v)
  {
    var ps := Positions(vals, v);
    var r := ClusterRowNumbers(vals, v);
    var a :| 0 <= a < |r| && r[a] == j;
    assert ps[a] in ps;
  }

  lemma HoldingRowShown(vals: seq<Option<string>>, v: string, k: nat)
    requires k < |vals| && vals[k] == Some(v)
    ensures k + 2 in ClusterRowNumbers(vals, v)
  {
    var ps := Positions(vals, v);
    assert k in ps;
    var a :| 0 <= a < |ps| && ps[a] == k;
    assert ClusterRowNumbers(vals, v)[a] == k + 2;
  }

  /** No value is reported twice. */
  lemma DuplicatedValuesDistinct(vals: seq<Option<string>>)
    ensures forall a, b :: 0 <= a < b < |DuplicatedValues(vals)| ==> DuplicatedValues(vals)[a] != DuplicatedValues(vals)[b]
  {
    DuplicatedValuesInFirstAppearanceOrder(vals);
  }

  // ---------------------------------------------------------------------
  // The clustering as written: `duplicated` puts absent GTIs in one group
  // (pandas treats NaN as equal to NaN there), but `df["GTI"] == gti` is
  // false for NaN, so that group is reported with no rows at all.
  // ---------------------------------------------------------------------

  /** The group key at row k as `duplicated` / `unique` see it, absent included. */
  function FirstOfDuplicateAsWritten(vals: seq<Option<string>>, k: nat): seq<Option<string>>
  {
    if k < |vals| && multiset(vals)[vals[k]] >= 2 && vals[k] !in vals[..k] then [vals[k]] else []
  }

  /** `df[df.duplicated("GTI", keep=False)]["GTI"].unique()`. */
  function DuplicatedKeysAsWritten(vals: seq<Option<string>>): seq<Option<string>>
  {
    Gather(vals, |vals|, FirstOfDuplicateAsWritten)
  }

  /** `df.index[df["GTI"] == key]`: NaN equals nothing, itself included. */
  function MatchingRowsAsWritten(vals: seq<Option<string>>, key: Option<string>): seq<nat>
  {
    if key.Some? then Positions(vals, key.value) else []
  }

  /** Two rows without a GTI: the source reports a cluster for the absent
      value with an empty row list; the corrected clustering reports none. */
  lemma AbsentGtisFormEmptyCluster()
    ensures DuplicatedKeysAsWritten([None, None]) == [None]
    ensures MatchingRowsAsWritten([None, None], None) == []
    ensures DuplicatedValues([None, None]) == []
  {
    var vals: seq<Option<string>> := [None, None];
    assert multiset(vals)[None] == 2;
    assert vals[..0] == [];
    assert vals[..1] == [None];
    assert FirstOfDuplicateAsWritten(vals, 0) == [None];
    assert FirstOfDuplicateAsWritten(vals, 1) == [];
    assert FirstOfDuplicate(vals, 0) == [] && FirstOfDuplicate(vals, 1) == [];
  }

  /** Where no GTI is absent twice, the source's groups are exactly the
      corrected clusters. */
  lemma AsWrittenAgreesWithoutAbsentPairs(vals: seq<Option<string>>)
    requires multiset(vals)[None] < 2
    ensures |DuplicatedKeysAsWritten(vals)| == |DuplicatedValues(vals)|
    ensures forall k :: 0 <= k < |DuplicatedValues(vals)| ==> DuplicatedKeysAsWritten(vals)[k] == Some(DuplicatedValues(vals)[k])
  {
    GatherWrapped(vals, |vals|);
  }

  lemma {:induction false} GatherWrapped(vals: seq<Option<string>>, n: nat)
    requires multiset(vals)[None] < 2
    ensures |Gather(vals, n, FirstOfDuplicateAsWritten)| == |Gather(vals, n, FirstOfDuplicate)|
    ensures forall k :: 0 <= k < |Gather(vals, n, FirstOfDuplicate)| ==>
      Gather(vals, n, FirstOfDuplicateAsWritten)[k] == Some(Gather(vals, n, FirstOfDuplicate)[k])
  {
    if n > 0 {
      GatherWrapped(vals, n - 1);
      var k := n - 1;
      if k < |vals| && vals[k].None? && multiset(vals)[vals[k]] >= 2 {
        assert false;
      }
      assert |FirstOfDuplicateAsWritten(vals, k)| == |FirstOfDuplicate(vals, k)|;
    }
  }
}
