/**
 * Rules that two or more of the validators apply in exactly the same form,
 * each as a specification function over the table, the facts proved about
 * it, and the append loop that builds it.
 */
module Rules {
  import opened Lists
  import opened Tables
  import opened Text
  import opened Duplicates

  /** `{"row": ..., "columns": [...]}`: a row number and a list of columns. */
  datatype RowColumns = RowColumns(row: int, columns: seq<string>)

  // ---------------------------------------------------------------------
  // Present cells holding a character above 0x7F, with their raw value
  // (Flask4.py:64-74; what Flask3.py:58-63 evidently means)
  // ---------------------------------------------------------------------

  /** `{"row": ..., "column": ..., "value": ...}`. */
  datatype NonEnglishCell = NonEnglishCell(row: int, column: string, value: string)


  /** An entry for row p.row, column c when the cell is present and holds a
      character above 0x7F. */
  function NonEnglishAt(p: RowAt, c: string): seq<NonEnglishCell>
  {
    var v := CellAt(p, c);
    if v.Some? && HasNonAscii(v.value) then [NonEnglishCell(p.row + 2, c, v.value)] else []
  }

  function NonEnglishRow(t: Table, i: nat): seq<NonEnglishCell>
  {
    Concat(RowAt(t, i), t.columns, NonEnglishAt)
  }

  function NonEnglishCells(t: Table): seq<NonEnglishCell>
  {
    Gather(t, |t.rows|, NonEnglishRow)
  }

  /** Row i has a present cell holding a character above 0x7F. */
  predicate HasNonEnglish(t: Table, i: nat)
  {
    exists c :: c in t.columns && Cell(t, i, c).Some? && HasNonAscii(Cell(t, i, c).value)
  }

  /** Exactly the present cells with a non-ASCII character are reported, at
      row number index + 2 and with their raw value; absent cells never are. */
  lemma NonEnglishCellsMember(t: Table, e: NonEnglishCell)
    ensures e in NonEnglishCells(t) <==>
      && 2 <= e.row < |t.rows| + 2 && e.column in t.columns
      && Cell(t, e.row - 2, e.column) == Some(e.value) && HasNonAscii(e.value)
  {
    GatherMember(t, |t.rows|, NonEnglishRow, e);
    if e in NonEnglishCells(t) {
      var i :| 0 <= i < |t.rows| && e in NonEnglishRow(t, i);
      NonEnglishRowMember(t, i, e);
    }
    if 2 <= e.row < |t.rows| + 2 {
      NonEnglishRowMember(t, e.row - 2, e);
    }
  }

  /** The entries of row i are its present non-ASCII cells. */
  lemma NonEnglishRowMember(t: Table, i: nat, e: NonEnglishCell)
    ensures e in NonEnglishRow(t, i) <==>
      e.row == i + 2 && e.column in t.columns && Cell(t, i, e.column) == Some(e.value) && HasNonAscii(e.value)
  {
    ConcatMember(RowAt(t, i), t.columns, NonEnglishAt, e);
    if e.row == i + 2 && e.column in t.columns && Cell(t, i, e.column) == Some(e.value) && HasNonAscii(e.value) {
      assert e in NonEnglishAt(RowAt(t, i), e.column);
    }
  }

  /** Row-then-column order: row numbers never decrease along the list, and
      within a row the columns follow the header. */
  lemma NonEnglishCellsOrder(t: Table)
    ensures forall a, b :: 0 <= a < b < |NonEnglishCells(t)| ==> NonEnglishCells(t)[a].row <= NonEnglishCells(t)[b].row
    ensures DistinctColumns(t) ==> forall a, b :: 0 <= a < b < |NonEnglishCells(t)| && NonEnglishCells(t)[a].row == NonEnglishCells(t)[b].row ==>
      ColumnIndex(t.columns, NonEnglishCells(t)[a].column) < ColumnIndex(t.columns, NonEnglishCells(t)[b].column)
  {
    forall i, e | 0 <= i < |t.rows| && e in NonEnglishRow(t, i)
      ensures e.row == 2 + i
    {
      ConcatMember(RowAt(t, i), t.columns, NonEnglishAt, e);
    }
    GatherAscending(t, |t.rows|, NonEnglishRow, (e: NonEnglishCell) => e.row, 2);
    if DistinctColumns(t) {
      var key := (e: NonEnglishCell) => ColumnIndex(t.columns, e.column);
      forall i | 0 <= i < |t.rows|
        ensures forall a, b :: 0 <= a < b < |NonEnglishRow(t, i)| ==> key(NonEnglishRow(t, i)[a]) < key(NonEnglishRow(t, i)[b])
      {
        NonEnglishRowColumns(t, i);
      }
      GatherBlocksOrdered(t, |t.rows|, NonEnglishRow, (e: NonEnglishCell) => e.row, 2, key);
    }
  }

  /** One row's entries follow the header's column order. */
  lemma NonEnglishRowColumns(t: Table, i: nat)
    requires DistinctColumns(t)
    ensures forall a, b :: 0 <= a < b < |NonEnglishRow(t, i)| ==>
      ColumnIndex(t.columns, NonEnglishRow(t, i)[a].column) < ColumnIndex(t.columns, NonEnglishRow(t, i)[b].column)
  {
    var key := (e: NonEnglishCell) => ColumnIndex(t.columns, e.column);
    forall k, e | 0 <= k < |t.columns| && e in NonEnglishAt(RowAt(t, i), t.columns[k])
      ensures key(e) == k
    {
      ColumnIndexAt(t, k);
    }
    ConcatOrdered(RowAt(t, i), t.columns, NonEnglishAt, key);
  }

  /** The rows, then the flagged columns of each row (Flask4.py:67-74). */
  method NonEnglishCellsRule(t: Table) returns (entries: seq<NonEnglishCell>)
    ensures entries == NonEnglishCells(t)
  {
    entries := [];
    for row := 0 to |t.rows|
      invariant entries == Gather(t, row, NonEnglishRow)
    {
      var found := NonEnglishRowRule(t, row);
      entries := entries + found;
    }
  }

  /** One row of the scan: its cells, column by column. */
  method NonEnglishRowRule(t: Table, row: nat) returns (found: seq<NonEnglishCell>)
    ensures found == NonEnglishRow(t, row)
  {
    found := [];
    for k := 0 to |t.columns|
      invariant found == Concat(RowAt(t, row), t.columns[..k], NonEnglishAt)
    {
      ConcatStep(RowAt(t, row), t.columns, k, NonEnglishAt);
      var col := t.columns[k];
      var v := Cell(t, row, col);
      if v.Some? && HasNonAscii(v.value) {
        found := found + [NonEnglishCell(row + 2, col, v.value)];
      }
    }
    assert t.columns[..|t.columns|] == t.columns;
  }


  /** Nothing is reported exactly when no row has a present non-ASCII cell. */
  lemma NonEnglishCellsEmpty(t: Table)
    ensures NonEnglishCells(t) == [] <==> forall i :: 0 <= i < |t.rows| ==> !HasNonEnglish(t, i)
  {
    GatherEmpty(t, |t.rows|, NonEnglishRow);
    forall i | 0 <= i < |t.rows|
      ensures NonEnglishRow(t, i) == [] <==> !HasNonEnglish(t, i)
    {
      ConcatEmpty(RowAt(t, i), t.columns, NonEnglishAt);
      if HasNonEnglish(t, i) {
        var c :| c in t.columns && Cell(t, i, c).Some? && HasNonAscii(Cell(t, i, c).value);
        assert NonEnglishAt(RowAt(t, i), c) != [];
      }
    }
  }

  // ---------------------------------------------------------------------
  // Rating Date not dd/dd/dddd once stringified, with the raw cell
  // (Flask4.py:110-119, Flask2.py:84-92)
  // ---------------------------------------------------------------------

  /** `{"row": ..., "Rating Date": ...}`, the raw cell. */
  datatype RatingDate = RatingDate(row: int, ratingDate: Option<string>)


  function RatingDateRow(t: Table, i: nat): seq<RatingDate>
  {
    var d := Cell(t, i, RatingDateColumn);
    if MatchesLooseDate(Str(d)) then [] else [RatingDate(i + 2, d)]
  }

  function InvalidDateFormat(t: Table): seq<RatingDate>
  {
    if RatingDateColumn in t.columns then Gather(t, |t.rows|, RatingDateRow) else []
  }

  /** `astype(str)` turns absent into "nan", which is flagged; a present value
      is flagged exactly when it is not dd/dd/dddd (no range check). */
  lemma InvalidDateFormatReported(t: Table, i: nat)
    requires RatingDateColumn in t.columns && i < |t.rows|
    ensures (exists e :: e in InvalidDateFormat(t) && e.row == i + 2) <==>
      Cell(t, i, RatingDateColumn).None? || !MatchesLooseDate(Cell(t, i, RatingDateColumn).value)
  {
    if RatingDateRow(t, i) != [] {
      var e := RatingDateRow(t, i)[0];
      GatherMember(t, |t.rows|, RatingDateRow, e);
      assert e in InvalidDateFormat(t) && e.row == i + 2;
    }
    if exists e :: e in InvalidDateFormat(t) && e.row == i + 2 {
      var e :| e in InvalidDateFormat(t) && e.row == i + 2;
      GatherMember(t, |t.rows|, RatingDateRow, e);
      var j :| 0 <= j < |t.rows| && e in RatingDateRow(t, j);
      assert j == i;
    }
  }

  /** Each entry carries its row's raw cell; rows ascend. */
  lemma InvalidDateFormatEntries(t: Table)
    ensures forall e :: e in InvalidDateFormat(t) ==>
      2 <= e.row < |t.rows| + 2 && e.ratingDate == Cell(t, e.row - 2, RatingDateColumn)
    ensures forall a, b :: 0 <= a < b < |InvalidDateFormat(t)| ==> InvalidDateFormat(t)[a].row < InvalidDateFormat(t)[b].row
  {
    if RatingDateColumn in t.columns {
      forall e | e in InvalidDateFormat(t)
        ensures 2 <= e.row < |t.rows| + 2 && e.ratingDate == Cell(t, e.row - 2, RatingDateColumn)
      {
        GatherMember(t, |t.rows|, RatingDateRow, e);
        var i :| 0 <= i < |t.rows| && e in RatingDateRow(t, i);
        RatingDateRowFacts(t, i);
      }
      assert forall a, b :: 0 <= a < b < |InvalidDateFormat(t)| ==> InvalidDateFormat(t)[a].row < InvalidDateFormat(t)[b].row by {
        var key := (e: RatingDate) => e.row;
        forall i | 0 <= i < |t.rows|
          ensures |RatingDateRow(t, i)| <= 1 && forall e :: e in RatingDateRow(t, i) ==> key(e) == 2 + i
        {
          RatingDateRowFacts(t, i);
        }
        GatherStrictlyAscending(t, |t.rows|, RatingDateRow, key, 2);
      }
    }
  }

  /** Row i contributes at most one entry, numbered i + 2, holding its cell. */
  lemma RatingDateRowFacts(t: Table, i: nat)
    ensures |RatingDateRow(t, i)| <= 1
    ensures forall e :: e in RatingDateRow(t, i) ==> e.row == i + 2 && e.ratingDate == Cell(t, i, RatingDateColumn)
  {
  }

  /** One pass over the rows (Flask4.py:111-119, Flask2.py:84-92). */
  method InvalidDateFormatRule(t: Table) returns (entries: seq<RatingDate>)
    ensures entries == InvalidDateFormat(t)
  {
    entries := [];
    if RatingDateColumn in t.columns {
      for row := 0 to |t.rows|
        invariant entries == Gather(t, row, RatingDateRow)
      {
        var d := Cell(t, row, RatingDateColumn);
        if !MatchesLooseDate(Str(d)) {
          entries := entries + [RatingDate(row + 2, d)];
        }
      }
    }
  }

  /** Nothing is flagged exactly when every stringified date has the shape. */
  lemma DateFormatEmpty(t: Table)
    ensures InvalidDateFormat(t) == [] <==>
      (RatingDateColumn in t.columns ==> forall i :: 0 <= i < |t.rows| ==> MatchesLooseDate(Str(Cell(t, i, RatingDateColumn))))
  {
    GatherEmpty(t, |t.rows|, RatingDateRow);
    assert forall i :: 0 <= i < |t.rows| ==> (RatingDateRow(t, i) == [] <==> MatchesLooseDate(Str(Cell(t, i, RatingDateColumn))));
  }

  // ---------------------------------------------------------------------
  // Rows with an absent cell, each listed with the table-wide list of
  // columns that have an absent cell (Flask.py:42-47, app1.py:28-33)
  // ---------------------------------------------------------------------

  /** Row i has an absent cell (`df.isnull().any(axis=1)`); "" is not absent. */
  predicate HasAbsentCell(t: Table, i: nat)
  {
    exists c :: c in t.columns && Cell(t, i, c).None?
  }

  /** Column c has an absent cell in some row (`df.isnull().any()`). */
  predicate ColumnHasAbsent(t: Table, c: string)
  {
    exists i :: 0 <= i < |t.rows| && Cell(t, i, c).None?
  }

  function AbsentIn(t: Table, c: string): seq<string>
  {
    if ColumnHasAbsent(t, c) then [c] else []
  }

  /** `df.columns[df.isnull().any()].tolist()`. */
  function AbsentColumns(t: Table): seq<string>
  {
    Concat(t, t.columns, AbsentIn)
  }

  function AbsentRow(t: Table, i: nat): seq<RowColumns>
  {
    if HasAbsentCell(t, i) then [RowColumns(i + 2, AbsentColumns(t))] else []
  }

  /** `blank_cells`: one entry per row with an absent cell. */
  function AbsentCellRows(t: Table): seq<RowColumns>
  {
    Gather(t, |t.rows|, AbsentRow)
  }

  /** The shared list holds exactly the columns with an absent cell somewhere. */
  lemma AbsentColumnsMember(t: Table, c: string)
    ensures c in AbsentColumns(t) <==> c in t.columns && ColumnHasAbsent(t, c)
  {
    ConcatMember(t, t.columns, AbsentIn, c);
  }

  /** A row is listed exactly when one of its cells is absent. */
  lemma AbsentCellRowsReported(t: Table, i: nat)
    requires i < |t.rows|
    ensures (exists e :: e in AbsentCellRows(t) && e.row == i + 2) <==> HasAbsentCell(t, i)
  {
    if AbsentRow(t, i) != [] {
      var e := AbsentRow(t, i)[0];
      GatherMember(t, |t.rows|, AbsentRow, e);
      assert e in AbsentCellRows(t) && e.row == i + 2;
    }
    if exists e :: e in AbsentCellRows(t) && e.row == i + 2 {
      var e :| e in AbsentCellRows(t) && e.row == i + 2;
      GatherMember(t, |t.rows|, AbsentRow, e);
      var j :| 0 <= j < |t.rows| && e in AbsentRow(t, j);
      assert j == i;
    }
  }

  /** Every entry carries the same list, the table-wide one, which is never
      empty, so it can name columns the row itself has values in; rows
      ascend. */
  lemma AbsentCellRowsEntries(t: Table)
    ensures forall e :: e in AbsentCellRows(t) ==>
      2 <= e.row < |t.rows| + 2 && e.columns == AbsentColumns(t) && e.columns != []
    ensures forall a, b :: 0 <= a < b < |AbsentCellRows(t)| ==> AbsentCellRows(t)[a].row < AbsentCellRows(t)[b].row
  {
    forall e | e in AbsentCellRows(t)
      ensures 2 <= e.row < |t.rows| + 2 && e.columns == AbsentColumns(t) && e.columns != []
    {
      GatherMember(t, |t.rows|, AbsentRow, e);
      var i :| 0 <= i < |t.rows| && e in AbsentRow(t, i);
      var c :| c in t.columns && Cell(t, i, c).None?;
      AbsentColumnsMember(t, c);
    }
    GatherStrictlyAscending(t, |t.rows|, AbsentRow, (e: RowColumns) => e.row, 2);
  }

  /** Nothing is listed exactly when no cell is absent. */
  lemma AbsentCellRowsEmpty(t: Table)
    ensures AbsentCellRows(t) == [] <==> forall i :: 0 <= i < |t.rows| ==> !HasAbsentCell(t, i)
  {
    GatherEmpty(t, |t.rows|, AbsentRow);
    assert forall i :: 0 <= i < |t.rows| ==> (AbsentRow(t, i) == [] <==> !HasAbsentCell(t, i));
  }

  /** The column list is computed once, then one entry is built per row with
      an absent cell (Flask.py:43-47, app1.py:29-33). */
  method AbsentCellRowsRule(t: Table) returns (entries: seq<RowColumns>)
    ensures entries == AbsentCellRows(t)
  {
    var columns := [];
    for k := 0 to |t.columns|
      invariant columns == Concat(t, t.columns[..k], AbsentIn)
    {
      ConcatStep(t, t.columns, k, AbsentIn);
      var c := t.columns[k];
      if ColumnHasAbsent(t, c) {
        columns := columns + [c];
      }
    }
    assert t.columns[..|t.columns|] == t.columns;
    entries := [];
    for row := 0 to |t.rows|
      invariant entries == Gather(t, row, AbsentRow)
    {
      if HasAbsentCell(t, row) {
        entries := entries + [RowColumns(row + 2, columns)];
      }
    }
  }

  // ---------------------------------------------------------------------
  // Duplicate GTI clusters `{"GTI": ..., "rows": [...]}`
  // (Flask.py:66-72, Flask2.py:54-62, app1.py:43-48)
  // ---------------------------------------------------------------------

  datatype Cluster = Cluster(gti: string, rows: seq<int>)

  function ClusterEntry(vals: seq<Option<string>>, g: string): seq<Cluster>
  {
    [Cluster(g, ClusterRowNumbers(vals, g))]
  }

  /** One cluster per duplicated GTI, in order of first appearance; absent
      GTIs not clustered (see Findings in README.md). */
  function Clusters(t: Table): seq<Cluster>
  {
    if GtiColumn in t.columns then
      var vals := ColumnValues(t, GtiColumn);
      Concat(vals, DuplicatedValues(vals), ClusterEntry)
    else []
  }

  /** Exactly the GTIs found in two or more rows get a cluster, in order of
      first appearance, so none twice. */
  lemma ClustersValues(t: Table)
    requires GtiColumn in t.columns
    ensures forall g :: (exists e :: e in Clusters(t) && e.gti == g) <==> multiset(ColumnValues(t, GtiColumn))[Some(g)] >= 2
    ensures forall a, b :: 0 <= a < b < |Clusters(t)| ==>
      FirstPosition(ColumnValues(t, GtiColumn), Clusters(t)[a].gti) < FirstPosition(ColumnValues(t, GtiColumn), Clusters(t)[b].gti)
  {
    var vals := ColumnValues(t, GtiColumn);
    var dv := DuplicatedValues(vals);
    ConcatSingletons(vals, dv, ClusterEntry);
    DuplicatedValuesInFirstAppearanceOrder(vals);
    var es := Clusters(t);
    assert |es| == |dv| && forall k :: 0 <= k < |dv| ==> es[k].gti == dv[k];
    ClustersMember(t);
  }

  lemma ClustersMember(t: Table)
    requires GtiColumn in t.columns
    ensures forall g :: (exists e :: e in Clusters(t) && e.gti == g) <==> multiset(ColumnValues(t, GtiColumn))[Some(g)] >= 2
  {
    forall g
      ensures (exists e :: e in Clusters(t) && e.gti == g) <==> multiset(ColumnValues(t, GtiColumn))[Some(g)] >= 2
    {
      ClusterOf(t, g);
    }
  }

  /** GTI g has a cluster exactly when it occurs twice or more. */
  lemma ClusterOf(t: Table, g: string)
    requires GtiColumn in t.columns
    ensures (exists e :: e in Clusters(t) && e.gti == g) <==> multiset(ColumnValues(t, GtiColumn))[Some(g)] >= 2
  {
    var vals := ColumnValues(t, GtiColumn);
    var dv := DuplicatedValues(vals);
    ConcatSingletons(vals, dv, ClusterEntry);
    var es := Clusters(t);
    assert |es| == |dv| && forall k :: 0 <= k < |dv| ==> es[k].gti == dv[k];
    DuplicatedValuesMember(vals, g);
    if g in dv {
      var k :| 0 <= k < |dv| && dv[k] == g;
      assert es[k] in es;
    }
  }

  /** A cluster lists every row holding its GTI (index + 2), the first
      occurrence included, ascending, and at least two of them. */
  lemma ClustersEntry(t: Table, e: Cluster)
    requires e in Clusters(t)
    ensures forall j :: j in e.rows <==> 2 <= j < |t.rows| + 2 && Cell(t, j - 2, GtiColumn) == Some(e.gti)
    ensures forall a, b :: 0 <= a < b < |e.rows| ==> e.rows[a] < e.rows[b]
    ensures |e.rows| >= 2
  {
    var vals := ColumnValues(t, GtiColumn);
    ConcatMember(vals, DuplicatedValues(vals), ClusterEntry, e);
    ClusterRowNumbersFacts(vals, e.gti);
  }

  /** No cluster exactly when no GTI is repeated. */
  lemma ClustersEmpty(t: Table)
    requires GtiColumn in t.columns
    ensures Clusters(t) == [] <==> forall g :: multiset(ColumnValues(t, GtiColumn))[Some(g)] < 2
  {
    var vals := ColumnValues(t, GtiColumn);
    ConcatSingletons(vals, DuplicatedValues(vals), ClusterEntry);
    forall g
      ensures g in DuplicatedValues(vals) <==> multiset(vals)[Some(g)] >= 2
    {
      DuplicatedValuesMember(vals, g);
    }
  }

  /** One cluster per duplicated value, its rows looked up by equality. */
  method ClustersRule(t: Table) returns (entries: seq<Cluster>)
    ensures entries == Clusters(t)
  {
    entries := [];
    if GtiColumn in t.columns {
      var vals := ColumnValues(t, GtiColumn);
      var unique := DuplicatedValues(vals);
      for k := 0 to |unique|
        invariant entries == Concat(vals, unique[..k], ClusterEntry)
      {
        ConcatStep(vals, unique, k, ClusterEntry);
        var gti := unique[k];
        entries := entries + [Cluster(gti, Shift(Positions(vals, gti), 2))];
      }
      assert unique[..|unique|] == unique;
    }
  }

  // ---------------------------------------------------------------------
  // Countries and Languages must be digit strings (Flask.py:74-83,
  // Flask2.py:64-72, app1.py:50-54)
  // ---------------------------------------------------------------------

  /** `{"row": ..., "Countries": ..., "Languages": ...}`. */
  datatype CodePair = CodePair(row: int, countries: string, languages: string)

  /** `.str.isdigit()` yields NaN for an absent cell. Flask.py and app1.py
      combine the two results with `&` before negating, and `&` turns NaN
      into False, so an absent code flags the row and is shown as "nan".
      Flask2.py negates each NaN directly, which fails: there the rule is
      modelled where both columns are present in every row, or where one of
      them is missing from the header. */
  predicate CodesPresent(t: Table)
  {
    CountriesColumn in t.columns && LanguagesColumn in t.columns ==>
      PresentThroughout(t, CountriesColumn) && PresentThroughout(t, LanguagesColumn)
  }

  predicate CodesValid(t: Table, i: nat)
  {
    IsDigitString(Str(Cell(t, i, CountriesColumn))) && IsDigitString(Str(Cell(t, i, LanguagesColumn)))
  }

  function CodePairRow(t: Table, i: nat): seq<CodePair>
  {
    if CodesValid(t, i) then []
    else [CodePair(i + 2, Str(Cell(t, i, CountriesColumn)), Str(Cell(t, i, LanguagesColumn)))]
  }

  function InvalidCodePairs(t: Table): seq<CodePair>
  {
    if CountriesColumn in t.columns && LanguagesColumn in t.columns then Gather(t, |t.rows|, CodePairRow) else []
  }

  /** A row is flagged exactly when either code is absent, empty or holds a
      non-digit. */
  lemma InvalidCodePairsReported(t: Table, i: nat)
    requires CountriesColumn in t.columns && LanguagesColumn in t.columns && i < |t.rows|
    ensures (exists e :: e in InvalidCodePairs(t) && e.row == i + 2) <==>
      Cell(t, i, CountriesColumn).None? || Cell(t, i, LanguagesColumn).None?
      || !IsDigitString(Cell(t, i, CountriesColumn).value) || !IsDigitString(Cell(t, i, LanguagesColumn).value)
  {
    NanIsNotDigits();
    if CodePairRow(t, i) != [] {
      var e := CodePairRow(t, i)[0];
      GatherMember(t, |t.rows|, CodePairRow, e);
      assert e in InvalidCodePairs(t) && e.row == i + 2;
    }
    if exists e :: e in InvalidCodePairs(t) && e.row == i + 2 {
      var e :| e in InvalidCodePairs(t) && e.row == i + 2;
      GatherMember(t, |t.rows|, CodePairRow, e);
      var j :| 0 <= j < |t.rows| && e in CodePairRow(t, j);
      assert j == i;
    }
  }

  /** Each entry carries its row's two values through `str()`, "nan" for an
      absent one, and with both columns present throughout those are the raw
      cells; rows ascend. */
  lemma InvalidCodePairsEntries(t: Table)
    ensures forall e :: e in InvalidCodePairs(t) ==>
      2 <= e.row < |t.rows| + 2 && e.countries == Str(Cell(t, e.row - 2, CountriesColumn))
      && e.languages == Str(Cell(t, e.row - 2, LanguagesColumn))
    ensures CodesPresent(t) ==> forall e :: e in InvalidCodePairs(t) ==>
      Cell(t, e.row - 2, CountriesColumn) == Some(e.countries) && Cell(t, e.row - 2, LanguagesColumn) == Some(e.languages)
    ensures forall a, b :: 0 <= a < b < |InvalidCodePairs(t)| ==> InvalidCodePairs(t)[a].row < InvalidCodePairs(t)[b].row
  {
    if CountriesColumn in t.columns && LanguagesColumn in t.columns {
      forall e | e in InvalidCodePairs(t)
        ensures 2 <= e.row < |t.rows| + 2 && e.countries == Str(Cell(t, e.row - 2, CountriesColumn))
          && e.languages == Str(Cell(t, e.row - 2, LanguagesColumn))
      {
        InvalidCodePairEntry(t, e);
      }
      InvalidCodePairsAscending(t);
    }
  }

  /** One entry of the list: its row's two cells through `str()`. */
  lemma InvalidCodePairEntry(t: Table, e: CodePair)
    requires CountriesColumn in t.columns && LanguagesColumn in t.columns && e in InvalidCodePairs(t)
    ensures 2 <= e.row < |t.rows| + 2 && e.countries == Str(Cell(t, e.row - 2, CountriesColumn))
      && e.languages == Str(Cell(t, e.row - 2, LanguagesColumn))
  {
    GatherMember(t, |t.rows|, CodePairRow, e);
    var i :| 0 <= i < |t.rows| && e in CodePairRow(t, i);
    CodePairRowFacts(t, i);
    assert e.row - 2 == i;
  }

  lemma InvalidCodePairsAscending(t: Table)
    requires CountriesColumn in t.columns && LanguagesColumn in t.columns
    ensures forall a, b :: 0 <= a < b < |InvalidCodePairs(t)| ==> InvalidCodePairs(t)[a].row < InvalidCodePairs(t)[b].row
  {
    var key := (e: CodePair) => e.row;
    forall i | 0 <= i < |t.rows|
      ensures |CodePairRow(t, i)| <= 1 && forall e :: e in CodePairRow(t, i) ==> key(e) == 2 + i
    {
      CodePairRowFacts(t, i);
    }
    GatherStrictlyAscending(t, |t.rows|, CodePairRow, key, 2);
  }

  /** Row i contributes at most one entry, numbered i + 2, holding its cells. */
  lemma CodePairRowFacts(t: Table, i: nat)
    ensures |CodePairRow(t, i)| <= 1
    ensures forall e :: e in CodePairRow(t, i) ==> e.row == i + 2 && e.countries == Str(Cell(t, i, CountriesColumn)) && e.languages == Str(Cell(t, i, LanguagesColumn))
  {
  }

  /** Nothing is flagged exactly when every row holds two digit strings. */
  lemma InvalidCodePairsEmpty(t: Table)
    ensures InvalidCodePairs(t) == [] <==>
      (CountriesColumn in t.columns && LanguagesColumn in t.columns ==> forall i :: 0 <= i < |t.rows| ==> CodesValid(t, i))
  {
    GatherEmpty(t, |t.rows|, CodePairRow);
    assert forall i :: 0 <= i < |t.rows| ==> (CodePairRow(t, i) == [] <==> CodesValid(t, i));
  }

  /** The flagged rows, one pass. */
  method InvalidCodePairsRule(t: Table) returns (entries: seq<CodePair>)
    ensures entries == InvalidCodePairs(t)
  {
    entries := [];
    if CountriesColumn in t.columns && LanguagesColumn in t.columns {
      for row := 0 to |t.rows|
        invariant entries == Gather(t, row, CodePairRow)
      {
        var countries, languages := Str(Cell(t, row, CountriesColumn)), Str(Cell(t, row, LanguagesColumn));
        if !(IsDigitString(countries) && IsDigitString(languages)) {
          entries := entries + [CodePair(row + 2, countries, languages)];
        }
      }
    }
  }

  // ---------------------------------------------------------------------
  // Age Rating ID compared as text, reported through `str()`
  // (Flask.py:85-94, app1.py:56-61)
  // ---------------------------------------------------------------------

  /** `{"row": ..., "Age Rating ID": str(...)}`. */
  datatype AgeRatingText = AgeRatingText(row: int, ageRatingId: string)

  /** `isin({"2", "9", "154", "147"})`: an absent cell is never in the set. */
  predicate AgeTextValid(v: Option<string>)
  {
    v.Some? && v.value in AgeRatingTexts
  }

  function AgeTextRow(t: Table, i: nat): seq<AgeRatingText>
  {
    var v := Cell(t, i, AgeRatingColumn);
    if AgeTextValid(v) then [] else [AgeRatingText(i + 2, Str(v))]
  }

  function InvalidAgeTexts(t: Table): seq<AgeRatingText>
  {
    if AgeRatingColumn in t.columns then Gather(t, |t.rows|, AgeTextRow) else []
  }

  /** A row is flagged exactly when its value is absent or not one of the
      four texts. */
  lemma InvalidAgeTextsReported(t: Table, i: nat)
    requires AgeRatingColumn in t.columns && i < |t.rows|
    ensures (exists e :: e in InvalidAgeTexts(t) && e.row == i + 2) <==>
      Cell(t, i, AgeRatingColumn).None? || Cell(t, i, AgeRatingColumn).value !in AgeRatingTexts
  {
    if AgeTextRow(t, i) != [] {
      var e := AgeTextRow(t, i)[0];
      GatherMember(t, |t.rows|, AgeTextRow, e);
      assert e in InvalidAgeTexts(t) && e.row == i + 2;
    }
    if exists e :: e in InvalidAgeTexts(t) && e.row == i + 2 {
      var e :| e in InvalidAgeTexts(t) && e.row == i + 2;
      GatherMember(t, |t.rows|, AgeTextRow, e);
      var j :| 0 <= j < |t.rows| && e in AgeTextRow(t, j);
      assert j == i;
    }
  }

  /** Each entry shows its row's value as text ("nan" when absent); rows ascend. */
  lemma InvalidAgeTextsEntries(t: Table)
    ensures forall e :: e in InvalidAgeTexts(t) ==>
      2 <= e.row < |t.rows| + 2 && e.ageRatingId == Str(Cell(t, e.row - 2, AgeRatingColumn)) && e.ageRatingId !in AgeRatingTexts
    ensures forall a, b :: 0 <= a < b < |InvalidAgeTexts(t)| ==> InvalidAgeTexts(t)[a].row < InvalidAgeTexts(t)[b].row
  {
    if AgeRatingColumn in t.columns {
      forall e | e in InvalidAgeTexts(t)
        ensures 2 <= e.row < |t.rows| + 2 && e.ageRatingId == Str(Cell(t, e.row - 2, AgeRatingColumn)) && e.ageRatingId !in AgeRatingTexts
      {
        GatherMember(t, |t.rows|, AgeTextRow, e);
        var i :| 0 <= i < |t.rows| && e in AgeTextRow(t, i);
        AgeTextRowFacts(t, i);
      }
      assert forall a, b :: 0 <= a < b < |InvalidAgeTexts(t)| ==> InvalidAgeTexts(t)[a].row < InvalidAgeTexts(t)[b].row by {
        var key := (e: AgeRatingText) => e.row;
        forall i | 0 <= i < |t.rows|
          ensures |AgeTextRow(t, i)| <= 1 && forall e :: e in AgeTextRow(t, i) ==> key(e) == 2 + i
        {
          AgeTextRowFacts(t, i);
        }
        GatherStrictlyAscending(t, |t.rows|, AgeTextRow, key, 2);
      }
    }
  }

  /** Row i contributes at most one entry, numbered i + 2, holding its value. */
  lemma AgeTextRowFacts(t: Table, i: nat)
    ensures |AgeTextRow(t, i)| <= 1
    ensures forall e :: e in AgeTextRow(t, i) ==> e.row == i + 2 && e.ageRatingId == Str(Cell(t, i, AgeRatingColumn)) && e.ageRatingId !in AgeRatingTexts
  {
  }

  /** "10", "02" and an absent value are all rejected as text. */
  lemma AgeTextExamples()
    ensures !AgeTextValid(Some("10")) && !AgeTextValid(Some("02")) && !AgeTextValid(None)
    ensures AgeTextValid(Some("154"))
  {
  }

  /** Nothing is flagged exactly when every row holds one of the four texts. */
  lemma InvalidAgeTextsEmpty(t: Table)
    ensures InvalidAgeTexts(t) == [] <==>
      (AgeRatingColumn in t.columns ==> forall i :: 0 <= i < |t.rows| ==> AgeTextValid(Cell(t, i, AgeRatingColumn)))
  {
    GatherEmpty(t, |t.rows|, AgeTextRow);
    assert forall i :: 0 <= i < |t.rows| ==> (AgeTextRow(t, i) == [] <==> AgeTextValid(Cell(t, i, AgeRatingColumn)));
  }

  /** The flagged rows, one pass. */
  method InvalidAgeTextsRule(t: Table) returns (entries: seq<AgeRatingText>)
    ensures entries == InvalidAgeTexts(t)
  {
    entries := [];
    if AgeRatingColumn in t.columns {
      for row := 0 to |t.rows|
        invariant entries == Gather(t, row, AgeTextRow)
      {
        var v := Cell(t, row, AgeRatingColumn);
        if !(v.Some? && v.value in AgeRatingTexts) {
          entries := entries + [AgeRatingText(row + 2, Str(v))];
        }
      }
    }
  }

  // ---------------------------------------------------------------------
  // Rating Date overwritten by its text, then matched against dd/dd/dddd
  // (Flask.py:96-106, app1.py:63-69)
  // ---------------------------------------------------------------------

  /** `{"row": ..., "Rating Date": str(...)}`. */
  datatype RatingDateText = RatingDateText(row: int, ratingDate: string)

  function DateTextRow(t: Table, i: nat): seq<RatingDateText>
  {
    var d := Str(Cell(t, i, RatingDateColumn));
    if MatchesLooseDate(d) then [] else [RatingDateText(i + 2, d)]
  }

  function InvalidDateTexts(t: Table): seq<RatingDateText>
  {
    if RatingDateColumn in t.columns then Gather(t, |t.rows|, DateTextRow) else []
  }

  /** Absent becomes "nan" and is flagged; a present value is flagged exactly
      when it is not dd/dd/dddd. */
  lemma InvalidDateTextsReported(t: Table, i: nat)
    requires RatingDateColumn in t.columns && i < |t.rows|
    ensures (exists e :: e in InvalidDateTexts(t) && e.row == i + 2) <==>
      Cell(t, i, RatingDateColumn).None? || !MatchesLooseDate(Cell(t, i, RatingDateColumn).value)
  {
    if DateTextRow(t, i) != [] {
      var e := DateTextRow(t, i)[0];
      GatherMember(t, |t.rows|, DateTextRow, e);
      assert e in InvalidDateTexts(t) && e.row == i + 2;
    }
    if exists e :: e in InvalidDateTexts(t) && e.row == i + 2 {
      var e :| e in InvalidDateTexts(t) && e.row == i + 2;
      GatherMember(t, |t.rows|, DateTextRow, e);
      var j :| 0 <= j < |t.rows| && e in DateTextRow(t, j);
      assert j == i;
    }
  }

  /** Each entry shows the overwritten text of its row; rows ascend. */
  lemma InvalidDateTextsEntries(t: Table)
    ensures forall e :: e in InvalidDateTexts(t) ==>
      2 <= e.row < |t.rows| + 2 && e.ratingDate == Str(Cell(t, e.row - 2, RatingDateColumn)) && !MatchesLooseDate(e.ratingDate)
    ensures forall a, b :: 0 <= a < b < |InvalidDateTexts(t)| ==> InvalidDateTexts(t)[a].row < InvalidDateTexts(t)[b].row
  {
    if RatingDateColumn in t.columns {
      forall e | e in InvalidDateTexts(t)
        ensures 2 <= e.row < |t.rows| + 2 && e.ratingDate == Str(Cell(t, e.row - 2, RatingDateColumn)) && !MatchesLooseDate(e.ratingDate)
      {
        GatherMember(t, |t.rows|, DateTextRow, e);
        var i :| 0 <= i < |t.rows| && e in DateTextRow(t, i);
        DateTextRowFacts(t, i);
      }
      assert forall a, b :: 0 <= a < b < |InvalidDateTexts(t)| ==> InvalidDateTexts(t)[a].row < InvalidDateTexts(t)[b].row by {
        var key := (e: RatingDateText) => e.row;
        forall i | 0 <= i < |t.rows|
          ensures |DateTextRow(t, i)| <= 1 && forall e :: e in DateTextRow(t, i) ==> key(e) == 2 + i
        {
          DateTextRowFacts(t, i);
        }
        GatherStrictlyAscending(t, |t.rows|, DateTextRow, key, 2);
      }
    }
  }

  /** Row i contributes at most one entry, numbered i + 2, holding its cells. */
  lemma DateTextRowFacts(t: Table, i: nat)
    ensures |DateTextRow(t, i)| <= 1
    ensures forall e :: e in DateTextRow(t, i) ==> e.row == i + 2 && e.ratingDate == Str(Cell(t, i, RatingDateColumn)) && !MatchesLooseDate(e.ratingDate)
  {
  }

  /** Nothing is flagged exactly when every stringified date has the shape. */
  lemma InvalidDateTextsEmpty(t: Table)
    ensures InvalidDateTexts(t) == [] <==>
      (RatingDateColumn in t.columns ==> forall i :: 0 <= i < |t.rows| ==> MatchesLooseDate(Str(Cell(t, i, RatingDateColumn))))
  {
    GatherEmpty(t, |t.rows|, DateTextRow);
    assert forall i :: 0 <= i < |t.rows| ==> (DateTextRow(t, i) == [] <==> MatchesLooseDate(Str(Cell(t, i, RatingDateColumn))));
  }

  /** The column is overwritten by its text in place, then the rows are
      matched: `df[c] = df[c].astype(str)` followed by the mask. */
  method InvalidDateTextsRule(t: Table) returns (entries: seq<RatingDateText>)
    ensures entries == InvalidDateTexts(t)
  {
    entries := [];
    if RatingDateColumn in t.columns {
      var texts := seq(|t.rows|, i requires 0 <= i < |t.rows| => Str(Cell(t, i, RatingDateColumn)));
      for row := 0 to |t.rows|
        invariant entries == Gather(t, row, DateTextRow)
      {
        if !MatchesLooseDate(texts[row]) {
          entries := entries + [RatingDateText(row + 2, texts[row])];
        }
      }
    }
  }
}
