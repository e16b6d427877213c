/**
 * app1.py's `validate_file`: the six rules of Flask.py with an allow-list
 * pattern in place of the non-ASCII search, and no check that the columns
 * the rules read exist.
 */
module App1 {
  import opened Lists
  import opened Tables
  import opened Text
  import opened Duplicates
  import opened Rules

  /** `{"row": ..., "column": ..., "value": str(...)}`. */
  datatype DisallowedCell = DisallowedCell(row: int, column: string, value: string)

  /** `validation_results`, its six lists in the order of the dictionary. */
  datatype Errors = Errors(
    blankCells: seq<RowColumns>,
    nonEnglishChars: seq<DisallowedCell>,
    duplicateGtis: seq<Cluster>,
    invalidCountryLanguage: seq<CodePair>,
    invalidAgeRating: seq<AgeRatingText>,
    invalidDateFormat: seq<RatingDateText>)

  const NoErrors := Errors([], [], [], [], [], [])

  /** The columns rules 4 to 6 read, in the order they first read them. */
  const LaterColumns: seq<string> := [CountriesColumn, LanguagesColumn, AgeRatingColumn, RatingDateColumn]

  /** The columns rules 3 to 6 read, in the order they first read them. */
  const ReadColumns: seq<string> := [GtiColumn] + LaterColumns

  /** The read columns whose absence raises KeyError. `df.duplicated` returns
      an empty mask on a frame without rows before it looks its subset up, so
      on such a table a missing "GTI" goes unnoticed. */
  function RaisingColumns(t: Table): seq<string>
  {
    if |t.rows| == 0 then LaterColumns else ReadColumns
  }

  // ---------------------------------------------------------------------
  // Rule 2: cells outside the allow-list
  // ---------------------------------------------------------------------

  /** An entry for row p.row, column c when the cell is present and not made
      wholly of allowed characters; an absent cell counts as allowed. */
  function DisallowedAt(p: RowAt, c: string): seq<DisallowedCell>
  {
    var v := CellAt(p, c);
    if v.Some? && !MatchesApp1Text(v.value) then [DisallowedCell(p.row + 2, c, v.value)] else []
  }

  function DisallowedRow(t: Table, i: nat): seq<DisallowedCell>
  {
    Concat(RowAt(t, i), t.columns, DisallowedAt)
  }

  /** `non_english_chars`, row by row and, within a row, in header order. */
  function DisallowedCells(t: Table): seq<DisallowedCell>
  {
    Gather(t, |t.rows|, DisallowedRow)
  }

  predicate HasDisallowedCell(t: Table, i: nat)
  {
    exists c :: c in t.columns && Cell(t, i, c).Some? && !MatchesApp1Text(Cell(t, i, c).value)
  }

  /** The cell an entry describes: present at row number index + 2 and
      holding a character outside the allow-list. */
  predicate DescribesDisallowedCell(t: Table, e: DisallowedCell)
  {
    && 2 <= e.row < |t.rows| + 2 && e.column in t.columns
    && Cell(t, e.row - 2, e.column) == Some(e.value) && !MatchesApp1Text(e.value)
  }

  /** An entry is emitted exactly for each present cell that the pattern
      rejects, in any column; absent cells never are. */
  lemma DisallowedCellsMember(t: Table, e: DisallowedCell)
    ensures e in DisallowedCells(t) <==> DescribesDisallowedCell(t, e)
  {
    GatherMember(t, |t.rows|, DisallowedRow, e);
    if e in DisallowedCells(t) {
      var i :| 0 <= i < |t.rows| && e in DisallowedRow(t, i);
      DisallowedRowMember(t, i, e);
    }
    if 2 <= e.row < |t.rows| + 2 {
      DisallowedRowMember(t, e.row - 2, e);
    }
  }

  /** The entries of row i are its present cells the pattern rejects. */
  lemma DisallowedRowMember(t: Table, i: nat, e: DisallowedCell)
    ensures e in DisallowedRow(t, i) <==>
      e.row == i + 2 && e.column in t.columns && Cell(t, i, e.column) == Some(e.value) && !MatchesApp1Text(e.value)
  {
    ConcatMember(RowAt(t, i), t.columns, DisallowedAt, e);
    if e.row == i + 2 && e.column in t.columns && Cell(t, i, e.column) == Some(e.value) && !MatchesApp1Text(e.value) {
      assert e in DisallowedAt(RowAt(t, i), e.column);
    }
  }

  /** "&", "(" and ")" pass App.py's pattern but are flagged here. */
  lemma DisallowedPunctuation(t: Table, e: DisallowedCell)
    requires 2 <= e.row < |t.rows| + 2 && e.column in t.columns
    requires Cell(t, e.row - 2, e.column) == Some(e.value) && e.value == "Tom & Jerry (1940)"
    ensures e in DisallowedCells(t)
  {
    AllowListExamples();
    DisallowedCellsMember(t, e);
  }

  /** Within a row the entries follow the header; rows never go back. */
  lemma DisallowedCellsOrder(t: Table)
    ensures forall a, b :: 0 <= a < b < |DisallowedCells(t)| ==> DisallowedCells(t)[a].row <= DisallowedCells(t)[b].row
    ensures DistinctColumns(t) ==> forall a, b :: 0 <= a < b < |DisallowedCells(t)| && DisallowedCells(t)[a].row == DisallowedCells(t)[b].row ==>
      ColumnIndex(t.columns, DisallowedCells(t)[a].column) < ColumnIndex(t.columns, DisallowedCells(t)[b].column)
  {
    forall i, e | 0 <= i < |t.rows| && e in DisallowedRow(t, i)
      ensures e.row == 2 + i
    {
      ConcatMember(RowAt(t, i), t.columns, DisallowedAt, e);
    }
    GatherAscending(t, |t.rows|, DisallowedRow, (e: DisallowedCell) => e.row, 2);
    if DistinctColumns(t) {
      var key := (e: DisallowedCell) => ColumnIndex(t.columns, e.column);
      forall i | 0 <= i < |t.rows|
        ensures forall a, b :: 0 <= a < b < |DisallowedRow(t, i)| ==> key(DisallowedRow(t, i)[a]) < key(DisallowedRow(t, i)[b])
      {
        DisallowedRowColumns(t, i);
      }
      GatherBlocksOrdered(t, |t.rows|, DisallowedRow, (e: DisallowedCell) => e.row, 2, key);
    }
  }

  /** One row's entries follow the header's column order. */
  lemma DisallowedRowColumns(t: Table, i: nat)
    requires DistinctColumns(t)
    ensures forall a, b :: 0 <= a < b < |DisallowedRow(t, i)| ==>
      ColumnIndex(t.columns, DisallowedRow(t, i)[a].column) < ColumnIndex(t.columns, DisallowedRow(t, i)[b].column)
  {
    var key := (e: DisallowedCell) => ColumnIndex(t.columns, e.column);
    forall k, e | 0 <= k < |t.columns| && e in DisallowedAt(RowAt(t, i), t.columns[k])
      ensures key(e) == k
    {
      ColumnIndexAt(t, k);
    }
    ConcatOrdered(RowAt(t, i), t.columns, DisallowedAt, key);
  }

  /** Nothing is reported exactly when every present cell passes the pattern. */
  lemma DisallowedCellsEmpty(t: Table)
    ensures DisallowedCells(t) == [] <==> forall i :: 0 <= i < |t.rows| ==> !HasDisallowedCell(t, i)
  {
    GatherEmpty(t, |t.rows|, DisallowedRow);
    forall i | 0 <= i < |t.rows|
      ensures DisallowedRow(t, i) == [] <==> !HasDisallowedCell(t, i)
    {
      ConcatEmpty(RowAt(t, i), t.columns, DisallowedAt);
      if HasDisallowedCell(t, i) {
        var c :| c in t.columns && Cell(t, i, c).Some? && !MatchesApp1Text(Cell(t, i, c).value);
        assert DisallowedAt(RowAt(t, i), c) != [];
      }
    }
  }

  /** Lines 36-41: the mask, then the rows and their rejected columns. */
  method DisallowedCellsRule(t: Table) returns (entries: seq<DisallowedCell>)
    ensures entries == DisallowedCells(t)
  {
    entries := [];
    for row := 0 to |t.rows|
      invariant entries == Gather(t, row, DisallowedRow)
    {
      var found := DisallowedRowRule(t, row);
      entries := entries + found;
    }
  }

  /** One row of the scan: its cells, column by column. */
  method DisallowedRowRule(t: Table, row: nat) returns (found: seq<DisallowedCell>)
    ensures found == DisallowedRow(t, row)
  {
    found := [];
    for k := 0 to |t.columns|
      invariant found == Concat(RowAt(t, row), t.columns[..k], DisallowedAt)
    {
      ConcatStep(RowAt(t, row), t.columns, k, DisallowedAt);
      var col := t.columns[k];
      var v := Cell(t, row, col);
      if v.Some? && !MatchesApp1Text(v.value) {
        found := found + [DisallowedCell(row + 2, col, v.value)];
      }
    }
    assert t.columns[..|t.columns|] == t.columns;
  }

  // ---------------------------------------------------------------------
  // The whole validation
  // ---------------------------------------------------------------------

  /** `validate_file` on a loaded table: `df.duplicated("GTI")` or `df[c]`
      raises KeyError for the first column read that the table lacks, a
      missing "GTI" only when there are rows. */
  function Validate(t: Table): Result<Errors>
  {
    var lacking := LackingColumns(t, RaisingColumns(t));
    if lacking != [] then Err(KeyError(lacking[0]))
    else Ok(Errors(AbsentCellRows(t), DisallowedCells(t), Clusters(t), InvalidCodePairs(t), InvalidAgeTexts(t), InvalidDateTexts(t)))
  }

  /** Rules 4 to 6 find LaterColumns[k] to be the first column missing, rule 3
      having passed: it is then the first one lacking among the raising ones. */
  lemma LaterColumnLacking(t: Table, k: nat)
    requires k < |LaterColumns| && LaterColumns[k] !in t.columns
    requires forall j :: 0 <= j < k ==> LaterColumns[j] in t.columns
    requires |t.rows| > 0 ==> GtiColumn in t.columns
    ensures LackingColumns(t, RaisingColumns(t)) != [] && LackingColumns(t, RaisingColumns(t))[0] == LaterColumns[k]
  {
    if |t.rows| == 0 {
      LackingColumnsFirst(t, LaterColumns, k);
    } else {
      assert forall j :: 0 < j <= k ==> ReadColumns[j] == LaterColumns[j - 1];
      LackingColumnsFirst(t, ReadColumns, k + 1);
    }
  }

  /** The rules in the order of the source, each failing where it first
      reads a missing column. */
  method ValidateFile(t: Table) returns (r: Result<Errors>)
    ensures r == Validate(t)
  {
    var blank := AbsentCellRowsRule(t);
    var nonEnglish := DisallowedCellsRule(t);
    if |t.rows| > 0 && GtiColumn !in t.columns {
      LackingColumnsFirst(t, ReadColumns, 0);
      return Err(KeyError(GtiColumn));
    }
    var duplicates := ClustersRule(t);
    for k := 0 to |LaterColumns|
      invariant forall j :: 0 <= j < k ==> LaterColumns[j] in t.columns
    {
      if LaterColumns[k] !in t.columns {
        LaterColumnLacking(t, k);
        return Err(KeyError(LaterColumns[k]));
      }
    }
    LackingColumnsEmpty(t, RaisingColumns(t));
    var codes := InvalidCodePairsRule(t);
    var age := InvalidAgeTextsRule(t);
    var date := InvalidDateTextsRule(t);
    r := Ok(Errors(blank, nonEnglish, duplicates, codes, age, date));
  }

  /** The validation fails exactly when rules 4 to 6 read a missing column
      or rule 3 looks "GTI" up in a table with rows that lacks it, and then
      names the first such column in reading order. */
  lemma ValidateFails(t: Table)
    ensures Validate(t).Err? <==>
      (|t.rows| > 0 && GtiColumn !in t.columns) || exists c :: c in LaterColumns && c !in t.columns
    ensures Validate(t).Err? && |t.rows| > 0 && GtiColumn !in t.columns ==>
      Validate(t).error == KeyError(GtiColumn)
    ensures Validate(t).Err? && (|t.rows| == 0 || GtiColumn in t.columns) ==>
      exists k :: 0 <= k < |LaterColumns| && Validate(t).error == KeyError(LaterColumns[k]) &&
        LaterColumns[k] !in t.columns && forall j :: 0 <= j < k ==> LaterColumns[j] in t.columns
  {
    LackingColumnsEmpty(t, RaisingColumns(t));
    if |t.rows| > 0 && GtiColumn !in t.columns {
      LackingColumnsFirst(t, ReadColumns, 0);
    } else if exists c :: c in LaterColumns && c !in t.columns {
      var k0 :| 0 <= k0 < |LaterColumns| && LaterColumns[k0] !in t.columns;
      FirstLacking(t, LaterColumns, k0);
      var k :| 0 <= k <= k0 && LaterColumns[k] !in t.columns && forall j :: 0 <= j < k ==> LaterColumns[j] in t.columns;
      LaterColumnLacking(t, k);
    }
  }

  /** A header without rows passes once rules 4 to 6 find their columns,
      whether or not it has "GTI". */
  lemma HeaderOnlyTable(t: Table)
    requires |t.rows| == 0 && forall k :: 0 <= k < |LaterColumns| ==> LaterColumns[k] in t.columns
    ensures Validate(t) == Ok(NoErrors)
  {
    LackingColumnsEmpty(t, RaisingColumns(t));
    AbsentCellRowsEmpty(t);
    DisallowedCellsEmpty(t);
    InvalidCodePairsEmpty(t);
    InvalidAgeTextsEmpty(t);
    InvalidDateTextsEmpty(t);
  }

  /** A table passes every rule. */
  ghost predicate Clean(t: Table)
  {
    && (forall i :: 0 <= i < |t.rows| ==> !HasAbsentCell(t, i))
    && (forall i :: 0 <= i < |t.rows| ==> !HasDisallowedCell(t, i))
    && (forall g :: multiset(ColumnValues(t, GtiColumn))[Some(g)] < 2)
    && (forall i :: 0 <= i < |t.rows| ==> CodesValid(t, i))
    && (forall i :: 0 <= i < |t.rows| ==> AgeTextValid(Cell(t, i, AgeRatingColumn)))
    && (forall i :: 0 <= i < |t.rows| ==> MatchesLooseDate(Str(Cell(t, i, RatingDateColumn))))
  }

  /** On a table that does not raise, the six lists, which start empty, are
      all empty exactly when the table passes every rule. */
  lemma ValidateCleanTable(t: Table)
    requires forall k :: 0 <= k < |LaterColumns| ==> LaterColumns[k] in t.columns
    requires |t.rows| > 0 ==> GtiColumn in t.columns
    ensures Validate(t) == Ok(NoErrors) <==> Clean(t)
  {
    LackingColumnsEmpty(t, RaisingColumns(t));
    assert CountriesColumn in t.columns && LanguagesColumn in t.columns
      && AgeRatingColumn in t.columns && RatingDateColumn in t.columns by {
      assert LaterColumns[0] in t.columns && LaterColumns[1] in t.columns
        && LaterColumns[2] in t.columns && LaterColumns[3] in t.columns;
    }
    AbsentCellRowsEmpty(t);
    DisallowedCellsEmpty(t);
    if GtiColumn in t.columns {
      ClustersEmpty(t);
    }
    InvalidCodePairsEmpty(t);
    InvalidAgeTextsEmpty(t);
    InvalidDateTextsEmpty(t);
  }
}
