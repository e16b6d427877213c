/**
 * Flask2.py's `validate_file`: six rules over a table read with `dtype=str`,
 * filling the six lists of `validation_results["errors"]`.
 */
module Flask2 {
  import opened Lists
  import opened Tables
  import opened Text
  import opened Duplicates
  import opened Rules

  /** The one column whose absence alone does not report a row. */
  const OtherTitleColumn := "Other Title Name(s)"

  /** `{"row": ..., "column": ..., "invalid_chars": ...}`. */
  datatype InvalidCharsCell = InvalidCharsCell(row: int, column: string, invalidChars: string)

  /** `{"row": ..., "Age Rating ID": ...}`, the raw cell. */
  datatype AgeRating = AgeRating(row: int, ageRatingId: Option<string>)

  /** `validation_results["errors"]`, its six lists in the order of the dictionary. */
  datatype Errors = Errors(
    blankCells: seq<RowColumns>,
    nonEnglishCharacters: seq<InvalidCharsCell>,
    duplicateGti: seq<Cluster>,
    invalidCountryLanguage: seq<CodePair>,
    invalidAgeRating: seq<AgeRating>,
    invalidDateFormat: seq<RatingDate>)

  const NoErrors := Errors([], [], [], [], [], [])

  // ---------------------------------------------------------------------
  // Rule 1: rows with an absent checked cell, listing all absent columns
  // ---------------------------------------------------------------------

  /** Row i is absent in some column other than the exempt one. */
  predicate HasAbsentChecked(t: Table, i: nat)
  {
    exists c :: c in t.columns && c != OtherTitleColumn && Cell(t, i, c).None?
  }

  /** [c] when row p.row is absent in column c. */
  function AbsentAt(p: RowAt, c: string): seq<string>
  {
    if CellAt(p, c).None? then [c] else []
  }

  /** `df.columns[df.loc[row].isnull()]`: every absent column of row i, the
      exempt one included. */
  function RowAbsentColumns(t: Table, i: nat): seq<string>
  {
    Concat(RowAt(t, i), t.columns, AbsentAt)
  }

  function BlankRow(t: Table, i: nat): seq<RowColumns>
  {
    if HasAbsentChecked(t, i) then [RowColumns(i + 2, RowAbsentColumns(t, i))] else []
  }

  function BlankCells(t: Table): seq<RowColumns>
  {
    Gather(t, |t.rows|, BlankRow)
  }

  /** A column is listed exactly when the row is absent there. */
  lemma RowAbsentColumnsMember(t: Table, i: nat, c: string)
    ensures c in RowAbsentColumns(t, i) <==> c in t.columns && Cell(t, i, c).None?
  {
    ConcatMember(RowAt(t, i), t.columns, AbsentAt, c);
  }

  /** A row is reported exactly when a column other than the exempt one is
      absent in it. */
  lemma BlankCellsReported(t: Table, i: nat)
    requires i < |t.rows|
    ensures (exists e :: e in BlankCells(t) && e.row == i + 2) <==> HasAbsentChecked(t, i)
  {
    if BlankRow(t, i) != [] {
      var e := BlankRow(t, i)[0];
      GatherMember(t, |t.rows|, BlankRow, e);
      assert e in BlankCells(t) && e.row == i + 2;
    }
    if exists e :: e in BlankCells(t) && e.row == i + 2 {
      var e :| e in BlankCells(t) && e.row == i + 2;
      GatherMember(t, |t.rows|, BlankRow, e);
      var j :| 0 <= j < |t.rows| && e in BlankRow(t, j);
      assert j == i;
    }
  }

  /** Each entry lists exactly the absent columns of its row, which may
      include the exempt column; rows ascend. */
  lemma BlankCellsEntries(t: Table)
    ensures forall e :: e in BlankCells(t) ==>
      2 <= e.row < |t.rows| + 2 && e.columns != [] &&
      forall c :: c in e.columns <==> c in t.columns && Cell(t, e.row - 2, c).None?
    ensures forall a, b :: 0 <= a < b < |BlankCells(t)| ==> BlankCells(t)[a].row < BlankCells(t)[b].row
  {
    forall e | e in BlankCells(t)
      ensures 2 <= e.row < |t.rows| + 2 && e.columns != [] &&
        forall c :: c in e.columns <==> c in t.columns && Cell(t, e.row - 2, c).None?
    {
      GatherMember(t, |t.rows|, BlankRow, e);
      var i :| 0 <= i < |t.rows| && e in BlankRow(t, i);
      forall c
        ensures c in e.columns <==> c in t.columns && Cell(t, i, c).None?
      {
        RowAbsentColumnsMember(t, i, c);
      }
      var c :| c in t.columns && c != OtherTitleColumn && Cell(t, i, c).None?;
      assert c in e.columns;
    }
    GatherStrictlyAscending(t, |t.rows|, BlankRow, (e: RowColumns) => e.row, 2);
  }

  /** A row absent only in the exempt column is not reported. */
  lemma ExemptAloneNotReported(t: Table, i: nat)
    requires i < |t.rows| && OtherTitleColumn in t.columns && Cell(t, i, OtherTitleColumn).None?
    requires forall c :: c in t.columns && c != OtherTitleColumn ==> Cell(t, i, c).Some?
    ensures !exists e :: e in BlankCells(t) && e.row == i + 2
  {
    BlankCellsReported(t, i);
  }

  lemma BlankCellsEmpty(t: Table)
    ensures BlankCells(t) == [] <==> forall i :: 0 <= i < |t.rows| ==> !HasAbsentChecked(t, i)
  {
    GatherEmpty(t, |t.rows|, BlankRow);
    assert forall i :: 0 <= i < |t.rows| ==> (BlankRow(t, i) == [] <==> !HasAbsentChecked(t, i));
  }

  /** Lines 33-41: the selected rows, then each one's absent columns. */
  method BlankCellsRule(t: Table) returns (entries: seq<RowColumns>)
    ensures entries == BlankCells(t)
  {
    entries := [];
    for row := 0 to |t.rows|
      invariant entries == Gather(t, row, BlankRow)
    {
      if HasAbsentChecked(t, row) {
        var missing := [];
        for k := 0 to |t.columns|
          invariant missing == Concat(RowAt(t, row), t.columns[..k], AbsentAt)
        {
          ConcatStep(RowAt(t, row), t.columns, k, AbsentAt);
          if Cell(t, row, t.columns[k]).None? {
            missing := missing + [t.columns[k]];
          }
        }
        assert t.columns[..|t.columns|] == t.columns;
        entries := entries + [RowColumns(row + 2, missing)];
      }
    }
  }

  // ---------------------------------------------------------------------
  // Rule 2: the non-ASCII characters of each cell
  // ---------------------------------------------------------------------

  /** An entry for row p.row, column c when the present cell has characters
      above 0x7F; absent cells contribute nothing. */
  function InvalidCharsAt(p: RowAt, c: string): seq<InvalidCharsCell>
  {
    var v := CellAt(p, c);
    if v.Some? && NonAsciiChars(v.value) != "" then [InvalidCharsCell(p.row + 2, c, NonAsciiChars(v.value))] else []
  }

  function InvalidCharsRow(t: Table, i: nat): seq<InvalidCharsCell>
  {
    Concat(RowAt(t, i), t.columns, InvalidCharsAt)
  }

  /** `non_english_characters`, row-major. */
  function InvalidCharsCells(t: Table): seq<InvalidCharsCell>
  {
    Gather(t, |t.rows|, InvalidCharsRow)
  }

  predicate HasNonAsciiCell(t: Table, i: nat)
  {
    exists c :: c in t.columns && Cell(t, i, c).Some? && HasNonAscii(Cell(t, i, c).value)
  }

  /** The cell an entry describes: present at row number index + 2, holding a
      character above 0x7F, with `invalid_chars` its in-order extraction. */
  predicate DescribesInvalidChars(t: Table, e: InvalidCharsCell)
  {
    && 2 <= e.row < |t.rows| + 2 && e.column in t.columns
    && Cell(t, e.row - 2, e.column).Some? && HasNonAscii(Cell(t, e.row - 2, e.column).value)
    && e.invalidChars == NonAsciiChars(Cell(t, e.row - 2, e.column).value)
  }

  lemma InvalidCharsAtMember(p: RowAt, c: string, e: InvalidCharsCell)
    ensures e in InvalidCharsAt(p, c) <==>
      e.row == p.row + 2 && e.column == c && CellAt(p, c).Some? && HasNonAscii(CellAt(p, c).value)
      && e.invalidChars == NonAsciiChars(CellAt(p, c).value)
  {
    if CellAt(p, c).Some? {
      NonAsciiCharsEmpty(CellAt(p, c).value);
    }
  }

  /** An entry is emitted exactly for each present cell with a character
      above 0x7F. */
  lemma InvalidCharsCellsMember(t: Table, e: InvalidCharsCell)
    ensures e in InvalidCharsCells(t) <==> DescribesInvalidChars(t, e)
  {
    if e in InvalidCharsCells(t) {
      GatherMember(t, |t.rows|, InvalidCharsRow, e);
      var i :| 0 <= i < |t.rows| && e in InvalidCharsRow(t, i);
      ConcatMember(RowAt(t, i), t.columns, InvalidCharsAt, e);
      var k :| 0 <= k < |t.columns| && e in InvalidCharsAt(RowAt(t, i), t.columns[k]);
      InvalidCharsAtMember(RowAt(t, i), t.columns[k], e);
    }
    if DescribesInvalidChars(t, e) {
      var i: nat := e.row - 2;
      var k :| 0 <= k < |t.columns| && t.columns[k] == e.column;
      InvalidCharsAtMember(RowAt(t, i), t.columns[k], e);
      assert e in InvalidCharsAt(RowAt(t, i), t.columns[k]);
      ConcatMember(RowAt(t, i), t.columns, InvalidCharsAt, e);
      assert e in InvalidCharsRow(t, i);
      GatherMember(t, |t.rows|, InvalidCharsRow, e);
    }
  }

  /** Row-major: rows never go back along the list, and within a row the
      columns follow the header. */
  lemma InvalidCharsCellsOrder(t: Table)
    ensures forall a, b :: 0 <= a < b < |InvalidCharsCells(t)| ==> InvalidCharsCells(t)[a].row <= InvalidCharsCells(t)[b].row
    ensures DistinctColumns(t) ==> forall a, b :: 0 <= a < b < |InvalidCharsCells(t)| && InvalidCharsCells(t)[a].row == InvalidCharsCells(t)[b].row ==>
      ColumnIndex(t.columns, InvalidCharsCells(t)[a].column) < ColumnIndex(t.columns, InvalidCharsCells(t)[b].column)
  {
    forall i, e | 0 <= i < |t.rows| && e in InvalidCharsRow(t, i)
      ensures e.row == 2 + i
    {
      ConcatMember(RowAt(t, i), t.columns, InvalidCharsAt, e);
    }
    GatherAscending(t, |t.rows|, InvalidCharsRow, (e: InvalidCharsCell) => e.row, 2);
    if DistinctColumns(t) {
      var key := (e: InvalidCharsCell) => ColumnIndex(t.columns, e.column);
      forall i | 0 <= i < |t.rows|
        ensures forall a, b :: 0 <= a < b < |InvalidCharsRow(t, i)| ==> key(InvalidCharsRow(t, i)[a]) < key(InvalidCharsRow(t, i)[b])
      {
        InvalidCharsRowColumns(t, i);
      }
      GatherBlocksOrdered(t, |t.rows|, InvalidCharsRow, (e: InvalidCharsCell) => e.row, 2, key);
    }
  }

  /** One row's entries follow the header's column order. */
  lemma InvalidCharsRowColumns(t: Table, i: nat)
    requires DistinctColumns(t)
    ensures forall a, b :: 0 <= a < b < |InvalidCharsRow(t, i)| ==>
      ColumnIndex(t.columns, InvalidCharsRow(t, i)[a].column) < ColumnIndex(t.columns, InvalidCharsRow(t, i)[b].column)
  {
    var key := (e: InvalidCharsCell) => ColumnIndex(t.columns, e.column);
    forall k, e | 0 <= k < |t.columns| && e in InvalidCharsAt(RowAt(t, i), t.columns[k])
      ensures key(e) == k
    {
      ColumnIndexAt(t, k);
    }
    ConcatOrdered(RowAt(t, i), t.columns, InvalidCharsAt, key);
  }

  lemma InvalidCharsCellsEmpty(t: Table)
    ensures InvalidCharsCells(t) == [] <==> forall i :: 0 <= i < |t.rows| ==> !HasNonAsciiCell(t, i)
  {
    GatherEmpty(t, |t.rows|, InvalidCharsRow);
    forall i | 0 <= i < |t.rows|
      ensures InvalidCharsRow(t, i) == [] <==> !HasNonAsciiCell(t, i)
    {
      ConcatEmpty(RowAt(t, i), t.columns, InvalidCharsAt);
      forall c | c in t.columns && Cell(t, i, c).Some?
        ensures InvalidCharsAt(RowAt(t, i), c) == [] <==> !HasNonAscii(Cell(t, i, c).value)
      {
        NonAsciiCharsEmpty(Cell(t, i, c).value);
      }
    }
  }

  /** Lines 44-52: every row of the mask, then every cell of the row. */
  method InvalidCharsCellsRule(t: Table) returns (entries: seq<InvalidCharsCell>)
    ensures entries == InvalidCharsCells(t)
  {
    entries := [];
    for row := 0 to |t.rows|
      invariant entries == Gather(t, row, InvalidCharsRow)
    {
      var found := InvalidCharsRowRule(t, row);
      entries := entries + found;
    }
  }

  /** One row of the scan: its cells, column by column. */
  method InvalidCharsRowRule(t: Table, row: nat) returns (found: seq<InvalidCharsCell>)
    ensures found == InvalidCharsRow(t, row)
  {
    found := [];
    for k := 0 to |t.columns|
      invariant found == Concat(RowAt(t, row), t.columns[..k], InvalidCharsAt)
    {
      ConcatStep(RowAt(t, row), t.columns, k, InvalidCharsAt);
      var col := t.columns[k];
      var v := Cell(t, row, col);
      var chars := if v.Some? then NonAsciiChars(v.value) else "";
      if chars != "" {
        found := found + [InvalidCharsCell(row + 2, col, chars)];
      }
    }
    assert t.columns[..|t.columns|] == t.columns;
  }

  // ---------------------------------------------------------------------
  // Rule 5: Age Rating ID as text, reported raw
  // ---------------------------------------------------------------------

  function AgeRatingRow(t: Table, i: nat): seq<AgeRating>
  {
    var v := Cell(t, i, AgeRatingColumn);
    if AgeTextValid(v) then [] else [AgeRating(i + 2, v)]
  }

  function InvalidAgeRating(t: Table): seq<AgeRating>
  {
    if AgeRatingColumn in t.columns then Gather(t, |t.rows|, AgeRatingRow) else []
  }

  /** A row is flagged exactly when its value is absent or not one of the
      four texts. */
  lemma InvalidAgeRatingReported(t: Table, i: nat)
    requires AgeRatingColumn in t.columns && i < |t.rows|
    ensures (exists e :: e in InvalidAgeRating(t) && e.row == i + 2) <==>
      Cell(t, i, AgeRatingColumn).None? || Cell(t, i, AgeRatingColumn).value !in AgeRatingTexts
  {
    if AgeRatingRow(t, i) != [] {
      var e := AgeRatingRow(t, i)[0];
      GatherMember(t, |t.rows|, AgeRatingRow, e);
      assert e in InvalidAgeRating(t) && e.row == i + 2;
    }
    if exists e :: e in InvalidAgeRating(t) && e.row == i + 2 {
      var e :| e in InvalidAgeRating(t) && e.row == i + 2;
      GatherMember(t, |t.rows|, AgeRatingRow, e);
      var j :| 0 <= j < |t.rows| && e in AgeRatingRow(t, j);
      assert j == i;
    }
  }

  /** Each entry carries its row's raw cell; rows ascend. */
  lemma InvalidAgeRatingEntries(t: Table)
    ensures forall e :: e in InvalidAgeRating(t) ==>
      2 <= e.row < |t.rows| + 2 && e.ageRatingId == Cell(t, e.row - 2, AgeRatingColumn)
    ensures forall a, b :: 0 <= a < b < |InvalidAgeRating(t)| ==> InvalidAgeRating(t)[a].row < InvalidAgeRating(t)[b].row
  {
    if AgeRatingColumn in t.columns {
      forall e | e in InvalidAgeRating(t)
        ensures 2 <= e.row < |t.rows| + 2 && e.ageRatingId == Cell(t, e.row - 2, AgeRatingColumn)
      {
        GatherMember(t, |t.rows|, AgeRatingRow, e);
      }
      GatherStrictlyAscending(t, |t.rows|, AgeRatingRow, (e: AgeRating) => e.row, 2);
    }
  }

  lemma InvalidAgeRatingEmpty(t: Table)
    ensures InvalidAgeRating(t) == [] <==>
      (AgeRatingColumn in t.columns ==> forall i :: 0 <= i < |t.rows| ==> AgeTextValid(Cell(t, i, AgeRatingColumn)))
  {
    GatherEmpty(t, |t.rows|, AgeRatingRow);
    assert forall i :: 0 <= i < |t.rows| ==> (AgeRatingRow(t, i) == [] <==> AgeTextValid(Cell(t, i, AgeRatingColumn)));
  }

  /** Lines 75-82. */
  method InvalidAgeRatingRule(t: Table) returns (entries: seq<AgeRating>)
    ensures entries == InvalidAgeRating(t)
  {
    entries := [];
    if AgeRatingColumn in t.columns {
      for row := 0 to |t.rows|
        invariant entries == Gather(t, row, AgeRatingRow)
      {
        var v := Cell(t, row, AgeRatingColumn);
        if !(v.Some? && v.value in AgeRatingTexts) {
          entries := entries + [AgeRating(row + 2, v)];
        }
      }
    }
  }

  // ---------------------------------------------------------------------
  // The whole validation
  // ---------------------------------------------------------------------

  /** `validate_file` on a loaded table. */
  function Validate(t: Table): Errors
    requires CodesPresent(t)
  {
    Errors(BlankCells(t), InvalidCharsCells(t), Clusters(t), InvalidCodePairs(t), InvalidAgeRating(t), InvalidDateFormat(t))
  }

  /** The rules in the order of the source. */
  method ValidateFile(t: Table) returns (r: Errors)
    requires CodesPresent(t)
    ensures r == Validate(t)
  {
    var blank := BlankCellsRule(t);
    var nonEnglish := InvalidCharsCellsRule(t);
    var duplicates := ClustersRule(t);
    var codes := InvalidCodePairsRule(t);
    var age := InvalidAgeRatingRule(t);
    var date := InvalidDateFormatRule(t);
    r := Errors(blank, nonEnglish, duplicates, codes, age, date);
  }

  /** A table passes every rule. */
  ghost predicate Clean(t: Table)
  {
    && (forall i :: 0 <= i < |t.rows| ==> !HasAbsentChecked(t, i))
    && (forall i :: 0 <= i < |t.rows| ==> !HasNonAsciiCell(t, i))
    && (GtiColumn in t.columns ==> forall g :: multiset(ColumnValues(t, GtiColumn))[Some(g)] < 2)
    && (CountriesColumn in t.columns && LanguagesColumn in t.columns ==>
          forall i :: 0 <= i < |t.rows| ==> CodesValid(t, i))
    && (AgeRatingColumn in t.columns ==> forall i :: 0 <= i < |t.rows| ==> AgeTextValid(Cell(t, i, AgeRatingColumn)))
    && (RatingDateColumn in t.columns ==>
          forall i :: 0 <= i < |t.rows| ==> MatchesLooseDate(Str(Cell(t, i, RatingDateColumn))))
  }

  /** The six lists start empty and only grow, so all six are empty exactly
      when the table passes every rule. */
  lemma ValidateCleanTable(t: Table)
    requires CodesPresent(t)
    ensures Validate(t) == NoErrors <==> Clean(t)
  {
    BlankCellsEmpty(t);
    InvalidCharsCellsEmpty(t);
    if GtiColumn in t.columns {
      ClustersEmpty(t);
    }
    InvalidCodePairsEmpty(t);
    InvalidAgeRatingEmpty(t);
    DateFormatEmpty(t);
  }
}
