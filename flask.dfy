/**
 * Flask.py's `validate_file`: six rules over a table read with `dtype=str`,
 * filling the six lists of `validation_results`.
 */
module Flask {
  import opened Lists
  import opened Tables
  import opened Text
  import opened Duplicates
  import opened Rules

  /** `{"row": ..., "column": ..., "value": ..., "invalid_chars": ...}`. */
  datatype NonAsciiCell = NonAsciiCell(row: int, column: string, value: string, invalidChars: string)

  /** `validation_results`, its six lists in the order of the dictionary. */
  datatype Errors = Errors(
    blankCells: seq<RowColumns>,
    nonEnglishChars: seq<NonAsciiCell>,
    duplicateGtis: seq<Cluster>,
    invalidCountryLanguage: seq<CodePair>,
    invalidAgeRating: seq<AgeRatingText>,
    invalidDateFormat: seq<RatingDateText>)

  const NoErrors := Errors([], [], [], [], [], [])

  // ---------------------------------------------------------------------
  // Rule 2: the non-ASCII characters of each cell
  // ---------------------------------------------------------------------

  /** `find_non_english_chars(x) if pd.notna(x) else ""` for the cell. */
  function InvalidChars(v: Option<string>): string
  {
    if v.Some? then NonAsciiChars(v.value) else ""
  }

  /** An entry for row p.row, column c when the cell's extraction is non-empty. */
  function NonAsciiAt(p: RowAt, c: string): seq<NonAsciiCell>
  {
    var chars := InvalidChars(CellAt(p, c));
    if chars != "" then [NonAsciiCell(p.row + 2, c, Str(CellAt(p, c)), chars)] else []
  }

  function NonAsciiRow(t: Table, i: nat): seq<NonAsciiCell>
  {
    Concat(RowAt(t, i), t.columns, NonAsciiAt)
  }

  /** `non_english_chars`, row by row and, within a row, in header order. */
  function NonAsciiCells(t: Table): seq<NonAsciiCell>
  {
    Gather(t, |t.rows|, NonAsciiRow)
  }

  predicate HasNonAsciiCell(t: Table, i: nat)
  {
    exists c :: c in t.columns && Cell(t, i, c).Some? && HasNonAscii(Cell(t, i, c).value)
  }

  /** The cell an entry describes: present at row number index + 2, holding a
      character above 0x7F, with its extraction as `invalid_chars`. */
  predicate DescribesNonAsciiCell(t: Table, e: NonAsciiCell)
  {
    && 2 <= e.row < |t.rows| + 2 && e.column in t.columns
    && Cell(t, e.row - 2, e.column) == Some(e.value) && HasNonAscii(e.value)
    && e.invalidChars == NonAsciiChars(e.value)
  }

  /** An entry is emitted exactly for each present cell with a character
      above 0x7F. */
  lemma NonAsciiCellsMember(t: Table, e: NonAsciiCell)
    ensures e in NonAsciiCells(t) <==> DescribesNonAsciiCell(t, e)
  {
    if e in NonAsciiCells(t) {
      NonAsciiCellsSound(t, e);
    }
    if DescribesNonAsciiCell(t, e) {
      NonAsciiCellsComplete(t, e);
    }
  }

  lemma NonAsciiCellsSound(t: Table, e: NonAsciiCell)
    requires e in NonAsciiCells(t)
    ensures DescribesNonAsciiCell(t, e)
  {
    GatherMember(t, |t.rows|, NonAsciiRow, e);
    var i :| 0 <= i < |t.rows| && e in NonAsciiRow(t, i);
    ConcatMember(RowAt(t, i), t.columns, NonAsciiAt, e);
    var k :| 0 <= k < |t.columns| && e in NonAsciiAt(RowAt(t, i), t.columns[k]);
    NonAsciiAtMember(RowAt(t, i), t.columns[k], e);
  }

  lemma NonAsciiCellsComplete(t: Table, e: NonAsciiCell)
    requires DescribesNonAsciiCell(t, e)
    ensures e in NonAsciiCells(t)
  {
    var i: nat := e.row - 2;
    var k :| 0 <= k < |t.columns| && t.columns[k] == e.column;
    NonAsciiAtMember(RowAt(t, i), t.columns[k], e);
    assert e in NonAsciiAt(RowAt(t, i), t.columns[k]);
    ConcatMember(RowAt(t, i), t.columns, NonAsciiAt, e);
    assert e in NonAsciiRow(t, i);
    GatherMember(t, |t.rows|, NonAsciiRow, e);
  }

  lemma NonAsciiAtMember(p: RowAt, c: string, e: NonAsciiCell)
    ensures e in NonAsciiAt(p, c) <==>
      e.row == p.row + 2 && e.column == c && CellAt(p, c) == Some(e.value) && HasNonAscii(e.value)
      && e.invalidChars == NonAsciiChars(e.value)
  {
    if CellAt(p, c).Some? {
      NonAsciiCharsEmpty(CellAt(p, c).value);
    }
  }

  /** `invalid_chars` holds exactly the characters of the value above 0x7F. */
  lemma InvalidCharsOfEntry(t: Table, e: NonAsciiCell, ch: char)
    requires e in NonAsciiCells(t)
    ensures e.invalidChars != ""
    ensures ch in e.invalidChars <==> ch in e.value && !IsAsciiChar(ch)
  {
    NonAsciiCellsMember(t, e);
    NonAsciiCharsMember(e.value, ch);
    NonAsciiCharsEmpty(e.value);
  }

  /** Rows never go back along the list. */
  lemma NonAsciiCellsOrder(t: Table)
    ensures forall a, b :: 0 <= a < b < |NonAsciiCells(t)| ==> NonAsciiCells(t)[a].row <= NonAsciiCells(t)[b].row
  {
    forall i, e | 0 <= i < |t.rows| && e in NonAsciiRow(t, i)
      ensures e.row == 2 + i
    {
      ConcatMember(RowAt(t, i), t.columns, NonAsciiAt, e);
    }
    GatherAscending(t, |t.rows|, NonAsciiRow, (e: NonAsciiCell) => e.row, 2);
  }

  /** Nothing is reported exactly when no present cell has a character above 0x7F. */
  lemma NonAsciiCellsEmpty(t: Table)
    ensures NonAsciiCells(t) == [] <==> forall i :: 0 <= i < |t.rows| ==> !HasNonAsciiCell(t, i)
  {
    GatherEmpty(t, |t.rows|, NonAsciiRow);
    forall i | 0 <= i < |t.rows|
      ensures NonAsciiRow(t, i) == [] <==> !HasNonAsciiCell(t, i)
    {
      ConcatEmpty(RowAt(t, i), t.columns, NonAsciiAt);
      forall c | c in t.columns && Cell(t, i, c).Some?
        ensures NonAsciiAt(RowAt(t, i), c) == [] <==> !HasNonAscii(Cell(t, i, c).value)
      {
        NonAsciiCharsEmpty(Cell(t, i, c).value);
      }
    }
  }

  /** Lines 53-64: the mask, then every row and its non-empty columns. */
  method NonAsciiCellsRule(t: Table) returns (entries: seq<NonAsciiCell>)
    ensures entries == NonAsciiCells(t)
  {
    entries := [];
    for row := 0 to |t.rows|
      invariant entries == Gather(t, row, NonAsciiRow)
    {
      var found := NonAsciiRowRule(t, row);
      entries := entries + found;
    }
  }

  /** One row of the scan: its cells, column by column. */
  method NonAsciiRowRule(t: Table, row: nat) returns (found: seq<NonAsciiCell>)
    ensures found == NonAsciiRow(t, row)
  {
    found := [];
    for k := 0 to |t.columns|
      invariant found == Concat(RowAt(t, row), t.columns[..k], NonAsciiAt)
    {
      ConcatStep(RowAt(t, row), t.columns, k, NonAsciiAt);
      var col := t.columns[k];
      var chars := InvalidChars(Cell(t, row, col));
      if chars != "" {
        found := found + [NonAsciiCell(row + 2, col, Str(Cell(t, row, col)), chars)];
      }
    }
    assert t.columns[..|t.columns|] == t.columns;
  }

  // ---------------------------------------------------------------------
  // The whole validation
  // ---------------------------------------------------------------------

  /** `validate_file` on a loaded table. */
  function Validate(t: Table): Errors
  {
    Errors(AbsentCellRows(t), NonAsciiCells(t), Clusters(t), InvalidCodePairs(t), InvalidAgeTexts(t), InvalidDateTexts(t))
  }

  /** The rules in the order of the source. */
  method ValidateFile(t: Table) returns (r: Errors)
    ensures r == Validate(t)
  {
    var blank := AbsentCellRowsRule(t);
    var nonEnglish := NonAsciiCellsRule(t);
    var duplicates := ClustersRule(t);
    var codes := InvalidCodePairsRule(t);
    var age := InvalidAgeTextsRule(t);
    var date := InvalidDateTextsRule(t);
    r := Errors(blank, nonEnglish, duplicates, codes, age, date);
  }

  /** A table passes every rule. */
  ghost predicate Clean(t: Table)
  {
    && (forall i :: 0 <= i < |t.rows| ==> !HasAbsentCell(t, i))
    && (forall i :: 0 <= i < |t.rows| ==> !HasNonAsciiCell(t, i))
    && (GtiColumn in t.columns ==> forall g :: multiset(ColumnValues(t, GtiColumn))[Some(g)] < 2)
    && (CountriesColumn in t.columns && LanguagesColumn in t.columns ==>
          forall i :: 0 <= i < |t.rows| ==> CodesValid(t, i))
    && (AgeRatingColumn in t.columns ==> forall i :: 0 <= i < |t.rows| ==> AgeTextValid(Cell(t, i, AgeRatingColumn)))
    && (RatingDateColumn in t.columns ==>
          forall i :: 0 <= i < |t.rows| ==> MatchesLooseDate(Str(Cell(t, i, RatingDateColumn))))
  }

  /** The six lists start empty and only grow, so all six are empty exactly
      when the table passes every rule. */
  lemma ValidateCleanTable(t: Table)
    ensures Validate(t) == NoErrors <==> Clean(t)
  {
    AbsentCellRowsEmpty(t);
    NonAsciiCellsEmpty(t);
    if GtiColumn in t.columns {
      ClustersEmpty(t);
    }
    InvalidCodePairsEmpty(t);
    InvalidAgeTextsEmpty(t);
    InvalidDateTextsEmpty(t);
  }
}
