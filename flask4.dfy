/**
 * Flask4.py's `validate_file`: seven rules over a table read without
 * `dtype=str`, each appending to its own list in `validation_results["errors"]`.
 *
 * The table is read with pandas' type inference, so Age Rating ID arrives as
 * a number: here its cells are integer text that the rule converts. Every
 * other cell is text as in the other variants.
 */
module Flask4 {
  import opened Lists
  import opened Tables
  import opened Text
  import opened Duplicates
  import opened Rules

  /** The one column the blank-cell rule skips. */
  const OtherTitleColumn := "Other Title Name(s)"

  /** `{"GTI": ..., "rows": [...], "values": [...]}` of `duplicate_gtis`. */
  datatype DuplicateGti = DuplicateGti(gti: string, rows: seq<int>, values: seq<string>)

  /** `{"row": ..., "Countries": ..., "Languages": ...}`, raw cells. */
  datatype CountryLanguage = CountryLanguage(row: int, countries: Option<string>, languages: Option<string>)

  /** `{"row": ..., "Age Rating ID": ...}`, the numeric cell. */
  datatype AgeRating = AgeRating(row: int, ageRatingId: Option<int>)

  /** `validation_results["errors"]`, its seven lists in the order of the dictionary. */
  datatype Errors = Errors(
    blankCells: seq<RowColumns>,
    nonEnglishChars: seq<NonEnglishCell>,
    duplicateGtis: seq<DuplicateGti>,
    invalidCountryLanguage: seq<CountryLanguage>,
    invalidAgeRating: seq<AgeRating>,
    invalidDateFormat: seq<RatingDate>,
    missingContentDescriptors: seq<RowColumns>)

  /** The report before any rule has run. */
  const NoErrors := Errors([], [], [], [], [], [], [])

  // ---------------------------------------------------------------------
  // Age Rating ID as a number
  // ---------------------------------------------------------------------

  /** Text of an integer, as a numeric column holds it: digits, perhaps after a '-'. */
  predicate IsIntText(s: string)
  {
    IsDigitString(s) || (|s| >= 2 && s[0] == '-' && IsDigitString(s[1..]))
  }

  /** The decimal value of a digit string. */
  function DigitsValue(s: string): int
  {
    if s == [] then 0 else 10 * DigitsValue(s[..|s| - 1]) + DigitValue(s[|s| - 1])
  }

  function IntValue(s: string): int
  {
    if |s| >= 1 && s[0] == '-' then -DigitsValue(s[1..]) else DigitsValue(s)
  }

  /** The Age Rating ID cell as the number pandas holds. */
  function AgeValue(v: Option<string>): Option<int>
  {
    if v.Some? then Some(IntValue(v.value)) else None
  }

  /** The column is numeric: every present Age Rating ID is an integer. */
  predicate AgesAreIntegers(t: Table)
  {
    forall i :: 0 <= i < |t.rows| && Cell(t, i, AgeRatingColumn).Some? ==> IsIntText(Cell(t, i, AgeRatingColumn).value)
  }

  /** Leading zeros vanish in a numeric column, so "02" is accepted here,
      while the variants that compare text reject it; "-1" (what an absent
      cell is filled with) is rejected. */
  lemma AgeCoercionExamples()
    ensures IsIntText("02") && IntValue("02") in AgeRatingNumbers && "02" !in AgeRatingTexts
    ensures IsIntText("154") && IntValue("154") in AgeRatingNumbers
    ensures IsIntText("-1") && IntValue("-1") !in AgeRatingNumbers
  {
    assert "02"[..1] == "0" && "0"[..0] == "";
    assert "154"[..2] == "15" && "15"[..1] == "1" && "1"[..0] == "";
    assert "-1"[1..] == "1" && "1"[..0] == "";
  }

  // ---------------------------------------------------------------------
  // Rule 1: blank cells, except "Other Title Name(s)" and the impact columns
  // ---------------------------------------------------------------------

  /** [c] when row p.row is blank (absent or "") in c and c is neither the
      exempt column nor an impact column. */
  function BlankNonDescriptor(p: RowAt, c: string): seq<string>
  {
    if c != OtherTitleColumn && c !in ImpactColumns && IsBlank(CellAt(p, c)) then [c] else []
  }

  /** The columns a `blank_cells` entry for row i lists, in header order. */
  function BlankColumns(t: Table, i: nat): seq<string>
  {
    Concat(RowAt(t, i), t.columns, BlankNonDescriptor)
  }

  function BlankRow(t: Table, i: nat): seq<RowColumns>
  {
    var missing := BlankColumns(t, i);
    if missing != [] then [RowColumns(i + 2, missing)] else []
  }

  /** `blank_cells`, with the exempt column left out of the lookups (see BlankCellsAsWritten). */
  function BlankCells(t: Table): seq<RowColumns>
  {
    Gather(t, |t.rows|, BlankRow)
  }

  /** Row i has a checked column that is absent or "". */
  predicate HasBlankChecked(t: Table, i: nat)
  {
    exists c :: c in t.columns && c != OtherTitleColumn && c !in ImpactColumns && IsBlank(Cell(t, i, c))
  }

  /** A column is listed for a row exactly when it is one of the checked
      columns and the row's cell there is absent or empty. */
  lemma BlankColumnsMember(t: Table, i: nat, c: string)
    ensures c in BlankColumns(t, i) <==>
      c in t.columns && c != OtherTitleColumn && c !in ImpactColumns && IsBlank(Cell(t, i, c))
  {
    ConcatMember(RowAt(t, i), t.columns, BlankNonDescriptor, c);
  }

  /** A row is reported exactly when some checked column is blank in it. */
  lemma BlankCellsReported(t: Table, i: nat)
    requires i < |t.rows|
    ensures (exists e :: e in BlankCells(t) && e.row == i + 2) <==> HasBlankChecked(t, i)
  {
    BlankRowReported(t, i);
    if BlankRow(t, i) != [] {
      var e := BlankRow(t, i)[0];
      GatherMember(t, |t.rows|, BlankRow, e);
      assert e in BlankCells(t) && e.row == i + 2;
    }
    if exists e :: e in BlankCells(t) && e.row == i + 2 {
      var e :| e in BlankCells(t) && e.row == i + 2;
      GatherMember(t, |t.rows|, BlankRow, e);
      var j :| 0 <= j < |t.rows| && e in BlankRow(t, j);
      assert j == i;
    }
  }

  /** Each entry has row number index + 2 and lists exactly the checked
      columns blank in that row; rows are reported in ascending order. */
  lemma BlankCellsEntries(t: Table)
    ensures forall e :: e in BlankCells(t) ==>
      2 <= e.row < |t.rows| + 2 && e.columns != [] &&
      forall c :: c in e.columns <==> c in t.columns && c != OtherTitleColumn && c !in ImpactColumns && IsBlank(Cell(t, e.row - 2, c))
    ensures forall a, b :: 0 <= a < b < |BlankCells(t)| ==> BlankCells(t)[a].row < BlankCells(t)[b].row
  {
    forall e | e in BlankCells(t)
      ensures 2 <= e.row < |t.rows| + 2 && e.columns != [] &&
        forall c :: c in e.columns <==> c in t.columns && c != OtherTitleColumn && c !in ImpactColumns && IsBlank(Cell(t, e.row - 2, c))
    {
      GatherMember(t, |t.rows|, BlankRow, e);
      var i :| 0 <= i < |t.rows| && e in BlankRow(t, i);
      assert e.columns == BlankColumns(t, i);
      forall c
        ensures c in e.columns <==> c in t.columns && c != OtherTitleColumn && c !in ImpactColumns && IsBlank(Cell(t, i, c))
      {
        BlankColumnsMember(t, i, c);
      }
    }
    GatherStrictlyAscending(t, |t.rows|, BlankRow, (e: RowColumns) => e.row, 2);
  }

  lemma BlankRowReported(t: Table, i: nat)
    ensures BlankRow(t, i) != [] <==> HasBlankChecked(t, i)
  {
    if BlankColumns(t, i) != [] {
      BlankColumnsMember(t, i, BlankColumns(t, i)[0]);
    }
    if HasBlankChecked(t, i) {
      var c :| c in t.columns && c != OtherTitleColumn && c !in ImpactColumns && IsBlank(Cell(t, i, c));
      BlankColumnsMember(t, i, c);
    }
  }

  /** Lines 40-50: one pass over the rows, appending an entry for each row
      with blank checked columns. */
  method BlankCellsRule(t: Table) returns (entries: seq<RowColumns>)
    ensures entries == BlankCells(t)
  {
    entries := [];
    for row := 0 to |t.rows|
      invariant entries == Gather(t, row, BlankRow)
    {
      var missing := BlankColumns(t, row);
      if missing != [] {
        entries := entries + [RowColumns(row + 2, missing)];
      }
    }
  }

  // ---------------------------------------------------------------------
  // Rule 1 as written: the lookup `blank_cells.at[row, col]` runs over all of
  // `df.columns`, but the mask has no "Other Title Name(s)" column.
  // ---------------------------------------------------------------------

  /** [c] when c is a column of the mask and row p.row is blank there. */
  function MaskBlank(p: RowAt, c: string): seq<string>
  {
    if c != OtherTitleColumn && IsBlank(CellAt(p, c)) then [c] else []
  }

  /** `blank_cells.any(axis=1)` at row i. */
  predicate RowSelected(t: Table, i: nat)
  {
    Concat(RowAt(t, i), t.columns, MaskBlank) != []
  }

  /** `[col for col in cols if blank_cells.at[row, col]]`: fails on the exempt
      column, which the mask lacks. It is the only failure, so the result
      does not depend on the order in which the columns are tried. */
  function MaskLookupAsWritten(t: Table, i: nat, cols: seq<string>): Result<seq<string>>
  {
    if cols == [] then Ok([])
    else
      match MaskLookupAsWritten(t, i, cols[..|cols| - 1])
      case Err(e) => Err(e)
      case Ok(found) =>
        var c := cols[|cols| - 1];
        if c == OtherTitleColumn then Err(KeyError(c))
        else Ok(found + (if IsBlank(Cell(t, i, c)) then [c] else []))
  }

  predicate NotDescriptor(c: string)
  {
    c !in ImpactColumns
  }

  /** Lines 41-50 for one selected row. */
  function BlankRowAsWritten(t: Table, i: nat): Result<seq<RowColumns>>
  {
    match MaskLookupAsWritten(t, i, t.columns)
    case Err(e) => Err(e)
    case Ok(found) =>
      var missing := Filter(found, NotDescriptor);
      Ok(if missing != [] then [RowColumns(i + 2, missing)] else [])
  }

  /** Lines 40-50 as written, over the first n rows. */
  function BlankCellsAsWrittenUpTo(t: Table, n: nat): Result<seq<RowColumns>>
  {
    if n == 0 then Ok([])
    else
      match BlankCellsAsWrittenUpTo(t, n - 1)
      case Err(e) => Err(e)
      case Ok(acc) =>
        if RowSelected(t, n - 1) then
          match BlankRowAsWritten(t, n - 1)
          case Err(e) => Err(e)
          case Ok(es) => Ok(acc + es)
        else Ok(acc)
  }

  function BlankCellsAsWritten(t: Table): Result<seq<RowColumns>>
  {
    BlankCellsAsWrittenUpTo(t, |t.rows|)
  }

  lemma {:induction false} MaskLookupFails(t: Table, i: nat, cols: seq<string>)
    ensures MaskLookupAsWritten(t, i, cols).Err? <==> OtherTitleColumn in cols
    ensures MaskLookupAsWritten(t, i, cols).Err? ==> MaskLookupAsWritten(t, i, cols).error == KeyError(OtherTitleColumn)
    ensures OtherTitleColumn !in cols ==> MaskLookupAsWritten(t, i, cols) == Ok(Concat(RowAt(t, i), cols, MaskBlank))
  {
    if cols != [] {
      var init := cols[..|cols| - 1];
      MaskLookupFails(t, i, init);
      assert cols == init + [cols[|cols| - 1]];
    }
  }

  /** Dropping the impact columns from the mask's columns leaves the
      corrected column list. */
  lemma {:induction false} FilterMaskBlank(t: Table, i: nat, cols: seq<string>)
    ensures Filter(Concat(RowAt(t, i), cols, MaskBlank), NotDescriptor) == Concat(RowAt(t, i), cols, BlankNonDescriptor)
  {
    if cols != [] {
      var init := cols[..|cols| - 1];
      var c := cols[|cols| - 1];
      FilterMaskBlank(t, i, init);
      FilterAppend(Concat(RowAt(t, i), init, MaskBlank), MaskBlank(RowAt(t, i), c), NotDescriptor);
      assert Filter(MaskBlank(RowAt(t, i), c), NotDescriptor) == BlankNonDescriptor(RowAt(t, i), c) by {
        if MaskBlank(RowAt(t, i), c) != [] {
          assert [c][..0] == [];
        }
      }
    }
  }

  lemma {:induction false} AsWrittenUpToAgrees(t: Table, n: nat)
    requires OtherTitleColumn !in t.columns || forall i :: 0 <= i < n ==> !RowSelected(t, i)
    ensures BlankCellsAsWrittenUpTo(t, n) == Ok(Gather(t, n, BlankRow))
  {
    if n > 0 {
      var i := n - 1;
      AsWrittenUpToAgrees(t, i);
      AsWrittenRowAgrees(t, i);
      var acc, es := Gather(t, i, BlankRow), BlankRow(t, i);
      assert Gather(t, n, BlankRow) == acc + es;
      assert BlankCellsAsWrittenUpTo(t, i) == Ok(acc);
      if RowSelected(t, i) {
        assert BlankRowAsWritten(t, i) == Ok(es);
        assert BlankCellsAsWrittenUpTo(t, n) == Ok(acc + es);
      } else {
        assert acc + es == acc;
      }
    }
  }

  /** One row of the loop: a selected row yields the corrected entry, and an
      unselected row has no blank checked column. */
  lemma AsWrittenRowAgrees(t: Table, i: nat)
    requires OtherTitleColumn !in t.columns || !RowSelected(t, i)
    ensures RowSelected(t, i) ==> BlankRowAsWritten(t, i) == Ok(BlankRow(t, i))
    ensures !RowSelected(t, i) ==> BlankRow(t, i) == []
  {
    if RowSelected(t, i) {
      MaskLookupFails(t, i, t.columns);
      FilterMaskBlank(t, i, t.columns);
    } else {
      ConcatEmpty(RowAt(t, i), t.columns, MaskBlank);
      ConcatEmpty(RowAt(t, i), t.columns, BlankNonDescriptor);
    }
  }

  lemma {:induction false} AsWrittenUpToErrors(t: Table, n: nat)
    ensures BlankCellsAsWrittenUpTo(t, n).Err? ==> BlankCellsAsWrittenUpTo(t, n) == Err(KeyError(OtherTitleColumn))
  {
    if n > 0 {
      AsWrittenUpToErrors(t, n - 1);
      MaskLookupFails(t, n - 1, t.columns);
    }
  }

  lemma {:induction false} AsWrittenUpToRaises(t: Table, n: nat, i: nat)
    requires i < n && OtherTitleColumn in t.columns && RowSelected(t, i)
    ensures BlankCellsAsWrittenUpTo(t, n) == Err(KeyError(OtherTitleColumn))
  {
    AsWrittenUpToErrors(t, n - 1);
    MaskLookupFails(t, n - 1, t.columns);
    if i < n - 1 {
      AsWrittenUpToRaises(t, n - 1, i);
    }
  }

  /** The source raises KeyError exactly when the table has the exempt column
      and some row is blank in a checked column (impact columns included);
      otherwise it reports what the corrected rule reports. */
  lemma BlankCellsAsWrittenOutcome(t: Table)
    ensures (OtherTitleColumn in t.columns && exists i :: 0 <= i < |t.rows| && RowSelected(t, i))
      ==> BlankCellsAsWritten(t) == Err(KeyError(OtherTitleColumn))
    ensures !(OtherTitleColumn in t.columns && exists i :: 0 <= i < |t.rows| && RowSelected(t, i))
      ==> BlankCellsAsWritten(t) == Ok(BlankCells(t))
  {
    if OtherTitleColumn in t.columns && exists i :: 0 <= i < |t.rows| && RowSelected(t, i) {
      var i :| 0 <= i < |t.rows| && RowSelected(t, i);
      AsWrittenUpToRaises(t, |t.rows|, i);
    } else {
      AsWrittenUpToAgrees(t, |t.rows|);
    }
  }

  /** A file with the exempt column and one row whose GTI is missing. */
  const KeyErrorTable := Table([GtiColumn, OtherTitleColumn], [map[GtiColumn := None, OtherTitleColumn := Some("x")]])

  /** On that file the source raises KeyError where the corrected rule
      reports the GTI column. */
  lemma BlankCellsKeyErrorExample()
    ensures BlankCellsAsWritten(KeyErrorTable) == Err(KeyError(OtherTitleColumn))
    ensures BlankCells(KeyErrorTable) == [RowColumns(2, [GtiColumn])]
  {
    KeyErrorTableSelected();
    BlankCellsAsWrittenOutcome(KeyErrorTable);
    KeyErrorTableColumns();
    assert BlankCells(KeyErrorTable) == Gather(KeyErrorTable, 0, BlankRow) + BlankRow(KeyErrorTable, 0);
  }

  lemma KeyErrorTableSelected()
    ensures RowSelected(KeyErrorTable, 0)
  {
    var t := KeyErrorTable;
    var p := RowAt(t, 0);
    assert t.columns[..1] == [GtiColumn] && t.columns[..1][..0] == [];
    assert MaskBlank(p, GtiColumn) == [GtiColumn];
    assert Concat(p, t.columns[..1], MaskBlank) == [GtiColumn];
  }

  lemma KeyErrorTableColumns()
    ensures BlankColumns(KeyErrorTable, 0) == [GtiColumn]
  {
    var t := KeyErrorTable;
    var p := RowAt(t, 0);
    assert t.columns[..1] == [GtiColumn] && t.columns[..1][..0] == [];
    assert BlankNonDescriptor(p, GtiColumn) == [GtiColumn];
    assert BlankNonDescriptor(p, OtherTitleColumn) == [];
    assert Concat(p, t.columns[..1], BlankNonDescriptor) == [GtiColumn];
  }

  // ---------------------------------------------------------------------
  // Rule 2: content descriptors must be present
  // ---------------------------------------------------------------------

  /** [c] when row p.row is absent or "" in impact column c. */
  function BlankDescriptor(p: RowAt, c: string): seq<string>
  {
    if IsBlank(CellAt(p, c)) then [c] else []
  }

  /** `missing_descriptors` for row i, in the order of the impact list. */
  function MissingDescriptors(t: Table, i: nat): seq<string>
  {
    Concat(RowAt(t, i), ImpactColumns, BlankDescriptor)
  }

  function DescriptorRow(t: Table, i: nat): seq<RowColumns>
  {
    var missing := MissingDescriptors(t, i);
    if missing != [] then [RowColumns(i + 2, missing)] else []
  }

  function MissingContentDescriptors(t: Table): seq<RowColumns>
  {
    Gather(t, |t.rows|, DescriptorRow)
  }

  /** Lines 53-62: `df.at[row, col]` raises KeyError for the first impact
      column the table lacks, as soon as there is a row to look at. */
  function DescriptorsOutcome(t: Table): Result<seq<RowColumns>>
  {
    var lacking := LackingColumns(t, ImpactColumns);
    if |t.rows| > 0 && lacking != [] then Err(KeyError(lacking[0])) else Ok(MissingContentDescriptors(t))
  }

  /** Position of an impact column in the fixed list (6 for any other name). */
  function ImpactIndex(c: string): int
  {
    if c == ImpactColumns[0] then 0 else if c == ImpactColumns[1] then 1
    else if c == ImpactColumns[2] then 2 else if c == ImpactColumns[3] then 3
    else if c == ImpactColumns[4] then 4 else if c == ImpactColumns[5] then 5
    else 6
  }

  /** Row i has an impact cell that is absent or "". */
  predicate HasBlankDescriptor(t: Table, i: nat)
  {
    exists c :: c in ImpactColumns && IsBlank(Cell(t, i, c))
  }

  /** An impact column is listed exactly when the row is absent or "" there,
      so the literal "None" never is. */
  lemma MissingDescriptorsMember(t: Table, i: nat)
    ensures forall c :: c in MissingDescriptors(t, i) <==> c in ImpactColumns && IsBlank(Cell(t, i, c))
    ensures forall c :: Cell(t, i, c) == Some("None") ==> c !in MissingDescriptors(t, i)
  {
    forall c
      ensures c in MissingDescriptors(t, i) <==> c in ImpactColumns && IsBlank(Cell(t, i, c))
    {
      ConcatMember(RowAt(t, i), ImpactColumns, BlankDescriptor, c);
    }
  }

  lemma ImpactIndexAt(k: nat)
    requires k < |ImpactColumns|
    ensures ImpactIndex(ImpactColumns[k]) == k
  {
    var c := ImpactColumns[k];
    if k == 0 {
    } else if k == 1 {
      assert c != ImpactColumns[0] by { assert c[0] != ImpactColumns[0][0]; }
    } else if k == 2 {
      assert c != ImpactColumns[0] && c != ImpactColumns[1] by { assert c[0] != ImpactColumns[0][0] && c[0] != ImpactColumns[1][0]; }
    } else if k == 3 {
      assert c != ImpactColumns[0] && c != ImpactColumns[1] && c != ImpactColumns[2] by {
        assert c[0] != ImpactColumns[0][0] && c[0] != ImpactColumns[1][0] && c[0] != ImpactColumns[2][0];
      }
    } else if k == 4 {
      assert c != ImpactColumns[0] && c != ImpactColumns[1] && c != ImpactColumns[2] && c != ImpactColumns[3] by {
        assert c[0] != ImpactColumns[0][0] && c[0] != ImpactColumns[1][0] && c[0] != ImpactColumns[2][0] && c[0] != ImpactColumns[3][0];
      }
    } else {
      assert c != ImpactColumns[0] && c != ImpactColumns[1] && c != ImpactColumns[2] && c != ImpactColumns[3] && c != ImpactColumns[4] by {
        assert c[0] != ImpactColumns[0][0] && c[0] != ImpactColumns[1][0] && c[0] != ImpactColumns[2][0]
          && c[0] != ImpactColumns[3][0] && c[0] != ImpactColumns[4][0];
      }
    }
  }

  /** The listed impact columns follow the fixed order of the list. */
  lemma MissingDescriptorsOrder(t: Table, i: nat)
    ensures forall a, b :: 0 <= a < b < |MissingDescriptors(t, i)| ==>
      ImpactIndex(MissingDescriptors(t, i)[a]) < ImpactIndex(MissingDescriptors(t, i)[b])
  {
    forall k, e | 0 <= k < |ImpactColumns| && e in BlankDescriptor(RowAt(t, i), ImpactColumns[k])
      ensures ImpactIndex(e) == k
    {
      ImpactIndexAt(k);
    }
    ConcatOrdered(RowAt(t, i), ImpactColumns, BlankDescriptor, ImpactIndex);
  }

  /** A row is reported exactly when one of its impact cells is blank. */
  lemma MissingContentDescriptorsReported(t: Table, i: nat)
    requires i < |t.rows|
    ensures (exists e :: e in MissingContentDescriptors(t) && e.row == i + 2) <==> HasBlankDescriptor(t, i)
  {
    DescriptorRowReported(t, i);
    if DescriptorRow(t, i) != [] {
      var e := DescriptorRow(t, i)[0];
      GatherMember(t, |t.rows|, DescriptorRow, e);
      assert e in MissingContentDescriptors(t) && e.row == i + 2;
    }
    if exists e :: e in MissingContentDescriptors(t) && e.row == i + 2 {
      var e :| e in MissingContentDescriptors(t) && e.row == i + 2;
      GatherMember(t, |t.rows|, DescriptorRow, e);
      var j :| 0 <= j < |t.rows| && e in DescriptorRow(t, j);
      assert j == i;
    }
  }

  /** Each entry has row number index + 2 and that row's blank impact
      columns; rows ascend. */
  lemma MissingContentDescriptorsEntries(t: Table)
    ensures forall e :: e in MissingContentDescriptors(t) ==>
      2 <= e.row < |t.rows| + 2 && e.columns == MissingDescriptors(t, e.row - 2) && e.columns != []
    ensures forall a, b :: 0 <= a < b < |MissingContentDescriptors(t)| ==>
      MissingContentDescriptors(t)[a].row < MissingContentDescriptors(t)[b].row
  {
    forall e | e in MissingContentDescriptors(t)
      ensures 2 <= e.row < |t.rows| + 2 && e.columns == MissingDescriptors(t, e.row - 2) && e.columns != []
    {
      DescriptorEntry(t, e);
    }
    DescriptorsAscending(t);
  }

  lemma DescriptorEntry(t: Table, e: RowColumns)
    requires e in MissingContentDescriptors(t)
    ensures 2 <= e.row < |t.rows| + 2 && e.columns == MissingDescriptors(t, e.row - 2) && e.columns != []
  {
    GatherMember(t, |t.rows|, DescriptorRow, e);
    var i :| 0 <= i < |t.rows| && e in DescriptorRow(t, i);
    DescriptorRowFacts(t, i);
    assert e.row - 2 == i;
  }

  lemma DescriptorsAscending(t: Table)
    ensures forall a, b :: 0 <= a < b < |MissingContentDescriptors(t)| ==>
      MissingContentDescriptors(t)[a].row < MissingContentDescriptors(t)[b].row
  {
    var key := (e: RowColumns) => e.row;
    forall i | 0 <= i < |t.rows|
      ensures |DescriptorRow(t, i)| <= 1 && forall e :: e in DescriptorRow(t, i) ==> key(e) == 2 + i
    {
      DescriptorRowFacts(t, i);
    }
    GatherStrictlyAscending(t, |t.rows|, DescriptorRow, key, 2);
  }

  /** Row i contributes at most one entry, numbered i + 2, listing its blank
      impact columns. */
  lemma DescriptorRowFacts(t: Table, i: nat)
    ensures |DescriptorRow(t, i)| <= 1
    ensures forall e :: e in DescriptorRow(t, i) ==> e.row == i + 2 && e.columns == MissingDescriptors(t, i) && e.columns != []
  {
  }

  lemma DescriptorRowReported(t: Table, i: nat)
    ensures DescriptorRow(t, i) != [] <==> HasBlankDescriptor(t, i)
  {
    MissingDescriptorsMember(t, i);
    if MissingDescriptors(t, i) != [] {
      assert MissingDescriptors(t, i)[0] in MissingDescriptors(t, i);
    }
    if HasBlankDescriptor(t, i) {
      var c :| c in ImpactColumns && IsBlank(Cell(t, i, c));
      assert c in MissingDescriptors(t, i);
    }
  }

  /** Lines 53-62: rows, then the impact columns of each row. */
  method MissingContentDescriptorsRule(t: Table) returns (r: Result<seq<RowColumns>>)
    ensures r == DescriptorsOutcome(t)
  {
    ghost var lacking := LackingColumns(t, ImpactColumns);
    var entries := [];
    for row := 0 to |t.rows|
      invariant entries == Gather(t, row, DescriptorRow)
      invariant row > 0 ==> lacking == []
    {
      var scan := MissingDescriptorsRule(t, row);
      if scan.Err? {
        return Err(scan.error);
      }
      var missing := scan.value;
      DescriptorRowStep(t, row, missing);
      if missing != [] {
        entries := entries + [RowColumns(row + 2, missing)];
      }
    }
    r := Ok(entries);
  }

  lemma DescriptorRowStep(t: Table, row: nat, missing: seq<string>)
    requires row < |t.rows| && missing == MissingDescriptors(t, row)
    ensures Gather(t, row + 1, DescriptorRow) == Gather(t, row, DescriptorRow) + (if missing != [] then [RowColumns(row + 2, missing)] else [])
  {
  }

  /** Lines 55-59 for one row: the impact columns in list order, where the
      first one the table lacks raises KeyError. */
  method MissingDescriptorsRule(t: Table, row: nat) returns (r: Result<seq<string>>)
    ensures LackingColumns(t, ImpactColumns) != [] ==> r == Err(KeyError(LackingColumns(t, ImpactColumns)[0]))
    ensures LackingColumns(t, ImpactColumns) == [] ==> r == Ok(MissingDescriptors(t, row))
  {
    var missing := [];
    for k := 0 to |ImpactColumns|
      invariant missing == Concat(RowAt(t, row), ImpactColumns[..k], BlankDescriptor)
      invariant forall j :: 0 <= j < k ==> ImpactColumns[j] in t.columns
    {
      var col := ImpactColumns[k];
      if col !in t.columns {
        LackingColumnsFirst(t, ImpactColumns, k);
        return Err(KeyError(col));
      }
      ConcatStep(RowAt(t, row), ImpactColumns, k, BlankDescriptor);
      if IsBlank(Cell(t, row, col)) {
        missing := missing + [col];
      }
    }
    assert ImpactColumns[..|ImpactColumns|] == ImpactColumns;
    LackingColumnsEmpty(t, ImpactColumns);
    r := Ok(missing);
  }

  // ---------------------------------------------------------------------
  // Rule 4: duplicate GTIs
  // ---------------------------------------------------------------------

  function DuplicateGtiEntry(vals: seq<Option<string>>, g: string): seq<DuplicateGti>
  {
    [DuplicateGti(g, ClusterRowNumbers(vals, g), Repeat(g, |Positions(vals, g)|))]
  }

  /** Lines 77-86, absent GTIs not clustered (see Findings in README.md). */
  function DuplicateGtis(t: Table): seq<DuplicateGti>
  {
    if GtiColumn in t.columns then
      var vals := ColumnValues(t, GtiColumn);
      Concat(vals, DuplicatedValues(vals), DuplicateGtiEntry)
    else []
  }

  /** Exactly the GTIs found in two or more rows get an entry. */
  lemma DuplicateGtisValues(t: Table)
    requires GtiColumn in t.columns
    ensures forall g :: (exists e :: e in DuplicateGtis(t) && e.gti == g) <==> multiset(ColumnValues(t, GtiColumn))[Some(g)] >= 2
  {
    var vals := ColumnValues(t, GtiColumn);
    var dv := DuplicatedValues(vals);
    ConcatSingletons(vals, dv, DuplicateGtiEntry);
    var es := DuplicateGtis(t);
    assert |es| == |dv| && forall k :: 0 <= k < |dv| ==> es[k].gti == dv[k];
    forall g
      ensures (exists e :: e in es && e.gti == g) <==> multiset(vals)[Some(g)] >= 2
    {
      DuplicatedValuesMember(vals, g);
      if g in dv {
        var k :| 0 <= k < |dv| && dv[k] == g;
        assert es[k] in es;
      }
    }
  }

  /** The entries follow the first appearance of their GTIs in the column,
      so no GTI has two entries. */
  lemma DuplicateGtisOrder(t: Table)
    requires GtiColumn in t.columns
    ensures forall a, b :: 0 <= a < b < |DuplicateGtis(t)| ==>
      FirstPosition(ColumnValues(t, GtiColumn), DuplicateGtis(t)[a].gti) < FirstPosition(ColumnValues(t, GtiColumn), DuplicateGtis(t)[b].gti)
  {
    var vals := ColumnValues(t, GtiColumn);
    var dv := DuplicatedValues(vals);
    ConcatSingletons(vals, dv, DuplicateGtiEntry);
    DuplicatedValuesInFirstAppearanceOrder(vals);
    var es := DuplicateGtis(t);
    assert |es| == |dv| && forall k :: 0 <= k < |dv| ==> es[k].gti == dv[k];
  }

  /** Each entry lists every row holding its GTI (index + 2), the first
      occurrence included, ascending, and the GTI once per row. */
  lemma DuplicateGtisEntry(t: Table, e: DuplicateGti)
    requires e in DuplicateGtis(t)
    ensures forall j :: j in e.rows <==> 2 <= j < |t.rows| + 2 && Cell(t, j - 2, GtiColumn) == Some(e.gti)
    ensures forall a, b :: 0 <= a < b < |e.rows| ==> e.rows[a] < e.rows[b]
    ensures |e.rows| >= 2 && |e.values| == |e.rows|
    ensures forall v :: v in e.values ==> v == e.gti
  {
    var vals := ColumnValues(t, GtiColumn);
    ConcatMember(vals, DuplicatedValues(vals), DuplicateGtiEntry, e);
    ClusterRowNumbersFacts(vals, e.gti);
  }

  /** Lines 77-86. */
  method DuplicateGtisRule(t: Table) returns (entries: seq<DuplicateGti>)
    ensures entries == DuplicateGtis(t)
  {
    entries := [];
    if GtiColumn in t.columns {
      var vals := ColumnValues(t, GtiColumn);
      var unique := DuplicatedValues(vals);
      for k := 0 to |unique|
        invariant entries == Concat(vals, unique[..k], DuplicateGtiEntry)
      {
        ConcatStep(vals, unique, k, DuplicateGtiEntry);
        var gti := unique[k];
        var rows := Positions(vals, gti);
        entries := entries + [DuplicateGti(gti, Shift(rows, 2), Repeat(gti, |rows|))];
      }
      assert unique[..|unique|] == unique;
    }
  }

  // ---------------------------------------------------------------------
  // Rule 5: Countries and Languages
  // ---------------------------------------------------------------------

  /** `fillna("")` then `isnumeric`, on both columns. */
  predicate CountryLanguageValid(t: Table, i: nat)
  {
    IsDigitString(OrEmpty(Cell(t, i, CountriesColumn))) && IsDigitString(OrEmpty(Cell(t, i, LanguagesColumn)))
  }

  function CountryLanguageRow(t: Table, i: nat): seq<CountryLanguage>
  {
    if CountryLanguageValid(t, i) then []
    else [CountryLanguage(i + 2, Cell(t, i, CountriesColumn), Cell(t, i, LanguagesColumn))]
  }

  function InvalidCountryLanguage(t: Table): seq<CountryLanguage>
  {
    if CountriesColumn in t.columns && LanguagesColumn in t.columns then Gather(t, |t.rows|, CountryLanguageRow) else []
  }

  /** A row is flagged exactly when either value is absent or not a non-empty
      digit string. */
  lemma InvalidCountryLanguageReported(t: Table, i: nat)
    requires CountriesColumn in t.columns && LanguagesColumn in t.columns && i < |t.rows|
    ensures (exists e :: e in InvalidCountryLanguage(t) && e.row == i + 2) <==>
      Cell(t, i, CountriesColumn).None? || Cell(t, i, LanguagesColumn).None?
      || !IsDigitString(Cell(t, i, CountriesColumn).value) || !IsDigitString(Cell(t, i, LanguagesColumn).value)
  {
    if CountryLanguageRow(t, i) != [] {
      var e := CountryLanguageRow(t, i)[0];
      GatherMember(t, |t.rows|, CountryLanguageRow, e);
      assert e in InvalidCountryLanguage(t) && e.row == i + 2;
    }
    if exists e :: e in InvalidCountryLanguage(t) && e.row == i + 2 {
      var e :| e in InvalidCountryLanguage(t) && e.row == i + 2;
      GatherMember(t, |t.rows|, CountryLanguageRow, e);
      var j :| 0 <= j < |t.rows| && e in CountryLanguageRow(t, j);
      assert j == i;
    }
  }

  /** Each entry carries both raw cells of its row; rows ascend. */
  lemma InvalidCountryLanguageEntries(t: Table)
    ensures forall e :: e in InvalidCountryLanguage(t) ==>
      2 <= e.row < |t.rows| + 2 && e.countries == Cell(t, e.row - 2, CountriesColumn) && e.languages == Cell(t, e.row - 2, LanguagesColumn)
    ensures forall a, b :: 0 <= a < b < |InvalidCountryLanguage(t)| ==> InvalidCountryLanguage(t)[a].row < InvalidCountryLanguage(t)[b].row
  {
    if CountriesColumn in t.columns && LanguagesColumn in t.columns {
      forall e | e in InvalidCountryLanguage(t)
        ensures 2 <= e.row < |t.rows| + 2 && e.countries == Cell(t, e.row - 2, CountriesColumn) && e.languages == Cell(t, e.row - 2, LanguagesColumn)
      {
        GatherMember(t, |t.rows|, CountryLanguageRow, e);
      }
      GatherStrictlyAscending(t, |t.rows|, CountryLanguageRow, (e: CountryLanguage) => e.row, 2);
    }
  }

  /** Lines 89-97. */
  method InvalidCountryLanguageRule(t: Table) returns (entries: seq<CountryLanguage>)
    ensures entries == InvalidCountryLanguage(t)
  {
    entries := [];
    if CountriesColumn in t.columns && LanguagesColumn in t.columns {
      for row := 0 to |t.rows|
        invariant entries == Gather(t, row, CountryLanguageRow)
      {
        if !CountryLanguageValid(t, row) {
          entries := entries + [CountryLanguage(row + 2, Cell(t, row, CountriesColumn), Cell(t, row, LanguagesColumn))];
        }
      }
    }
  }

  // ---------------------------------------------------------------------
  // Rule 6: Age Rating ID, compared as a number
  // ---------------------------------------------------------------------

  /** `fillna(-1).astype(int).isin({2, 9, 154, 147})`. */
  predicate AgeRatingValid(t: Table, i: nat)
  {
    var a := AgeValue(Cell(t, i, AgeRatingColumn));
    (if a.Some? then a.value else -1) in AgeRatingNumbers
  }

  function AgeRatingRow(t: Table, i: nat): seq<AgeRating>
  {
    if AgeRatingValid(t, i) then [] else [AgeRating(i + 2, AgeValue(Cell(t, i, AgeRatingColumn)))]
  }

  function InvalidAgeRating(t: Table): seq<AgeRating>
  {
    if AgeRatingColumn in t.columns then Gather(t, |t.rows|, AgeRatingRow) else []
  }

  /** Absent is always flagged (-1 is not allowed); a present value exactly
      when its number is not 2, 9, 154 or 147. */
  lemma InvalidAgeRatingReported(t: Table, i: nat)
    requires AgeRatingColumn in t.columns && i < |t.rows|
    ensures (exists e :: e in InvalidAgeRating(t) && e.row == i + 2) <==>
      Cell(t, i, AgeRatingColumn).None? || IntValue(Cell(t, i, AgeRatingColumn).value) !in AgeRatingNumbers
  {
    if AgeRatingRow(t, i) != [] {
      var e := AgeRatingRow(t, i)[0];
      GatherMember(t, |t.rows|, AgeRatingRow, e);
      assert e in InvalidAgeRating(t) && e.row == i + 2;
    }
    if exists e :: e in InvalidAgeRating(t) && e.row == i + 2 {
      var e :| e in InvalidAgeRating(t) && e.row == i + 2;
      GatherMember(t, |t.rows|, AgeRatingRow, e);
      var j :| 0 <= j < |t.rows| && e in AgeRatingRow(t, j);
      assert j == i;
    }
  }

  /** Each entry carries its row's number; rows ascend. */
  lemma InvalidAgeRatingEntries(t: Table)
    ensures forall e :: e in InvalidAgeRating(t) ==>
      2 <= e.row < |t.rows| + 2 && e.ageRatingId == AgeValue(Cell(t, e.row - 2, AgeRatingColumn))
    ensures forall a, b :: 0 <= a < b < |InvalidAgeRating(t)| ==> InvalidAgeRating(t)[a].row < InvalidAgeRating(t)[b].row
  {
    if AgeRatingColumn in t.columns {
      forall e | e in InvalidAgeRating(t)
        ensures 2 <= e.row < |t.rows| + 2 && e.ageRatingId == AgeValue(Cell(t, e.row - 2, AgeRatingColumn))
      {
        GatherMember(t, |t.rows|, AgeRatingRow, e);
      }
      GatherStrictlyAscending(t, |t.rows|, AgeRatingRow, (e: AgeRating) => e.row, 2);
    }
  }

  /** Lines 100-108. */
  method InvalidAgeRatingRule(t: Table) returns (entries: seq<AgeRating>)
    ensures entries == InvalidAgeRating(t)
  {
    entries := [];
    if AgeRatingColumn in t.columns {
      for row := 0 to |t.rows|
        invariant entries == Gather(t, row, AgeRatingRow)
      {
        var age := AgeValue(Cell(t, row, AgeRatingColumn));
        var filled := if age.Some? then age.value else -1;
        if filled !in AgeRatingNumbers {
          entries := entries + [AgeRating(row + 2, age)];
        }
      }
    }
  }

  // ---------------------------------------------------------------------
  // The whole validation
  // ---------------------------------------------------------------------

  /** `validate_file` on an already loaded table, rule 1 read as evidently
      intended: its mask lookup skips "Other Title Name(s)" instead of
      raising KeyError there (`ValidateBlankRuleAsWritten` keeps rule 1 as
      written). Rule 4 leaves absent GTIs unclustered (see Findings in
      README.md). */
  function Validate(t: Table): Result<Errors>
    requires AgesAreIntegers(t)
  {
    match DescriptorsOutcome(t)
    case Err(e) => Err(e)
    case Ok(descriptors) =>
      Ok(Errors(BlankCells(t), NonEnglishCells(t), DuplicateGtis(t), InvalidCountryLanguage(t),
                InvalidAgeRating(t), InvalidDateFormat(t), descriptors))
  }

  /** `validate_file` with rule 1 as written: its lookup of the exempt
      column (line 41) raises before rule 2 can. The other rules are those
      of `Validate`, so rule 4 is the duplicate rule as corrected in
      Findings. */
  function ValidateBlankRuleAsWritten(t: Table): Result<Errors>
    requires AgesAreIntegers(t)
  {
    match BlankCellsAsWritten(t)
    case Err(e) => Err(e)
    case Ok(blank) =>
      match DescriptorsOutcome(t)
      case Err(e) => Err(e)
      case Ok(descriptors) =>
        Ok(Errors(blank, NonEnglishCells(t), DuplicateGtis(t), InvalidCountryLanguage(t),
                  InvalidAgeRating(t), InvalidDateFormat(t), descriptors))
  }

  /** With rule 1 as written, the validation raises
      KeyError("Other Title Name(s)") whenever the header has that column and
      some row is blank in a mask column, whatever the later rules would do;
      on every other table it gives the outcome of `Validate`. */
  lemma ValidateBlankRuleAsWrittenOutcome(t: Table)
    requires AgesAreIntegers(t)
    ensures (OtherTitleColumn in t.columns && exists i :: 0 <= i < |t.rows| && RowSelected(t, i))
      ==> ValidateBlankRuleAsWritten(t) == Err(KeyError(OtherTitleColumn))
    ensures !(OtherTitleColumn in t.columns && exists i :: 0 <= i < |t.rows| && RowSelected(t, i))
      ==> ValidateBlankRuleAsWritten(t) == Validate(t)
  {
    BlankCellsAsWrittenOutcome(t);
  }

  /** The rules in the order of the source, rule 1 as in `Validate`. */
  method ValidateFile(t: Table) returns (r: Result<Errors>)
    requires AgesAreIntegers(t)
    ensures r == Validate(t)
  {
    var blank := BlankCellsRule(t);
    var descriptors := MissingContentDescriptorsRule(t);
    if descriptors.Err? {
      return Err(descriptors.error);
    }
    var nonEnglish := NonEnglishCellsRule(t);
    var duplicates := DuplicateGtisRule(t);
    var countryLanguage := InvalidCountryLanguageRule(t);
    var age := InvalidAgeRatingRule(t);
    var date := InvalidDateFormatRule(t);
    r := Ok(Errors(blank, nonEnglish, duplicates, countryLanguage, age, date, descriptors.value));
  }

  /** With rule 1 as corrected, the validation fails exactly when there is a
      row and an impact column is missing, and then with the first missing
      one in the fixed order. */
  lemma ValidateFails(t: Table)
    requires AgesAreIntegers(t)
    ensures Validate(t).Err? <==> |t.rows| > 0 && exists c :: c in ImpactColumns && c !in t.columns
    ensures Validate(t).Err? ==>
      exists k :: 0 <= k < |ImpactColumns| && Validate(t).error == KeyError(ImpactColumns[k]) &&
        ImpactColumns[k] !in t.columns && forall j :: 0 <= j < k ==> ImpactColumns[j] in t.columns
  {
    LackingColumnsEmpty(t, ImpactColumns);
    if Validate(t).Err? {
      LackingColumnsHead(t, ImpactColumns);
    }
  }

  /** A table passes every rule: no checked cell blank, no impact cell blank,
      no present cell with a non-ASCII character, no GTI twice, digit
      Countries and Languages, a valid Age Rating ID and a dd/dd/dddd date in
      every row (each rule only where its columns exist). */
  ghost predicate Clean(t: Table)
  {
    && (forall i :: 0 <= i < |t.rows| ==> !HasBlankChecked(t, i))
    && (forall i :: 0 <= i < |t.rows| ==> !HasBlankDescriptor(t, i))
    && (forall i :: 0 <= i < |t.rows| ==> !HasNonEnglish(t, i))
    && (GtiColumn in t.columns ==> forall g :: multiset(ColumnValues(t, GtiColumn))[Some(g)] < 2)
    && (CountriesColumn in t.columns && LanguagesColumn in t.columns ==>
          forall i :: 0 <= i < |t.rows| ==> CountryLanguageValid(t, i))
    && (AgeRatingColumn in t.columns ==> forall i :: 0 <= i < |t.rows| ==> AgeRatingValid(t, i))
    && (RatingDateColumn in t.columns ==>
          forall i :: 0 <= i < |t.rows| ==> MatchesLooseDate(Str(Cell(t, i, RatingDateColumn))))
  }

  /** The seven lists start empty, so a table returns all seven empty exactly
      when it passes every rule (and has every impact column, or no rows). */
  lemma ValidateCleanTable(t: Table)
    requires AgesAreIntegers(t)
    requires |t.rows| == 0 || forall c :: c in ImpactColumns ==> c in t.columns
    ensures Validate(t) == Ok(NoErrors) <==> Clean(t)
  {
    ValidateSucceeds(t);
    RulesEmpty(t);
  }

  /** Each list is empty exactly when its part of Clean holds. */
  lemma RulesEmpty(t: Table)
    ensures (&& BlankCells(t) == [] && NonEnglishCells(t) == [] && DuplicateGtis(t) == []
             && InvalidCountryLanguage(t) == [] && InvalidAgeRating(t) == [] && InvalidDateFormat(t) == []
             && MissingContentDescriptors(t) == []) <==> Clean(t)
  {
    BlankCellsEmpty(t);
    DescriptorsEmpty(t);
    NonEnglishCellsEmpty(t);
    if GtiColumn in t.columns {
      DuplicateGtisEmpty(t);
    }
    CountryLanguageEmpty(t);
    AgeRatingEmpty(t);
    DateFormatEmpty(t);
  }

  /** With every impact column present (or no rows) the rules all run,
      rule 1 as corrected. */
  lemma ValidateSucceeds(t: Table)
    requires AgesAreIntegers(t)
    requires |t.rows| == 0 || forall c :: c in ImpactColumns ==> c in t.columns
    ensures Validate(t) == Ok(Errors(BlankCells(t), NonEnglishCells(t), DuplicateGtis(t), InvalidCountryLanguage(t),
      InvalidAgeRating(t), InvalidDateFormat(t), MissingContentDescriptors(t)))
  {
    LackingColumnsEmpty(t, ImpactColumns);
  }

  lemma CountryLanguageEmpty(t: Table)
    ensures InvalidCountryLanguage(t) == [] <==>
      (CountriesColumn in t.columns && LanguagesColumn in t.columns ==> forall i :: 0 <= i < |t.rows| ==> CountryLanguageValid(t, i))
  {
    GatherEmpty(t, |t.rows|, CountryLanguageRow);
    assert forall i :: 0 <= i < |t.rows| ==> (CountryLanguageRow(t, i) == [] <==> CountryLanguageValid(t, i));
  }

  lemma AgeRatingEmpty(t: Table)
    ensures InvalidAgeRating(t) == [] <==>
      (AgeRatingColumn in t.columns ==> forall i :: 0 <= i < |t.rows| ==> AgeRatingValid(t, i))
  {
    GatherEmpty(t, |t.rows|, AgeRatingRow);
    assert forall i :: 0 <= i < |t.rows| ==> (AgeRatingRow(t, i) == [] <==> AgeRatingValid(t, i));
  }

  lemma BlankCellsEmpty(t: Table)
    ensures BlankCells(t) == [] <==> forall i :: 0 <= i < |t.rows| ==> !HasBlankChecked(t, i)
  {
    GatherEmpty(t, |t.rows|, BlankRow);
    forall i | 0 <= i < |t.rows|
      ensures BlankRow(t, i) == [] <==> !HasBlankChecked(t, i)
    {
      BlankRowReported(t, i);
    }
  }

  lemma DescriptorsEmpty(t: Table)
    ensures MissingContentDescriptors(t) == [] <==> forall i :: 0 <= i < |t.rows| ==> !HasBlankDescriptor(t, i)
  {
    GatherEmpty(t, |t.rows|, DescriptorRow);
    forall i | 0 <= i < |t.rows|
      ensures DescriptorRow(t, i) == [] <==> !HasBlankDescriptor(t, i)
    {
      DescriptorRowReported(t, i);
    }
  }

  lemma DuplicateGtisEmpty(t: Table)
    requires GtiColumn in t.columns
    ensures DuplicateGtis(t) == [] <==> forall g :: multiset(ColumnValues(t, GtiColumn))[Some(g)] < 2
  {
    var vals := ColumnValues(t, GtiColumn);
    var dv := DuplicatedValues(vals);
    ConcatSingletons(vals, dv, DuplicateGtiEntry);
    assert |DuplicateGtis(t)| == |dv|;
    forall g
      ensures g in dv <==> multiset(vals)[Some(g)] >= 2
    {
      DuplicatedValuesMember(vals, g);
    }
    if dv != [] {
      assert dv[0] in dv;
    }
  }
}
