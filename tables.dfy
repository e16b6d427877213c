/**
 * The in-memory table the validators work on: the header (column names in
 * file order) and one mapping per data row from column name to cell. Every
 * validator reads its file with `dtype=str`, or is modelled as if it did, so a
 * cell is either text or absent (pandas' NaN, written None here). A row that
 * has no entry for a column reads as absent, as pandas fills a short row with
 * NaN.
 */
module Tables {
  import opened Lists

  datatype Option<T> = None | Some(value: T)

  type Row = map<string, Option<string>>

  datatype Table = Table(columns: seq<string>, rows: seq<Row>)

  /** What pandas raises and the validators let escape. */
  datatype Failure =
    | KeyError(column: string)         // a missing column label
    | ValueError(message: string)      // a failed unpacking or an explicit raise
    | MissingColumns(columns: seq<string>)  // App.py's schema check
    | LabelKeyError(index: int)        // a row label looked up as a column label

  /** A validator's outcome: its report, or the exception it lets escape. */
  datatype Result<T> = Ok(value: T) | Err(error: Failure)

  /** The cell at zero-based row i and column c (`df.at[i, c]`). */
  function Cell(t: Table, i: int, c: string): Option<string>
  {
    if 0 <= i < |t.rows| && c in t.rows[i] then t.rows[i][c] else None
  }

  /** Row `row` of table `table`: what a step over the columns of one row reads. */
  datatype RowAt = RowAt(table: Table, row: int)

  /** The cell in column c of the row. */
  function CellAt(p: RowAt, c: string): Option<string>
  {
    Cell(p.table, p.row, c)
  }

  /** `pd.isna(x)`. */
  predicate IsAbsent(v: Option<string>)
  {
    v.None?
  }

  /** `pd.isna(x) or x == ""`: the blank test of the variants that count the
      empty string as blank. */
  predicate IsBlank(v: Option<string>)
  {
    v.None? || v.value == ""
  }

  /** `str(x)`: an absent cell prints as "nan". */
  function Str(v: Option<string>): string
  {
    if v.Some? then v.value else "nan"
  }

  /** `x.fillna("")`. */
  function OrEmpty(v: Option<string>): string
  {
    if v.Some? then v.value else ""
  }

  /** Every data row has a value in column c. */
  predicate PresentThroughout(t: Table, c: string)
  {
    forall i :: 0 <= i < |t.rows| ==> Cell(t, i, c).Some?
  }

  /** The column's cells, one per row (`df[c]`). */
  function ColumnValues(t: Table, c: string): (r: seq<Option<string>>)
    ensures |r| == |t.rows|
    ensures forall i :: 0 <= i < |t.rows| ==> r[i] == Cell(t, i, c)
  {
    seq(|t.rows|, i requires 0 <= i < |t.rows| => Cell(t, i, c))
  }

  /** [c] when the table has no column c: one step of
      `[c for c in wanted if c not in df.columns]`. */
  function LackingColumn(t: Table, c: string): seq<string>
  {
    if c in t.columns then [] else [c]
  }

  /** The wanted columns the table lacks, in the order they are wanted. */
  function LackingColumns(t: Table, wanted: seq<string>): seq<string>
  {
    Concat(t, wanted, LackingColumn)
  }

  /** Exactly the wanted columns that are not in the header are missing. */
  lemma LackingColumnsMember(t: Table, wanted: seq<string>, c: string)
    ensures c in LackingColumns(t, wanted) <==> c in wanted && c !in t.columns
  {
    ConcatMember(t, wanted, LackingColumn, c);
  }

  /** Nothing is missing exactly when every wanted column is in the header. */
  lemma LackingColumnsEmpty(t: Table, wanted: seq<string>)
    ensures LackingColumns(t, wanted) == [] <==> forall k :: 0 <= k < |wanted| ==> wanted[k] in t.columns
  {
    ConcatEmpty(t, wanted, LackingColumn);
  }

  /** The first wanted column the header lacks heads the list. */
  lemma LackingColumnsFirst(t: Table, wanted: seq<string>, k: nat)
    requires k < |wanted| && wanted[k] !in t.columns
    requires forall j :: 0 <= j < k ==> wanted[j] in t.columns
    ensures LackingColumns(t, wanted) != [] && LackingColumns(t, wanted)[0] == wanted[k]
  {
    ConcatEmpty(t, wanted[..k], LackingColumn);
    ConcatStep(t, wanted, k, LackingColumn);
    ConcatPrefix(t, wanted, k + 1, LackingColumn);
  }

  /** When some wanted column is lacking, the list starts with the first one
      in wanted order: every column wanted before it is in the header. */
  lemma LackingColumnsHead(t: Table, wanted: seq<string>)
    requires LackingColumns(t, wanted) != []
    ensures exists k :: (0 <= k < |wanted| && LackingColumns(t, wanted)[0] == wanted[k] && wanted[k] !in t.columns &&
      forall j :: 0 <= j < k ==> wanted[j] in t.columns)
  {
    var c := LackingColumns(t, wanted)[0];
    LackingColumnsMember(t, wanted, c);
    var k0 :| 0 <= k0 < |wanted| && wanted[k0] == c;
    FirstLacking(t, wanted, k0);
    var k :| 0 <= k <= k0 && wanted[k] !in t.columns && forall j :: 0 <= j < k ==> wanted[j] in t.columns;
    LackingColumnsFirst(t, wanted, k);
  }

  /** Some wanted column at or before k0 is the first one lacking. */
  lemma {:induction false} FirstLacking(t: Table, wanted: seq<string>, k0: nat)
    requires k0 < |wanted| && wanted[k0] !in t.columns
    ensures exists k :: 0 <= k <= k0 && wanted[k] !in t.columns && forall j :: 0 <= j < k ==> wanted[j] in t.columns
  {
    if exists j :: 0 <= j < k0 && wanted[j] !in t.columns {
      var j :| 0 <= j < k0 && wanted[j] !in t.columns;
      FirstLacking(t, wanted, j);
    }
  }

  /** The position of c in the header, or -1 when c is not there. */
  function ColumnIndex(columns: seq<string>, c: string): (r: int)
    ensures -1 <= r < |columns|
    ensures r >= 0 ==> columns[r] == c && forall j :: 0 <= j < r ==> columns[j] != c
    ensures r < 0 ==> c !in columns
  {
    if columns == [] then -1
    else if columns[0] == c then 0
    else
      var r := ColumnIndex(columns[1..], c);
      if r < 0 then -1 else r + 1
  }

  /** pandas gives every column of a loaded table its own label. */
  predicate DistinctColumns(t: Table)
  {
    forall a, b :: 0 <= a < b < |t.columns| ==> t.columns[a] != t.columns[b]
  }

  /** With distinct labels, a header column's index is its position. */
  lemma ColumnIndexAt(t: Table, k: nat)
    requires DistinctColumns(t) && k < |t.columns|
    ensures ColumnIndex(t.columns, t.columns[k]) == k
  {
  }

  /** The six content-descriptor columns, in the order the sources list them. */
  const ImpactColumns: seq<string> :=
    ["Violence Impact", "Drug Use Impact", "Themes Impact",
     "Language Impact", "Nudity Impact", "Sex Impact"]

  const GtiColumn := "GTI"
  const CountriesColumn := "Countries"
  const LanguagesColumn := "Languages"
  const AgeRatingColumn := "Age Rating ID"
  const RatingDateColumn := "Rating Date"
}
