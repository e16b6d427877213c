/**
 * Flask3.py's `validate_file`: the report is a dictionary of six named error
 * lists, created empty by a loop over the category names, plus an empty
 * `warnings` dictionary. Blank cells are looked for in the six impact columns
 * only, and the age and date rules skip absent cells.
 */
module Flask3 {
  import opened Lists
  import opened Tables
  import opened Text
  import opened Duplicates
  import opened Rules

  /** `{"row": ..., "column": ..., "message": ...}`. */
  datatype BlankImpact = BlankImpact(row: int, column: string, message: string)

  /** `{"GTI": ..., "rows": [...], "value": ...}`. */
  datatype DuplicateGti = DuplicateGti(gti: string, rows: seq<int>, value: string)

  /** `{"row": ..., "Countries": ..., "Languages": ...}`, the raw cells. */
  datatype CountryLanguage = CountryLanguage(row: int, countries: Option<string>, languages: Option<string>)

  /** `{"row": ..., "Age Rating ID": ...}`; only present cells are reported. */
  datatype AgeRating = AgeRating(row: int, ageRatingId: string)

  /** `{"row": ..., "Rating Date": ...}`; only present cells are reported. */
  datatype DateValue = DateValue(row: int, ratingDate: string)

  /** One entry of any category: the values of the `errors` dictionary are
      lists of differently shaped records. */
  datatype Entry =
    | BlankEntry(blank: BlankImpact)
    | NonEnglishEntry(nonEnglish: NonEnglishCell)
    | DuplicateEntry(duplicate: DuplicateGti)
    | CodesEntry(codes: CountryLanguage)
    | AgeEntry(age: AgeRating)
    | DateEntry(date: DateValue)

  function AsBlank(e: BlankImpact): Entry { BlankEntry(e) }
  function AsNonEnglish(e: NonEnglishCell): Entry { NonEnglishEntry(e) }
  function AsDuplicate(e: DuplicateGti): Entry { DuplicateEntry(e) }
  function AsCodes(e: CountryLanguage): Entry { CodesEntry(e) }
  function AsAge(e: AgeRating): Entry { AgeEntry(e) }
  function AsDate(e: DateValue): Entry { DateEntry(e) }

  /** The six error categories; Name gives each one's key in the
      `errors` dictionary. */
  datatype Category =
    | BlankCells | NonEnglishChars | DuplicateGtiCategory
    | InvalidCountryLanguageCategory | InvalidAgeRatingCategory | InvalidDateFormatCategory

  function Name(c: Category): string
  {
    match c
    case BlankCells => "blank_cells"
    case NonEnglishChars => "non_english_chars"
    case DuplicateGtiCategory => "duplicate_gti"
    case InvalidCountryLanguageCategory => "invalid_country_language"
    case InvalidAgeRatingCategory => "invalid_age_rating"
    case InvalidDateFormatCategory => "invalid_date_format"
  }

  /** Different categories have different keys. */
  lemma NamesDistinct(a: Category, b: Category)
    ensures Name(a) == Name(b) <==> a == b
  {
    if a != b {
      assert |Name(a)| != |Name(b)|;
    }
  }

  /** `validation_results`: the error lists by category, and the warnings. */
  datatype Report = Report(errors: map<Category, seq<Entry>>, warnings: map<string, seq<Entry>>)

  /** `error_types`, in the order they are created. */
  const ErrorTypes: seq<Category> :=
    [BlankCells, NonEnglishChars, DuplicateGtiCategory,
     InvalidCountryLanguageCategory, InvalidAgeRatingCategory, InvalidDateFormatCategory]

  /** Lines 40-41: one empty list per category. */
  method InitErrors() returns (errors: map<Category, seq<Entry>>)
    ensures forall c :: c in errors.Keys
    ensures forall c :: c in errors ==> errors[c] == []
  {
    errors := map[];
    for k := 0 to |ErrorTypes|
      invariant errors.Keys == set j | 0 <= j < k :: ErrorTypes[j]
      invariant forall c :: c in errors ==> errors[c] == []
    {
      errors := errors[ErrorTypes[k] := []];
    }
    forall c
      ensures c in errors.Keys
    {
      match c
      case BlankCells => assert c == ErrorTypes[0];
      case NonEnglishChars => assert c == ErrorTypes[1];
      case DuplicateGtiCategory => assert c == ErrorTypes[2];
      case InvalidCountryLanguageCategory => assert c == ErrorTypes[3];
      case InvalidAgeRatingCategory => assert c == ErrorTypes[4];
      case InvalidDateFormatCategory => assert c == ErrorTypes[5];
    }
  }

  // ---------------------------------------------------------------------
  // Rule 1: absent cells of the impact columns, column by column
  // ---------------------------------------------------------------------

  const BlankMessage := "Cannot be blank (None is allowed)."

  /** Column `column` of table `table`: what a step over the rows of one
      column reads. */
  datatype ColumnAt = ColumnAt(table: Table, column: string)

  function BlankImpactRow(p: ColumnAt, i: nat): seq<BlankImpact>
  {
    if Cell(p.table, i, p.column).None? then [BlankImpact(i + 2, p.column, BlankMessage)] else []
  }

  /** `df[df[col].isna()].index` for an impact column; nothing for any other. */
  function BlankImpactColumn(t: Table, c: string): seq<BlankImpact>
  {
    if c in ImpactColumns then Gather(ColumnAt(t, c), |t.rows|, BlankImpactRow) else []
  }

  /** `blank_cells`: the header's columns in order, each with its absent rows. */
  function BlankImpacts(t: Table): seq<BlankImpact>
  {
    Concat(t, t.columns, BlankImpactColumn)
  }

  /** What one column contributes: its absent rows, ascending, if it is an
      impact column. */
  lemma BlankImpactColumnFacts(t: Table, c: string)
    ensures forall e :: e in BlankImpactColumn(t, c) <==>
      c in ImpactColumns && e.column == c && e.message == BlankMessage &&
      2 <= e.row < |t.rows| + 2 && Cell(t, e.row - 2, c).None?
    ensures forall a, b :: 0 <= a < b < |BlankImpactColumn(t, c)| ==> BlankImpactColumn(t, c)[a].row < BlankImpactColumn(t, c)[b].row
  {
    var p := ColumnAt(t, c);
    forall e
      ensures e in BlankImpactColumn(t, c) <==>
        c in ImpactColumns && e.column == c && e.message == BlankMessage &&
        2 <= e.row < |t.rows| + 2 && Cell(t, e.row - 2, c).None?
    {
      GatherMember(p, |t.rows|, BlankImpactRow, e);
      if c in ImpactColumns && e.column == c && e.message == BlankMessage && 2 <= e.row < |t.rows| + 2 && Cell(t, e.row - 2, c).None? {
        var i: nat := e.row - 2;
        assert e in BlankImpactRow(p, i);
      }
    }
    if c in ImpactColumns {
      GatherStrictlyAscending(p, |t.rows|, BlankImpactRow, (e: BlankImpact) => e.row, 2);
    }
  }

  /** Exactly the absent cells of the impact columns are reported, with the
      fixed message; "", "None" and every cell of another column never are. */
  lemma BlankImpactsMember(t: Table, e: BlankImpact)
    ensures e in BlankImpacts(t) <==>
      e.column in t.columns && e.column in ImpactColumns && e.message == BlankMessage &&
      2 <= e.row < |t.rows| + 2 && Cell(t, e.row - 2, e.column).None?
  {
    ConcatMember(t, t.columns, BlankImpactColumn, e);
    if e in BlankImpacts(t) {
      var k :| 0 <= k < |t.columns| && e in BlankImpactColumn(t, t.columns[k]);
      BlankImpactColumnFacts(t, t.columns[k]);
    }
    if e.column in t.columns {
      BlankImpactColumnFacts(t, e.column);
    }
  }

  /** Column-then-row order: entries follow the header's column order, and
      within one column the rows ascend. */
  lemma BlankImpactsOrder(t: Table)
    requires DistinctColumns(t)
    ensures forall a, b :: 0 <= a < b < |BlankImpacts(t)| ==>
      ColumnIndex(t.columns, BlankImpacts(t)[a].column) < ColumnIndex(t.columns, BlankImpacts(t)[b].column)
      || (BlankImpacts(t)[a].column == BlankImpacts(t)[b].column && BlankImpacts(t)[a].row < BlankImpacts(t)[b].row)
  {
    var block := (e: BlankImpact) => ColumnIndex(t.columns, e.column);
    var key := (e: BlankImpact) => e.row;
    forall k, e | 0 <= k < |t.columns| && e in BlankImpactColumn(t, t.columns[k])
      ensures block(e) == k
    {
      BlankImpactColumnFacts(t, t.columns[k]);
    }
    forall k, a, b | 0 <= k < |t.columns| && 0 <= a < b < |BlankImpactColumn(t, t.columns[k])|
      ensures key(BlankImpactColumn(t, t.columns[k])[a]) < key(BlankImpactColumn(t, t.columns[k])[b])
    {
      BlankImpactColumnFacts(t, t.columns[k]);
    }
    ConcatBlocksOrdered(t, t.columns, BlankImpactColumn, block, key);
    forall a, b | 0 <= a < b < |BlankImpacts(t)| && block(BlankImpacts(t)[a]) == block(BlankImpacts(t)[b])
      ensures BlankImpacts(t)[a].column == BlankImpacts(t)[b].column
    {
      BlankImpactsMember(t, BlankImpacts(t)[a]);
      BlankImpactsMember(t, BlankImpacts(t)[b]);
    }
  }

  lemma BlankImpactsEmpty(t: Table)
    ensures BlankImpacts(t) == [] <==>
      forall c, i :: c in t.columns && c in ImpactColumns && 0 <= i < |t.rows| ==> Cell(t, i, c).Some?
  {
    if BlankImpacts(t) == [] {
      forall c, i | c in t.columns && c in ImpactColumns && 0 <= i < |t.rows|
        ensures Cell(t, i, c).Some?
      {
        BlankImpactsMember(t, BlankImpact(i + 2, c, BlankMessage));
      }
    } else {
      BlankImpactsMember(t, BlankImpacts(t)[0]);
    }
  }

  /** Lines 50-56. */
  method BlankImpactsRule(t: Table) returns (entries: seq<BlankImpact>)
    ensures entries == BlankImpacts(t)
  {
    entries := [];
    for k := 0 to |t.columns|
      invariant entries == Concat(t, t.columns[..k], BlankImpactColumn)
    {
      ConcatStep(t, t.columns, k, BlankImpactColumn);
      var col := t.columns[k];
      if col in ImpactColumns {
        var blank := [];
        for row := 0 to |t.rows|
          invariant blank == Gather(ColumnAt(t, col), row, BlankImpactRow)
        {
          if Cell(t, row, col).None? {
            blank := blank + [BlankImpact(row + 2, col, BlankMessage)];
          }
        }
        entries := entries + blank;
      }
    }
    assert t.columns[..|t.columns|] == t.columns;
  }

  // ---------------------------------------------------------------------
  // Rule 2 as written: `zip(*pairs)` transposes the stacked (row, column)
  // pairs instead of iterating them, so the loop at line 60 sees one tuple
  // of all row labels and then one tuple of all column labels
  // ---------------------------------------------------------------------

  /** What line 60 does with the hit cells, which are exactly the cells
      NonEnglishCells reports, in the same row-major order. No hits: no
      iteration. One hit: a 1-tuple cannot be unpacked into two names. Two
      hits: the first tuple unpacks to the two row labels, and the second
      row label is then looked up as a column. More: too many values. */
  function NonEnglishAsWritten(t: Table): Result<seq<NonEnglishCell>>
  {
    var hits := NonEnglishCells(t);
    if |hits| == 0 then Ok([])
    else if |hits| == 1 then Err(ValueError("not enough values to unpack (expected 2, got 1)"))
    else if |hits| == 2 then Err(LabelKeyError(hits[1].row - 2))
    else Err(ValueError("too many values to unpack (expected 2)"))
  }

  /** As written, the rule never reports a cell: it succeeds exactly when
      there is nothing to report, and raises otherwise. */
  lemma NonEnglishAsWrittenOutcome(t: Table)
    ensures NonEnglishAsWritten(t).Ok? <==> NonEnglishCells(t) == []
    ensures NonEnglishAsWritten(t).Ok? ==> NonEnglishAsWritten(t).value == []
    ensures |NonEnglishCells(t)| == 2 ==>
      NonEnglishAsWritten(t) == Err(LabelKeyError(NonEnglishCells(t)[1].row - 2))
  {
  }

  /** One title with an accented letter: the source raises, while the
      corrected rule reports the cell. */
  lemma NonEnglishAsWrittenExample()
    ensures NonEnglishAsWritten(Table(["Title Name"], [map["Title Name" := Some("Café")]]))
      == Err(ValueError("not enough values to unpack (expected 2, got 1)"))
    ensures NonEnglishCells(Table(["Title Name"], [map["Title Name" := Some("Café")]]))
      == [NonEnglishCell(2, "Title Name", "Café")]
  {
    var t := Table(["Title Name"], [map["Title Name" := Some("Café")]]);
    assert HasNonAscii("Café") by { assert !IsAsciiChar("Café"[3]); }
    assert NonEnglishAt(RowAt(t, 0), "Title Name") == [NonEnglishCell(2, "Title Name", "Café")];
    assert Concat(RowAt(t, 0), t.columns, NonEnglishAt) == [NonEnglishCell(2, "Title Name", "Café")];
  }

  // ---------------------------------------------------------------------
  // Rule 3: duplicate GTI clusters, each carrying its GTI twice
  // ---------------------------------------------------------------------

  function DuplicateGtiEntry(vals: seq<Option<string>>, g: string): seq<DuplicateGti>
  {
    [DuplicateGti(g, ClusterRowNumbers(vals, g), g)]
  }

  /** Lines 65-72, absent GTIs not clustered (see Findings in README.md). */
  function DuplicateGtis(t: Table): seq<DuplicateGti>
  {
    if GtiColumn in t.columns then
      var vals := ColumnValues(t, GtiColumn);
      Concat(vals, DuplicatedValues(vals), DuplicateGtiEntry)
    else []
  }

  /** Exactly the GTIs found in two or more rows get an entry. */
  lemma DuplicateGtisValues(t: Table)
    requires GtiColumn in t.columns
    ensures forall g :: (exists e :: e in DuplicateGtis(t) && e.gti == g) <==> multiset(ColumnValues(t, GtiColumn))[Some(g)] >= 2
  {
    var vals := ColumnValues(t, GtiColumn);
    var dv := DuplicatedValues(vals);
    ConcatSingletons(vals, dv, DuplicateGtiEntry);
    var es := DuplicateGtis(t);
    assert |es| == |dv| && forall k :: 0 <= k < |dv| ==> es[k].gti == dv[k];
    forall g
      ensures (exists e :: e in es && e.gti == g) <==> multiset(vals)[Some(g)] >= 2
    {
      DuplicatedValuesMember(vals, g);
      if g in dv {
        var k :| 0 <= k < |dv| && dv[k] == g;
        assert es[k] in es;
      }
    }
  }

  /** The entries follow the first appearance of their GTIs in the column. */
  lemma DuplicateGtisOrder(t: Table)
    requires GtiColumn in t.columns
    ensures forall a, b :: 0 <= a < b < |DuplicateGtis(t)| ==>
      FirstPosition(ColumnValues(t, GtiColumn), DuplicateGtis(t)[a].gti) < FirstPosition(ColumnValues(t, GtiColumn), DuplicateGtis(t)[b].gti)
  {
    var vals := ColumnValues(t, GtiColumn);
    var dv := DuplicatedValues(vals);
    ConcatSingletons(vals, dv, DuplicateGtiEntry);
    DuplicatedValuesInFirstAppearanceOrder(vals);
    var es := DuplicateGtis(t);
    assert |es| == |dv| && forall k :: 0 <= k < |dv| ==> es[k].gti == dv[k];
  }

  /** An entry lists every row holding its GTI (index + 2), the first
      occurrence included, ascending, at least two; its `value` is its GTI. */
  lemma DuplicateGtisEntry(t: Table, e: DuplicateGti)
    requires e in DuplicateGtis(t)
    ensures e.value == e.gti
    ensures forall j :: j in e.rows <==> 2 <= j < |t.rows| + 2 && Cell(t, j - 2, GtiColumn) == Some(e.gti)
    ensures forall a, b :: 0 <= a < b < |e.rows| ==> e.rows[a] < e.rows[b]
    ensures |e.rows| >= 2
  {
    var vals := ColumnValues(t, GtiColumn);
    ConcatMember(vals, DuplicatedValues(vals), DuplicateGtiEntry, e);
    ClusterRowNumbersFacts(vals, e.gti);
  }

  lemma DuplicateGtisEmpty(t: Table)
    requires GtiColumn in t.columns
    ensures DuplicateGtis(t) == [] <==> forall g :: multiset(ColumnValues(t, GtiColumn))[Some(g)] < 2
  {
    var vals := ColumnValues(t, GtiColumn);
    var dv := DuplicatedValues(vals);
    ConcatSingletons(vals, dv, DuplicateGtiEntry);
    assert |DuplicateGtis(t)| == |dv|;
    forall g
      ensures g in dv <==> multiset(vals)[Some(g)] >= 2
    {
      DuplicatedValuesMember(vals, g);
    }
    if dv != [] {
      assert dv[0] in dv;
    }
  }

  /** Lines 66-72. */
  method DuplicateGtisRule(t: Table) returns (entries: seq<DuplicateGti>)
    ensures entries == DuplicateGtis(t)
  {
    entries := [];
    if GtiColumn in t.columns {
      var vals := ColumnValues(t, GtiColumn);
      var unique := DuplicatedValues(vals);
      for k := 0 to |unique|
        invariant entries == Concat(vals, unique[..k], DuplicateGtiEntry)
      {
        ConcatStep(vals, unique, k, DuplicateGtiEntry);
        var gti := unique[k];
        entries := entries + [DuplicateGti(gti, Shift(Positions(vals, gti), 2), gti)];
      }
      assert unique[..|unique|] == unique;
    }
  }

  // ---------------------------------------------------------------------
  // Rule 4: both codes present and numeric
  // ---------------------------------------------------------------------

  /** `notna() & str.isnumeric()` on both columns; the NaN that `isnumeric`
      yields for an absent cell is absorbed by the `False` of `notna()`. */
  predicate CountryLanguageValid(t: Table, i: nat)
  {
    var c, l := Cell(t, i, CountriesColumn), Cell(t, i, LanguagesColumn);
    c.Some? && IsDigitString(c.value) && l.Some? && IsDigitString(l.value)
  }

  function CountryLanguageRow(t: Table, i: nat): seq<CountryLanguage>
  {
    if CountryLanguageValid(t, i) then []
    else [CountryLanguage(i + 2, Cell(t, i, CountriesColumn), Cell(t, i, LanguagesColumn))]
  }

  function InvalidCountryLanguage(t: Table): seq<CountryLanguage>
  {
    if CountriesColumn in t.columns && LanguagesColumn in t.columns then Gather(t, |t.rows|, CountryLanguageRow) else []
  }

  /** A row is flagged exactly when either code is absent, empty or holds a
      non-digit; an absent code alone flags the row. */
  lemma InvalidCountryLanguageReported(t: Table, i: nat)
    requires CountriesColumn in t.columns && LanguagesColumn in t.columns && i < |t.rows|
    ensures (exists e :: e in InvalidCountryLanguage(t) && e.row == i + 2) <==>
      Cell(t, i, CountriesColumn).None? || Cell(t, i, LanguagesColumn).None?
      || !IsDigitString(Cell(t, i, CountriesColumn).value) || !IsDigitString(Cell(t, i, LanguagesColumn).value)
  {
    if CountryLanguageRow(t, i) != [] {
      var e := CountryLanguageRow(t, i)[0];
      GatherMember(t, |t.rows|, CountryLanguageRow, e);
      assert e in InvalidCountryLanguage(t) && e.row == i + 2;
    }
    if exists e :: e in InvalidCountryLanguage(t) && e.row == i + 2 {
      var e :| e in InvalidCountryLanguage(t) && e.row == i + 2;
      GatherMember(t, |t.rows|, CountryLanguageRow, e);
      var j :| 0 <= j < |t.rows| && e in CountryLanguageRow(t, j);
      assert j == i;
    }
  }

  /** Each entry carries its row's two raw cells; rows ascend. */
  lemma InvalidCountryLanguageEntries(t: Table)
    ensures forall e :: e in InvalidCountryLanguage(t) ==>
      2 <= e.row < |t.rows| + 2 && e.countries == Cell(t, e.row - 2, CountriesColumn)
      && e.languages == Cell(t, e.row - 2, LanguagesColumn)
    ensures forall a, b :: 0 <= a < b < |InvalidCountryLanguage(t)| ==> InvalidCountryLanguage(t)[a].row < InvalidCountryLanguage(t)[b].row
  {
    if CountriesColumn in t.columns && LanguagesColumn in t.columns {
      forall e | e in InvalidCountryLanguage(t)
        ensures 2 <= e.row < |t.rows| + 2 && e.countries == Cell(t, e.row - 2, CountriesColumn)
          && e.languages == Cell(t, e.row - 2, LanguagesColumn)
      {
        GatherMember(t, |t.rows|, CountryLanguageRow, e);
      }
      GatherStrictlyAscending(t, |t.rows|, CountryLanguageRow, (e: CountryLanguage) => e.row, 2);
    }
  }

  lemma InvalidCountryLanguageEmpty(t: Table)
    ensures InvalidCountryLanguage(t) == [] <==>
      (CountriesColumn in t.columns && LanguagesColumn in t.columns ==>
         forall i :: 0 <= i < |t.rows| ==> CountryLanguageValid(t, i))
  {
    GatherEmpty(t, |t.rows|, CountryLanguageRow);
    assert forall i :: 0 <= i < |t.rows| ==> (CountryLanguageRow(t, i) == [] <==> CountryLanguageValid(t, i));
  }

  /** Lines 75-84. */
  method InvalidCountryLanguageRule(t: Table) returns (entries: seq<CountryLanguage>)
    ensures entries == InvalidCountryLanguage(t)
  {
    entries := [];
    if CountriesColumn in t.columns && LanguagesColumn in t.columns {
      for row := 0 to |t.rows|
        invariant entries == Gather(t, row, CountryLanguageRow)
      {
        var countries, languages := Cell(t, row, CountriesColumn), Cell(t, row, LanguagesColumn);
        if !(countries.Some? && IsDigitString(countries.value) && languages.Some? && IsDigitString(languages.value)) {
          entries := entries + [CountryLanguage(row + 2, countries, languages)];
        }
      }
    }
  }

  // ---------------------------------------------------------------------
  // Rule 5: a present Age Rating ID must be one of the four texts
  // ---------------------------------------------------------------------

  /** `notna() & ~isin(...)`. */
  predicate AgeRatingFlagged(v: Option<string>)
  {
    v.Some? && v.value !in AgeRatingTexts
  }

  function AgeRatingRow(t: Table, i: nat): seq<AgeRating>
  {
    var v := Cell(t, i, AgeRatingColumn);
    if AgeRatingFlagged(v) then [AgeRating(i + 2, v.value)] else []
  }

  function InvalidAgeRating(t: Table): seq<AgeRating>
  {
    if AgeRatingColumn in t.columns then Gather(t, |t.rows|, AgeRatingRow) else []
  }

  /** A row is flagged exactly when its value is present and not one of the
      four texts; an absent value never is. */
  lemma InvalidAgeRatingReported(t: Table, i: nat)
    requires AgeRatingColumn in t.columns && i < |t.rows|
    ensures (exists e :: e in InvalidAgeRating(t) && e.row == i + 2) <==>
      Cell(t, i, AgeRatingColumn).Some? && Cell(t, i, AgeRatingColumn).value !in AgeRatingTexts
  {
    if AgeRatingRow(t, i) != [] {
      var e := AgeRatingRow(t, i)[0];
      GatherMember(t, |t.rows|, AgeRatingRow, e);
      assert e in InvalidAgeRating(t) && e.row == i + 2;
    }
    if exists e :: e in InvalidAgeRating(t) && e.row == i + 2 {
      var e :| e in InvalidAgeRating(t) && e.row == i + 2;
      GatherMember(t, |t.rows|, AgeRatingRow, e);
      var j :| 0 <= j < |t.rows| && e in AgeRatingRow(t, j);
      assert j == i;
    }
  }

  /** Each entry carries its row's present value; rows ascend. */
  lemma InvalidAgeRatingEntries(t: Table)
    ensures forall e :: e in InvalidAgeRating(t) ==>
      2 <= e.row < |t.rows| + 2 && Cell(t, e.row - 2, AgeRatingColumn) == Some(e.ageRatingId)
      && e.ageRatingId !in AgeRatingTexts
    ensures forall a, b :: 0 <= a < b < |InvalidAgeRating(t)| ==> InvalidAgeRating(t)[a].row < InvalidAgeRating(t)[b].row
  {
    if AgeRatingColumn in t.columns {
      forall e | e in InvalidAgeRating(t)
        ensures 2 <= e.row < |t.rows| + 2 && Cell(t, e.row - 2, AgeRatingColumn) == Some(e.ageRatingId)
          && e.ageRatingId !in AgeRatingTexts
      {
        GatherMember(t, |t.rows|, AgeRatingRow, e);
      }
      GatherStrictlyAscending(t, |t.rows|, AgeRatingRow, (e: AgeRating) => e.row, 2);
    }
  }

  lemma InvalidAgeRatingEmpty(t: Table)
    ensures InvalidAgeRating(t) == [] <==>
      (AgeRatingColumn in t.columns ==> forall i :: 0 <= i < |t.rows| ==> !AgeRatingFlagged(Cell(t, i, AgeRatingColumn)))
  {
    GatherEmpty(t, |t.rows|, AgeRatingRow);
    assert forall i :: 0 <= i < |t.rows| ==> (AgeRatingRow(t, i) == [] <==> !AgeRatingFlagged(Cell(t, i, AgeRatingColumn)));
  }

  /** Lines 87-94. */
  method InvalidAgeRatingRule(t: Table) returns (entries: seq<AgeRating>)
    ensures entries == InvalidAgeRating(t)
  {
    entries := [];
    if AgeRatingColumn in t.columns {
      for row := 0 to |t.rows|
        invariant entries == Gather(t, row, AgeRatingRow)
      {
        var v := Cell(t, row, AgeRatingColumn);
        if v.Some? && v.value !in AgeRatingTexts {
          entries := entries + [AgeRating(row + 2, v.value)];
        }
      }
    }
  }

  // ---------------------------------------------------------------------
  // Rule 6: a present Rating Date must match \d{2}/\d{2}/\d{4}
  // ---------------------------------------------------------------------

  predicate DateFlagged(v: Option<string>)
  {
    v.Some? && !MatchesLooseDate(v.value)
  }

  function DateRow(t: Table, i: nat): seq<DateValue>
  {
    var v := Cell(t, i, RatingDateColumn);
    if DateFlagged(v) then [DateValue(i + 2, v.value)] else []
  }

  function InvalidDates(t: Table): seq<DateValue>
  {
    if RatingDateColumn in t.columns then Gather(t, |t.rows|, DateRow) else []
  }

  /** A row is flagged exactly when its date is present and not of the
      shape; an absent date never is. */
  lemma InvalidDatesReported(t: Table, i: nat)
    requires RatingDateColumn in t.columns && i < |t.rows|
    ensures (exists e :: e in InvalidDates(t) && e.row == i + 2) <==>
      Cell(t, i, RatingDateColumn).Some? && !MatchesLooseDate(Cell(t, i, RatingDateColumn).value)
  {
    if DateRow(t, i) != [] {
      var e := DateRow(t, i)[0];
      GatherMember(t, |t.rows|, DateRow, e);
      assert e in InvalidDates(t) && e.row == i + 2;
    }
    if exists e :: e in InvalidDates(t) && e.row == i + 2 {
      var e :| e in InvalidDates(t) && e.row == i + 2;
      GatherMember(t, |t.rows|, DateRow, e);
      var j :| 0 <= j < |t.rows| && e in DateRow(t, j);
      assert j == i;
    }
  }

  /** Each entry carries its row's present date; rows ascend. */
  lemma InvalidDatesEntries(t: Table)
    ensures forall e :: e in InvalidDates(t) ==>
      2 <= e.row < |t.rows| + 2 && Cell(t, e.row - 2, RatingDateColumn) == Some(e.ratingDate)
      && !MatchesLooseDate(e.ratingDate)
    ensures forall a, b :: 0 <= a < b < |InvalidDates(t)| ==> InvalidDates(t)[a].row < InvalidDates(t)[b].row
  {
    if RatingDateColumn in t.columns {
      forall e | e in InvalidDates(t)
        ensures 2 <= e.row < |t.rows| + 2 && Cell(t, e.row - 2, RatingDateColumn) == Some(e.ratingDate)
          && !MatchesLooseDate(e.ratingDate)
      {
        GatherMember(t, |t.rows|, DateRow, e);
      }
      GatherStrictlyAscending(t, |t.rows|, DateRow, (e: DateValue) => e.row, 2);
    }
  }

  lemma InvalidDatesEmpty(t: Table)
    ensures InvalidDates(t) == [] <==>
      (RatingDateColumn in t.columns ==> forall i :: 0 <= i < |t.rows| ==> !DateFlagged(Cell(t, i, RatingDateColumn)))
  {
    GatherEmpty(t, |t.rows|, DateRow);
    assert forall i :: 0 <= i < |t.rows| ==> (DateRow(t, i) == [] <==> !DateFlagged(Cell(t, i, RatingDateColumn)));
  }

  /** Lines 97-104. */
  method InvalidDatesRule(t: Table) returns (entries: seq<DateValue>)
    ensures entries == InvalidDates(t)
  {
    entries := [];
    if RatingDateColumn in t.columns {
      for row := 0 to |t.rows|
        invariant entries == Gather(t, row, DateRow)
      {
        var v := Cell(t, row, RatingDateColumn);
        if v.Some? && !MatchesLooseDate(v.value) {
          entries := entries + [DateValue(row + 2, v.value)];
        }
      }
    }
  }

  // ---------------------------------------------------------------------
  // The whole validation
  // ---------------------------------------------------------------------

  /** `validate_file` on a loaded table, rule 2 read as evidently intended
      (`ValidateNonEnglishRuleAsWritten` keeps rule 2 as written). Rule 3
      leaves absent GTIs unclustered (see Findings in README.md). */
  function Validate(t: Table): Report
  {
    Report(
      map[
        BlankCells := Map(BlankImpacts(t), AsBlank),
        NonEnglishChars := Map(NonEnglishCells(t), AsNonEnglish),
        DuplicateGtiCategory := Map(DuplicateGtis(t), AsDuplicate),
        InvalidCountryLanguageCategory := Map(InvalidCountryLanguage(t), AsCodes),
        InvalidAgeRatingCategory := Map(InvalidAgeRating(t), AsAge),
        InvalidDateFormatCategory := Map(InvalidDates(t), AsDate)],
      map[])
  }

  /** `validate_file` with rule 2 as written: the unpacking at line 60
      raises out of the function once there is a hit. The other rules are
      those of `Validate`, so rule 3 is the duplicate rule as corrected in
      Findings. */
  function ValidateNonEnglishRuleAsWritten(t: Table): Result<Report>
  {
    match NonEnglishAsWritten(t)
    case Err(e) => Err(e)
    case Ok(nonEnglish) =>
      Ok(Report(
        map[
          BlankCells := Map(BlankImpacts(t), AsBlank),
          NonEnglishChars := Map(nonEnglish, AsNonEnglish),
          DuplicateGtiCategory := Map(DuplicateGtis(t), AsDuplicate),
          InvalidCountryLanguageCategory := Map(InvalidCountryLanguage(t), AsCodes),
          InvalidAgeRatingCategory := Map(InvalidAgeRating(t), AsAge),
          InvalidDateFormatCategory := Map(InvalidDates(t), AsDate)],
        map[]))
  }

  /** With rule 2 as written, the validation fails exactly when some present
      cell holds a character above 0x7F, and otherwise gives the report of
      `Validate`: the corrected rule 2 only differs where the source raises. */
  lemma ValidateNonEnglishRuleAsWrittenOutcome(t: Table)
    ensures ValidateNonEnglishRuleAsWritten(t).Err? <==> exists i :: 0 <= i < |t.rows| && HasNonEnglish(t, i)
    ensures ValidateNonEnglishRuleAsWritten(t).Ok? ==> ValidateNonEnglishRuleAsWritten(t).value == Validate(t)
  {
    NonEnglishAsWrittenOutcome(t);
    NonEnglishCellsEmpty(t);
  }

  /** Every category is present, holding its rule's entries, and there are
      no warnings. */
  lemma ValidateCategories(t: Table)
    ensures forall c :: c in Validate(t).errors
    ensures Validate(t).errors[BlankCells] == Map(BlankImpacts(t), AsBlank)
    ensures Validate(t).errors[NonEnglishChars] == Map(NonEnglishCells(t), AsNonEnglish)
    ensures Validate(t).errors[DuplicateGtiCategory] == Map(DuplicateGtis(t), AsDuplicate)
    ensures Validate(t).errors[InvalidCountryLanguageCategory] == Map(InvalidCountryLanguage(t), AsCodes)
    ensures Validate(t).errors[InvalidAgeRatingCategory] == Map(InvalidAgeRating(t), AsAge)
    ensures Validate(t).errors[InvalidDateFormatCategory] == Map(InvalidDates(t), AsDate)
    ensures Validate(t).warnings == map[]
  {
    forall c
      ensures c in Validate(t).errors
    {
      match c
      case BlankCells =>
      case NonEnglishChars =>
      case DuplicateGtiCategory =>
      case InvalidCountryLanguageCategory =>
      case InvalidAgeRatingCategory =>
      case InvalidDateFormatCategory =>
    }
  }

  /** Each category appends its rule's entries to the empty list the
      initialisation left. */
  method ValidateFile(t: Table) returns (r: Report)
    ensures r == Validate(t)
  {
    var errors := InitErrors();
    var blank := BlankImpactsRule(t);
    errors := errors[BlankCells := errors[BlankCells] + Map(blank, AsBlank)];
    var nonEnglish := NonEnglishCellsRule(t);
    errors := errors[NonEnglishChars := errors[NonEnglishChars] + Map(nonEnglish, AsNonEnglish)];
    var duplicates := DuplicateGtisRule(t);
    errors := errors[DuplicateGtiCategory := errors[DuplicateGtiCategory] + Map(duplicates, AsDuplicate)];
    var codes := InvalidCountryLanguageRule(t);
    errors := errors[InvalidCountryLanguageCategory := errors[InvalidCountryLanguageCategory] + Map(codes, AsCodes)];
    var age := InvalidAgeRatingRule(t);
    errors := errors[InvalidAgeRatingCategory := errors[InvalidAgeRatingCategory] + Map(age, AsAge)];
    var date := InvalidDatesRule(t);
    errors := errors[InvalidDateFormatCategory := errors[InvalidDateFormatCategory] + Map(date, AsDate)];
    ValidateCategories(t);
    assert errors[BlankCells] == Map(blank, AsBlank);
    assert errors[NonEnglishChars] == Map(nonEnglish, AsNonEnglish);
    assert errors[DuplicateGtiCategory] == Map(duplicates, AsDuplicate);
    assert errors[InvalidCountryLanguageCategory] == Map(codes, AsCodes);
    assert errors[InvalidAgeRatingCategory] == Map(age, AsAge);
    assert errors[InvalidDateFormatCategory] == Map(date, AsDate);
    SameErrors(errors, Validate(t).errors);
    r := Report(errors, map[]);
  }

  /** Two error dictionaries holding every category agree when they agree
      on each one. */
  lemma SameErrors(a: map<Category, seq<Entry>>, b: map<Category, seq<Entry>>)
    requires forall c :: c in a && c in b
    requires a[BlankCells] == b[BlankCells] && a[NonEnglishChars] == b[NonEnglishChars]
    requires a[DuplicateGtiCategory] == b[DuplicateGtiCategory]
    requires a[InvalidCountryLanguageCategory] == b[InvalidCountryLanguageCategory]
    requires a[InvalidAgeRatingCategory] == b[InvalidAgeRatingCategory]
    requires a[InvalidDateFormatCategory] == b[InvalidDateFormatCategory]
    ensures a == b
  {
    forall c | c in a
      ensures a[c] == b[c]
    {
      match c
      case BlankCells =>
      case NonEnglishChars =>
      case DuplicateGtiCategory =>
      case InvalidCountryLanguageCategory =>
      case InvalidAgeRatingCategory =>
      case InvalidDateFormatCategory =>
    }
  }

  /** A table passes every rule. */
  ghost predicate Clean(t: Table)
  {
    && (forall c, i :: c in t.columns && c in ImpactColumns && 0 <= i < |t.rows| ==> Cell(t, i, c).Some?)
    && (forall i :: 0 <= i < |t.rows| ==> !HasNonEnglish(t, i))
    && (GtiColumn in t.columns ==> forall g :: multiset(ColumnValues(t, GtiColumn))[Some(g)] < 2)
    && (CountriesColumn in t.columns && LanguagesColumn in t.columns ==>
          forall i :: 0 <= i < |t.rows| ==> CountryLanguageValid(t, i))
    && (AgeRatingColumn in t.columns ==> forall i :: 0 <= i < |t.rows| ==> !AgeRatingFlagged(Cell(t, i, AgeRatingColumn)))
    && (RatingDateColumn in t.columns ==> forall i :: 0 <= i < |t.rows| ==> !DateFlagged(Cell(t, i, RatingDateColumn)))
  }

  /** Every category stays the empty list it was created as exactly when
      the table passes every rule. */
  lemma ValidateCleanTable(t: Table)
    ensures (forall c :: c in Validate(t).errors ==> Validate(t).errors[c] == []) <==> Clean(t)
  {
    RulesEmpty(t);
    var errors := Validate(t).errors;
    assert errors[BlankCells] == [] <==> BlankImpacts(t) == [];
    assert errors[NonEnglishChars] == [] <==> NonEnglishCells(t) == [];
    assert errors[DuplicateGtiCategory] == [] <==> DuplicateGtis(t) == [];
    assert errors[InvalidCountryLanguageCategory] == [] <==> InvalidCountryLanguage(t) == [];
    assert errors[InvalidAgeRatingCategory] == [] <==> InvalidAgeRating(t) == [];
    assert errors[InvalidDateFormatCategory] == [] <==> InvalidDates(t) == [];
  }

  /** Each rule finds nothing exactly when the table passes every rule. */
  lemma RulesEmpty(t: Table)
    ensures (&& BlankImpacts(t) == [] && NonEnglishCells(t) == [] && DuplicateGtis(t) == []
             && InvalidCountryLanguage(t) == [] && InvalidAgeRating(t) == [] && InvalidDates(t) == []) <==> Clean(t)
  {
    BlankImpactsEmpty(t);
    NonEnglishCellsEmpty(t);
    if GtiColumn in t.columns {
      DuplicateGtisEmpty(t);
    }
    InvalidCountryLanguageEmpty(t);
    InvalidAgeRatingEmpty(t);
    InvalidDatesEmpty(t);
  }
}
