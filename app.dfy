/**
 * App.py's `validate_excel`: a schema check that raises when required
 * columns are missing, eight boolean flags per row, and a report that maps
 * every flagged row (numbered index + 1) to its messages in the fixed order
 * of the checks.
 */
module App {
  import opened Lists
  import opened Tables
  import opened Text
  import opened Rules

  /** `required_columns`, in the order they are listed. */
  const RequiredColumns: seq<string> :=
    ["GTI", "Entity", "Title Name", "Other title names", "Duration",
     "Producers", "Directors", "Production Company Name", "Year of Production",
     "Countries", "Languages", "Is Version Original", "Age Rating ID",
     "Content Descriptors", "Violence Impact", "Drug Use Impact",
     "Themes Impact", "Language Impact", "Nudity Impact", "Sex Impact",
     "ACB Rated", "Different Version Production Exists", "Rating Date"]

  const OtherTitlesColumn := "Other title names"

  /** `text_columns`: the columns held to the English allow-list. */
  const TextColumns: seq<string> := ["Title Name", "Producers", "Directors", "Production Company Name"]

  /** `.str.isdigit()` and `.str.match()` yield NaN for an absent cell, and
      a mask holding NaN is not a boolean mask: the two code columns and the
      date column are modelled as present in every row whenever the header
      has them. */
  predicate CellsPresent(t: Table)
  {
    && (CountriesColumn in t.columns ==> PresentThroughout(t, CountriesColumn))
    && (LanguagesColumn in t.columns ==> PresentThroughout(t, LanguagesColumn))
    && (RatingDateColumn in t.columns ==> PresentThroughout(t, RatingDateColumn))
  }

  // ---------------------------------------------------------------------
  // The eight row flags
  // ---------------------------------------------------------------------

  /** `missing_values`: a required column other than "Other title names"
      is absent or "". */
  predicate MissingValues(t: Table, i: nat)
  {
    exists c :: c in RequiredColumns && c != OtherTitlesColumn && IsBlank(Cell(t, i, c))
  }

  /** `df[df.duplicated(subset=['GTI'], keep=False)]["GTI"].tolist()`: the
      GTIs of every row whose GTI occurs more than once, absent ones
      included, since `duplicated` groups NaN with NaN. */
  function DuplicateGtiList(t: Table): seq<Option<string>>
  {
    var vals := ColumnValues(t, GtiColumn);
    Filter(vals, (v: Option<string>) => multiset(vals)[v] >= 2)
  }

  /** `GTI_Duplicate`: `isin` on that list, which matches NaN to NaN. */
  predicate GtiDuplicate(t: Table, i: nat)
  {
    Cell(t, i, GtiColumn) in DuplicateGtiList(t)
  }

  /** `Non_English_Found`: a present text cell is not wholly made of the
      allowed characters; `NaN == False` is false, so absent cells pass. */
  predicate NonEnglishFound(t: Table, i: nat)
  {
    exists c :: c in TextColumns && Cell(t, i, c).Some? && !MatchesAppText(Cell(t, i, c).value)
  }

  /** `Invalid_Country_Language`. */
  predicate InvalidCountryLanguage(t: Table, i: nat)
  {
    !IsDigitString(Str(Cell(t, i, CountriesColumn))) || !IsDigitString(Str(Cell(t, i, LanguagesColumn)))
  }

  /** `Invalid_Age_Rating`: absent is not in the set either. */
  predicate InvalidAgeRating(t: Table, i: nat)
  {
    !AgeTextValid(Cell(t, i, AgeRatingColumn))
  }

  /** `Invalid_Date_Format`, with the ranged month and day pattern. */
  predicate InvalidDateFormat(t: Table, i: nat)
  {
    !MatchesStrictDate(Str(Cell(t, i, RatingDateColumn)))
  }

  /** `Impact_Column_Blank`. */
  predicate ImpactBlank(t: Table, i: nat)
  {
    exists c :: c in ImpactColumns && IsBlank(Cell(t, i, c))
  }

  /** `Impact_Column_Invalid`: some impact cell is not exactly one of the
      four levels. */
  predicate ImpactInvalid(t: Table, i: nat)
  {
    exists c :: c in ImpactColumns && !(Cell(t, i, c).Some? && Cell(t, i, c).value in ImpactLevels)
  }

  /** Row i of the flag columns the source adds to the table (lines 27, 37,
      40, 44, 48, 52, 53), with the two cells its messages quote. */
  datatype RowFlags = RowFlags(
    missingValues: bool, gtiDuplicate: bool, nonEnglishFound: bool, invalidCountryLanguage: bool,
    invalidAgeRating: bool, invalidDateFormat: bool, impactBlank: bool, impactInvalid: bool,
    gti: string, ageRatingId: string)

  function Flags(t: Table, i: nat): RowFlags
  {
    RowFlags(MissingValues(t, i), GtiDuplicate(t, i), NonEnglishFound(t, i), InvalidCountryLanguage(t, i),
      InvalidAgeRating(t, i), InvalidDateFormat(t, i), ImpactBlank(t, i), ImpactInvalid(t, i),
      Str(Cell(t, i, GtiColumn)), Str(Cell(t, i, AgeRatingColumn)))
  }

  /** The row is selected into `df_errors`. */
  predicate AnyFlag(f: RowFlags)
  {
    f.missingValues || f.gtiDuplicate || f.nonEnglishFound || f.invalidCountryLanguage
    || f.invalidAgeRating || f.invalidDateFormat || f.impactBlank || f.impactInvalid
  }

  /** Every row whose GTI occurs in two or more rows is flagged, the first
      occurrence included; with two absent GTIs, absent rows are flagged too. */
  lemma GtiDuplicateIff(t: Table, i: nat)
    requires i < |t.rows|
    ensures GtiDuplicate(t, i) <==> multiset(ColumnValues(t, GtiColumn))[Cell(t, i, GtiColumn)] >= 2
  {
    var vals := ColumnValues(t, GtiColumn);
    var keep := (v: Option<string>) => multiset(vals)[v] >= 2;
    FilterMember(vals, keep, Cell(t, i, GtiColumn));
    assert vals[i] == Cell(t, i, GtiColumn);
  }

  /** Under the ASCII reading of `\s`, a text cell with a character above
      0x7F is always flagged, and
      "Other title names" is never looked at. */
  lemma NonAsciiTextFlagged(t: Table, i: nat, c: string)
    requires c in TextColumns && Cell(t, i, c).Some? && HasNonAscii(Cell(t, i, c).value)
    ensures NonEnglishFound(t, i)
    ensures OtherTitlesColumn !in TextColumns
  {
    AllowListsRejectNonAscii(Cell(t, i, c).value);
  }

  /** A blank impact cell sets both impact flags. */
  lemma ImpactBlankIsInvalid(t: Table, i: nat)
    requires ImpactBlank(t, i)
    ensures ImpactInvalid(t, i)
  {
    var c :| c in ImpactColumns && IsBlank(Cell(t, i, c));
    assert "" !in ImpactLevels;
  }

  /** The impact enumeration is case-sensitive and has no blank member. */
  lemma ImpactLevelExamples()
    ensures "none" !in ImpactLevels && "LOW" !in ImpactLevels && "" !in ImpactLevels
    ensures "None" in ImpactLevels
  {
  }

  // ---------------------------------------------------------------------
  // The messages of one row
  // ---------------------------------------------------------------------

  /** What one check found; the two parametrised messages carry the
      stringified cell they quote. */
  datatype Problem =
    | MissingRequired
    | DuplicateGti(gti: string)
    | NonEnglishText
    | NonNumericCodes
    | InvalidAge(ageRatingId: string)
    | InvalidDate
    | ImpactColumnBlank
    | ImpactColumnInvalid

  /** The position of the check in the sequence of if-statements. */
  function Rank(p: Problem): nat
  {
    match p
    case MissingRequired => 0
    case DuplicateGti(_) => 1
    case NonEnglishText => 2
    case NonNumericCodes => 3
    case InvalidAge(_) => 4
    case InvalidDate => 5
    case ImpactColumnBlank => 6
    case ImpactColumnInvalid => 7
  }

  /** The text appended to `row_errors`. */
  function Message(p: Problem): string
  {
    match p
    case MissingRequired => "Missing required values"
    case DuplicateGti(g) => "Duplicate GTI '" + g + "'"
    case NonEnglishText => "Non-English characters found in text fields"
    case NonNumericCodes => "Non-numeric value found in 'Countries' or 'Languages'"
    case InvalidAge(a) => "Invalid Age Rating ID '" + a + "' (Allowed: 2, 9, 154, 147)"
    case InvalidDate => "Invalid date format in 'Rating Date' (Expected: MM/DD/YYYY)"
    case ImpactColumnBlank => "Impact columns cannot be blank (Allowed: 'None', 'Low', 'Medium', 'High')"
    case ImpactColumnInvalid => "Impact column contains invalid values (Allowed: 'None', 'Low', 'Medium', 'High')"
  }

  /** The number of checks a row goes through. */
  const Checks: nat := 8

  /** Check k of the row: the problem it reports, if its flag is set. */
  function ProblemAt(f: RowFlags, k: nat): seq<Problem>
  {
    if k == 0 then (if f.missingValues then [MissingRequired] else [])
    else if k == 1 then (if f.gtiDuplicate then [DuplicateGti(f.gti)] else [])
    else if k == 2 then (if f.nonEnglishFound then [NonEnglishText] else [])
    else if k == 3 then (if f.invalidCountryLanguage then [NonNumericCodes] else [])
    else if k == 4 then (if f.invalidAgeRating then [InvalidAge(f.ageRatingId)] else [])
    else if k == 5 then (if f.invalidDateFormat then [InvalidDate] else [])
    else if k == 6 then (if f.impactBlank then [ImpactColumnBlank] else [])
    else if k == 7 then (if f.impactInvalid then [ImpactColumnInvalid] else [])
    else []
  }

  /** Check k reports at most one problem, of rank k. */
  lemma ProblemAtRank(f: RowFlags, k: nat)
    ensures |ProblemAt(f, k)| <= 1
    ensures forall e :: e in ProblemAt(f, k) ==> Rank(e) == k
  {
  }

  /** The problems of a row, check by check. */
  function Problems(f: RowFlags): seq<Problem>
  {
    Gather(f, Checks, ProblemAt)
  }

  /** The messages check k appends. */
  function MessagesAt(f: RowFlags, k: nat): seq<string>
  {
    Map(ProblemAt(f, k), Message)
  }

  /** `row_errors`: the messages of the checks, in order. */
  function Messages(f: RowFlags): seq<string>
  {
    Gather(f, Checks, MessagesAt)
  }

  /** The messages are those of the problems, one for one. */
  lemma MessagesOfProblems(f: RowFlags)
    ensures Messages(f) == Map(Problems(f), Message)
  {
    MessagesOfFirstChecks(f, Checks);
  }

  lemma {:induction false} MessagesOfFirstChecks(f: RowFlags, n: nat)
    ensures Gather(f, n, MessagesAt) == Map(Gather(f, n, ProblemAt), Message)
  {
    if n > 0 {
      MessagesOfFirstChecks(f, n - 1);
      MapAppend(Gather(f, n - 1, ProblemAt), ProblemAt(f, n - 1), Message);
    }
  }

  /** The problems appear in the order of the checks, none twice. */
  lemma ProblemsOrder(f: RowFlags)
    ensures forall a, b :: 0 <= a < b < |Problems(f)| ==> Rank(Problems(f)[a]) < Rank(Problems(f)[b])
  {
    var key := (e: Problem) => Rank(e) as int;
    forall i, e | 0 <= i < Checks && e in ProblemAt(f, i)
      ensures key(e) == 0 + i
    {
      ProblemAtRank(f, i);
    }
    forall i | 0 <= i < Checks
      ensures |ProblemAt(f, i)| <= 1
    {
      ProblemAtRank(f, i);
    }
    GatherStrictlyAscending(f, Checks, ProblemAt, key, 0);
  }

  /** A problem is listed exactly when the check of its rank reports it. */
  lemma ProblemsByRank(f: RowFlags, e: Problem)
    ensures e in Problems(f) <==> e in ProblemAt(f, Rank(e))
  {
    GatherMember(f, Checks, ProblemAt, e);
    if e in Problems(f) {
      var k :| 0 <= k < Checks && e in ProblemAt(f, k);
      ProblemAtRank(f, k);
    }
    if e in ProblemAt(f, Rank(e)) {
      assert 0 <= Rank(e) < Checks;
    }
  }

  /** Each message is there exactly when its flag is set, quoting the
      row's own cells. */
  lemma ProblemsMember(f: RowFlags)
    ensures MissingRequired in Problems(f) <==> f.missingValues
    ensures (exists g :: DuplicateGti(g) in Problems(f)) <==> f.gtiDuplicate
    ensures forall g :: DuplicateGti(g) in Problems(f) ==> g == f.gti
    ensures NonEnglishText in Problems(f) <==> f.nonEnglishFound
    ensures NonNumericCodes in Problems(f) <==> f.invalidCountryLanguage
    ensures (exists a :: InvalidAge(a) in Problems(f)) <==> f.invalidAgeRating
    ensures forall a :: InvalidAge(a) in Problems(f) ==> a == f.ageRatingId
    ensures InvalidDate in Problems(f) <==> f.invalidDateFormat
    ensures ImpactColumnBlank in Problems(f) <==> f.impactBlank
    ensures ImpactColumnInvalid in Problems(f) <==> f.impactInvalid
  {
    ProblemsByRank(f, MissingRequired);
    ProblemsByRank(f, NonEnglishText);
    ProblemsByRank(f, NonNumericCodes);
    ProblemsByRank(f, InvalidDate);
    ProblemsByRank(f, ImpactColumnBlank);
    ProblemsByRank(f, ImpactColumnInvalid);
    ProblemsByRank(f, DuplicateGti(f.gti));
    ProblemsByRank(f, InvalidAge(f.ageRatingId));
    ProblemsQuote(f);
  }

  /** The two parametrised messages quote the row's own values. */
  lemma ProblemsQuote(f: RowFlags)
    ensures forall g :: DuplicateGti(g) in Problems(f) ==> g == f.gti
    ensures forall a :: InvalidAge(a) in Problems(f) ==> a == f.ageRatingId
  {
    forall g | DuplicateGti(g) in Problems(f)
      ensures g == f.gti
    {
      ProblemsByRank(f, DuplicateGti(g));
    }
    forall a | InvalidAge(a) in Problems(f)
      ensures a == f.ageRatingId
    {
      ProblemsByRank(f, InvalidAge(a));
    }
  }

  /** A row has messages exactly when it is selected. */
  lemma ProblemsEmpty(f: RowFlags)
    ensures Problems(f) == [] <==> !AnyFlag(f)
  {
    GatherEmpty(f, Checks, ProblemAt);
    if !AnyFlag(f) {
      assert forall k :: 0 <= k < Checks ==> ProblemAt(f, k) == [];
    } else if f.missingValues {
      assert ProblemAt(f, 0) != [];
    } else if f.gtiDuplicate {
      assert ProblemAt(f, 1) != [];
    } else if f.nonEnglishFound {
      assert ProblemAt(f, 2) != [];
    } else if f.invalidCountryLanguage {
      assert ProblemAt(f, 3) != [];
    } else if f.invalidAgeRating {
      assert ProblemAt(f, 4) != [];
    } else if f.invalidDateFormat {
      assert ProblemAt(f, 5) != [];
    } else if f.impactBlank {
      assert ProblemAt(f, 6) != [];
    } else {
      assert ProblemAt(f, 7) != [];
    }
  }

  /** Lines 70-87: the eight checks appended one after the other. */
  method RowErrors(row: RowFlags) returns (rowErrors: seq<string>)
    ensures rowErrors == Messages(row)
  {
    rowErrors := [];
    rowErrors := AppendIf(row, 0, rowErrors, row.missingValues, MissingRequired);
    rowErrors := AppendIf(row, 1, rowErrors, row.gtiDuplicate, DuplicateGti(row.gti));
    rowErrors := AppendIf(row, 2, rowErrors, row.nonEnglishFound, NonEnglishText);
    rowErrors := AppendIf(row, 3, rowErrors, row.invalidCountryLanguage, NonNumericCodes);
    rowErrors := AppendIf(row, 4, rowErrors, row.invalidAgeRating, InvalidAge(row.ageRatingId));
    rowErrors := AppendIf(row, 5, rowErrors, row.invalidDateFormat, InvalidDate);
    rowErrors := AppendIf(row, 6, rowErrors, row.impactBlank, ImpactColumnBlank);
    rowErrors := AppendIf(row, 7, rowErrors, row.impactInvalid, ImpactColumnInvalid);
  }

  /** One `if flag: row_errors.append(message)` of lines 72-87, as check k
      of the row: appending p's message when flagged extends the messages of
      the first k checks to those of the first k + 1. */
  method AppendIf(ghost row: RowFlags, ghost k: nat, rowErrors: seq<string>, flagged: bool, p: Problem)
    returns (r: seq<string>)
    requires rowErrors == Gather(row, k, MessagesAt)
    requires ProblemAt(row, k) == (if flagged then [p] else [])
    ensures r == Gather(row, k + 1, MessagesAt)
  {
    assert MessagesAt(row, k) == if flagged then [Message(p)] else [];
    r := rowErrors;
    if flagged {
      r := r + [Message(p)];
    }
  }

  // ---------------------------------------------------------------------
  // The report and the whole validation
  // ---------------------------------------------------------------------

  /** The flag columns of the whole table, one record per row. */
  function FlagRows(t: Table): seq<RowFlags>
  {
    seq(|t.rows|, i requires 0 <= i < |t.rows| => Flags(t, i))
  }

  /** The report after the first n rows: each selected row's number
      (index + 1) with its messages. */
  function ReportUpTo(rows: seq<RowFlags>, n: nat): map<int, seq<string>>
    requires n <= |rows|
  {
    if n == 0 then map[]
    else if AnyFlag(rows[n - 1]) then ReportUpTo(rows, n - 1)[n := Messages(rows[n - 1])]
    else ReportUpTo(rows, n - 1)
  }

  /** The report after the first n rows holds exactly the selected ones
      among them, each with its own messages. */
  lemma {:induction false} ReportUpToRows(rows: seq<RowFlags>, n: nat, r: int)
    requires n <= |rows|
    ensures r in ReportUpTo(rows, n) <==> 1 <= r <= n && AnyFlag(rows[r - 1])
    ensures r in ReportUpTo(rows, n) ==> ReportUpTo(rows, n)[r] == Messages(rows[r - 1])
  {
    if n > 0 {
      ReportUpToRows(rows, n - 1, r);
      var before := ReportUpTo(rows, n - 1);
      var selected := AnyFlag(rows[n - 1]);
      if r == n {
        assert r !in before;
      } else if selected {
        assert ReportUpTo(rows, n) == before[n := Messages(rows[n - 1])];
      } else {
        assert ReportUpTo(rows, n) == before;
      }
    }
  }

  /** `error_report`. */
  function Report(rows: seq<RowFlags>): map<int, seq<string>>
  {
    ReportUpTo(rows, |rows|)
  }

  /** `validate_excel` on a loaded table: the schema error, or the report. */
  function Validate(t: Table): Result<map<int, seq<string>>>
  {
    var missing := LackingColumns(t, RequiredColumns);
    if missing != [] then Err(MissingColumns(missing)) else Ok(Report(FlagRows(t)))
  }

  /** The schema check raises exactly when a required column is missing,
      listing every missing one in the order of the required list. */
  lemma ValidateFails(t: Table)
    ensures Validate(t).Err? <==> exists k :: 0 <= k < |RequiredColumns| && RequiredColumns[k] !in t.columns
    ensures Validate(t).Err? ==> Validate(t).error == MissingColumns(LackingColumns(t, RequiredColumns))
    ensures forall c :: c in LackingColumns(t, RequiredColumns) <==> c in RequiredColumns && c !in t.columns
  {
    LackingColumnsEmpty(t, RequiredColumns);
    forall c
      ensures c in LackingColumns(t, RequiredColumns) <==> c in RequiredColumns && c !in t.columns
    {
      LackingColumnsMember(t, RequiredColumns, c);
    }
  }

  /** The report holds exactly the selected rows, keyed by index + 1, each
      with at least one message. */
  lemma ReportRows(rows: seq<RowFlags>, r: int)
    ensures r in Report(rows) <==> 1 <= r <= |rows| && AnyFlag(rows[r - 1])
    ensures r in Report(rows) ==> Report(rows)[r] == Messages(rows[r - 1]) && Report(rows)[r] != []
  {
    ReportUpToRows(rows, |rows|, r);
    if r in Report(rows) {
      ProblemsEmpty(rows[r - 1]);
      MessagesOfProblems(rows[r - 1]);
    }
  }

  /** No row is reported exactly when every row passes all eight checks. */
  lemma ReportEmpty(rows: seq<RowFlags>)
    ensures Report(rows) == map[] <==> forall i :: 0 <= i < |rows| ==> !AnyFlag(rows[i])
  {
    if Report(rows) == map[] {
      forall i | 0 <= i < |rows|
        ensures !AnyFlag(rows[i])
      {
        ReportUpToRows(rows, |rows|, i + 1);
      }
    } else if forall i :: 0 <= i < |rows| ==> !AnyFlag(rows[i]) {
      NothingSelectedUpTo(rows, |rows|);
    }
  }

  /** With no row selected among the first n, their report is empty. */
  lemma {:induction false} NothingSelectedUpTo(rows: seq<RowFlags>, n: nat)
    requires n <= |rows|
    requires forall i :: 0 <= i < n ==> !AnyFlag(rows[i])
    ensures ReportUpTo(rows, n) == map[]
  {
    if n > 0 {
      NothingSelectedUpTo(rows, n - 1);
    }
  }

  /** Lines 21-89: the schema check, then one pass over the selected rows. */
  method ValidateExcel(t: Table) returns (result: Result<map<int, seq<string>>>)
    requires LackingColumns(t, RequiredColumns) == [] ==> CellsPresent(t)
    ensures result == Validate(t)
  {
    var missing := LackingColumns(t, RequiredColumns);
    if missing != [] {
      return Err(MissingColumns(missing));
    }
    var flags := FlagRows(t);
    var report := map[];
    for row := 0 to |flags|
      invariant report == ReportUpTo(flags, row)
    {
      var rowFlags := flags[row];
      if AnyFlag(rowFlags) {
        var rowErrors := RowErrors(rowFlags);
        report := report[row + 1 := rowErrors];
      }
    }
    result := Ok(report);
  }

  /** Row i has no blank required cell other than "Other title names". */
  ghost predicate RequiredFilled(t: Table, i: nat)
  {
    forall k :: 0 <= k < |RequiredColumns| && k != 3 ==> !IsBlank(Cell(t, i, RequiredColumns[k]))
  }

  /** Every character of row i's present text cells is in App.py's class. */
  ghost predicate TextsAllowed(t: Table, i: nat)
  {
    forall k, j :: 0 <= k < |TextColumns| && Cell(t, i, TextColumns[k]).Some? && 0 <= j < |Cell(t, i, TextColumns[k]).value|
      ==> AppAllowedChar(Cell(t, i, TextColumns[k]).value[j])
  }

  /** No impact cell of row i is blank. */
  ghost predicate ImpactsFilled(t: Table, i: nat)
  {
    forall k :: 0 <= k < |ImpactColumns| ==> !IsBlank(Cell(t, i, ImpactColumns[k]))
  }

  /** Every impact cell of row i holds one of the four levels. */
  ghost predicate ImpactsAllowed(t: Table, i: nat)
  {
    forall k :: 0 <= k < |ImpactColumns| ==> Cell(t, i, ImpactColumns[k]).Some? && Cell(t, i, ImpactColumns[k]).value in ImpactLevels
  }

  /** The flag record of row i, read off the row's cells: each flag is its
      mask of lines 25-53 at that row, and the two quoted values are the
      row's GTI and Age Rating ID through `str()`. */
  lemma FlagRowsOnCells(t: Table, i: nat)
    requires i < |t.rows|
    ensures FlagRows(t)[i].missingValues <==> !RequiredFilled(t, i)
    ensures FlagRows(t)[i].gtiDuplicate <==> multiset(ColumnValues(t, GtiColumn))[Cell(t, i, GtiColumn)] >= 2
    ensures FlagRows(t)[i].nonEnglishFound <==> !TextsAllowed(t, i)
    ensures FlagRows(t)[i].invalidCountryLanguage <==>
      Cell(t, i, CountriesColumn).None? || Cell(t, i, LanguagesColumn).None?
      || !IsDigitString(Cell(t, i, CountriesColumn).value) || !IsDigitString(Cell(t, i, LanguagesColumn).value)
    ensures FlagRows(t)[i].invalidAgeRating <==>
      Cell(t, i, AgeRatingColumn).None? || Cell(t, i, AgeRatingColumn).value !in AgeRatingTexts
    ensures FlagRows(t)[i].invalidDateFormat <==>
      Cell(t, i, RatingDateColumn).None? || !MatchesStrictDate(Cell(t, i, RatingDateColumn).value)
    ensures FlagRows(t)[i].impactBlank <==> !ImpactsFilled(t, i)
    ensures FlagRows(t)[i].impactInvalid <==> !ImpactsAllowed(t, i)
    ensures FlagRows(t)[i].gti == Str(Cell(t, i, GtiColumn)) && FlagRows(t)[i].ageRatingId == Str(Cell(t, i, AgeRatingColumn))
  {
    assert FlagRows(t)[i] == Flags(t, i);
    GtiDuplicateIff(t, i);
    MissingValuesOnCells(t, i);
    NonEnglishOnCells(t, i);
    ImpactOnCells(t, i);
    NanIsNotDigits();
    assert !MatchesStrictDate("nan");
  }

  lemma MissingValuesOnCells(t: Table, i: nat)
    ensures MissingValues(t, i) <==> !RequiredFilled(t, i)
  {
    if MissingValues(t, i) {
      var c :| c in RequiredColumns && c != OtherTitlesColumn && IsBlank(Cell(t, i, c));
      var k :| 0 <= k < |RequiredColumns| && RequiredColumns[k] == c;
    }
  }

  lemma NonEnglishOnCells(t: Table, i: nat)
    ensures NonEnglishFound(t, i) <==> !TextsAllowed(t, i)
  {
    if NonEnglishFound(t, i) {
      var c :| c in TextColumns && Cell(t, i, c).Some? && !MatchesAppText(Cell(t, i, c).value);
      var k :| 0 <= k < |TextColumns| && TextColumns[k] == c;
    }
  }

  lemma ImpactOnCells(t: Table, i: nat)
    ensures ImpactBlank(t, i) <==> !ImpactsFilled(t, i)
    ensures ImpactInvalid(t, i) <==> !ImpactsAllowed(t, i)
  {
    if ImpactBlank(t, i) {
      var c :| c in ImpactColumns && IsBlank(Cell(t, i, c));
      var k :| 0 <= k < |ImpactColumns| && ImpactColumns[k] == c;
    }
    if ImpactInvalid(t, i) {
      var c :| c in ImpactColumns && !(Cell(t, i, c).Some? && Cell(t, i, c).value in ImpactLevels);
      var k :| 0 <= k < |ImpactColumns| && ImpactColumns[k] == c;
    }
  }

  /** Row i passes all eight checks: no required cell other than "Other
      title names" is blank, the GTI occurs once, the four text cells are
      allow-listed, both codes are digit strings, the Age Rating ID is one
      of the four texts, the date is a ranged date and every impact cell is
      one of the four levels (so none is blank). */
  ghost predicate RowClean(t: Table, i: nat)
  {
    && RequiredFilled(t, i)
    && multiset(ColumnValues(t, GtiColumn))[Cell(t, i, GtiColumn)] < 2
    && TextsAllowed(t, i)
    && Cell(t, i, CountriesColumn).Some? && IsDigitString(Cell(t, i, CountriesColumn).value)
    && Cell(t, i, LanguagesColumn).Some? && IsDigitString(Cell(t, i, LanguagesColumn).value)
    && Cell(t, i, AgeRatingColumn).Some? && Cell(t, i, AgeRatingColumn).value in AgeRatingTexts
    && Cell(t, i, RatingDateColumn).Some? && MatchesStrictDate(Cell(t, i, RatingDateColumn).value)
    && ImpactsAllowed(t, i)
  }

  /** A table App.py reports nothing for: every required column is in the
      header and every row passes all eight checks. */
  ghost predicate Clean(t: Table)
  {
    (forall k :: 0 <= k < |RequiredColumns| ==> RequiredColumns[k] in t.columns)
    && forall i :: 0 <= i < |t.rows| ==> RowClean(t, i)
  }

  /** A row is left out of `df_errors` exactly when it passes all eight checks. */
  lemma RowCleanIff(t: Table, i: nat)
    requires i < |t.rows|
    ensures !AnyFlag(FlagRows(t)[i]) <==> RowClean(t, i)
  {
    FlagRowsOnCells(t, i);
    if ImpactsAllowed(t, i) {
      assert ImpactsFilled(t, i) by {
        assert "" !in ImpactLevels;
      }
    }
  }

  /** The validation succeeds with an empty report exactly when the table
      is clean. */
  lemma ValidateCleanTable(t: Table)
    ensures Validate(t) == Ok(map[]) <==> Clean(t)
  {
    LackingColumnsEmpty(t, RequiredColumns);
    ReportCleanIff(t);
  }

  /** The report of the flagged rows is empty exactly when every row passes. */
  lemma ReportCleanIff(t: Table)
    ensures Report(FlagRows(t)) == map[] <==> forall i :: 0 <= i < |t.rows| ==> RowClean(t, i)
  {
    var rows := FlagRows(t);
    ReportEmpty(rows);
    forall i | 0 <= i < |t.rows|
      ensures !AnyFlag(rows[i]) <==> RowClean(t, i)
    {
      RowCleanIff(t, i);
    }
  }

  /** With the schema satisfied and the masked cells present, the code and
      date flags read the cells' own text. */
  lemma PresentFlags(t: Table, i: nat)
    requires CellsPresent(t) && LackingColumns(t, RequiredColumns) == [] && i < |t.rows|
    ensures Cell(t, i, CountriesColumn).Some? && Cell(t, i, LanguagesColumn).Some? && Cell(t, i, RatingDateColumn).Some?
    ensures InvalidCountryLanguage(t, i) <==>
      !IsDigitString(Cell(t, i, CountriesColumn).value) || !IsDigitString(Cell(t, i, LanguagesColumn).value)
    ensures InvalidDateFormat(t, i) <==> !MatchesStrictDate(Cell(t, i, RatingDateColumn).value)
  {
    LackingColumnsEmpty(t, RequiredColumns);
    assert RequiredColumns[9] == CountriesColumn && RequiredColumns[10] == LanguagesColumn;
    assert RequiredColumns[22] == RatingDateColumn;
  }
}
