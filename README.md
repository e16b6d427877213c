# Title-metadata table validators

This project models the row-validation rules of a small repository that checks media-title metadata spreadsheets. The repository validates these sheets before an upload. It holds six close variants of one validator: Flask4.py, Flask.py, Flask3.py, Flask2.py, app1.py and App.py.

Each validator takes a loaded table of text cells and runs a fixed list of checks over it:

- blank cells;
- non-ASCII or disallowed characters;
- duplicate GTI identifiers;
- digit-only Countries and Languages codes;
- an Age Rating ID from {2, 9, 154, 147};
- a `MM/DD/YYYY` rating date;
- in two variants, the six content-descriptor ("impact") columns.

The validator collects what it finds into a report keyed by category and row. Rows are numbered index + 2, except in App.py, which numbers them index + 1 and keeps one list of messages per row.

The table is a header plus one map per row, from column name to `Option<string>`; an absent (NaN) cell is `None`. This is module `Tables`.

Each rule has three parts:

- a specification function, built with the `Gather` (over rows) and `Concat` (over columns) folds of module `Lists`;
- lemmas that state what the rule reports, in which order, and when it reports nothing;
- a method with the source's append loop, proved to build exactly the specification's list.

Rules that several variants apply in the same form live in module `Rules`. The duplicate-GTI clustering lives in `Duplicates`, the character and date predicates in `Text`, and `allowed_file` in `FileNames`. Each variant is one module (`Flask4`, `Flask`, `Flask3`, `Flask2`, `App1`, `App`) with its own rules, its `Validate` function and a `ValidateFile` (or `ValidateExcel`) method. That method runs the rules in the source's order. Each variant's `ValidateCleanTable` lemma proves that the report is empty exactly when the table passes every rule. For Flask4 and App1 it is stated on tables that have the columns whose absence makes the validation raise.

Python's `\d`, `\s`, `str.isdigit` and `str.isnumeric` are modelled on ASCII: digits `0`-`9`, and whitespace 9-13 plus 0x1C-0x1F and space. `$` is modelled as matching at the end of the text or just before a final newline.

## Model

| member | source | states |
|---|---|---|
| Tables.LackingColumnsMember | App.py:21 | a column is reported missing exactly when it is required and not in the header |
| Tables.LackingColumnsEmpty | App.py:21-23 | nothing is missing exactly when every required column is in the header |
| Tables.LackingColumnsHead | App.py:21 | the missing list starts with the first required column, in required order, that the header lacks |
| Text.NonAsciiCharsMember | Flask.py:50-51 | the extracted text holds exactly the characters of the value above 0x7F |
| Text.NonAsciiCharsEmpty | Flask.py:51-54 | the extraction is empty exactly when `re.search(r"[^\x00-\x7F]")` finds nothing |
| Text.NonAsciiCharsAppend | Flask2.py:44-51 | extraction distributes over concatenation, so the joined characters keep the value's order |
| Text.AllowListsRejectNonAscii | App.py:35 | under the ASCII reading of `\s`, a value with a character above 0x7F fails both allow-list patterns (App.py's and app1.py's) |
| Text.AllowListsDiffer | app1.py:36 | each of `&`, `(`, `)` passes App.py's class and fails app1.py's, each of `!`, `?`, `;`, `:` the other way round, and every other character passes both or neither |
| Text.AllowListExamples | App.py:35 | "Tom & Jerry (1940)" passes only App.py's class, "Hello!" only app1.py's |
| Text.StrictDateIsRangedLooseDate | App.py:47 | the ranged date pattern is the loose one with month in 1..12 and day in 1..31 |
| Text.MonthRange | App.py:47 | the month field of the ranged pattern accepts two digits exactly when they read 1..12 |
| Text.DayRange | App.py:47 | the day field of the ranged pattern accepts two digits exactly when they read 1..31 |
| Text.StrictDateIsLooseDate | App.py:47 | every date App.py accepts is also accepted by the `\d{2}/\d{2}/\d{4}` pattern |
| Text.DateExamples | App.py:46-48 | "13/45/2024" passes only the loose pattern and "02/30/2024" passes the ranged one; "13/01/2024" fails the ranged one, "2024/02/01" fails both, and "nan" fails the loose one |
| FileNames.LastDot | Flask.py:19 | the index of the last '.', or -1 when there is none |
| FileNames.AllowedFileBySuffix | Flask.py:18-19 | `allowed_file` holds exactly when the name ends, ignoring case, in ".csv" or ".xlsx" |
| FileNames.AllowedFileHasSuffix | Flask3.py:16-17 | an accepted name ends, ignoring case, in ".csv" or ".xlsx" |
| FileNames.SuffixIsAllowed | Flask.py:11 | any name ending in ".csv" or ".xlsx", ignoring case, is accepted |
| Duplicates.Positions | Flask4.py:81 | the rows whose GTI equals the value, ascending, each exactly once |
| Duplicates.PositionsCount | Flask4.py:78-81 | as many rows as the value has occurrences |
| Duplicates.DuplicatedValuesMember | Flask4.py:78-80 | a GTI is reported exactly when it occurs in at least two rows |
| Duplicates.DuplicatedValuesInFirstAppearanceOrder | Flask4.py:80 | reported GTIs follow their first appearance in the column |
| Duplicates.DuplicatedValuesDistinct | Flask4.py:80 | no GTI is reported twice (`unique()`) |
| Duplicates.ClusterRows | Flask4.py:81 | a reported GTI has at least two rows, the first being its first appearance |
| Duplicates.ClusterRowNumbersFacts | Flask4.py:81-84 | a cluster lists every row holding its GTI as index + 2, the first occurrence included, strictly ascending, at least two |
| Duplicates.ClusterRowNumbersMember | Flask4.py:84 | the shown row numbers are exactly index + 2 of the rows holding the value |
| Duplicates.AbsentGtisFormEmptyCluster | Flask.py:68-72 | as written, two absent GTIs form a group whose row list is empty, where the corrected clustering has no group |
| Duplicates.AsWrittenAgreesWithoutAbsentPairs | Flask.py:68-71 | with fewer than two absent GTIs, the source's groups are exactly the corrected ones |
| Rules.NonEnglishCellsMember | Flask4.py:65-74 | an entry exists exactly for each present cell holding a character above 0x7F, at index + 2, with its raw value; absent cells never |
| Rules.NonEnglishRowMember | Flask4.py:68-74 | the entries of one row are exactly its present non-ASCII cells |
| Rules.NonEnglishCellsOrder | Flask4.py:65-74 | row-then-column: row numbers never decrease along the list, and within a row the entries follow the header's column order |
| Rules.NonEnglishCellsRule | Flask4.py:67-74 | the row loop builds exactly the specified list |
| Rules.NonEnglishRowRule | Flask4.py:68-74 | the column loop of one row builds exactly that row's entries |
| Rules.NonEnglishCellsEmpty | Flask3.py:59-63 | the list stays empty exactly when no present cell has a character above 0x7F |
| Rules.InvalidDateFormatReported | Flask4.py:111-114 | a row is flagged exactly when its date is absent (stringified "nan") or does not match `\d{2}/\d{2}/\d{4}` |
| Rules.InvalidDateFormatEntries | Flask4.py:114-119 | each entry carries its row's raw cell at index + 2; rows strictly ascend |
| Rules.InvalidDateFormatRule | Flask4.py:111-119 | the loop builds exactly the specified list |
| Rules.DateFormatEmpty | Flask2.py:84-92 | nothing is flagged exactly when every stringified date has the shape |
| Rules.AbsentColumnsMember | Flask.py:46 | the shared column list holds exactly the columns with an absent cell somewhere |
| Rules.AbsentCellRowsReported | Flask.py:43-45 | a row is listed exactly when one of its cells is absent ("" is not absent) |
| Rules.AbsentCellRowsEntries | Flask.py:45-47 | every entry carries the same, non-empty, table-wide column list; rows strictly ascend |
| Rules.AbsentCellRowsEmpty | app1.py:29-33 | nothing is listed exactly when no cell is absent |
| Rules.AbsentCellRowsRule | app1.py:29-33 | the computation builds exactly the specified list |
| Rules.ClustersValues | Flask.py:67-72 | exactly the GTIs found in two or more rows get a cluster, in order of first appearance |
| Rules.ClustersEntry | Flask2.py:55-62 | a cluster lists every row of its GTI (index + 2), the first included, ascending, at least two |
| Rules.ClustersEmpty | app1.py:44-48 | no cluster exactly when no GTI is repeated |
| Rules.ClustersRule | Flask.py:67-72 | the loop over the duplicated values builds exactly the specified clusters |
| Rules.InvalidCodePairsReported | Flask.py:75-77 | a row is flagged exactly when either code is absent (the `&` turns NaN into False), empty or has a non-digit |
| Rules.InvalidCodePairsEntries | Flask.py:78-83 | each entry carries its row's two values through `str()`, "nan" when absent, and the raw cells when both columns are present throughout; rows strictly ascend |
| Rules.InvalidCodePairsEmpty | Flask2.py:65-72 | nothing is flagged exactly when every row holds two digit strings |
| Rules.InvalidCodePairsRule | app1.py:51-54 | the loop builds exactly the specified list |
| Rules.InvalidAgeTextsReported | Flask.py:86-89 | a row is flagged exactly when its value is absent or not one of "2", "9", "154", "147" |
| Rules.InvalidAgeTextsEntries | Flask.py:90-94 | each entry shows its value through `str()` ("nan" when absent); rows strictly ascend |
| Rules.AgeTextExamples | Flask.py:87-88 | "10", "02" and absent are rejected; "154" is accepted |
| Rules.InvalidAgeTextsEmpty | app1.py:57-61 | nothing is flagged exactly when every row holds one of the four texts |
| Rules.InvalidAgeTextsRule | Flask.py:86-94 | the loop builds exactly the specified list |
| Rules.InvalidDateTextsReported | Flask.py:97-101 | a row is flagged exactly when its date is absent (becoming "nan") or does not match the shape |
| Rules.InvalidDateTextsEntries | Flask.py:102-106 | each entry shows the overwritten text of its row; rows strictly ascend |
| Rules.InvalidDateTextsEmpty | app1.py:64-69 | nothing is flagged exactly when every stringified date has the shape |
| Rules.InvalidDateTextsRule | Flask.py:97-106 | overwriting the column by its text and then looping builds exactly the specified list |
| Flask4.AgeCoercionExamples | Flask4.py:101-102 | compared as a number, "02" is accepted and -1 (absent) rejected |
| Flask4.BlankColumnsMember | Flask4.py:41-44 | a row lists a column exactly when the column is checked (not "Other Title Name(s)", not an impact column) and absent or "" there |
| Flask4.BlankCellsReported | Flask4.py:37-46 | a row gets an entry exactly when some checked column is blank in it |
| Flask4.BlankCellsEntries | Flask4.py:40-50 | each entry has row index + 2 and lists exactly the checked blank columns, never empty; rows strictly ascend |
| Flask4.BlankCellsRule | Flask4.py:40-50 | the row loop builds exactly the specified list |
| Flask4.MaskLookupFails | Flask4.py:38-41 | a mask lookup raises KeyError exactly when it reaches "Other Title Name(s)" |
| Flask4.FilterMaskBlank | Flask4.py:41-44 | filtering the impact columns out of the mask's columns gives the corrected column list |
| Flask4.AsWrittenUpToAgrees | Flask4.py:40-50 | without a reached lookup of the exempt column, the loop as written gives the corrected list |
| Flask4.AsWrittenRowAgrees | Flask4.py:41-50 | one selected row as written gives the corrected entry |
| Flask4.AsWrittenUpToErrors | Flask4.py:40-41 | the only error the loop as written can raise is KeyError("Other Title Name(s)") |
| Flask4.AsWrittenUpToRaises | Flask4.py:40-41 | a selected row in a table with the exempt column makes the loop as written raise |
| Flask4.BlankCellsAsWrittenOutcome | Flask4.py:37-50 | as written, the rule raises exactly when the exempt column exists and some row is selected; otherwise it agrees with the corrected rule |
| Flask4.BlankCellsKeyErrorExample | Flask4.py:37-41 | a file with the exempt column and a missing GTI raises as written, where the corrected rule reports row 2 with ["GTI"] |
| Flask4.MissingDescriptorsMember | Flask4.py:54-57 | an impact column is listed exactly when the row is absent or "" there; "None" never is |
| Flask4.MissingDescriptorsOrder | Flask4.py:31-34 | the listed impact columns follow the fixed order of the impact list |
| Flask4.MissingContentDescriptorsReported | Flask4.py:53-58 | a row gets an entry exactly when one of its impact cells is blank |
| Flask4.MissingContentDescriptorsEntries | Flask4.py:58-62 | each entry has row index + 2 and that row's non-empty list of blank impact columns; rows strictly ascend |
| Flask4.MissingContentDescriptorsRule | Flask4.py:53-62 | the loop raises KeyError for the first impact column the table lacks, once there is a row; otherwise it builds the specified list |
| Flask4.MissingDescriptorsRule | Flask4.py:54-57 | one row's comprehension raises KeyError for the first lacking impact column, otherwise lists the row's blank impact columns |
| Flask4.DuplicateGtisValues | Flask4.py:77-80 | on GTIs read as text (see Left out), exactly the GTIs found in two or more rows get an entry |
| Flask4.DuplicateGtisOrder | Flask4.py:80 | entries follow the first appearance of their GTIs, so none twice |
| Flask4.DuplicateGtisEntry | Flask4.py:81-86 | `rows` lists every row of the GTI (index + 2), first included, ascending, at least two; `values` is the GTI once per row |
| Flask4.DuplicateGtisRule | Flask4.py:77-86 | the loop over the unique duplicated GTIs builds exactly the specified list |
| Flask4.DuplicateGtisEmpty | Flask4.py:77-86 | no entry exactly when no GTI is repeated |
| Flask4.InvalidCountryLanguageReported | Flask4.py:89-91 | on codes read as text (see Left out), a row is flagged exactly when either code is absent or not a non-empty digit string |
| Flask4.InvalidCountryLanguageEntries | Flask4.py:92-97 | each entry carries both raw text cells of its row; rows strictly ascend |
| Flask4.InvalidCountryLanguageRule | Flask4.py:89-97 | the loop builds exactly the specified list |
| Flask4.CountryLanguageEmpty | Flask4.py:89-97 | nothing is flagged exactly when every row has two numeric codes |
| Flask4.InvalidAgeRatingReported | Flask4.py:100-103 | absent is always flagged; a present value exactly when its integer is not in {2, 9, 154, 147} |
| Flask4.InvalidAgeRatingEntries | Flask4.py:104-108 | each entry carries its row's numeric value; rows strictly ascend |
| Flask4.InvalidAgeRatingRule | Flask4.py:100-108 | the loop builds exactly the specified list |
| Flask4.AgeRatingEmpty | Flask4.py:100-108 | nothing is flagged exactly when every row holds an allowed number |
| Flask4.BlankCellsEmpty | Flask4.py:37-50 | no blank-cell entry exactly when no row has a blank checked column |
| Flask4.DescriptorsEmpty | Flask4.py:53-62 | no descriptor entry exactly when no row has a blank impact cell |
| Flask4.ValidateFile | Flask4.py:18-121 | the seven rules, run in order on the empty report, give the specified outcome, with rule 1 as corrected in Findings |
| Flask4.ValidateBlankRuleAsWrittenOutcome | Flask4.py:36-62 | with rule 1 as written and the duplicate rule as corrected in Findings, validation raises KeyError("Other Title Name(s)") whenever that column is in the header and some row is blank in a mask column, before any later rule can raise; on every other table it agrees with the corrected validation |
| Flask4.ValidateFails | Flask4.py:53-56 | with rule 1 as corrected in Findings, validation raises exactly when there is a row and an impact column is missing, and then with KeyError for the first one in list order |
| Flask4.ValidateSucceeds | Flask4.py:18-121 | with rule 1 as corrected in Findings and the impact columns present, or no rows, the report holds the seven rule lists in dictionary order |
| Flask4.RulesEmpty | Flask4.py:36-119 | the seven rule lists are all empty exactly when the table passes every rule |
| Flask4.ValidateCleanTable | Flask4.py:18-28 | with rule 1 as corrected in Findings, the report is seven empty lists exactly when the table passes every rule |
| Flask.NonAsciiCellsMember | Flask.py:53-64 | an entry exists exactly for each present cell with a character above 0x7F, carrying its value and its extracted characters |
| Flask.NonAsciiCellsSound | Flask.py:53-64 | every entry describes such a cell |
| Flask.NonAsciiCellsComplete | Flask.py:53-64 | every such cell has its entry |
| Flask.NonAsciiAtMember | Flask.py:57-63 | a cell yields an entry exactly when present with non-ASCII characters, `invalid_chars` being their concatenation |
| Flask.InvalidCharsOfEntry | Flask.py:51-63 | `invalid_chars` is non-empty and holds exactly the value's characters above 0x7F |
| Flask.NonAsciiCellsOrder | Flask.py:56-58 | row numbers never decrease along the list |
| Flask.NonAsciiCellsEmpty | Flask.py:53-54 | nothing is reported exactly when no present cell has a character above 0x7F |
| Flask.NonAsciiCellsRule | Flask.py:53-64 | the row loop builds exactly the specified list |
| Flask.NonAsciiRowRule | Flask.py:57-64 | the column loop of one row builds exactly that row's entries |
| Flask.ValidateFile | Flask.py:33-108 | the six rules in order give the specified report |
| Flask.ValidateCleanTable | Flask.py:33-40 | the six lists are all empty exactly when the table passes every rule |
| Flask3.NamesDistinct | Flask3.py:36-38 | the six category keys are pairwise different |
| Flask3.InitErrors | Flask3.py:40-41 | the loop creates every category, each with an empty list |
| Flask3.BlankImpactColumnFacts | Flask3.py:51-56 | a column contributes exactly its absent rows, ascending, with the fixed message, and only when it is an impact column |
| Flask3.BlankImpactsMember | Flask3.py:44-56 | an entry exists exactly for each absent cell of an impact column in the header; "" and "None" are never reported |
| Flask3.BlankImpactsOrder | Flask3.py:50-56 | column-then-row order: entries follow the header's columns, and rows ascend within a column |
| Flask3.BlankImpactsEmpty | Flask3.py:50-56 | nothing is reported exactly when every impact cell is present |
| Flask3.BlankImpactsRule | Flask3.py:50-56 | the nested column and row loops build exactly the specified list |
| Flask3.NonEnglishAsWrittenOutcome | Flask3.py:60-63 | as written the rule never reports a cell: it succeeds, with nothing, exactly when there are no hits, and with two hits it raises a KeyError on a row label |
| Flask3.NonEnglishAsWrittenExample | Flask3.py:59-63 | one accented title makes the source fail to unpack, where the corrected rule reports that cell |
| Flask3.ValidateNonEnglishRuleAsWrittenOutcome | Flask3.py:33-106 | with rule 2 as written and the duplicate rule as corrected in Findings, validation raises exactly when some present cell holds a character above 0x7F, and otherwise gives the corrected report |
| Flask3.DuplicateGtisValues | Flask3.py:66-68 | exactly the GTIs found in two or more rows get an entry |
| Flask3.DuplicateGtisOrder | Flask3.py:68 | entries follow the first appearance of their GTIs |
| Flask3.DuplicateGtisEntry | Flask3.py:69-71 | each entry lists every row of its GTI (index + 2), first included, ascending, at least two; `value` equals `GTI` |
| Flask3.DuplicateGtisEmpty | Flask3.py:66-72 | no entry exactly when no GTI is repeated |
| Flask3.DuplicateGtisRule | Flask3.py:66-72 | the loop builds exactly the specified list |
| Flask3.InvalidCountryLanguageReported | Flask3.py:75-80 | a row is flagged exactly when either code is absent, empty or holds a non-digit |
| Flask3.InvalidCountryLanguageEntries | Flask3.py:81-84 | each entry carries its row's two raw cells; rows strictly ascend |
| Flask3.InvalidCountryLanguageEmpty | Flask3.py:75-84 | nothing is flagged exactly when every row has two present digit strings |
| Flask3.InvalidCountryLanguageRule | Flask3.py:75-84 | the loop builds exactly the specified list |
| Flask3.InvalidAgeRatingReported | Flask3.py:87-90 | absent is never flagged; a present value exactly when it is not one of the four texts |
| Flask3.InvalidAgeRatingEntries | Flask3.py:91-94 | each entry carries its row's present value; rows strictly ascend |
| Flask3.InvalidAgeRatingEmpty | Flask3.py:88-94 | nothing is flagged exactly when every present value is allowed |
| Flask3.InvalidAgeRatingRule | Flask3.py:87-94 | the loop builds exactly the specified list |
| Flask3.InvalidDatesReported | Flask3.py:97-100 | absent is never flagged; a present date exactly when it does not match `\d{2}/\d{2}/\d{4}` |
| Flask3.InvalidDatesEntries | Flask3.py:101-104 | each entry carries its row's present date; rows strictly ascend |
| Flask3.InvalidDatesEmpty | Flask3.py:97-104 | nothing is flagged exactly when every present date has the shape |
| Flask3.InvalidDatesRule | Flask3.py:97-104 | the loop builds exactly the specified list |
| Flask3.ValidateFile | Flask3.py:33-106 | with rule 2 as corrected in Findings, initialising the categories and appending each rule's entries gives the specified report |
| Flask3.RulesEmpty | Flask3.py:49-104 | the six rule lists are all empty exactly when the table passes every rule |
| Flask3.ValidateCleanTable | Flask3.py:33-41 | with rule 2 as corrected in Findings, every category stays the empty list it was created as exactly when the table passes every rule |
| Flask2.RowAbsentColumnsMember | Flask2.py:37 | a row lists a column exactly when the row is absent there, "Other Title Name(s)" included |
| Flask2.BlankCellsReported | Flask2.py:33-36 | a row is reported exactly when a column other than "Other Title Name(s)" is absent in it |
| Flask2.BlankCellsEntries | Flask2.py:36-41 | each entry lists exactly the absent columns of its row, never empty; rows strictly ascend |
| Flask2.ExemptAloneNotReported | Flask2.py:33-34 | a row absent only in the exempt column is not reported |
| Flask2.BlankCellsEmpty | Flask2.py:32-41 | nothing is reported exactly when no row has an absent checked column |
| Flask2.BlankCellsRule | Flask2.py:35-41 | the loop builds exactly the specified list |
| Flask2.InvalidCharsAtMember | Flask2.py:44-51 | a cell yields an entry exactly when present with characters above 0x7F, `invalid_chars` being their concatenation |
| Flask2.InvalidCharsCellsMember | Flask2.py:44-52 | an entry exists exactly for each present cell with characters above 0x7F; absent cells contribute nothing |
| Flask2.InvalidCharsCellsOrder | Flask2.py:43-52 | row-major: row numbers never decrease along the list, and within a row the entries follow the header's column order |
| Flask2.InvalidCharsCellsEmpty | Flask2.py:44-52 | nothing is reported exactly when no present cell has a character above 0x7F |
| Flask2.InvalidCharsCellsRule | Flask2.py:44-52 | the nested row and cell loops build exactly the specified list |
| Flask2.InvalidCharsRowRule | Flask2.py:46-52 | the cell loop of one row builds exactly that row's entries |
| Flask2.InvalidAgeRatingReported | Flask2.py:75-77 | a row is flagged exactly when its value is absent or not one of the four texts |
| Flask2.InvalidAgeRatingEntries | Flask2.py:78-82 | each entry carries its row's raw cell; rows strictly ascend |
| Flask2.InvalidAgeRatingEmpty | Flask2.py:74-82 | nothing is flagged exactly when every row holds one of the four texts |
| Flask2.InvalidAgeRatingRule | Flask2.py:75-82 | the loop builds exactly the specified list |
| Flask2.ValidateFile | Flask2.py:21-94 | the six rules in order give the specified report |
| Flask2.ValidateCleanTable | Flask2.py:20-30 | the six lists are all empty exactly when the table passes every rule |
| App1.DisallowedCellsMember | app1.py:36-41 | an entry exists exactly for each present cell not wholly made of the allow-listed characters, in any column; absent cells never |
| App1.DisallowedRowMember | app1.py:39-41 | the entries of one row are exactly its present rejected cells |
| App1.DisallowedPunctuation | app1.py:36 | a present "Tom & Jerry (1940)" is reported |
| App1.DisallowedCellsOrder | app1.py:37-41 | row numbers never decrease along the list, and within a row the entries follow the header's column order |
| App1.DisallowedCellsEmpty | app1.py:36-41 | nothing is reported exactly when every present cell passes the pattern |
| App1.DisallowedCellsRule | app1.py:36-41 | the row loop builds exactly the specified list |
| App1.DisallowedRowRule | app1.py:39-41 | the column loop of one row builds exactly that row's entries |
| App1.ValidateFile | app1.py:18-71 | the rules in order give the specified outcome, failing where a missing column is first read; a missing "GTI" only when there are rows |
| App1.ValidateFails | app1.py:44-66 | validation raises exactly when rules 4-6 read a missing column or the table has rows and lacks "GTI" (`duplicated` returns early on a frame without rows), with KeyError for the first such column read |
| App1.HeaderOnlyTable | app1.py:44-66 | a header without rows validates to six empty lists once the columns of rules 4-6 are there, with or without "GTI" |
| App1.ValidateCleanTable | app1.py:18-26 | on a table that does not raise, the six lists are all empty exactly when the table passes every rule |
| App.GtiDuplicateIff | App.py:25-27 | a row is flagged exactly when its GTI occurs in two or more rows, first occurrence included |
| App.NonAsciiTextFlagged | App.py:34-37 | under the ASCII reading of `\s`, a text cell with a character above 0x7F sets the flag, and "Other title names" is not a text column |
| App.ImpactBlankIsInvalid | App.py:50-53 | a blank impact cell sets both impact flags |
| App.ImpactLevelExamples | App.py:53 | the impact values are case-sensitive and "" is not one of them |
| App.MessagesOfProblems | App.py:70-87 | the messages of a row are those of its problems, one for one |
| App.ProblemsOrder | App.py:72-87 | problems appear in the order of the eight checks, none twice |
| App.ProblemsByRank | App.py:72-87 | a problem is listed exactly when the check of its position reports it |
| App.ProblemsMember | App.py:72-87 | each message is there exactly when its flag is set, quoting the row's GTI and Age Rating ID |
| App.ProblemsEmpty | App.py:56-65 | a row has messages exactly when it is selected into `df_errors` |
| App.RowErrors | App.py:70-87 | the eight appends build exactly the row's messages |
| App.AppendIf | App.py:72-73 | one `if flag: append` step adds exactly that check's message |
| App.FlagRowsOnCells | App.py:25-53 | each of a row's eight flags holds exactly when its mask holds on the row's cells: a blank required cell other than "Other title names", a GTI occurring twice or more, a present text cell with a character outside the class, an absent or non-digit code, an Age Rating ID absent or outside the four texts, a date absent or not ranged, a blank impact cell, an impact cell outside the four levels; the quoted values are the cells through `str()` |
| App.RowCleanIff | App.py:56-65 | a row is left out of `df_errors` exactly when it passes all eight checks |
| App.ReportUpToRows | App.py:68-89 | after n rows the report holds exactly the selected ones among them, keyed index + 1, with their messages |
| App.ValidateFails | App.py:11-23 | the schema check raises exactly when a required column is missing, carrying every missing column in required order |
| App.ReportRows | App.py:68-89 | the report holds exactly the selected rows, keyed index + 1, each with its non-empty messages |
| App.ReportEmpty | App.py:56-89 | the report is empty exactly when no row sets a flag |
| App.ValidateExcel | App.py:5-89 | the schema check and then the loop over the selected rows give the specified outcome |
| App.ValidateCleanTable | App.py:21-89 | the validation succeeds with an empty report exactly when every required column is in the header and every row passes all eight checks on its cells |
| App.PresentFlags | App.py:39-48 | with the masked cells present, the code flag is "not two digit strings" and the date flag is "not a ranged date" |

## Left out

- File ingestion is not modelled: extension dispatch, `read_excel`/`read_csv`, encodings, and the error dictionaries for unreadable files. Every validator starts from a loaded table. Fileformat.py is only a loader, so it is not part of this model.
- Flask application setup, routes, upload-folder handling, `input()` prompts and printing of the report are left out. They are I/O.
- Flask4.py reads without `dtype=str` (lines 12-14), so pandas infers column types. The model keeps every cell as the text it was written as. It requires (`AgesAreIntegers`) that every present Age Rating ID is integer text, as a numeric column holds, and compares the number. It does not model a failing `astype(int)`, Timestamp stringification of dates, or these consequences of numeric inference:
  - a Countries or Languages column of digit codes with one blank cell is read as floats, `fillna("").astype(str)` (line 90) makes "840.0" of them, and `isnumeric` then fails on every row; `Flask4.InvalidCountryLanguageReported` flags only the blank row;
  - a GTI column of digit strings is read as numbers, so "001" and "1" become the same GTI at lines 78-81; the model compares the text;
  - the entries at lines 83-85 and 95-96 then carry those numbers where the model carries the text, and the one at line 107 carries a float once a blank makes the Age Rating ID column float, where the model carries the integer.
- Absent cells where `~` is applied directly to a `.str.isdigit()` / `.str.match()` result are left out (Flask2.py:66, App.py:40, App.py:48). pandas gives NaN there and the `~` fails. Flask2's validation requires both code columns present throughout (`CodesPresent`), and `App.ValidateExcel` requires the code and date cells present on tables that pass the schema check (`CellsPresent`). At Flask.py:76 and app1.py:51 the `~` is applied to `A & B`, and `&` turns NaN into False, so an absent code flags the row; that case is modelled.
- App1.Validate: a table with data rows but an empty header, which reading a file does not produce, is treated as lacking "GTI". pandas counts such a frame as empty at app1.py:44, so its failure there is not a KeyError.
- Unicode digits and whitespace are approximated by ASCII. Only the characters above 0x7F are treated as non-English.
- App.py adds its flag columns to the table in place (lines 27, 37, 40, 44, 48, 52, 53). The model computes them into one `RowFlags` record per row (`App.FlagRows`) instead. The table itself is not mutated.
- Each rule is modelled as a method over an immutable table, returning its list. The validators assign the list into the enclosing dictionary, which is the value the methods return.
- The six variants' exact JSON layout (dictionary key strings, `indent`) is reduced to datatypes with one field per key; only Flask3.py's key strings are modelled, through `Flask3.Name`.
- Flask.py, Flask2.py and Flask3.py pass `read_csv` an `errors=` argument that is not among its documented parameters. Whatever that does happens during ingestion, which is left out.
- The source's `ValueError("Missing columns in the Excel file: ...")` text is reduced to `MissingColumns` carrying the list (App.py:23).

## Findings

| source | as written | input that shows it | evidently intended | confidence | as-written member | corrected member |
|---|---|---|---|---|---|---|
| Flask4.py:41 | `blank_cells.at[row, col]` looks up every header column, but the mask excludes "Other Title Name(s)", so pandas raises KeyError | a header of GTI and "Other Title Name(s)", one row with GTI absent | report row 2 with columns ["GTI"] | not executed | Flask4.BlankCellsKeyErrorExample | Flask4.BlankCellsEntries |
| Flask3.py:60 | `zip(*...)` transposes the hit cells instead of listing them, so the unpacking fails unless there are no hits or exactly two | one "Title Name" cell holding "Café" | report that cell at row 2 with its value | not executed | Flask3.NonEnglishAsWrittenExample | Rules.NonEnglishCellsMember |
| Flask.py:68-72, Flask4.py:78-86, Flask3.py:66-72, Flask2.py:56-62, app1.py:44-48 | `duplicated` groups absent GTIs together, but `df["GTI"] == gti` never matches NaN, so the cluster has no rows (and, in Flask4.py, no values) | a GTI column with two absent cells | no cluster for absent GTIs | not executed | Duplicates.AbsentGtisFormEmptyCluster | Duplicates.DuplicatedValuesMember |
