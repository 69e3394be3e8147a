# Attendance register: a verified model

This project models the data core of a Flask application. The application records who attended
university training events and then asks each attendee to rate the event. Everything lives in
one `app.py`. The model covers:

- **The `asistencias` table** (class `AttendanceStore.AttendanceTable`). One row per person,
  event and date. It covers:
  - the registration form: required fields, default date, duplicate refusal, insert, and the
    next page;
  - the start-up de-duplication that keeps the lowest id of each (identification, event, date)
    triple before the unique index is created;
  - the retention clean-up over a trailing window of years;
  - the spreadsheet import loop with its inserted/duplicate tallies and notes.
- **The evaluation form** (class `Evaluation.EvaluationTable`): five ratings from 1 to 5, an
  optional comment, and one evaluation per attendance row.
- **The two catalogues**, programs and modalities (class `Catalogue.Catalogue`): add, toggle,
  delete-unless-used, and the sorted list of enabled names.
- **The query helpers**:
  - `adapt_query` (`SqlText`) and `normalize_text` (`Normalization`);
  - sort-column sanitising (`Listing`);
  - the search `WHERE` clause and its parameters for the grid and the export (`Search`);
  - the statistics filter, where the five-year window applies only when no date bound is given
    (`Statistics`);
  - the one-shot clean-up banner of the panel (`Notice`).

Supporting modules:

- `Strings`: `str.strip`, `str(n)`, `int(s)`, `str.replace`, `join`.
- `Collation`: the text order used by `ORDER BY` and by date comparisons.
- `Records`: the row datatypes and the uniqueness rule.
- `Seqs`: filtering.
- `Wrappers`: `Option` and `Result`.

The database is modelled as the SQLite back end behaves, which is what the application uses
locally:

- A failed `INSERT` does not abort the transaction and does not use up an id.
- `LOWER()` folds ASCII letters only.
- `fecha_evento` is text and is compared as text.

Where the two back ends build different SQL text (the parameter marker, the accent-stripping
`REPLACE` chain), both are modelled through `SqlText.Dialect`.

The clock becomes a parameter:

- `today` for registration;
- `currentYear` for the windows.

## Model

| member | source | states |
|---|---|---|
| AttendanceStore.AttendanceTable.constructor | app.py:342-358 | The table starts empty with the id counter at 1. |
| AttendanceStore.AttendanceTable.Register | app.py:638-750 | The registration form is refused, with nothing stored, in this order: for the first blank required field; then for a malformed date; then when the (identification, event, date) triple is already stored. Otherwise exactly one row with the next id and the stripped values is appended. The attendee is sent to that row's evaluation exactly when the event is not "Visita de Grupos". Key uniqueness is preserved. |
| AttendanceStore.AttendanceTable.ExecuteInsert | app.py:1084-1117 | One import insert ends as Stored, Duplicate (triple already present, nothing changes) or Failed (the row cannot be written, nothing changes). The stored keys follow the `Step` specification. |
| AttendanceStore.AttendanceTable.Insert | app.py:699-734 | Inserting a new triple appends it with the counter's id, returns that id and adds exactly that key. |
| AttendanceStore.AttendanceTable.DeduplicateAtStartup | app.py:375-421 | The table becomes `Deduplicated` of the old one and now satisfies the unique index, with the same set of triples. A count is reported exactly when duplicates existed, and it equals the number of rows deleted. Otherwise nothing changes. |
| AttendanceStore.AttendanceTable.PurgeOldRecords | app.py:197-247 | The cutoff is the first year of the window. Exactly the rows whose year is below it are deleted, and their number is reported. Zero is reported exactly when nothing changes. Every remaining row is within the window. |
| AttendanceStore.AttendanceTable.ImportSheet | app.py:1075-1120 | The import loop. The inserted and duplicate tallies and the notes equal the `Tally` and `Notes` specifications of the sheet. The table becomes the old rows followed by exactly the `Appended` records: each inserted row's values under consecutive ids from the old counter. The stored keys grow by exactly the sheet's keys, and key uniqueness is preserved. |
| Catalogue.Flip | app.py:1937 | The new `activo` is 0 or 1, and it is 1 exactly when the old state was not 1. |
| Catalogue.Toggled | app.py:1937-1945 | Only the entry with that id changes, and only its state, which flips. |
| Catalogue.ToggleTwice | app.py:2094-2147 | Toggling the same entry twice restores a catalogue of 0/1 states. |
| Catalogue.IndexOf | app.py:1929-1934 | The lookup finds a position holding the id, and finds nothing exactly when no entry has it. |
| Catalogue.UseCount | app.py:2012-2022 | The usage count never exceeds the number of attendance rows. |
| Catalogue.UseCountZero | app.py:2024-2028 | The count is zero exactly when no attendance row uses the name. |
| Catalogue.ActiveListMembers | app.py:1903-1908 | A name is in the unsorted active list exactly when some enabled entry carries it. |
| Catalogue.ActiveNamesSpec | app.py:85-95 | The drop-down list is sorted and holds exactly the names of enabled entries. |
| Catalogue.ToggleActiveNames | app.py:1919-1953 | With distinct names, toggling removes an enabled entry's name from the drop-down list and adds a disabled one's. |
| Catalogue.Catalogue.constructor | app.py:298-318 | A catalogue starts empty with the id counter at 1. |
| Catalogue.Catalogue.Add | app.py:1955-2000 | The name is stripped. A blank name is refused, and so is a name already present (the `UNIQUE` error), both with nothing changed. Otherwise one enabled entry with the next id is appended. |
| Catalogue.Catalogue.Toggle | app.py:2094-2147 | A missing id is reported with nothing changed. Otherwise the catalogue becomes `Toggled`, and the new state is the flip of the entry's old state. |
| Catalogue.Catalogue.Delete | app.py:2001-2044 | Deletion is refused, with the usage count and nothing changed, exactly when some attendance row uses the entry's name. Otherwise every entry with that id is removed and no row used it. |
| Collation.InOrderTotal | app.py:1480-1483 | Any two texts are ordered one way or the other. |
| Collation.InOrderTransitive | app.py:1480-1483 | The text order is transitive. |
| Collation.InOrderAntisymmetric | app.py:1480-1483 | Texts ordered both ways are equal. |
| Collation.InsertPermutes | app.py:1906 | Insertion adds the name and keeps every other. |
| Collation.InsertSorted | app.py:1906 | Insertion into an ordered list keeps it ordered. |
| Collation.SortNamesSpec | app.py:1906 | `ORDER BY nombre ASC` yields an ordered permutation of the names. |
| Collation.SortNamesSorted | app.py:1906 | `ORDER BY nombre ASC` returns the names in order. |
| Collation.SortNamesPermutes | app.py:1906 | `ORDER BY nombre ASC` returns every name, as often as it is stored. |
| Dedup.GroupMinExists | app.py:405-410 | Every triple present has a row holding its group's minimum id. |
| Dedup.DeduplicatedSpec | app.py:403-416 | After the `DELETE ... NOT IN (SELECT MIN(id) ... GROUP BY ...)`: triples are unique, ids stay distinct, the set of triples is unchanged, and each survivor is its group's minimum-id row from the old table. |
| Dedup.DeduplicatedIdentity | app.py:400-416 | A table without duplicates is left unchanged. |
| Dedup.DeduplicatedRemovesIffDuplicates | app.py:400-416 | Rows are deleted exactly when some triple occurs more than once. |
| Evaluation.RatingValue | app.py:1755-1770 | An accepted rating is between 1 and 5. |
| Evaluation.RatingValueSpec | app.py:1755-1770 | A rating is accepted with value v exactly when 1 <= v <= 5 and the stripped text is zeros followed by the digit v. |
| Evaluation.RatingValueSound | app.py:1755-1756 | An accepted rating, once stripped, is zeros followed by the digit of its value, which lies in 1..5. |
| Evaluation.RatingValueComplete | app.py:1755-1756 | Zeros followed by one digit from 1 to 5 are accepted, with that digit as the value. |
| Evaluation.RatingOfShow | app.py:1755-1770 | The text of a rating from 1 to 5, padded with whitespace, is accepted with that value. |
| Evaluation.ZeroValue | app.py:1756 | A digit string whose value is 0 consists of zeros. |
| Evaluation.SmallValue | app.py:1756 | A digit string whose value is below 10 is zeros followed by that digit. |
| Evaluation.ZerosValue | app.py:1756 | A string of zeros has value 0. |
| Evaluation.Zeros | app.py:1756 | Produces exactly n zero characters. |
| Evaluation.CheckRatings | app.py:1754-1770 | The rating loop succeeds exactly when every field is accepted, and then returns each field's value in order. Otherwise it names the first refused field. |
| Evaluation.CommentOf | app.py:1773-1790 | The comment is absent exactly when the field is blank. Otherwise it is the stripped, non-empty text. |
| Evaluation.EvaluationTable.constructor | app.py:468-486 | The evaluation table starts empty. |
| Evaluation.EvaluationTable.Submit | app.py:1745-1813 | The first refused rating is reported with nothing stored. A second evaluation of the same attendance is refused by `UNIQUE(asistencia_id)` with nothing stored. Otherwise one row with the next id, the five values in field order and the comment is appended. Every invariant (ratings in range, one evaluation per attendance) is kept. |
| Listing.ColumnAt | app.py:910 | An index always selects a listed column, and `fecha_evento` when it is out of range. |
| Listing.GridSortColumn | app.py:907-912 | The grid sorts only by a listed column. The request fails exactly when `int()` rejects the index text. |
| Listing.ExportSortColumn | app.py:1150-1170 | The export sorts only by a listed column, and by `fecha_evento` when `int()` rejects the text. |
| Listing.SortDirection | app.py:911-912 | The direction is `asc` or `desc`. It is the one given when valid, and `desc` otherwise or when absent. |
| Listing.SortColumnSelects | app.py:908-910 | An in-range index selects its column on both screens, and no index gives `fecha_evento`. |
| Listing.ColumnsPlain | app.py:901-905 | No column name holds a parameter marker. |
| Listing.SortColumnFallback | app.py:908-910 | An index outside 0..10 sorts both the grid and the export by `fecha_evento`. |
| Listing.SortPlain | app.py:1162-1173 | The sanitised column and direction hold no parameter marker, so splicing them into `ORDER BY` adds none. |
| Listing.GridQueriesFit | app.py:946-972 | With the sanitised sort, both grid queries hold as many markers as values bound: `params` for the count and `params + [length, start]` for the page. |
| Listing.ExportQueryFits | app.py:1150-1210 | With the sanitised sort, the export query holds exactly one marker per parameter. |
| Normalization.LowerLatin1 | app.py:77 | Lower-casing folds ASCII capitals by 32 and touches only capitals. |
| Normalization.AsciiBase | app.py:80-82 | Decomposing and dropping non-ASCII leaves at most one ASCII character, and keeps an ASCII character unchanged. |
| Normalization.NormalizeText | app.py:67-83 | The normalised text is never longer than the input. |
| Normalization.NormalizeAppend | app.py:67-83 | Normalisation works character by character. |
| Normalization.NormalizeAsciiLower | app.py:67-83 | The result is ASCII with no capitals. |
| Normalization.NormalizeIdempotent | app.py:67-83 | Normalising twice is the same as once. |
| Normalization.NormalizeAscii | app.py:67-83 | On ASCII text, normalisation is exactly SQLite's `LOWER()`. |
| Normalization.LikeAnything | app.py:934 | `LIKE '%'` matches every text. |
| Normalization.LikeSelfThenAnything | app.py:934 | A text matches itself followed by `%`. |
| Normalization.LikeAfterAnything | app.py:934 | A leading `%` lets any text precede a match. |
| Normalization.ContainsMatches | app.py:934 | Any text containing the term matches `'%' + term + '%'`. |
| Normalization.SqliteLower | app.py:932 | SQLite's `LOWER()` keeps the length and folds exactly the ASCII capitals. |
| Normalization.PostgresLower | app.py:929 | PostgreSQL's `LOWER()` keeps the length. |
| Normalization.SqliteMissesAccentedValue | app.py:930-932 | As written, the SQLite search does not find the stored value "é" by its own text. |
| Normalization.LikeEscapedPlain | app.py:927-929 | Without a backslash in the pattern, PostgreSQL's escape-aware `LIKE` is the plain `LIKE`. |
| Normalization.BackslashEscapesOnPostgres | app.py:927-934 | A backslash in the search text escapes the next character on PostgreSQL only: `a\b` finds "ab" there and not on SQLite. |
| Normalization.PostgresMissesCapitalAccent | app.py:927-929 | As written, the PostgreSQL search does not find the stored value "Á" by its own text. |
| Normalization.IntendedMatchContains | app.py:924-944 | With both sides normalised, a value is found by any part of it. |
| Normalization.IntendedMatchAccented | app.py:924-944 | With both sides normalised, both counterexample values are found. |
| Normalization.SqliteAgreesOnAscii | app.py:930-932 | On ASCII values, the SQLite search as written matches exactly when the intended one does. |
| Records.UniqueKeysPairwise | app.py:420-421 | The unique index means that every two rows differ in their triple. |
| Records.DistinctIdsPairwise | app.py:344 | Distinct primary keys means that every two rows differ in id. |
| Records.IdsBelowSubset | app.py:344 | Rows drawn from a table keep its id bound. |
| Records.AppendFreshId | app.py:699-734 | Appending with the counter's id keeps ids distinct and below the advanced counter. |
| Records.AppendFreshKey | app.py:676-697 | Appending a row with a new triple keeps the triples unique. |
| Records.KeysAppend | app.py:699-734 | Appending a row adds exactly its triple to the stored triples. |
| Registration.ResolveDate | app.py:660-674 | A blank date becomes today's date, a given one is kept, and only a malformed one is refused. |
| Registration.CheckRequired | app.py:639-656 | The required-field loop succeeds exactly when no field is blank once stripped, and then returns the stripped values in order. Otherwise it names the first blank field. |
| Registration.EntryOfForm | app.py:645-656 | The checked values describe the same row as the form. |
| Retention.YearWindow | app.py:176-195 | The window is `count` consecutive years, ascending and ending at the current year, and holds exactly the years from its first to its last. |
| Retention.RangeMembers | app.py:193 | `range(first, last + 1)` holds exactly the years from first to last. |
| Retention.RetentionSpec | app.py:214-231 | Deleted and kept rows add up to the table. Nothing is deleted exactly when the table is kept whole. Kept rows are exactly the rows from the cutoff year on. Uniqueness of triples and ids survives. |
| Search.Repeat | app.py:934 | One copy of the pattern per column. |
| Search.FilledBoxes | app.py:937-938 | The filled boxes are in range, non-blank and in ascending column order. |
| Search.FilledBoxesComplete | app.py:937-938 | Every non-blank box is among the filled ones. |
| Search.ColumnStep | app.py:937-944 | A filled box appends its condition and pattern, and a blank one appends nothing. |
| Search.ColumnSearch | app.py:936-944 | The column loop returns one condition and one pattern per filled box, in column order. |
| Search.BuildSearch | app.py:921-944 | The conditions are the global search's (when its stripped text is not empty) followed by the column ones. The parameters are the global pattern once per column, then one pattern per filled box. |
| Search.NoSearchNoConditions | app.py:946 | There is no `WHERE` clause exactly when every box is blank. |
| Search.UnaccentPlain | app.py:929 | A `REPLACE` wrapper adds no marker. |
| Search.StripVowelsPlain | app.py:929 | The `REPLACE` chain adds no marker. |
| Search.ColumnExprPlain | app.py:929-932 | The column expression of either dialect holds no marker. |
| Search.LikeTestMarkers | app.py:941-943 | One column test holds exactly one marker, and no `?` on PostgreSQL. |
| Search.OrJoinMarkers | app.py:929-932 | The `OR`-joined tests hold one marker per column. |
| Search.ParenthesesMarkers | app.py:933 | Parentheses add no marker. |
| Search.LikeTestsMarkers | app.py:929-932 | Every per-column test holds one marker. |
| Search.AnyColumnMarkers | app.py:925-934 | The global condition holds one marker per column, matching its parameters. |
| Search.SqlMarkers | app.py:925-944 | Each condition holds as many markers as its weight. |
| Search.TextsWellMarked | app.py:925-944 | Every condition's text holds as many markers as its weight. |
| Search.SumWeights | app.py:946 | The texts' markers add up to the conditions' total weight. |
| Search.JoinWellMarked | app.py:946 | `AND`-joining keeps the markers, added up. |
| Search.TextsMarkers | app.py:946 | The `WHERE` clause holds the total weight in markers, and no `?` on PostgreSQL. |
| Search.WhereKeywordMarkers | app.py:946 | The `WHERE` keyword adds no marker. |
| Search.TotalWeightAppend | app.py:921-944 | The weights of concatenated conditions add up. |
| Search.ColumnsWeight | app.py:937-944 | Column conditions weigh one marker each. |
| Search.SearchWeight | app.py:921-944 | The built conditions weigh exactly as many markers as there are parameters. |
| Search.GlobalWeight | app.py:924-932 | The global condition weighs one marker per column, as many as the global parameters. |
| Search.ConditionsPlain | app.py:935-944 | Every column a condition tests is a listed column, so it holds no marker. |
| Search.WhereMarkers | app.py:946 | On either back end, the search's `WHERE` clause holds exactly one marker per parameter. |
| Search.CountHeadPlain | app.py:956 | The count query's head holds no marker. |
| Search.SearchMarkers | app.py:956-958 | After `adapt_query`, the count query's markers equal its parameters on both back ends, so the driver can bind them. |
| Search.OrderByPlain | app.py:967 | An `ORDER BY` clause built from a plain column and direction is plain and not empty. |
| Search.PageBoundsMarkers | app.py:970 | `LIMIT ? OFFSET ?` holds two `?` markers and no `%`. |
| Search.PageHeadPlain | app.py:964-966 | The page query's column list holds no marker. |
| Search.SurroundedMarkers | app.py:963-970 | Plain text around a clause neither adds a marker nor splits one. |
| Search.PageQueryMarkers | app.py:963-972 | After `adapt_query`, the page query holds one marker per search parameter plus two for the page bounds, on both back ends. |
| Search.ExportWhereMarkers | app.py:1201-1202 | ` WHERE ...` holds the markers of its conditions and is empty when there are none. |
| Search.ExportQueryRaw | app.py:1200-1204 | Before `adapt_query`, the export query holds one marker per condition weight and, on PostgreSQL, no `?`. |
| Search.ExportQueryMarkers | app.py:1200-1207 | After `adapt_query`, the export query holds one marker per search parameter on both back ends. `WHERE` is added only when there are conditions. |
| Seqs.Filter | app.py:405-410 | A filter keeps only passing elements, from the input, and keeps all of them. |
| Seqs.FilterKeepsAll | app.py:225-247 | A filter keeps the sequence whole exactly when every element passes. |
| Seqs.FilterPartition | app.py:214-231 | Kept and dropped elements add up to the sequence. |
| Seqs.FilterPairwise | app.py:228-231 | Filtering keeps a pairwise property such as unique triples. |
| SheetImport.Missing | app.py:1070-1072 | A column is reported missing exactly when it is required and absent. |
| SheetImport.AcceptedUpload | app.py:1045-1060 | An upload is read exactly when a file was sent whose name ends in `.xlsx` or `.xls`. |
| SheetImport.Outcome | app.py:1106-1116 | A row's insert fails exactly when the row cannot be written. |
| SheetImport.SheetKeysStep | app.py:1082-1105 | Each written row adds its triple to the sheet's triples. |
| SheetImport.Appended | app.py:1084-1104 | The records the import adds: one per inserted row, as many as the inserted tally. |
| SheetImport.AppendedSpec | app.py:1084-1104 | The added records carry consecutive ids from the counter and the values of sheet rows. None repeats a key stored before. With the earlier keys they hold exactly the keys stored afterwards. |
| SheetImport.RunSpec | app.py:1082-1117 | Every row is counted exactly once as inserted, duplicate or failed, and afterwards every triple read is stored. |
| SheetImport.ImportCounts | app.py:1082-1117 | For written rows with distinct triples, the inserted ones are exactly those not stored before, and the rest are duplicates. |
| SheetImport.CountNotesAppend | app.py:1077 | Note counts add up over concatenation. |
| SheetImport.RowNoteCounts | app.py:1106-1116 | A row leaves a failure note exactly when it fails, and a duplicate note only as one of the first five duplicates. |
| SheetImport.DuplicateNotesCount | app.py:1109-1112 | Duplicate notes number min(duplicates, 5). |
| SheetImport.FailureNotesCount | app.py:1113-1116 | Every failed row leaves exactly one note. |
| SheetImport.NotesLines | app.py:1112-1116 | Every note names a sheet line from 2 to n + 1. |
| SqlText.AdaptQuerySpec | app.py:58-65 | `adapt_query` keeps SQLite text unchanged and leaves no `?` for PostgreSQL. |
| SqlText.AdaptQueryMarkers | app.py:58-65 | For text without `%`, the adapted query holds one marker per `?` on either back end. |
| SqlText.AdaptQueryKeepsFormatMarkers | app.py:58-65 | On PostgreSQL text without `?`, adapting keeps the `%s` markers. |
| SqlText.AdaptQueryAddsMarkers | app.py:58-65 | On PostgreSQL, adapting adds one `%s` per `?` to the `%s` markers already present. |
| SqlText.PlainNoMarkers | app.py:58-65 | Text without `?` or `%` holds no marker. |
| SqlText.MarkersAppend | app.py:58-65 | Markers add up over concatenation unless the left part ends in `%`. |
| SqlText.SumOnes | app.py:1486 | Parts of one marker each hold as many markers as there are parts. |
| SqlText.JoinMarkers | app.py:946 | Joining with a plain separator adds and splits no marker. |
| SqlText.JoinChars | app.py:1486 | A joined text holds only characters of its parts and its separator. |
| Statistics.TestsAppend | app.py:1461-1484 | Condition texts and parameters distribute over concatenation. |
| Statistics.BuildStatsFilter | app.py:1451-1484 | The clauses and parameters are those of `StatsTests`: the two window bounds only when neither date bound is given, then each non-empty filter, in page order. |
| Statistics.AddFilter | app.py:1473-1484 | A non-empty filter appends its one clause and its one parameter. |
| Statistics.WindowOnlyWithoutDates | app.py:1465-1471 | Year bounds occur exactly when no date bound is given, and they are then first: `>= currentYear - 4` and `<= currentYear`. |
| Statistics.SelectedAppend | app.py:1486 | `AND` of two condition lists is the conjunction. |
| Statistics.SelectedOptional | app.py:1473-1484 | An empty filter imposes nothing. |
| Statistics.StatsSemantics | app.py:1451-1486 | A row is counted exactly when: its year is in the window (if no date bound is given); its event and student program equal the given filters; and its date text lies between the given bounds. |
| Statistics.TotalHeadPlain | app.py:1490 | The count query's head holds no marker. |
| Statistics.ColumnPlain | app.py:1466-1484 | No tested column holds a marker. |
| Statistics.YearColumnPlain | app.py:1468 | The year expression holds no marker. |
| Statistics.TestTextShape | app.py:1468-1483 | Each clause holds exactly one `?`, no `%`, and ends in its marker. |
| Statistics.JoinedTexts | app.py:1486 | The joined clauses hold one `?` per clause and no `%`. |
| Statistics.WhereSqlShape | app.py:1486 | `where_sql` holds one `?` per clause and no `%`. |
| Statistics.QueryMarkers | app.py:1486-1491 | After `adapt_query`, the count query's markers equal its parameters on both back ends. |
| Notice.StartupNotice | app.py:2353-2356 | A message is left pending exactly when the start-up deleted duplicates, and it is not empty. |
| Notice.ShownOnce | app.py:856-862 | The banner is shown at most once. A visit that shows it clears it, so the next visit shows only its own text, and a visit that does not show it keeps it pending. |
| Notice.ShownWhenBlank | app.py:857-862 | A pending message is shown (with the warning sign) by the first visit whose `success` is blank, and kept by a visit that has its own success text. |
| Notice.CleanupNotice.constructor | app.py:2353-2356 | The global message is set from the de-duplication outcome. |
| Notice.CleanupNotice.Panel | app.py:850-862 | The panel shows the stripped `success`, or the pending message when that is blank, and then clears it, as `PanelSuccess` states. |
| Strings.TrimStartSpec | app.py:647 | `lstrip` drops exactly the leading whitespace. |
| Strings.TrimEndSpec | app.py:647 | `rstrip` drops exactly the trailing whitespace. |
| Strings.TrimSpec | app.py:647 | `strip` leaves no whitespace at either end and keeps text that has none there. |
| Strings.TextStartSpec | app.py:647 | The text start skips only whitespace and stops at text. |
| Strings.TextEndSpec | app.py:647 | The text end skips only whitespace and stops at text. |
| Strings.BlankIffTrimEmpty | app.py:647-648 | `not valor` after `strip` means exactly a blank value. |
| Strings.BlankIffAllSpace | app.py:647-648 | A blank value is one made entirely of whitespace. |
| Strings.DigitChar | app.py:1770 | A digit's character reads back as that digit. |
| Strings.Show | app.py:416 | `str(n)` is a digit string reading back as n, without a leading zero. |
| Strings.ParseShow | app.py:908 | `int(str(i)) == i`. |
| Strings.ReplaceHead | app.py:62 | `replace` starts with the replacement exactly when the text starts with the pattern. |
| Strings.ReplaceExcludes | app.py:62 | After replacing every `?`, no `?` remains. |
| Strings.Occurrences | app.py:62 | A character occurs at most once per position. |
| Strings.OccurrencesNone | app.py:62 | Zero occurrences means absence. |
| Strings.OccurrencesAppend | app.py:62 | Occurrences add up over concatenation. |
| Strings.FormatMarkersNone | app.py:62 | Text without `%` holds no `%s`. |
| Strings.FormatMarkersCons | app.py:62 | One `%s` is counted where a `%` is followed by `s`. |
| Strings.FormatMarkersAppend | app.py:62 | `%s` counts add up unless the left part ends in `%`. |
| Strings.FormatMarkersReplace | app.py:64 | `SUBSTR(` to `SUBSTRING(` keeps the `%s` count. |
| Strings.FormatMarkersFromQuestionMarks | app.py:62 | Turning `?` into `%s` adds one marker per `?`. |

## Left out

- The web layer is not modelled: routes, sessions, login, templates, redirects' query strings,
  and JSON/HTTP status codes. Each handler is modelled by what it does to the tables and what it
  reports.
- Database drivers, connections, `CREATE TABLE` and migration DDL are not modelled. Tables are
  sequences of rows, the `UNIQUE` constraints are class invariants, and `CHECK(... BETWEEN 1 AND
  5)` is `Evaluation.WellRated`.
- The application's other tables (users, program statistics) are not modelled.
- Workbook reading (pandas), QR codes, password hashing and Excel export writing are not
  modelled. A sheet is a sequence of `SheetRow`: either the row's values or a row that cannot be
  written.
- AttendanceStore.AttendanceTable.ImportSheet: only the counts and the notes are modelled. The
  summary text built from them at app.py:1122-1126 is not.
- AttendanceStore.AttendanceTable.ImportSheet: the model follows SQLite, where a failed `INSERT`
  leaves the transaction usable. On PostgreSQL, every insert after the first failure fails too.
  The connection does not autocommit, so `conn.commit()` at app.py:1119 on the aborted
  transaction rolls back the rows inserted before the failure as well. The message built at
  app.py:1122-1126 still reports them as inserted. None of this is modelled.
- AttendanceStore.AttendanceTable.Register: the date check (`strptime("%Y-%m-%d")`) is an input
  classification (`Registration.DateInput`). Calendar validity itself is not modelled.
- The clock (`datetime.now()`) is a parameter: `today` for registration and `currentYear` for
  the windows.
- The statistics aggregations (app.py:1493-1586) are not modelled. They reuse `where_sql` and
  `params` unchanged; only the first count query is.
- Floating-point percentages and averages are not modelled.
- Statistics.StatsSemantics: the row's year is `EventDate.year`. On SQLite,
  `CAST(SUBSTR(fecha_evento, 1, 4) AS INTEGER)` yields 0 for text that does not start with
  digits. On PostgreSQL the same cast raises an error. That difference is not modelled.
- Normalization.NormalizeText: canonical decomposition is modelled for the Latin-1 range only.
  A letter above U+00FF that has a decomposition is dropped instead of being reduced to its base
  letter, because the Unicode tables are not part of this model.
- Normalization.LowerLatin1: lower-casing above U+00FF is not modelled (those characters are
  kept), for the same reason.
- Normalization.LikeEscaped: a pattern ending in a lone backslash is an error in PostgreSQL and
  is modelled as matching nothing. A search pattern always ends in `%`, so the search never
  reaches that case. An `ESCAPE` clause other than the default backslash is not modelled.
- Strings.IsSpace: `str.isspace()` is modelled on the first 256 code points only.
- Evaluation.RatingValue: `str.isdigit()` is modelled on ASCII digits only. A decimal digit
  from another script, such as the full-width `３` or the Arabic-Indic `٣`, is accepted by the
  source with its value (`int()` reads it), but is refused by the model. A superscript such as
  `²` or another digit that is not a decimal digit makes `isdigit()` true and `int()` raise.
  The handler then reports a generic error, and that path is not modelled either.
- Strings.ParseInt: `int()` also accepts underscores between digits and non-ASCII digits. Those
  forms are not modelled.
- The three default modalities that start-up inserts (app.py:321-339) are not modelled: a
  catalogue starts empty, and `Add` would seed them the same way.
- The foreign key from an evaluation to its attendance row is not modelled, because SQLite does
  not enforce it by default.
- Catalogue.Catalogue.Add: the PostgreSQL modality branch tests the error text for `duplicate
  key` rather than `UNIQUE`, and that is not distinguished. The other failures of the insert are
  not modelled.
- The `fecha_modificacion` timestamps of the catalogues are not modelled.
- Catalogue.Catalogue.Delete: deleting a program also checks `programa_docente`. Both columns
  are modelled through `Catalogue.Uses`.
- Catalogue.Catalogue.Delete: a program id that does not exist matches no row and deletes
  nothing. The source reports success then too, and the model returns `Deleted` without
  checking existence.

## Findings

| source | as written | input that shows it | evidently intended | confidence | as-written member | corrected member |
|---|---|---|---|---|---|---|
| app.py:930-932 | On SQLite, the grid search (and the export's, at app.py:1184-1196) compares `LOWER(column)` with the accent-stripped term. `LOWER` keeps accented letters, so a search text without `_` or `%` never matches across an accented letter of the value (those two stay wildcards: "jos_" finds "josé"), against the accent-insensitive search promised at app.py:888. "Ingeniería" is found neither by "ingenieria" nor by "Ingeniería"; "José" is still found by "jos". | A stored value "é" and the search text "é": the term becomes "e", the column stays "é". | The column normalised the same way as the term, so that a search ignores case and accents. | not executed | Normalization.SqliteMissesAccentedValue | Normalization.IntendedMatchContains |
| app.py:927-929 | On PostgreSQL, the `REPLACE` chain strips only the lower-case vowels á é í ó ú, and it runs before `LOWER`. Capital accented vowels (and ñ, ü) survive into the comparison. The same holds at app.py:1182-1194. | A stored value "Á" and the search text "Á": the term becomes "a", the column becomes "á". | Both sides normalised alike. | not executed | Normalization.PostgresMissesCapitalAccent | Normalization.IntendedMatchAccented |
