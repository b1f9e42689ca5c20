# Attendance register: a Dafny model

The system keeps a register of people and their daily attendance. It has two parts:

- A **FastAPI server** (`main.py`) over two SQLite tables:
  - `personas`: an id and a unique name.
  - `asistencias`: a person id, an ISO date and a state, `"Asistencia"` or `"Falta"`.
  - It adds, marks, renames and deletes, serves three counting summaries and builds an Excel sheet.
- A **page script** (`frontend/app.js`) that keeps the list of names in memory. It offers:
  - a search box with a case-insensitive suggestion panel;
  - keyboard selection with ArrowDown, ArrowUp and Enter;
  - an admin box with its own suggestion panel;
  - an outside-click rule that empties both panels;
  - a date field filled with today's date.

Modules, in dependency order:

| file | module | what it holds |
|---|---|---|
| wrappers.dfy | `Wrappers` | `Option` |
| text.dfy | `Text` | ASCII lowercasing, substring search, strip, decimal digits, padding |
| sequences.dfy | `Sequences` | order-keeping filter (`Keep`), subsequences, first match, pairwise relations |
| ordering.dfy | `Ordering` | lexicographic `Less` on strings, sorting without duplicates |
| dates.dfy | `Dates` | the `YYYY-MM-DD` text of a date and its `YYYY-MM` month prefix |
| autocomplete.dfy | `Autocomplete` | the shared filter predicate and the name-list updates |
| navigation.dfy | `Navigation` | the search box as a value and one run of each listener as a function |
| frontend.dfy | `Frontend` | class `Page`: the page's globals and inputs as fields, each listener as a method |
| store.dfy | `Store` | the two tables, their consistency invariant, class `Database` with the four write endpoints |
| summaries.dfy | `Summaries` | `/resumen/personas`, `/resumen/personas/mes`, `/resumen/dias` |
| spreadsheet.dfy | `Spreadsheet` | the cells, totals, fills and column widths of `/descargar-excel` |

`Store.Consistent` is the invariant that `Database.Valid()` keeps:

- names are unique and ids are unique;
- every id is below the next id to be allocated;
- there is at most one attendance row per (person, date);
- every attendance row points at an existing person.

`Navigation.Valid` is the invariant of the search box:

- there is one highlight mark per row;
- a hidden panel holds no rows;
- the index is never below -1;
- while rows are shown, the index is -1 or one of the rows.

Each `Frontend.Page` listener keeps `Navigation.Valid` and is proved to produce exactly the state that the matching `Navigation` function gives.

Some behaviours of the code look unintended. The model follows the code:

- ArrowUp with no selection goes to row `(n - 2) mod n`, not to the last row.
- An arrow key on a panel that is visible but empty makes the index NaN, rather than doing nothing.

Both are listed under Findings, with the lemmas that show them and a corrected version of each.

## Model

| member | source | states |
|---|---|---|
| Text.LowerIdempotent | frontend/app.js:32 | lowercasing an already lowercased text changes nothing |
| Text.ContainsIff | frontend/app.js:42 | `includes` holds exactly when the needle occurs at some offset |
| Text.Strip | main.py:66 | the result is a slice of the input with only white space cut at both ends, and it neither starts nor ends with white space; `PyBlanks` is the white space of Python's `str.strip`, `JsBlanks` that of JavaScript's `trim` |
| Text.StripsDiffer | frontend/app.js:173 | the page's `trim` keeps a leading U+001F that the server's `strip` removes, and the server keeps a leading U+FEFF that the page removes |
| Text.DecimalRoundTrip | frontend/app.js:19 | reading back the decimal text of a number gives the number |
| Text.TwoDigits | frontend/app.js:20-21 | `padStart(2, '0')` of a number below 100 is two digits that read back as the number |
| Dates.IsoDateLayout | main.py:84 | a four-digit-year date prints as ten characters: digits, dashes at 4 and 7, parts that read back, and a seven-character month prefix |
| Dates.InMonthIff | main.py:186 | `strftime('%Y-%m', fecha) = mes` holds for a stored ISO date exactly when year and month agree |
| Dates.MonthTextInjective | main.py:186 | two equal `YYYY-MM` texts come from the same year and month |
| Sequences.KeepIsSubsequence | frontend/app.js:42 | `filter` returns a subsequence of its input |
| Sequences.KeepMembership | frontend/app.js:42 | an element is kept exactly when it is in the input and passes the test |
| Sequences.KeepMultiplicity | frontend/app.js:42 | a passing element is kept as often as it occurs; a failing one never |
| Sequences.KeepAppend | frontend/app.js:42 | filtering a concatenation is the concatenation of the filtered parts |
| Sequences.KeepPairwise | main.py:152-153 | deleting rows preserves every pairwise distinctness the table had |
| Sequences.FirstWhere | main.py:93-94 | `fetchone` finds the first row that passes the test, or reports that none passes |
| Ordering.LessTotal | main.py:170 | the order behind `ORDER BY` is total |
| Ordering.LessTransitive | main.py:170 | that order is transitive |
| Ordering.SortDistinct | main.py:228 | `SELECT DISTINCT fecha … ORDER BY fecha` is strictly ascending and holds exactly the stored dates |
| Autocomplete.Filter | frontend/app.js:42 | the matching names, in list order, each as often as in the list; a subsequence of the list |
| Autocomplete.FilterAppend | frontend/app.js:188 | after appending a name, the suggestions are the old ones followed by the new name's |
| Autocomplete.QueryCaseIrrelevant | frontend/app.js:32-42 | lowercasing the query first gives the same suggestions: the case of what is typed cannot change the panel |
| Autocomplete.Suggestions | frontend/app.js:37-47 | an empty query shows nothing; otherwise the panel holds exactly the matching names and is empty only when nothing matches |
| Autocomplete.Rename | frontend/app.js:211 | same length; every element equal to the old name becomes the new one and every other element stays |
| Autocomplete.RenameMultiplicity | frontend/app.js:211 | renaming moves every copy of the old name to the new one and leaves other names' counts alone |
| Autocomplete.Remove | frontend/app.js:230 | a subsequence without the removed name that keeps every other name's count |
| Navigation.JsRem | frontend/app.js:79 | JavaScript `%` on integers: the dividend minus the result is a multiple of n, and the result lies in `[0, n)` for a non-negative dividend and in `(-n, 0]` for a negative one (the truncated remainder) |
| Navigation.Down | frontend/app.js:79 | ArrowDown's new index is a row index whenever there are rows and the index is a number at least -1; with no rows, or from NaN, it is NaN |
| Navigation.Up | frontend/app.js:85 | the same for ArrowUp's new index |
| Navigation.Highlights | frontend/app.js:99-107 | one mark per row; `HighlightsSingle` proves at most one is set, and which |
| Navigation.HighlightsSingle | frontend/app.js:99-107 | at most one row is highlighted: the one at the index when it names a row, otherwise none |
| Navigation.Step | frontend/app.js:71-97 | one run of the keydown listener: a hidden panel or another key changes nothing, and an arrow moves only the index and the marks; `StepKeepsValid`, `ArrowCycles`, `EnterCommits`, `EnterWithoutSelection` and `EmptyVisiblePanel` give its cases |
| Navigation.Press | frontend/app.js:320-346 | one physical press runs `Step` twice: a hidden panel or another key changes nothing, and an arrow keeps the query and the rows; `PressMovesTwice` gives the resulting index |
| Navigation.Shown | frontend/app.js:34-47 | the state left by an input event is well formed: unmarked rows, hidden exactly when empty, no selection |
| Navigation.Click | frontend/app.js:59-63 | clicking a row puts its text in the input and empties and hides the panel, leaving the index |
| Navigation.Dismiss | frontend/app.js:244-248 | the outside-click rule removes the rows and keeps the input, the `hidden` flag and the index |
| Navigation.TransitionsKeepValid | frontend/app.js:71-97 | every listener transition keeps the search box well formed |
| Navigation.StepKeepsValid | frontend/app.js:71-97 | one keydown run keeps the search box well formed |
| Navigation.HiddenIgnoresKeys | frontend/app.js:75 | while the panel is hidden, a keydown changes nothing |
| Navigation.ArrowCycles | frontend/app.js:77-87 | with rows shown, ArrowDown gives `(i+1) mod n` and ArrowUp gives `(i-1+n) mod n`; the new index lies in `[0,n)` and is the only row highlighted |
| Navigation.ArrowsFromNone | frontend/app.js:77-87 | with no selection, ArrowDown picks row 0 and ArrowUp picks row `(n-2) mod n` |
| Navigation.EnterCommits | frontend/app.js:89-96 | Enter on a selected row writes its text to the input, empties and hides the panel and resets the index |
| Navigation.EnterWithoutSelection | frontend/app.js:89 | Enter with index -1 does nothing |
| Navigation.EmptyVisiblePanel | frontend/app.js:77-91 | on a visible panel with no rows, an arrow makes the index NaN and Enter changes nothing |
| Navigation.PressMovesTwice | frontend/app.js:320-346 | with both listeners registered, one press of ArrowDown moves two rows, ArrowUp moves two back, and Enter commits once |
| Navigation.DownWalks | frontend/app.js:77-81 | m runs of ArrowDown from index i reach `(i+m) mod n`, over the same rows |
| Navigation.DownReturns | frontend/app.js:77-81 | from a selected row, a multiple of n runs of ArrowDown returns to that row |
| Navigation.UpIntended | frontend/app.js:83-87 | corrected ArrowUp: with no selection it goes to the last row; otherwise it is the code's ArrowUp |
| Navigation.IntendedPress | frontend/app.js:77-87 | the corrected press: a hidden panel, a panel without rows, or another key changes nothing; ArrowDown and Enter are one `Step`; `IntendedPressCycles` and `IntendedNeverNaN` carry its properties |
| Navigation.IntendedNeverNaN | frontend/app.js:77-87 | from a well-formed state with a numeric index, the corrected press keeps the state well formed and the index numeric, also on a visible panel without rows |
| Navigation.IntendedPressCycles | frontend/app.js:77-87 | intended presses keep the box well formed, enter at row 0 or at the last row from no selection, and ArrowUp undoes ArrowDown |
| Navigation.UpFromNoneAsWritten | frontend/app.js:85 | on three rows with no selection, the code's ArrowUp picks row 1 where the intended one picks row 2 |
| Navigation.DownPressFromNoneAsWritten | frontend/app.js:320-330 | on three rows with no selection, one ArrowDown press picks row 1; a single run picks row 0 |
| Frontend.DateField | frontend/app.js:18-22 | the `#fecha` text is the ISO text of (year, month index + 1, day) |
| Frontend.DateFieldLayout | frontend/app.js:18-22 | for a four-digit year the field is `YYYY-MM-DD`: ten characters, dashes at 4 and 7, parts that read back as year, calendar month and day |
| Frontend.Page.Load | frontend/app.js:3-15 | the list is the fetched one, or stays empty when the fetch failed and the input listener is then not attached; the panel is hidden and empty with no selection; the date field is still empty until `WriteDate` |
| Frontend.Page.WriteDate | frontend/app.js:17-22 | `#fecha` holds the date text |
| Frontend.Page.Input | frontend/app.js:11-12 | typing keeps the box well formed; with the listener attached, the box shows the suggestions for the new text; without it, only the input changes |
| Frontend.Page.ShowMatches | frontend/app.js:29-67 | the box becomes `Shown(query, Suggestions(names, query))` |
| Frontend.Page.AppendRows | frontend/app.js:51-66 | the emptied panel receives one unmarked row per match, in order |
| Frontend.Page.Highlight | frontend/app.js:99-107 | the marks become exactly `Highlights(index, n)` |
| Frontend.Page.KeyStep | frontend/app.js:71-97 | the box becomes `Step(old box, key)` and stays well formed |
| Frontend.Page.KeyPress | frontend/app.js:320-346 | a press runs the step twice: the box becomes `Press(old box, key)` |
| Frontend.Page.ClickRow | frontend/app.js:59-63 | the box becomes `Click(old box, k)` |
| Frontend.Page.DocumentClick | frontend/app.js:237-250 | both panels are emptied exactly when the target lies in none of the four regions; the inputs and `hidden` are never touched |
| Frontend.Page.PressRow | frontend/app.js:59-63 | a physical click on a row commits it, and the bubbling document click also empties the admin panel |
| Frontend.Page.AdminInput | frontend/app.js:109-118 | the admin panel holds the suggestions for the new text, using the same filter |
| Frontend.Page.ShowAdminSuggestions | frontend/app.js:109-131 | the admin panel holds `Suggestions(names, adminQuery)` |
| Frontend.Page.AppendAdminRows | frontend/app.js:120-130 | appending one row per match to the emptied admin panel leaves exactly the matches, in order |
| Frontend.Page.ClickAdminRow | frontend/app.js:125-128 | the admin input takes the row's text and the admin panel is emptied |
| Frontend.Page.PressAdminRow | frontend/app.js:237-250 | a physical click on an admin row also empties `#resultados`, without hiding it |
| Frontend.Page.AddPerson | frontend/app.js:172-193 | the trimmed name is appended only when it is non-empty and the server accepted it |
| Frontend.Page.RenameInput | frontend/app.js:197 | `#nuevoNombre` holds the typed text, which `EditPerson` reads and trims |
| Frontend.Page.EditPerson | frontend/app.js:195-216 | with both trimmed names present and a response received, the list becomes `Rename(list, old, new)` |
| Frontend.Page.DeletePerson | frontend/app.js:218-235 | with a trimmed name present and a response received, the list becomes `Remove(list, name)` |
| Store.FindPersona | main.py:93-94 | the lookup finds a person with that name, and finds none exactly when nobody has it |
| Store.FindRecord | main.py:102-105 | the lookup finds a row for that (person, date), or none exists |
| Store.FechaStr | main.py:81-88 | a missing or empty fecha gives today's ISO text; a supplied one fails exactly when it does not parse, and otherwise gives the `%Y-%m-%d` text of the parsed date (so `IsoDateLayout` reads back its year, month and day); every result is the ISO text of a calendar date |
| Store.Upsert | main.py:101-114 | the table grows by at most one row, holds the row (person, date, new state), and every row of another slot stays where it was; `UpsertChanges` and `UpsertRegisters` give the exact effect |
| Store.UpsertChanges | main.py:107-114 | an existing row for (person, date) only has its state changed and all other rows stay; otherwise exactly one row is appended |
| Store.UpsertRegisters | main.py:101-114 | afterwards exactly one row exists for (person, date), it holds the new state, and the one-row-per-slot invariant is kept |
| Store.UpsertKeepsConsistent | main.py:101-114 | marking an existing person keeps the tables consistent |
| Store.DropRecords | main.py:152 | keeps, in order, exactly the rows of other people, and keeps one row per slot |
| Store.DropPersona | main.py:153 | keeps, in order, exactly the other people, and keeps names and ids unique |
| Store.RenameKeepsConsistent | main.py:133 | a rename to a name no other person holds keeps the tables consistent |
| Store.Database.constructor | main.py:32-51 | empty tables; the first id is 1 |
| Store.AddKeepsConsistent | main.py:69-76 | appending a person with a name not yet stored and the next id keeps ids unique, names unique and every row's person stored |
| Store.Database.Agregar | main.py:64-76 | an empty `nombre` form field is refused with 422 and changes nothing; otherwise a stored (stripped) name fails with 400 "La persona ya existe" and changes nothing; otherwise exactly one person with a fresh id is appended |
| Store.Database.Marcar | main.py:78-118 | an empty `nombre` or `estado` form field is refused with 422 first; then a bad date gives 400 "Fecha inválida" before any lookup; an unknown stripped name gives 404 "La persona no está registrada"; both change nothing; otherwise the table becomes the upsert and the message carries the date |
| Store.Database.MarkOn | main.py:90-118 | with the date settled: an unknown name gives 404 and leaves the table; a stored name's row for that date is upserted and the reply carries the date |
| Store.Database.Record | main.py:101-114 | the attendance table becomes the upsert and stays consistent |
| Store.Database.Editar | main.py:120-139 | an unknown name gives 404 "Persona no encontrada"; a name held by another person gives 400 "El nuevo nombre ya existe"; an empty `nombre_actual` or `nuevo_nombre` form field is refused with 422 before either; all three change nothing; otherwise only that person's name changes, and its id and all attendance rows stay |
| Store.Database.Borrar | main.py:141-156 | an empty `nombre` form field is refused with 422 and changes nothing; otherwise an unknown name gives 404 "Persona no encontrada" and changes nothing; otherwise the person and all their attendance rows are removed, and the invariant keeps every row pointing at an existing person |
| Summaries.Tally | main.py:165-166 | a person's `SUM(CASE ...)` is a count of rows, so never more than the number of rows; `TallyZero`, `MonthWithinTotal` and `DeleteTallies` give its properties |
| Summaries.TallyZero | main.py:165-176 | a count is at most the number of rows, and it is 0 exactly when no row of that person has the state; a person without rows gets a sum of 0 from the NULL-padded row of the LEFT JOIN |
| Summaries.MonthWithinTotal | main.py:186-187 | a monthly count never exceeds the all-time count |
| Summaries.DeleteTallies | main.py:152 | after the cascade, the deleted person counts 0 and everyone else counts as before |
| Summaries.InsertByName | main.py:170 | inserting into a name-ordered list keeps it ordered and adds exactly that person |
| Summaries.SortByName | main.py:170 | `ORDER BY p.nombre` gives a name-ordered permutation of the people |
| Summaries.SortedNamesAscend | main.py:169-170 | with unique names, the sorted names are strictly ascending |
| Summaries.DistinctRowsNames | main.py:169 | with unique names, different rows of a permutation carry different names |
| Summaries.TableRowOnce | main.py:169 | with unique names, each person occurs once in the table |
| Summaries.PerPerson | main.py:163-176 | one entry per person in name order; every entry is some person's counts, and every person's counts appear |
| Summaries.PorPersona | main.py:158-177 | `/resumen/personas`: one entry per person, in name order, with their counts of "Asistencia" and "Falta" |
| Summaries.PorPersonaMes | main.py:179-198 | the same, counting only rows whose `YYYY-MM` prefix is `mes` |
| Summaries.MonthlyEntryBounded | main.py:184-192 | the monthly entry is bounded by the all-time entry |
| Summaries.DayTally | main.py:207 | a date's count of "Asistencia" is at most the number of rows, and 0 exactly when no row of that date has that state |
| Summaries.Days | main.py:205-211 | one entry per given date, with its count of "Asistencia" |
| Summaries.PorDia | main.py:200-217 | `/resumen/dias`: strictly ascending dates, exactly the stored ones, each with its count of "Asistencia" |
| Summaries.DaysTotal | main.py:205-211 | over distinct dates, the entries add up to the rows stored on those dates |
| Summaries.DailyTotal | main.py:205-216 | the daily counts add up to all "Asistencia" rows |
| Spreadsheet.Header | main.py:253-254 | "Nombre", then the dates in order, then "Total Asistencias" and "Total Faltas" |
| Spreadsheet.EstadoAt | main.py:269-275 | the per-cell query: "" when no row of that person and date exists (`FirstWhere` finds none); otherwise the `estado` of the first such row in table order, as `fetchone()` returns it; `EstadoAtById` restates that row as the join by id |
| Spreadsheet.Estados | main.py:268-276 | one value per date: the state of the first matching row, or "" |
| Spreadsheet.Row | main.py:264-282 | a person row has the header's length |
| Spreadsheet.PersonRow | main.py:264-283 | the row built cell by cell with running counters equals `Row`: the name, the states, and the counts of "Asistencia" and "Falta" among them |
| Spreadsheet.SortedNames | main.py:225-226 | one name per person, in name order, each a stored name |
| Spreadsheet.SheetDates | main.py:228-229 | strictly ascending, exactly the stored dates |
| Spreadsheet.Sheet | main.py:252-283 | the grid is the header followed by one row per person, in name order |
| Spreadsheet.PersonRows | main.py:263-283 | the m-th row is `Row` of the m-th name |
| Spreadsheet.FillOf | main.py:290-299 | date columns get the present, absent or empty fill exactly by value; other cells get the alternate fill exactly on even sheet rows, else none |
| Spreadsheet.RowFills | main.py:286-299 | each cell of a row gets `FillOf` of its 1-based column |
| Spreadsheet.Fills | main.py:256-299 | header cells get the header fill; grid row g is sheet row g+1 and gets its cells' fills |
| Spreadsheet.ColumnCount | main.py:302 | the number of columns is the longest row's length |
| Spreadsheet.ColumnMax | main.py:303 | the longest text in a column, with empty cells and 0 counting 0, is both an upper bound and attained |
| Spreadsheet.ColumnWidths | main.py:302-304 | one width per column; each is at least 12 and at least the longest text + 2, and equals 12 or the longest text + 2 |
| Spreadsheet.OwnerById | main.py:269-273 | with unique names, the join by name selects exactly the rows with the person's id |
| Spreadsheet.EstadoAtById | main.py:269-275 | the per-cell query returns the state of that person's first row on that date |
| Spreadsheet.SlotCountOne | main.py:274-280 | with one row per slot, a cell's value decides the count for that date |
| Spreadsheet.RowCounts | main.py:268-280 | the counter over distinct dates counts the person's rows on those dates |
| Spreadsheet.SheetTotalsMatchSummary | main.py:277-282 | in a consistent store, a person's total columns equal their `/resumen/personas` counts |

## Left out

- Network calls:
  - Every `fetch`, its URL, promise chain and JSON decoding is left out.
  - A request's outcome enters the model as a parameter of the listener: `fetched`, `accepted` or `responded`.
  - The messages shown with `mostrarMensaje` are left out.
- DOM details are left out: element creation, CSS classes, `dataset`, table rendering, console logging and the Excel download.
  - A panel is a sequence of row texts plus a `hidden` flag.
  - A highlight is one boolean per row.
- Text.Lower: lowercasing is ASCII-only. JavaScript's `toLowerCase` also maps the rest of Unicode, including mappings that change the length.
- White space is modelled separately for JavaScript's `trim` and Python's `strip`, from the character lists of the ECMAScript standard and of `str.isspace`. Unicode versions that change those lists are not modelled.
- The page markup is not part of this model. `Frontend.Page.Load` assumes `#resultados` starts hidden and that every input field starts empty.
- `Frontend.Page.AdminInput` assumes `mostrarSugerenciasAdmin` runs on each input event of `#nombreNuevo`. It is not registered in frontend/app.js; presumably the markup does it.
- The clock and the date parser:
  - `datetime.strptime` is a parameter that must only return calendar dates.
  - `datetime.now()` and `new Date()` are parameters.
  - Python's `%Y` is written as the plain decimal year.
- SQLite details are left out:
  - The engine, transactions, `AUTOINCREMENT` beyond a fresh-id counter, and the id column of `asistencias`. A row's position stands for its id.
  - The uniqueness constraint is modelled as the `HasName` check it amounts to.
- Collation: `ORDER BY` is modelled as plain lexicographic order on characters.
- SQLite `strftime('%Y-%m', fecha)` is modelled as the first seven characters of `fecha`. This agrees for the ISO text the server stores. It is not the same for other text, or for years outside 1000-9999.
- openpyxl: the workbook, fonts, borders, alignment, colours and serialisation are left out. Fills are modelled as a kind, and widths as numbers.
- The Excel sheet is built from in-memory tables. It does not model the queries running against a database that changes meanwhile.
- Overlapping requests and event-loop interleaving are left out.
- `GET /nombres` is left out. It only enters as the list that `Frontend.Page.Load` receives.
- `Frontend.Page.EditPerson`: the list update after an error response depends on `fetch` semantics. The model makes it a parameter.
- `Frontend.Page.DeletePerson`: the same applies to the list update after an error response.
- FastAPI request validation: a required `Form(...)` field that is missing or sent empty gives 422, which the store methods model. The 422 body is reduced to the detail text "Field required" instead of pydantic's error list.
- `Store.Database.Marcar`: the `estado` text is not checked, because the server stores any text. Only "Asistencia" and "Falta" are counted.

## Findings

| source | as written | input that shows it | evidently intended | confidence | as-written member | corrected member |
|---|---|---|---|---|---|---|
| frontend/app.js:71-97 | the keydown listener is registered a second time at frontend/app.js:320-346, so one key press runs the step twice | three suggestions, no selection, press ArrowDown: row 1 is selected and row 0 is skipped | one press moves the selection by one row | not executed | Navigation.DownPressFromNoneAsWritten | Frontend.Page.KeyStep |
| frontend/app.js:83-87 | ArrowUp computes `(i - 1 + n) % n`, so with no selection (`i = -1`) it gives `n - 2` | three suggestions, no selection, one run of the ArrowUp handler: row 1 is selected (a physical press runs it twice and ends on row 0) | ArrowUp with no selection goes to the last row | not executed | Navigation.UpFromNoneAsWritten | Navigation.IntendedPressCycles |
| frontend/app.js:77-87 | with the panel visible but holding no rows (the outside-click rule empties it without hiding it), an arrow computes `x % 0` and the index becomes NaN | three suggestions, a click outside the box, a click back into the input, then ArrowDown: the index is NaN | an arrow on a panel without rows does nothing | not executed | Navigation.EmptyVisiblePanel | Navigation.IntendedNeverNaN |
