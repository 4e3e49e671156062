# Maintenance-management core, modelled in Dafny

This project models the deterministic logic inside a maintenance-management application for
an Ethiopian fleet operator (a TypeScript/React web app with a few Python and Node scripts)
and proves properties of it. The modelled pieces are:

- the two spreadsheet extractors that turn equipment sheets into equipment records
  (`ExtractAllEquipment`, `ExtractEquipment`, over the shared `Spreadsheet` cells);
- the free-text equipment-description parser (`ParseEquipmentDescription`, with worked inputs
  in `ParseEquipmentExamples`);
- spreadsheet import validation and its three template configurations (`ExcelUtils`);
- the two dump-truck importers (`ImportDumpTrucks`, `ImportTrucksWithLocations`, sharing
  `TruckLines`);
- the parts-catalogue extractor (`ExtractParts`);
- the Ethiopian calendar (`EthiopianCalendar`) and the fiscal years and quarters that follow it
  (`Fiscal`), over local dates as integer tuples (`CalendarDate`);
- the work-order timer (`WorkTimer`);
- the role checks and bearer-token extraction of the HTTP middleware (`Auth`);
- the SQL literal encoders and INSERT/DELETE assembly of the three data exporters
  (`SqlLiteral`, `ExportMySql`, `ExportPostgres`, `ExportSqlServer`);
- the client-side state: the equipment-model aggregation (`EquipmentModels`), the
  parts-requisition form (`RequestParts`), the employee pickers (`Paging`, `Picker`,
  `EmployeeSearch`, `SelectEmployees`), the workshop draft store (`WorkshopDraft`) and the
  store manager's requisition dashboard (`StoreManager`).

Shared modules: `Wrappers` (Option and Result), `Text` (ASCII whitespace, trimming,
lower-casing, search, split, replace, decimal numbers), `Lists` (filter, map, chunks,
de-duplication), `OrderedMap` (a JavaScript `Map` with insertion order), `Sorting` (a stable
sort under a caller's comparison) and `Scan` (the runs and leftmost searches the regular
expressions are built from).

Every operation is a pure function. React effects become explicit steps: the page clamp of
the pickers, the persistence effect of the draft store. The clock is a parameter: `now` for
the timer, `today` for the calendar.

## Model

| member | source | states |
|---|---|---|
| Auth.HasRole | server/auth.ts:162-176 | no user or no truthy role is refused; "admin" in any casing is admitted whatever the allowed list, even an empty one; otherwise admitted iff some allowed role matches case-insensitively |
| Auth.HasRoleMonotone | server/auth.ts:162-176 | allowing more roles never turns a user away |
| Auth.HasRoleIgnoresCase | server/auth.ts:174-175 | the casing of the allowed roles does not change the answer |
| Auth.RequireRole | server/auth.ts:179-193 | 401 exactly when there is no user; the next handler exactly when `hasRole` admits; otherwise 403 naming the allowed roles joined by ", " |
| Auth.IsAuthenticated | server/auth.ts:114-119 | passes exactly the requests with a user, answers 401 otherwise |
| Auth.IsCEO | server/auth.ts:122-128 | passes exactly the role "ceo" in any casing; everything else, a missing user included, gets 403 |
| Auth.AuthenticatedUnderRequireRole | server/auth.ts:114-119 | `isAuthenticated` answers 401 for exactly the requests `requireRole` answers 401 for, whatever roles it asks for, and passes every user `requireRole` admits |
| Auth.CEOExcludesAdmin | server/auth.ts:122-128 | `isCEO` admits what `hasRole(user, "ceo")` admits minus administrators, unlike `hasRole` |
| Auth.IsCEOOrAdmin | server/auth.ts:131-137 | passes exactly the lower-cased roles "ceo" and "admin", 403 otherwise |
| Auth.CanApprove | server/auth.ts:140-146 | passes exactly "ceo", "admin" and "supervisor" in any casing, 403 otherwise |
| Auth.IsSupervisorOrCEO | server/auth.ts:148-158 | passes exactly "supervisor" and "ceo"; administrators are turned away |
| Auth.CEOOrAdminIsHasRole | server/auth.ts:131-137 | `isCEOOrAdmin` admits the same users as `hasRole(user, "ceo")` |
| Auth.CanApproveIsHasRole | server/auth.ts:140-146 | `canApprove` admits the same users as `hasRole(user, "ceo", "supervisor")` |
| Auth.SupervisorOrCEOExcludesAdmin | server/auth.ts:148-158 | `isSupervisorOrCEO` admits what `hasRole(user, "supervisor", "ceo")` admits minus administrators, unlike `hasRole` |
| Auth.BearerToken | server/auth.ts:69-70 | a token exists iff the header starts with "Bearer ", and the header is that prefix followed by the token |
| Auth.BearerTokenRoundTrip | server/auth.ts:70 | any token put behind "Bearer " is extracted unchanged |
| Auth.AuthenticateToken | server/auth.ts:68-106 | a missing or empty token leaves the request anonymous; a user exists only when the token verified and its employee was found; for a verified token whose employee was found, a user exists exactly when the employee has a non-empty username and password, and its role is the employee's, or "user" when that is missing or empty |
| CalendarDate.PrevDay | shared/fiscal.ts:63 | `setDate(getDate() - 1)` yields a valid date strictly earlier at the same time of day, and the next day after it is the original date |
| CalendarDate.AddMonths | shared/fiscal.ts:89 | `setMonth(getMonth() + k)` yields a valid date at the same time of day; while the day of month is at most 28 it only moves year and month by `k` months |
| CalendarDate.AddMonthsAdd | shared/fiscal.ts:89-93 | two month steps compose into one while the day of month exists in every month |
| EthiopianCalendar.NewYearDate | server/ethiopian-calendar.ts:20-24 | midnight on September 12 in Gregorian leap years, on September 11 otherwise |
| EthiopianCalendar.GregorianToEthiopian | server/ethiopian-calendar.ts:32-43 | Gregorian year minus 8 before that year's New Year, minus 7 from the New Year on |
| EthiopianCalendar.GregorianToEthiopianBracket | server/ethiopian-calendar.ts:26-43 | a date is in Ethiopian year `e` exactly when it lies from the New Year of Gregorian `e + 7` up to, excluding, that of `e + 8` |
| EthiopianCalendar.GregorianToEthiopianMonotone | server/ethiopian-calendar.ts:32-43 | the Ethiopian year never decreases as the date advances |
| EthiopianCalendar.NextNewYear | server/ethiopian-calendar.ts:55-67 | this year's New Year or next year's, always strictly after today, and no New Year lies between today and it |
| EthiopianCalendar.EthiopianYearInfo | server/ethiopian-calendar.ts:47-87 | with the clock read once for the year and once for the New Year, the current year is the Ethiopian year of the first read, the next is one more, the date is the first New Year after the second read, and the leap flag belongs to that New Year's Gregorian year |
| EthiopianCalendar.YearInfoConsistent | server/ethiopian-calendar.ts:47-87 | the date is the New Year of Gregorian year `current + 8` and opens Ethiopian year `next` exactly when the two clock reads fall in the same Ethiopian year |
| EthiopianCalendar.YearInfoStraddlesNewYear | server/ethiopian-calendar.ts:47-87 | reads on either side of midnight before a New Year give year 2017 with the New Year of 2026, which is not the New Year of year 2017 + 8 |
| Fiscal.FiscalYear | shared/fiscal.ts:38-49 | the Gregorian year from its New Year on, one less before it; always the Ethiopian year plus 7 |
| Fiscal.FiscalYearBounds | shared/fiscal.ts:56-67 | starts at the New Year of `fy`; ends on a valid instant whose next millisecond is the New Year of `fy + 1` |
| Fiscal.FiscalYearWithinBounds | shared/fiscal.ts:38-67 | every date lies within the bounds of its own fiscal year |
| Fiscal.FiscalYearsAdjacent | shared/fiscal.ts:56-67 | the end of year `fy` is the last instant before year `fy + 1` starts: no gap, no overlap |
| Fiscal.FiscalQuarterRange | shared/fiscal.ts:75-98 | an error exactly for quarters outside 1..4; otherwise the start is `3(q-1)` months after the New Year and the end is the last instant before three months after the start |
| Fiscal.FirstQuarterStartsWithYear | shared/fiscal.ts:85-89 | quarter 1 starts at the fiscal-year start |
| Fiscal.QuartersAdjacent | shared/fiscal.ts:88-95 | the instant after quarter `q` ends is the start of quarter `q + 1` |
| Fiscal.LabelFiscalQuarter | shared/fiscal.ts:106-112 | full labels start with "FY ", short labels with "Q" |
| Fiscal.LabelFiscalQuarterInjective | shared/fiscal.ts:106-112 | for quarters 1..4, equal labels of the same format name the same quarter of the same year |
| Fiscal.QuarterForDate | shared/fiscal.ts:119-133 | the date's fiscal year and a quarter in 1..4 |
| Fiscal.QuarterForDateMonths | shared/fiscal.ts:124-132 | the month count is in 0..12; it is 12 only in the September days before the next New Year, which is the only case the clamp changes |
| Fiscal.QuarterForDateDisagreesWithRange | shared/fiscal.ts:124-129 | 5 December 2024 lies inside quarter 1 of fiscal 2024 by its range, yet is given quarter 2 |
| Fiscal.QuarterForDateByRange | shared/fiscal.ts:75-133 | the date's fiscal year and the quarter whose range contains the date: its start is not after the date, and the date is not after its end (for quarter 4, the end of the fiscal year) |
| WorkTimer.SortedEvents | server/work-timer-utils.ts:31-33 | a permutation of the events in non-decreasing timestamp order, in which events with equal timestamps keep their recorded order |
| WorkTimer.Step | server/work-timer-utils.ts:38-51 | a pause opens only when none is open; a resume closes the open pause and adds its length; a resume with nothing open and any other event change nothing |
| WorkTimer.CalculateElapsedTime | server/work-timer-utils.ts:11-83 | without a start: 0 ms, "Not started", not paused; with a start, the active time is the time from start to completion (or now) less the paused time, floored at 0, and the display text is that time formatted; paused iff a pause is still open or the status is awaiting_parts or waiting_purchase; a reason only for those two statuses, with their texts |
| WorkTimer.ReplayBounded | server/work-timer-utils.ts:38-51 | over events sorted within a window, the paused time never exceeds the time elapsed, and an open pause began inside the window |
| WorkTimer.ElapsedIsExact | server/work-timer-utils.ts:27-61 | with every event between start and end, the paused time is between 0 and the elapsed time, so the active time is exactly elapsed minus paused and the clamp never acts |
| WorkTimer.FormatElapsedTimeRoundTrip | server/work-timer-utils.ts:85-97 | reading the display text back ("Xm", "Xh" or "Xh Ym") gives the milliseconds floored to whole minutes |
| WorkTimer.ReadDuration | server/work-timer-utils.ts:90-96 | each of the three display forms reads back as hours times 60 plus minutes |
| SqlLiteral.DoubleQuotesIsEscape | server/export-postgresql-data.ts:64 | replacing every quote by two quotes escapes each character for a reader without backslash escapes |
| SqlLiteral.DoubleBothIsEscape | server/export-to-mysql.ts:85 | doubling quotes and then backslashes escapes each character for a reader with backslash escapes: the first replacement adds no backslash for the second to double |
| SqlLiteral.EscapeRoundTrip | server/export-to-mysql.ts:85 | an escaped value followed by the closing quote reads back as exactly that value, and reading stops right after the quote |
| SqlLiteral.EscapeInjective | server/export-postgresql-data.ts:64 | two values with the same escaped text are equal |
| SqlLiteral.EscapeWithoutBackslash | server/export-to-mysql.ts:85-97 | without backslashes in the value, the two escaping styles agree |
| SqlLiteral.EscapeIdentity | server/export-postgresql-data.ts:64 | text without quotes (and, for a backslash-escaping reader, without backslashes) is written unchanged |
| SqlLiteral.InsertAligned | server/export-to-mysql.ts:76-107 | an INSERT has as many values as columns, and the i-th value is the literal of the i-th column's value |
| SqlLiteral.QuoteDoubled | server/export-postgresql-data.ts:64 | doubling only the quotes inside the quote pair is the literal a reader without backslash escapes expects |
| SqlLiteral.QuotedRoundTrip | server/export-to-mysql.ts:85 | a quoted literal reads back as its value, for either reader, whatever follows it short of a quote that would extend it |
| SqlLiteral.Inserts | server/export-to-mysql.ts:75-108 | one INSERT per row, in row order |
| SqlLiteral.TableStatements | server/export-to-mysql.ts:67-110 | an empty table contributes nothing; otherwise the comment, the DELETE, one INSERT per row in order, then a blank line |
| SqlLiteral.Sections | server/export-to-mysql.ts:62-113 | one section per table, in table order, each the dialect's statements for that table joined |
| SqlLiteral.SectionsAppend | server/export-to-mysql.ts:62 | the sections of two table lists put together are the sections of the joined list |
| SqlLiteral.SkipsEmptyTable | server/export-to-mysql.ts:67-70 | a table for which nothing is written leaves the joined sections unchanged wherever it stands in the list |
| ExportMySql.Encode | server/export-to-mysql.ts:77-105 | null as NULL, booleans as 1 and 0, numbers as rendered; strings give literals that a MySQL reader reads back unchanged; JSON values take the corrected encoding, which reads back unchanged and is the exporter's own literal whenever the JSON text has no backslash |
| ExportMySql.JsonEncodingsAgree | server/export-to-mysql.ts:96-102 | for JSON text without a backslash the corrected literal and the exporter's own are the same |
| ExportMySql.EncodeDateShape | server/export-to-mysql.ts:92-94 | an ISO timestamp keeps its first 19 characters, with a space in place of the `T` |
| ExportMySql.StringRoundTrip | server/export-to-mysql.ts:84-86 | a string literal reads back as the string whatever follows it, short of a quote that would extend it |
| ExportMySql.EncodeStringInjective | server/export-to-mysql.ts:84-86 | distinct strings get distinct literals |
| ExportMySql.EncodeJsonAsWritten | server/export-to-mysql.ts:96-102 | a JSON text is quoted with its quotes doubled and its backslashes left alone |
| ExportMySql.JsonAsWrittenLosesBackslash | server/export-to-mysql.ts:96-102 | the JSON text `["\\"]` is read back by MySQL as `["\"]`, which differs from it |
| ExportMySql.JsonAsWrittenWithoutBackslash | server/export-to-mysql.ts:96-102 | JSON texts without a backslash do survive the encoding as written |
| ExportMySql.EncodeJson | server/export-to-mysql.ts:96-102 | the corrected JSON literal reads back as exactly the JSON text |
| ExportMySql.Export | server/export-to-mysql.ts:18-118 | the script starts with the header that switches foreign-key checks off, ends by switching them on, and holds between the two exactly the tables' sections in order |
| ExportMySql.ExportSkipsEmptyTable | server/export-to-mysql.ts:67-70 | removing a table without rows does not change the script |
| ExportPostgres.Encode | server/export-postgresql-data.ts:56-84 | null as NULL, booleans as TRUE and FALSE, timestamps as quoted ISO text, numbers as rendered; strings and JSON give literals a standard reader reads back unchanged |
| ExportPostgres.EncodeText | server/export-postgresql-data.ts:63-65 | a string or JSON text with its quotes doubled reads back unchanged through a standard reader |
| ExportPostgres.Export | server/export-postgresql-data.ts:18-95 | the header, followed by exactly the tables' sections in order |
| ExportPostgres.ExportSkipsEmptyTable | server/export-postgresql-data.ts:46-49 | removing a table without rows does not change the script |
| ExportSqlServer.Encode | server/export-to-sqlserver.ts:55-86 | null as NULL, booleans as 1 and 0, timestamps as quoted ISO text, numbers as rendered; strings and JSON give `N'…'` literals read back unchanged by a reader that gives backslashes no meaning |
| ExportSqlServer.StringRoundTrip | server/export-to-sqlserver.ts:62-65 | an `N'…'` literal reads back as the string whatever follows it, short of a quote, by a reader that gives backslashes no meaning |
| ExportSqlServer.DateRoundTrip | server/export-to-sqlserver.ts:71-73 | a timestamp's quoted ISO text reads back unchanged |
| ExportSqlServer.Statements | server/export-to-sqlserver.ts:45-91 | an empty table contributes nothing; otherwise the comment, the DELETE with its GO, one INSERT per row, then GO |
| ExportSqlServer.Export | server/export-to-sqlserver.ts:18-97 | the header selecting the database, followed by exactly the tables' sections in order |
| ExportSqlServer.ExportSkipsEmptyTable | server/export-to-sqlserver.ts:45-48 | removing a table without rows does not change the script |
| Spreadsheet.CleanText | extract_all_equipment.py:17-22 | a missing cell gives ""; every result has no leading or trailing whitespace; an already stripped string comes back unchanged |
| Spreadsheet.FirstMissingColumn | extract_all_equipment.py:9-22 | nothing exactly when every label read is a column; otherwise the first label read that is not a column, every earlier label being one |
| ExtractAllEquipment.CanonicalType | extract_all_equipment.py:14-16 | the canonical type is always "WHEEL LOADER" or "DOZER" |
| ExtractAllEquipment.AcceptedTypeCanonical | extract_all_equipment.py:8-16 | for every spelling the filter accepts, the type becomes "WHEEL LOADER" exactly when the stripped spelling is not "DOZER" |
| ExtractAllEquipment.KeptTypeCanonical | extract_all_equipment.py:9-16 | a kept row is a wheel loader exactly when its stripped type is one of the two wheel-loader spellings |
| ExtractAllEquipment.NormalizeWellFormed | extract_all_equipment.py:14-26 | a record that passes the make/model gate has a canonical type, non-empty make and model, and no field with outer whitespace |
| ExtractAllEquipment.Extract | extract_all_equipment.py:8-26 | every emitted record is well formed (canonical type, non-empty make and model, stripped fields), and there are at most as many records as type-matching rows |
| ExtractAllEquipment.ExtractMembers | extract_all_equipment.py:8-26 | with the columns present, the script succeeds exactly when some row's type cell is a string, and then a record is emitted exactly when it passes the make/model gate and is the normalised form of some row that passes the type filter |
| ExtractAllEquipment.ExtractFails | extract_all_equipment.py:9-22 | the script fails exactly when the type column is absent, or no row's type cell is a string (the `.str` accessor raises), or a record column is absent while some row passes the filter; a missing column is named, and the accessor error arises exactly when the type column is present and holds no string |
| ExtractAllEquipment.ExtractAppend | extract_all_equipment.py:12-26 | output order follows input order: when two sheets each succeed, their rows in sequence succeed and give the two outputs in sequence |
| ExtractEquipment.Optional | extract_equipment.py:21-25 | a column the sheet lacks reads as ""; every value is stripped |
| ExtractEquipment.Extract | extract_equipment.py:8-27 | exactly one record per type-matching row, in order, each built from that row |
| ExtractEquipment.ExtractFails | extract_equipment.py:9-20 | the script fails exactly when the type column is absent, or make or model is absent while some row passes the filter |
| ExtractEquipment.KeptTypeStripped | extract_equipment.py:8-18 | the type is the stripped raw spelling, so it is "DOZER", "WHEEL LOADER" or "Wheel loader", never canonicalised |
| ExtractEquipment.AbsentColumnEmpty | extract_equipment.py:21-25 | a plate or location column the sheet lacks is "" in every record |
| ExtractEquipment.KeepsIncompleteRows | extract_equipment.py:12-27 | a kept row with an empty make still yields a record, with make "" |
| ExtractEquipment.WideLoaderOnlyCanonical | extract_equipment.py:8-9 | "WHEEL   LOADER" passes only the canonicalising script's filter |
| ExtractEquipment.MixedCaseLoaderOnlyHere | extract_equipment.py:8-9 | "Wheel loader" passes only this script's filter |
| ExcelUtils.MissingHeaders | server/excel-utils.ts:82-84 | exactly the required headers the first row lacks, none added |
| ExcelUtils.MapRow | server/excel-utils.ts:108-112 | the mapped row has no repeated field |
| ExcelUtils.MapRowFields | server/excel-utils.ts:108-112 | a mapped field holds the row's value under the last header mapped to it, and a field the mapping never names is absent |
| ExcelUtils.IssueErrorsAt | server/excel-utils.ts:124-130 | each validator issue becomes the error at the same position, numbered `index + 2`, with the path joined by dots and the issue's message |
| ExcelUtils.RowErrorsShape | server/excel-utils.ts:120-137 | a row's errors all carry its number; a valid row has none, a failed one has one per issue, a row that threw has exactly one |
| ExcelUtils.ValidDataMembers | server/excel-utils.ts:120-121 | a value is collected iff some row validated to it |
| ExcelUtils.ValidDataAppend | server/excel-utils.ts:105-121 | values are collected row by row, in row order |
| ExcelUtils.ErrorsAppend | server/excel-utils.ts:105-138 | errors are collected row by row, with later rows numbered after earlier ones |
| ExcelUtils.ErrorRowsInRange | server/excel-utils.ts:126-134 | every error's row number names a data row: between 2 and the row count plus 1 |
| ExcelUtils.ErrorsOrdered | server/excel-utils.ts:105-138 | error row numbers never decrease along the error list |
| ExcelUtils.ValidateAndTransform | server/excel-utils.ts:70-150 | total is the input length; success iff no errors; valid counts the data and invalid the error entries; the data are absent exactly when non-empty input lacks a required header, and then the single error is at row 0; otherwise every error names a data row |
| ExcelUtils.ValidateEmpty | server/excel-utils.ts:80-149 | empty input skips the header check and succeeds with no data and all counts 0 |
| ExcelUtils.ValidateMissingHeaders | server/excel-utils.ts:86-100 | a failed header check fails, counts every row as invalid, and its error lists the missing headers joined by ", " |
| ExcelUtils.ValidateData | server/excel-utils.ts:105-121 | with the headers in place, a value is in the data iff some row maps and validates to it |
| ExcelUtils.ValidateErrorsOrdered | server/excel-utils.ts:105-138 | the errors are listed in row order |
| ExcelUtils.ValidateAppendData | server/excel-utils.ts:105-121 | splitting the data rows does not change the collected data: `a + b` gives the values of `a` then those of `b` |
| ExcelUtils.InvalidCountsIssues | server/excel-utils.ts:124-147 | one row with two issues counts as two invalid entries, so the invalid count can exceed the failed rows |
| ExcelUtils.ConsistentMapping | server/excel-utils.ts:108-112 | for a consistent template each header's value lands in its own field and no other field appears |
| ExcelUtils.EmployeeTemplateConsistent | server/excel-utils.ts:153-180 | the mapping lists the headers in order, fields are distinct, required headers are headers, sample rows have one cell per header |
| ExcelUtils.SparePartsTemplateConsistent | server/excel-utils.ts:183-208 | the same consistency for the spare-parts template |
| ExcelUtils.EquipmentTemplateConsistent | server/excel-utils.ts:211-244 | the same consistency for the equipment template |
| TruckLines.Field | import-dump-trucks.ts:23-30 | a field within the line is that part of it trimmed, so it has no outer whitespace; a field past the end of the line is "" |
| TruckLines.NullIfEmpty | import-dump-trucks.ts:51-53 | null exactly for the empty string, the string itself otherwise |
| TruckLines.RecordsMembers | import-dump-trucks.ts:47-56 | a record is gathered exactly when some line parsed to it |
| TruckLines.RecordsAppend | import-dump-trucks.ts:16-57 | records are gathered line by line, in line order |
| TruckLines.ExcludedCountIsFilter | import-dump-trucks.ts:36-40 | the exclusion count is the number of lines an independent test picks out, whenever that test agrees with the per-line outcome |
| ImportDumpTrucks.SplitRuns | import-dump-trucks.ts:20 | the split always has at least one piece, and no piece holds two whitespace characters in a row |
| ImportDumpTrucks.SplitRunsJoin | import-dump-trucks.ts:20 | fields that are non-empty, stripped and free of whitespace runs, joined by two or more whitespace characters, split back into exactly those fields |
| ImportDumpTrucks.Remarks | import-dump-trucks.ts:55 | starts with the location; equals it exactly when the remark is empty; otherwise ends with " - " and the remark |
| ImportDumpTrucks.Classify | import-dump-trucks.ts:17-56 | every record is a dump truck with null serial, non-empty make, model and asset number not among the two excluded ones, and null instead of empty plate or new asset number; an excluded line carries an excluded asset number |
| ImportDumpTrucks.ClassifyParsed | import-dump-trucks.ts:17-56 | a line is excluded iff it passes the filters and is a dump truck with an excluded asset number; it yields a record iff it passes the filters and is a dump truck with make, model and a non-excluded asset number; the record's fields are the line's fields 2, 3, 5, 6, 7, 12 and 14 |
| ImportDumpTrucks.ShortOrSkippedLines | import-dump-trucks.ts:17-21 | blank lines, mixer-truck lines and lines of fewer than ten fields yield nothing |
| ImportDumpTrucks.ImportLines | import-dump-trucks.ts:11-57 | every record in the import is well formed |
| ImportDumpTrucks.ExcludedCounted | import-dump-trucks.ts:14-40 | the exclusion count is the number of data lines carrying an excluded dump truck |
| ImportDumpTrucks.HeaderLinesIgnored | import-dump-trucks.ts:11 | whatever the two header lines hold, the result is that of the lines after them |
| ImportDumpTrucks.ImportAppend | import-dump-trucks.ts:16-57 | the records of a file are those of its first lines followed by those of the rest |
| ImportDumpTrucks.Batches | import-dump-trucks.ts:63-67 | every batch holds 1 to 50 records, and every batch but the last holds exactly 50 |
| ImportDumpTrucks.BatchesCover | import-dump-trucks.ts:63-67 | the batches, concatenated, are the records exactly once and in order; batch k is the slice starting at 50k |
| ImportTrucksWithLocations.Classify | import-trucks-with-locations.ts:20-62 | every record is a dump truck with make and a non-excluded asset number, and null instead of every empty optional field; an excluded line carries an excluded asset number |
| ImportTrucksWithLocations.ClassifyCases | import-trucks-with-locations.ts:20-62 | a line is excluded iff it passes the filters and is a dump truck with an excluded asset number; it yields a record iff it also has make and asset number; model may be empty; the location is field 13 |
| ImportTrucksWithLocations.LocationMap | import-trucks-with-locations.ts:14-51 | the location map has no repeated asset number |
| ImportTrucksWithLocations.LocationMapLast | import-trucks-with-locations.ts:51 | each kept asset number maps to the location of its last line, and no other asset number appears |
| ImportTrucksWithLocations.LocationNames | import-trucks-with-locations.ts:69 | the unique location names: no duplicates, no empty name, and exactly the non-empty values of the map |
| ImportTrucksWithLocations.Entries | import-trucks-with-locations.ts:12-63 | every kept entry's truck is well formed |
| ImportTrucksWithLocations.ImportLines | import-trucks-with-locations.ts:12-69 | every record is well formed, and the location names have no duplicates and no empty name |
| ImportTrucksWithLocations.ExcludedNeverMapped | import-trucks-with-locations.ts:42-46 | excluded asset numbers never reach the records or the location map |
| ImportTrucksWithLocations.DuplicateAssetKept | import-trucks-with-locations.ts:51-62 | two lines with one asset number yield two records but one map entry, holding the later location |
| ImportTrucksWithLocations.ExcludedCounted | import-trucks-with-locations.ts:16-46 | the exclusion count is the number of data lines carrying an excluded dump truck |
| ExtractParts.MatchAt | scripts/extract-parts.js:24 | a match starting at `p` spans at least six characters and sits between word boundaries |
| ExtractParts.MatchIsPartNumber | scripts/extract-parts.js:24 | every match is 1 to 3 digits, an optional upper-case letter, "-", then 4 to 6 digits |
| ExtractParts.PartNumberMatches | scripts/extract-parts.js:24 | conversely, a part number standing alone is matched whole |
| ExtractParts.MatchesOrdered | scripts/extract-parts.js:58 | the matches `matchAll` reports lie inside the line, left to right, each ending before the next begins |
| ExtractParts.MatchesMatch | scripts/extract-parts.js:58 | the scan reports exactly the pattern's matches: each reported pair is a match at that position, and every position where the pattern matches starts or lies inside a reported match |
| ExtractParts.MatchesStep | scripts/extract-parts.js:58 | a match at the search position is reported and the search resumes at its end; otherwise the search moves on one character |
| ExtractParts.PartNumbers | scripts/extract-parts.js:58-61 | one number per reported match, in order, each the line's text over that match, and each a part number |
| ExtractParts.RemoveMatchesCutOut | scripts/extract-parts.js:64 | `replace` with the global pattern gives the line with exactly the reported match spans cut out, the gaps between them kept in order |
| ExtractParts.RemoveMatchesLength | scripts/extract-parts.js:64 | each character is either kept or inside exactly one reported match |
| ExtractParts.RemoveNoMatches | scripts/extract-parts.js:64 | a line with no match is kept whole and reports no match |
| ExtractParts.StripNoiseAt | scripts/extract-parts.js:67 | the stripped text is a middle slice of its input with only dots, dashes and whitespace around it, and has none of those at either end |
| ExtractParts.NoiseAroundUnique | scripts/extract-parts.js:67 | there is only one such middle slice without outer noise, so the two anchored `replace` calls have a single possible result |
| ExtractParts.CollapseSpace | scripts/extract-parts.js:68 | the non-whitespace characters are kept in order, a leading or trailing non-space is kept, a leading whitespace run becomes one space, and empty stays empty |
| ExtractParts.CollapseSpaceSingle | scripts/extract-parts.js:68 | after collapsing, the only whitespace is single spaces |
| ExtractParts.CollapseSpaceNoSpace | scripts/extract-parts.js:68 | text without whitespace is left as it is |
| ExtractParts.CollapseSpaceJoin | scripts/extract-parts.js:68 | a whitespace run of any length between two pieces becomes exactly one space between the collapsed pieces |
| ExtractParts.Describe | scripts/extract-parts.js:64-68 | a description has no outer dot, dash or whitespace, and no whitespace but single spaces |
| ExtractParts.FirstSection | scripts/extract-parts.js:50-55 | the index of the first listed section name the line contains, or none exactly when it contains none |
| ExtractParts.UpdateSection | scripts/extract-parts.js:50-55 | the section becomes the first listed name the line contains; with none contained it stays as it was |
| ExtractParts.SectionAfter | scripts/extract-parts.js:27-55 | the section in effect is always "General" or a listed name |
| ExtractParts.LineParts | scripts/extract-parts.js:60-77 | one part per number on the line, in order, all sharing the line's description, section and line number; a part belongs to them exactly when it carries one of the numbers and that description, section and line number |
| ExtractParts.LineOutput | scripts/extract-parts.js:58-77 | with an accepted description, one part per number on the line, in the line's order; with a rejected one, nothing; every part has a part number, an accepted clean description, the current section and the given line number |
| ExtractParts.LineOutputMembers | scripts/extract-parts.js:58-77 | a line yields a part exactly when the description is accepted, the part's number is among the line's numbers, and it carries that description, the current section and the line number |
| ExtractParts.ScanLines | scripts/extract-parts.js:46-79 | every part's line number lies within the scanned lines, and its category is "General" or a listed section |
| ExtractParts.ScanLinesIsPerLine | scripts/extract-parts.js:46-79 | the loop carrying the section from line to line gives the same parts as taking each line on its own with the section in effect on it |
| ExtractParts.PerLineMembers | scripts/extract-parts.js:46-79 | a part is in the output of lines `k..` exactly when its line number is one of those lines and that line yields it with the section in effect after it |
| ExtractParts.ScanLinesOrdered | scripts/extract-parts.js:46-79 | parts come in line order |
| ExtractParts.TrimmedLines | scripts/extract-parts.js:21-47 | one trimmed line per line of the text |
| ExtractParts.AllParts | scripts/extract-parts.js:46-79 | every recorded part is good: a part number, an accepted clean description, a known section |
| ExtractParts.ScanLinesMembers | scripts/extract-parts.js:46-79 | for any per-line output that stamps its parts with the section and line it is given (LineOutput in the script), the loop over the lines records a part exactly when its 1-based line is one of the lines and that line, with the section in effect after it (so a heading line's own parts get the new section), yields it; with LineOutputMembers this says which parts AllParts records |
| ExtractParts.Extract | scripts/extract-parts.js:46-90 | every extracted part is good, and no two share a part number |
| ExtractParts.ExtractKeepsFirst | scripts/extract-parts.js:82-90 | the first occurrence of each part number survives de-duplication |
| ExtractParts.ExtractSections | scripts/extract-parts.js:46-75 | every part's line number is 1-based within the text, and its category is the section in effect on that line |
| Lists.DedupByDistinct | scripts/extract-parts.js:82-90 | after de-duplication no two elements share a key |
| Lists.DedupByKeepsFirst | scripts/extract-parts.js:82-90 | an element whose key appears nowhere before it is kept |
| Lists.DedupBy | scripts/extract-parts.js:82-90 | the kept elements come from the input, none with a key already seen |
| Lists.DedupByCovers | scripts/extract-parts.js:82-90 | every key of the input that was not already seen is represented in the output |
| Lists.DedupByAppend | scripts/extract-parts.js:85-90 | de-duplicating `a + b` keeps `a`'s survivors, then `b`'s elements whose keys `a` did not use |
| ParseEquipmentDescription.SerialToken | server/parse-equipment-description.ts:46-49 | the serial is a non-empty run of letters and digits |
| ParseEquipmentDescription.PlateToken | server/parse-equipment-description.ts:52-54 | the "P/N" plate is a non-empty run of word characters and dashes |
| ParseEquipmentDescription.FallbackToken | server/parse-equipment-description.ts:60-64 | the fallback plate starts with a digit, contains a dash and ends with a letter or digit |
| ParseEquipmentDescription.LabelIndexOf | server/parse-equipment-description.ts:56-72 | for the first label match, `indexOf` of the matched text finds the match itself, because an earlier copy would be an earlier match |
| ParseEquipmentDescription.LabelNamesAreAtMatch | server/parse-equipment-description.ts:56-72 | for both "S/N" and "P/N", the text `indexOf` finds is at the first match |
| ParseEquipmentDescription.OrUnknown | server/parse-equipment-description.ts:57-81 | never empty, and a non-empty name is kept |
| ParseEquipmentDescription.FallbackNameAsWritten | server/parse-equipment-description.ts:66-67 | the name cut at `indexOf` of the fallback match is the text before some position at or before the match |
| ParseEquipmentDescription.FallbackNameAgrees | server/parse-equipment-description.ts:66-67 | when the matched text occurs nowhere earlier, cutting at `indexOf` and cutting at the match agree |
| ParseEquipmentDescription.ParseTrimmed | server/parse-equipment-description.ts:40-85 | with the corrected fallback cut: the name is never empty and the description is the trimmed text; the serial comes from the first "S/N" match or is ""; with "P/N" the plate is its token and the name the text before it; otherwise the first fallback match gives the plate, and the name is the text before that match; with neither the plate is "" and the name is the text before "S/N", else the whole text |
| ParseEquipmentDescription.Parse | server/parse-equipment-description.ts:30-40 | a missing or empty input gives "Unknown" with empty fields; every name is non-empty; otherwise the description is the trimmed input and the fields are those of the corrected fallback cut |
| ParseEquipmentDescription.FirstMatchesAreFirst | server/parse-equipment-description.ts:46-61 | no match of any of the three patterns lies before the one the parser uses |
| ParseEquipmentDescription.NoSlashNoLabel | server/parse-equipment-description.ts:46-52 | text without a "/" has neither label |
| ParseEquipmentExamples.DocExampleHighBed | server/parse-equipment-description.ts:17-18 | "High Bed P/N 3-84078 S/N LZZ5CLVBGW147496" gives name "High Bed", plate "3-84078", serial "LZZ5CLVBGW147496" |
| ParseEquipmentExamples.DocExamplePump | server/parse-equipment-description.ts:19-20 | "Pump 3-35809ET" gives name "Pump", plate "3-35809ET", no serial |
| ParseEquipmentExamples.LabelledDescription | server/parse-equipment-description.ts:46-57 | a name, "P/N", a plate word, "S/N" and a serial word parse into exactly those parts |
| ParseEquipmentExamples.UnlabelledDescription | server/parse-equipment-description.ts:59-67 | a digit-free name followed by a digits-dash-alphanumeric word parses into that name and that plate, with no serial |
| ParseEquipmentExamples.TrimmedInput | server/parse-equipment-description.ts:40 | any non-empty input reads as its trimmed text |
| ParseEquipmentExamples.FallbackIndexOfFindsEarlierText | server/parse-equipment-description.ts:66-67 | in "A12-3 12-3" the fallback matches "12-3" at 6, `indexOf` finds it at 1, and the name as written is "A" where the corrected reading gives "A12-3" |
| RequestParts.BlankLine | client/src/components/RequestPartsDialog.tsx:103-110 | a new line has its id and number, no part, no description, unit "pcs", quantity 1 and no remarks |
| RequestParts.Initial | client/src/components/RequestPartsDialog.tsx:43-52 | the form starts, and restarts after a submit, with exactly one blank line numbered 1 |
| RequestParts.AddLine | client/src/components/RequestPartsDialog.tsx:99-112 | adding keeps every line and appends one blank line numbered one past the count, so a numbered list stays numbered |
| RequestParts.Renumbered | client/src/components/RequestPartsDialog.tsx:125 | renumbering a line changes its number and nothing else |
| RequestParts.Renumber | client/src/components/RequestPartsDialog.tsx:125 | the lines keep their order and contents and are numbered 1, 2, … |
| RequestParts.RemoveLine | client/src/components/RequestPartsDialog.tsx:114-127 | the last remaining line cannot be removed; otherwise no line with the id is left and the rest are renumbered from 1 |
| RequestParts.RemoveKeepsOthers | client/src/components/RequestPartsDialog.tsx:123-125 | removal keeps every other line, in order, with only its number changed |
| RequestParts.RemoveUndoesAdd | client/src/components/RequestPartsDialog.tsx:99-127 | removing a line just added to a numbered list whose ids differ from it gives that list back |
| RequestParts.FilterAll | client/src/components/RequestPartsDialog.tsx:124 | a filter every line passes keeps the list as it is |
| RequestParts.ApplyEdit | client/src/components/RequestPartsDialog.tsx:129-131 | an edit of one field never changes the line's id, number or part |
| RequestParts.QuantityInput | client/src/components/RequestPartsDialog.tsx:291 | the typed quantity is never 0: an unreadable or zero input becomes 1, any other number is kept |
| RequestParts.MapLine | client/src/components/RequestPartsDialog.tsx:130-146 | the lines with the id are transformed and every other line is kept, in place |
| RequestParts.UpdateLine | client/src/components/RequestPartsDialog.tsx:129-131 | the edit reaches exactly the lines with the id, leaves the rest untouched and keeps the numbering |
| RequestParts.FindPart | client/src/components/RequestPartsDialog.tsx:134 | the part found is in the catalogue with the id, and none is found exactly when no part has it |
| RequestParts.PickedLine | client/src/components/RequestPartsDialog.tsx:139-144 | picking sets the part id, the description "name (number)", and the part's unit or "pcs"; quantity and remarks are kept |
| RequestParts.PartSelect | client/src/components/RequestPartsDialog.tsx:133-149 | an unknown part changes nothing; a known one fills in exactly the lines with the id; numbering is kept |
| RequestParts.NullIfBlank | client/src/components/RequestPartsDialog.tsx:179-187 | a missing or empty value is sent as null, any other as itself |
| RequestParts.ToRequestLine | client/src/components/RequestPartsDialog.tsx:181-189 | a sent line is "pending" and carries the form line's number, description, unit and quantity, with blank part id and remarks as null |
| RequestParts.Submit | client/src/components/RequestPartsDialog.tsx:151-193 | a blank description anywhere is reported first; with none, a quantity below 1 anywhere is reported; otherwise the request is "pending_foreman" for the work order, with a blank workshop as null and one line per form line in order |
| RequestParts.SubmittedLines | client/src/components/RequestPartsDialog.tsx:151-190 | every line of a sent request is pending, has a non-blank description and a quantity of at least 1 |
| RequestParts.InitialNotSubmittable | client/src/components/RequestPartsDialog.tsx:151-163 | the untouched form is refused for its empty description |
| StoreManager.Visible | client/src/pages/StoreManagerDashboard.tsx:200-213 | a requisition is listed exactly when present, matching the search and belonging to the tab; the list is no longer than the input |
| StoreManager.TabsDisjoint | client/src/pages/StoreManagerDashboard.tsx:205-208 | no requisition appears under two of the pending, approved and rejected tabs |
| StoreManager.AllTabShowsEverything | client/src/pages/StoreManagerDashboard.tsx:205-210 | the "all" tab shows every requisition any tab shows, and the same ones as the purchase-orders tab |
| StoreManager.TabOfStatus | client/src/pages/StoreManagerDashboard.tsx:205-208 | with an empty search a requisition is under pending exactly when waiting for the store, under approved exactly when approved or waiting for purchase, under rejected exactly when rejected |
| StoreManager.DefaultDecision | client/src/pages/StoreManagerDashboard.tsx:222-227 | a line's default decision approves its full requested quantity with empty remarks |
| StoreManager.InitialDecisions | client/src/pages/StoreManagerDashboard.tsx:220-228 | the dialog starts with at most one decision per line id, each an approval carrying its own line id and empty remarks |
| StoreManager.LineIds | client/src/pages/StoreManagerDashboard.tsx:221-222 | the ids of the lines, in order |
| StoreManager.InitialDecisionsKeys | client/src/pages/StoreManagerDashboard.tsx:220-228 | a line id has a decision exactly when some line carries it |
| StoreManager.InitialDecisionsLast | client/src/pages/StoreManagerDashboard.tsx:221-228 | a line whose id no later line repeats gets the default decision, so a repeated id keeps its last line's decision |
| StoreManager.OpenApproval | client/src/pages/StoreManagerDashboard.tsx:215-230 | opening selects the requisition and starts from the default decisions, or from none when it has no lines |
| StoreManager.Merge | client/src/pages/StoreManagerDashboard.tsx:235 | each field of the merged decision is the update's when supplied, else the previous decision's, and the line id is the one given |
| StoreManager.UpdateLineDecision | client/src/pages/StoreManagerDashboard.tsx:232-237 | the edited line's decision is merged with the update, every other line's is unchanged, no id is entered twice, and an existing decision is edited in place |
| StoreManager.EmptyUpdateKeepsDecision | client/src/pages/StoreManagerDashboard.tsx:232-237 | an update that sets nothing leaves an opened line's decision as it was |
| StoreManager.ProcessLines | client/src/pages/StoreManagerDashboard.tsx:239-259 | nothing happens without a selected requisition, no decision at all is refused, and otherwise every decision is sent in order for the selected requisition with the general remarks |
| StoreManager.OpenThenProcessApprovesAll | client/src/pages/StoreManagerDashboard.tsx:215-259 | opening a requisition with lines and processing at once sends an approval for every line id of that requisition and nothing else |
| StoreManager.NoLinesNoProcess | client/src/pages/StoreManagerDashboard.tsx:221-252 | a requisition without lines cannot be processed |
| StoreManager.StatusColor | client/src/pages/StoreManagerDashboard.tsx:261-276 | only "rejected" is destructive; exactly the pending, back-ordered and waiting-for-purchase statuses are secondary |
| StoreManager.BadgeMatchesTab | client/src/pages/StoreManagerDashboard.tsx:205-276 | pending-tab requisitions show a secondary badge, rejected-tab ones a destructive badge, approved-tab ones never a destructive one |
| EquipmentModels.MakeOr | client/src/hooks/useEquipmentModels.ts:31 | the make is never empty, and a given make is kept |
| EquipmentModels.Aggregate | client/src/hooks/useEquipmentModels.ts:21-36 | the model map has at most one entry per model, keyed by a non-empty model name, each carrying its own name and at least one unit |
| EquipmentModels.AddUnit | client/src/hooks/useEquipmentModels.ts:24-34 | a unit without a model changes nothing; otherwise a known model's count goes up by one, a new model is entered with the unit's make or "Unknown" and count one, and every other entry is unchanged |
| EquipmentModels.AggregateCounts | client/src/hooks/useEquipmentModels.ts:21-36 | a model has an entry exactly when some unit carries it, and its count is the number of such units |
| EquipmentModels.AggregateMake | client/src/hooks/useEquipmentModels.ts:25-33 | a model's entry takes the make of the first unit that carries it |
| EquipmentModels.AggregateAbsent | client/src/hooks/useEquipmentModels.ts:24 | a model no unit carries has no entry |
| Sorting.Insert | server/work-timer-utils.ts:31-33 | inserting into a sorted sequence keeps it sorted and adds exactly the one element |
| Sorting.Sort | server/work-timer-utils.ts:31-33 | the result is a permutation of the input sorted under the comparison |
| Sorting.SortStable | server/work-timer-utils.ts:31-33 | the sort is stable: for every element, the elements ranked alike with it come out in their input order |
| EquipmentModels.ByModelTotal | client/src/hooks/useEquipmentModels.ts:39-41 | ordering entries by model name is a total preorder when the name comparison is |
| EquipmentModels.Models | client/src/hooks/useEquipmentModels.ts:18-42 | no loaded equipment gives no models; otherwise the entries of the map, each exactly once, sorted by model name, with entries the comparison ranks alike in map order |
| EquipmentModels.ModelsDescribeUnits | client/src/hooks/useEquipmentModels.ts:18-42 | the list names each model some unit carries exactly once, never the empty model, and each entry counts that model's units |
| EquipmentModels.ModelsTakeFirstMake | client/src/hooks/useEquipmentModels.ts:25-39 | the listed entry of a model names the make of the first unit carrying it |
| EquipmentModels.ModelsDistinct | client/src/hooks/useEquipmentModels.ts:21-39 | any reordering of the map's entries has no model twice |
| EquipmentModels.CountsAddUp | client/src/hooks/useEquipmentModels.ts:23-36 | the counts add up to the number of units with a model |
| EquipmentModels.IdToModel | client/src/hooks/useEquipmentModels.ts:45-55 | the lookup has at most one entry per id, with non-empty id and model |
| EquipmentModels.AddId | client/src/hooks/useEquipmentModels.ts:49-53 | one unit's step keeps the lookup's ids distinct and its ids and models non-empty |
| EquipmentModels.IdToModelNone | client/src/hooks/useEquipmentModels.ts:49-53 | an id finds nothing exactly when no unit has it together with a model |
| EquipmentModels.IdToModelLast | client/src/hooks/useEquipmentModels.ts:49-53 | an id finds the model of the last unit with that id and a model |
| EquipmentModels.ModelByEquipmentId | client/src/hooks/useEquipmentModels.ts:46-60 | without loaded equipment nothing is found, and a found model is never empty |
| EquipmentModels.ModelByEquipmentIdSound | client/src/hooks/useEquipmentModels.ts:45-60 | an id finds a model exactly when some unit has that id and a model, and the model found is such a unit's |
| Paging.TotalPages | client/src/components/EmployeeSearchDialog.tsx:74 | the page count is the least number of 30-item pages that hold the list, and is 0 exactly for an empty list |
| Paging.PageItems | client/src/components/EmployeeSearchDialog.tsx:75-77 | a page holds at most 30 items, each the item at its position in the list; it is empty exactly when it starts past the end and full when the list reaches its end |
| Paging.PageNonEmpty | client/src/components/EmployeeSearchDialog.tsx:74-77 | a page shows something exactly when its number is below the page count |
| Paging.PagesAreChunks | client/src/components/EmployeeSearchDialog.tsx:74-77 | the pages in order are the list's batches of 30, as many as the page count, and together they give back the whole list |
| Paging.PageCount | client/src/components/EmployeeSearchDialog.tsx:74 | the number of batches of 30 equals the page count |
| Paging.Next | client/src/components/EmployeeSearchDialog.tsx:88-92 | the next button moves forward one page exactly when a later page exists, and otherwise stays |
| Paging.Previous | client/src/components/EmployeeSearchDialog.tsx:94-98 | the previous button moves back one page, and stays on the first page |
| Paging.LastPage | client/src/components/EmployeeSearchDialog.tsx:83 | the last page is below the page count and is the page count less one for a non-empty list |
| Paging.ClampInRange | client/src/components/EmployeeSearchDialog.tsx:79-86 | after the clamp a non-empty list's page is in range and shows something, and a page already in range is left alone |
| Paging.StepsStayInRange | client/src/components/EmployeeSearchDialog.tsx:88-98 | the page buttons keep an in-range page in range |
| Paging.PreviousUndoesNext | client/src/components/EmployeeSearchDialog.tsx:88-98 | whenever next moved, previous moves back to where it was |
| Picker.EmptyTermMatches | client/src/components/EmployeeSearchDialog.tsx:62-71 | an empty search term matches every employee |
| Picker.TermCaseInsensitive | client/src/components/EmployeeSearchDialog.tsx:66-69 | the search ignores the case of the term |
| Picker.Toggle | client/src/components/EmployeeSearchDialog.tsx:104-108 | a click selects an unselected employee and deselects a selected one, leaves everyone else as they were, and adds no duplicates |
| Picker.ToggleTwice | client/src/components/EmployeeSearchDialog.tsx:104-108 | two clicks on the same employee restore the selection as a set, and restore the list itself when the employee was not selected |
| Picker.RemoveAllAppend | client/src/components/EmployeeSearchDialog.tsx:106-107 | removing an id that was just appended to a list without it gives the list back |
| EmployeeSearch.Filtered | client/src/components/EmployeeSearchDialog.tsx:62-71 | an employee is listed exactly when present, not excluded and matching the search, and the list is no longer than the input |
| EmployeeSearch.Shown | client/src/components/EmployeeSearchDialog.tsx:74-77 | the page lists at most 30 employees, all listed by the filter |
| EmployeeSearch.Opened | client/src/components/EmployeeSearchDialog.tsx:42-51 | opening restores the parent's selection, clears the search and shows the first page |
| EmployeeSearch.SetTerm | client/src/components/EmployeeSearchDialog.tsx:53-56 | typing keeps the selection and returns to the first page exactly when the term changed |
| EmployeeSearch.Settle | client/src/components/EmployeeSearchDialog.tsx:79-86 | the page clamp touches neither the term nor the selection |
| EmployeeSearch.Click | client/src/components/EmployeeSearchDialog.tsx:100-110 | single mode makes the clicked employee the whole selection, multiple mode toggles it; term and page are kept |
| EmployeeSearch.NextPage | client/src/components/EmployeeSearchDialog.tsx:88-92 | the next button touches neither the term nor the selection |
| EmployeeSearch.PreviousPage | client/src/components/EmployeeSearchDialog.tsx:94-98 | the previous button touches neither the term nor the selection |
| EmployeeSearch.Cancel | client/src/components/EmployeeSearchDialog.tsx:118-124 | cancel does nothing while the parent is saving; otherwise it restores the parent's selection and clears the search, which returns to the first page |
| EmployeeSearch.Confirm | client/src/components/EmployeeSearchDialog.tsx:112-116 | the selection is handed over exactly when it is non-empty and the parent is not saving, and it is handed over unchanged |
| EmployeeSearch.StepKeepsInvariant | client/src/components/EmployeeSearchDialog.tsx:42-124 | from props with a duplicate-free selection (at most one in single mode), every event keeps the selection duplicate-free, single mode at most one employee, and the page one the buttons can show |
| EmployeeSearch.StepShowsSomething | client/src/components/EmployeeSearchDialog.tsx:79-86 | after every event a non-empty filtered list shows a non-empty page |
| EmployeeSearch.ClickTwice | client/src/components/EmployeeSearchDialog.tsx:104-108 | in multiple mode two clicks on one employee restore the selected set |
| SelectEmployees.Mode | client/src/pages/SelectEmployees.tsx:24 | a missing or empty mode parameter means foreman mode; any other value is used as given |
| SelectEmployees.ReturnTo | client/src/pages/SelectEmployees.tsx:25 | a missing or empty return parameter means "add"; any other value is used as given |
| SelectEmployees.InitialSelection | client/src/pages/SelectEmployees.tsx:29-33 | foreman mode starts from the draft's foreman when it has one, otherwise from nobody; other modes start from the draft's members, or nobody without a draft |
| SelectEmployees.Click | client/src/pages/SelectEmployees.tsx:80-88 | foreman mode replaces the selection with the clicked employee; other modes select an unselected employee, deselect a selected one and leave everyone else alone |
| SelectEmployees.Filtered | client/src/pages/SelectEmployees.tsx:45-52 | an employee is listed exactly when present and matching the search |
| SelectEmployees.ReturnPath | client/src/pages/SelectEmployees.tsx:98-113 | confirm and cancel go under the garage's workshops, to the new-workshop form for "add" and to an edit form otherwise |
| SelectEmployees.Confirm | client/src/pages/SelectEmployees.tsx:90-104 | confirm is possible exactly with a non-empty selection; foreman mode patches the first selected id, members mode the whole selection, any other mode nothing; the page returns to the return path |
| SelectEmployees.Step | client/src/pages/SelectEmployees.tsx:41-88 | typing changes only the term and clicking only the selection, as the click rule says |
| SelectEmployees.StepKeepsPageInRange | client/src/pages/SelectEmployees.tsx:55-78 | every event keeps the page one the buttons can show, and a non-empty list always shows someone |
| SelectEmployees.ForemanConfirmAfterClick | client/src/pages/SelectEmployees.tsx:80-93 | in foreman mode a click followed by confirm patches exactly the clicked employee as foreman |
| SelectEmployees.MembersRoundTrip | client/src/pages/SelectEmployees.tsx:29-95 | in members mode confirming without clicking patches the draft's own members back |
| WorkshopDraft.WorkshopPart | client/src/contexts/WorkshopDraftContext.tsx:30 | a missing or empty workshop id reads as "new"; any other id is kept |
| WorkshopDraft.StorageKey | client/src/contexts/WorkshopDraftContext.tsx:29-31 | the key starts with "workshop_draft_" followed by the garage id, an underscore and the workshop part |
| WorkshopDraft.StorageKeyInjective | client/src/contexts/WorkshopDraftContext.tsx:29-31 | for garage ids without an underscore, equal keys mean the same garage and the same workshop part |
| WorkshopDraft.NewWorkshopKey | client/src/contexts/WorkshopDraftContext.tsx:30 | a workshop whose id is "new" shares its key with a new-workshop draft |
| WorkshopDraft.Apply | client/src/contexts/WorkshopDraftContext.tsx:72 | each field is the update's value when the update has the key, `undefined` included for an optional field, and the draft's own otherwise |
| WorkshopDraft.Init | client/src/contexts/WorkshopDraftContext.tsx:50-65 | the key for this garage and workshop becomes current, the store is unchanged, and a draft is loaded exactly when a parseable entry is stored under the key, and then it is that entry |
| WorkshopDraft.SetDraft | client/src/contexts/WorkshopDraftContext.tsx:67-69 | the draft is replaced and nothing else changes |
| WorkshopDraft.WholePatchReplaces | client/src/pages/EditWorkshop.tsx:52-100 | spreading the whole form's values over a draft gives exactly those values, so a target the form leaves `undefined` clears the draft's |
| WorkshopDraft.Update | client/src/contexts/WorkshopDraftContext.tsx:71-73 | a missing draft stays missing; otherwise the supplied fields are overwritten; key and store are unchanged |
| WorkshopDraft.SetForemanId | client/src/contexts/WorkshopDraftContext.tsx:83-85 | only the foreman of an existing draft changes |
| WorkshopDraft.SetMemberIds | client/src/contexts/WorkshopDraftContext.tsx:87-89 | only the members of an existing draft change |
| WorkshopDraft.Clear | client/src/contexts/WorkshopDraftContext.tsx:75-81 | draft and key are dropped and the entry under the current key, if any, is removed from the store |
| WorkshopDraft.Persist | client/src/contexts/WorkshopDraftContext.tsx:39-48 | the effect never changes draft or key, does nothing without a key, and leaves every entry but the current key's alone |
| WorkshopDraft.StartSynced | client/src/contexts/WorkshopDraftContext.tsx:36-37 | the provider starts with the store in step with the (absent) draft |
| WorkshopDraft.StepKeepsSynced | client/src/contexts/WorkshopDraftContext.tsx:39-89 | every operation followed by the effect keeps the entry under the current key equal to the draft, or absent when there is none |
| WorkshopDraft.SavedDraftReloads | client/src/contexts/WorkshopDraftContext.tsx:40-65 | a draft set while a key is current is what initialising with that key loads back |
| WorkshopDraft.ClearedDraftGone | client/src/contexts/WorkshopDraftContext.tsx:50-81 | after clearing, initialising with the cleared key loads no draft |

## Left out

- Reading and writing files, workbooks, PDFs, JSON output, session storage I/O, database inserts and console logging: inputs are sequences of rows, lines or cells, and outputs are returned values.
- Whitespace is the ASCII set (space, tab, line feed, vertical tab, form feed, carriage return), and lower-casing is ASCII only. The Unicode whitespace of JavaScript's `trim` and Python's `strip`, and Unicode case mapping, are not modelled.
- pandas' rendering of non-string cells (numbers, NaN) is abstract: a cell is missing, a string, or an already rendered non-string value.
- `toISOString`, `JSON.stringify` and the rendering of numbers are not modelled; the exporters carry their text as given.
- Daylight-saving shifts and time zones: a local day always has 86 400 000 milliseconds.
- `localeCompare` is abstracted as a total preorder on strings supplied by the caller.
- Random ids (`nanoid`) are parameters of the requisition-form operations.
- The Zod schema of each import template is a function parameter that returns valid data, issues, or an exception.
- JSON web token verification and the employee lookup in `authenticateToken` are parameters; password hashing is not modelled.
- The database work that follows parsing in the two truck importers (garage lookup, inserts) is not modelled; the insert batching is.
- Toasts, dialogs opening and closing, navigation side effects and all rendering are not modelled, except the confirm-button enabling the picker operations depend on.
- WorkTimer.CalculateElapsedTime: the floating-point `elapsedHours` is not modelled; the milliseconds, the display text and the pause state are.
- EthiopianCalendar.EthiopianYearInfo: the floating-point `daysUntilNewYear` is not modelled, and with it the third clock read, which feeds only that count; the two reads that feed the year and the New Year are separate parameters.
- ParseEquipmentDescription.Parse: non-string inputs (which the source also maps to "Unknown") are not modelled; the input is an optional string. It uses the corrected fallback cut of ParseTrimmed.
- StoreManager.ProcessLines: the order of `Object.values` is modelled as the order in which line ids were first set, which is JavaScript's order for non-numeric keys; numeric-looking ids, which JavaScript orders first, are not modelled.
- StoreManager.Merge: the quantity approved arrives as an optional integer; the `parseInt(...) || 0` of the input field is not modelled.
- RequestParts.ApplyEdit: `updateLine` accepts any field of a line; only the four fields the form edits (description, unit, quantity, remarks) are modelled.
- WorkshopDraft.Persist: React reruns the effect when the draft's identity changes; the model compares values, so an update that yields an equal draft does not rewrite the entry, which leaves the stored entry the same either way.
- The numeric targets of a workshop draft are integers; fractional targets are not modelled.
- SelectEmployees.Confirm: the page calls a `patchDraft` that the draft store does not define, so in foreman or members mode the call throws a TypeError before `setLocation` runs and the page neither patches nor navigates; the model states what the page intends (the patch as output, then the return path) and applies the patch to no draft.
- EquipmentModels.Models: the sort is modelled by a stable insertion sort under the caller's comparison (stability proved as Sorting.SortStable); JavaScript's `sort` is also stable, but its concrete algorithm is not modelled.
- ExtractParts.AcceptedDescription: JavaScript's `length` counts UTF-16 code units while the model counts characters, so a description holding characters outside the Basic Multilingual Plane is measured shorter than the script measures it.
- ExtractAllEquipment.Extract: a cell is a string or not; pandas also refuses the `.str` accessor on an object column that holds no string but mixes other kinds of values in ways the cell model does not record, and accepts some all-missing columns of object kind, so the accessor error is modelled as "no type cell is a string".
- ExtractAllEquipment.ExtractAppend: the concatenation is stated for two sheets that each succeed; a sheet that fails alone can succeed joined to one that holds a string type cell.
- EmployeeSearch.Click: one event is one call of the selection handler. The row and the checkbox inside it both call the handler, so a checkbox click that also bubbles to the row would toggle twice and, by ClickTwice, change nothing; event propagation belongs to rendering and is not modelled.
- SelectEmployees.Click: the same holds for the row and checkbox of the selection page.
- WorkshopDraft.Apply: the required fields of a draft cannot be supplied as `undefined` (the draft has no place for it); only the optional targets and the workshop id can, and for those the patch distinguishes an absent key from an `undefined` value.
- ExportMySql.Encode: JSON values take the corrected encoding; the exporter's own, which leaves backslashes alone, is EncodeJsonAsWritten, and the two agree only for JSON text without a backslash.
- ExportSqlServer.Encode: SQL Server's reader drops a backslash directly followed by a line break, together with the break; the reader modelled gives backslashes no meaning, so a value holding a backslash before a line break is promised to read back although SQL Server would shorten it.
- ExportSqlServer.StringRoundTrip: states the round trip for the same reader, without SQL Server's backslash line continuation.
- ParseEquipmentDescription.ParseTrimmed: the name before a fallback plate is cut at the match, the corrected reading; the source cuts at `indexOf` of the matched text, modelled by FallbackNameAsWritten, and the two agree when the matched text occurs nowhere earlier (FallbackNameAgrees).
- Python's `str.strip()` also removes the separators U+001C to U+001F, which the shared whitespace predicate does not count; text holding them at its ends is stripped less than the Python scripts would.
- ExtractParts.Describe: the contract states the shape of a description; its relation to the line runs through the step lemmas (RemoveMatchesCutOut, StripNoiseAt, CollapseSpace) rather than one lemma about the composition.
- Fiscal.FiscalQuarterRange: quarter 4 need not end where the fiscal year ends when adjacent Gregorian years differ in leapness, and the model states no such equality; the unused `dayOffset` is left out.

## Findings

| source | as written | input that shows it | evidently intended | confidence | as-written member | corrected member |
|---|---|---|---|---|---|---|
| shared/fiscal.ts:124-129 | the quarter of a date is the whole-month difference from the fiscal start, divided by 3 | 5 December 2024: fiscal 2024 starts 12 September 2024, quarter 1 runs to the end of 11 December, yet the date is given quarter 2 | the quarter whose range contains the date | not executed; medium (the month-based shortcut may be deliberate) | Fiscal.QuarterForDateDisagreesWithRange | Fiscal.QuarterForDateByRange |
| server/export-to-mysql.ts:96-102 | JSON values have quotes doubled but backslashes not doubled, while MySQL's default reader treats backslash as an escape | the JSON text `["\\"]` is read back by MySQL as `["\"]`, which is no longer valid JSON | backslashes doubled as for strings, so that MySQL reads back the JSON text | not executed; high | ExportMySql.JsonAsWrittenLosesBackslash | ExportMySql.EncodeJson |
| server/parse-equipment-description.ts:66-67 | the name before the fallback plate is cut at `indexOf` of the matched text, not at the match | "A12-3 12-3": the fallback pattern matches "12-3" at position 6, but `indexOf("12-3")` is 1, so the name is "A" | the text before the matched plate, "A12-3" | not executed; high | ParseEquipmentExamples.FallbackIndexOfFindsEarlierText | ParseEquipmentDescription.ParseTrimmed |
