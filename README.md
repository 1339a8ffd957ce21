# QC Chapwai inspection checklists — a Dafny model

QC Chapwai is an ASP.NET application for quality-control inspection of film
bags. An inspector creates an inspection checklist for a production order.
The checklist receives a human-readable inspect code (plant, zone, `yyMMdd`
and a running number). The inspector then records rows of measurements
against the product's parameter catalogue (the `DocumentInspection` table).
The records can be read back, exported as CSV or laid out as an Excel sheet.

This project models the logic of that application over in-memory tables:

- `wrappers.dfy`: `Option`, `Result` and `Outcome`.
- `text.dfy`: the string machinery the source relies on:
  - ordinal string order (SQL `ORDER BY … DESC`);
  - `int.ToString("D4")` and `int.TryParse`;
  - C#'s unchecked 32-bit addition;
  - the rounding of a `decimal(18,2)` column to hundredths;
  - the error texts the controllers report;
  - `string.IsNullOrWhiteSpace`;
  - `Contains(…, OrdinalIgnoreCase)`.
- `models.dfy`: the entities (checklist, record, measurement, catalogue row, material master, request classes) and the computed properties of `Models/MaterialMaster.cs`.
- `inspect_code.dfy`: the inspect-code allocator (`InspectCodeService`).
- `catalogue.dfy`: the catalogue selection shared by several actions (`WHERE DocFg = … AND DocHide = 0 ORDER BY DocOrderSort`), and the full listing (`ORDER BY DocFg, DocFgItem, DocOrderSort`). Both orders are stable sorts.
- `records_view.dfy`: `GetInspectionRecordsAsync`. It joins records with measurements and folds the joined rows into one view per record through a dictionary.
- `checklist_service.dfy`: `ChecklistService` as a class over three tables:
  - checklist creation;
  - the batch save (`SaveInspectionDataAsync`);
  - reading back.
- `csv_export.dfy`: `ExportInspectionDataAsync`.
- `excel_layout.dfy`: the column and cell layout of `ExportChecklistToExcelAsync`.
- `production_order.dfy`: `GetAndValidateProductionOrderAsync`.
- `material_master_local.dfy`: `MaterialMasterLocalService` as a class over the MaterialMaster table.
- `checklist_controller.dfy` and `material_controller.dfy`: the decisions of `ChecklistController` and `MaterialController`.

How the model represents things:

- **Tables** are sequences in insertion order. Identity columns are counters on the owning class.
- **Strings** are `seq<char>`. **Decimals** are `real`.
- **`decimal(18,2)` columns** (`DocMin`, `DocMax` and `DocStd` of the catalogue; `NumericValue`, `MinValue`, `MaxValue` and `StandardValue` of a measurement) hold what is written to them rounded to hundredths, halves away from zero (`Text.Round2`). A request's limits are checked before that rounding, so finer limits can pass the check and be stored equal (`MaterialController.AcceptedLimitsCollapse`).
- **Reading the catalogue**: the material service's row mapper calls `GetString` without a NULL check on `DocCustomer`, `DocSo`, `DocSoItem`, `DocFg`, `DocFgItem`, `DocSize` and `DocTypeOfFilm`. A query whose result holds such a NULL fails with the null-value error (`Catalogue.ReadRows`). Each action that reads through it answers as its own code does: `Inspect` has no handler, `GetMaterialData` replies with the bare message, and `Index` and `AddInspectionParameter` report it with the error prefix.
- **The clock**: `DateTime.Now` is an explicit date parameter.
- **Parsers**: `TimeSpan.Parse` and `decimal.TryParse` are function parameters that return an optional value. Exception messages are a function parameter too.
- **Source tables**: the ERP lookup and the production-order source table are parameters.

Where the documented behaviour and the code disagree, the model follows the code:

- **Save atomicity.** The batch save is described as all-or-nothing. In the code every write opens its own connection, outside the transaction begun in `SaveInspectionDataAsync`. So a row whose time does not parse stops the save with the header update, the deletion and the earlier rows already stored. `ChecklistService.ChecklistDb.SaveInspectionData` states exactly that prefix.
- **Inspect-code prefix.** The documented example code `KBA2512220001` assumes a two-letter plant. The controller's default plant is `KB01`, so real codes look like `KB01A2512220001` (see `InspectCode.FirstCodeExample`). The plant is a parameter of the allocator.

## Model

| member | source | states |
|---|---|---|
| InspectCode.YyMMdd | Services/InspectCodeService.cs:23-24 | the date part of the prefix is six digits |
| InspectCode.InspectPrefix | Services/InspectCodeService.cs:22-25 | the prefix is plant, then zone, then the six-digit date |
| InspectCode.GreatestWithPrefix | Services/InspectCodeService.cs:28-36 | the code the query returns is a stored code that starts with the prefix |
| InspectCode.GreatestWithPrefixIsGreatest | Services/InspectCodeService.cs:28-36 | no code is returned exactly when no stored code has the prefix; otherwise every stored code with the prefix is ordinally at most the returned one |
| InspectCode.GreatestIsUnique | Services/InspectCodeService.cs:28-36 | any stored code with the prefix that is at least every other such code is the one the query returns |
| InspectCode.NextNumber | Services/InspectCodeService.cs:38-49 | the running number is always a 32-bit int |
| InspectCode.GenerateInspectCode | Services/InspectCodeService.cs:20-55 | the generated code starts with the prefix and has at least four characters after it |
| InspectCode.NumberingRestarts | Services/InspectCodeService.cs:38-49 | when the greatest code of the day is shorter than prefix plus 4, or its tail does not parse as an int, the code ends in 0001 |
| InspectCode.FirstCodeOfTheDay | Services/InspectCodeService.cs:38-52 | with no code of the day stored, the code is prefix followed by 0001 |
| InspectCode.NumberingContinues | Services/InspectCodeService.cs:43-52 | when the tail of the greatest code parses as k, the code is prefix followed by k+1 (32-bit wrap) formatted D4 |
| InspectCode.SuccessorCode | Services/InspectCodeService.cs:28-52 | if prefix+D4(k) is the greatest code of the day and k < 9999, the next code is prefix+D4(k+1) |
| InspectCode.SerialAllocation | Services/InspectCodeService.cs:28-52 | after codes 1..n of the day, the next is n+1, and storing it extends the series |
| InspectCode.IssuedUpToExtend | Services/InspectCodeService.cs:28-52 | adding prefix+D4(n+1) to a store holding exactly 1..n gives one holding exactly 1..n+1 |
| InspectCode.FullDayTop | Services/InspectCodeService.cs:28-36 | once codes 1..10000 are stored, the query returns prefix+9999, not prefix+10000 |
| InspectCode.BelowTop | Services/InspectCodeService.cs:28-36 | every code 1..10000 of the day sorts at or below prefix+9999 |
| InspectCode.StuckAfter9999 | Services/InspectCodeService.cs:28-52 | after 10000 codes in a day the allocator proposes prefix+10000 again, which is already stored |
| InspectCode.NumberingWrapsAround | Services/InspectCodeService.cs:45-52 | after int.MaxValue the number wraps to int.MinValue and a minus sign follows the prefix |
| InspectCode.SignAfterPrefix | Services/InspectCodeService.cs:52 | a negative running number puts '-' right after the prefix |
| InspectCode.FirstCodeExample | Services/InspectCodeService.cs:17-25 | with an empty store, plant KB01 and zone A on 2025-12-22, the code is KB01A2512220001 |
| InspectCode.ExampleDateText | Services/InspectCodeService.cs:24 | 2025-12-22 formats as 251222 |
| InspectCode.CountCode | Services/InspectCodeService.cs:62-64 | the count is positive exactly when the code is stored |
| InspectCode.IsInspectCodeExists | Services/InspectCodeService.cs:60-65 | true exactly when the code is in the store |
| InspectCode.GenerateUniqueInspectCode | Services/InspectCodeService.cs:70-89 | returns a code exactly when maxRetries > 0 and the generated code is not stored; that code is absent from the store; otherwise fails with the exhaustion message |
| Text.LexIrreflexive | Services/InspectCodeService.cs:32 | ordinal order is irreflexive |
| Text.LexTotal | Services/InspectCodeService.cs:32 | ordinal order is total |
| Text.LexAsymmetric | Services/InspectCodeService.cs:32 | ordinal order is asymmetric |
| Text.LexTransitive | Services/InspectCodeService.cs:32 | ordinal order is transitive |
| Text.LexCommonPrefix | Services/InspectCodeService.cs:32 | a common prefix does not change the order of two codes |
| Text.FormatD | Services/InspectCodeService.cs:52 | the D4 text is at least four characters wide, all digits for n >= 0, and a '-' then digits for n < 0 |
| Text.FormatDLength | Services/InspectCodeService.cs:52 | D4 of 0..9999 is exactly four characters; D4 of larger numbers is longer |
| Text.FormatDRoundTrip | Services/InspectCodeService.cs:45-52 | int.TryParse reads D4(n) back as n for every 32-bit n |
| Text.FormatD4Monotone | Services/InspectCodeService.cs:32-52 | for 0 <= a < b <= 9999, D4(a) sorts ordinally below D4(b) |
| Text.FormatDSamples | Services/InspectCodeService.cs:52 | D4 gives 0001 for 1, 9999 for 9999 and 10000 for 10000 |
| Text.ParseInt32 | Services/InspectCodeService.cs:45 | a successful parse yields a 32-bit int |
| Text.ParseUnsigned | Services/InspectCodeService.cs:45 | a digit string within range parses to its value |
| Text.ParseNegative | Services/InspectCodeService.cs:45 | '-' followed by digits within range parses to the negated value |
| Text.Wrap32 | Services/InspectCodeService.cs:47 | the sum is congruent modulo 2^32 and in 32-bit range, and is unchanged when already in range |
| Text.WrapPastMax | Services/InspectCodeService.cs:47 | int.MaxValue + 1 wraps to int.MinValue |
| ChecklistService.CodeFor | Services/ChecklistService.cs:142-195 | a form without a code gets an allocated code that is not yet stored, or the exhaustion error; a supplied code is kept unchanged |
| ChecklistService.AllocatedCodeIsUnique | Services/ChecklistService.cs:142-148 | an allocated code starts with the plant/zone/date prefix and occurs exactly once after the insert |
| ChecklistService.InspectCodesOf | Services/ChecklistService.cs:144-147 | the code store is exactly the codes of the stored checklists |
| ChecklistService.HeaderRow | Services/ChecklistService.cs:150-202 | the inserted header keeps the form's inspector names and fields, and carries the code and the new id |
| ChecklistService.HeaderRowAsWritten | Services/ChecklistService.cs:196-197 | as written, the inspector columns receive the text of the inspector ids |
| ChecklistService.AsWrittenLosesInspectorName | Services/ChecklistService.cs:196-197 | as written, a full name that does not start with a digit or '-' is lost; the corrected row keeps it |
| ChecklistService.ChecklistDb.constructor | Services/ChecklistService.cs:15-26 | the tables start empty with both identity counters at 1 |
| ChecklistService.ChecklistDb.GetChecklistById | Services/ChecklistService.cs:101-135 | finds a checklist with that id, or none exactly when no checklist has it |
| ChecklistService.FindChecklist | Services/ChecklistService.cs:101-135 | finds a checklist with that id, or none exactly when no checklist has it |
| ChecklistService.ChecklistDb.CreateChecklist | Services/ChecklistService.cs:139-203 | on success appends the header with the allocated or supplied code and returns the new id; allocation failure or a missing plant leaves the tables unchanged; the stored header is the corrected HeaderRow, with the inspectors' names where the source writes their ids (see Findings) |
| ChecklistService.UpdateHeader | Services/ChecklistService.cs:280-290 | only the target checklist changes, and only its remark, inspector and approver |
| ChecklistService.WithoutRecordsOf | Services/ChecklistService.cs:292-294 | the records left are exactly those of other checklists |
| ChecklistService.KeepMeasurements | Services/ChecklistService.cs:292-294 | the measurements left are exactly those whose record was not deleted |
| ChecklistService.RowMeasurements | Services/ChecklistService.cs:317 | the measurements of row i are exactly those with RowIndex i, in posted order |
| ChecklistService.ToMeasurementRow | Services/ChecklistService.cs:331-372 | IsPass/IsFail are copied verbatim; "number" stores the parsed decimal and the limits; "leftright" stores PassFailValue true; other types store neither; NumericValue and the limits are held rounded to hundredths, ActualValue exactly |
| ChecklistService.StoredLimitsOfNumber | Models/InspectionChecklist.cs:172-191 | a "number" measurement's limits read back as posted when they have at most two places, and within half a hundredth of the posted value otherwise |
| ChecklistService.FinerLimitReadsBackRounded | Models/InspectionChecklist.cs:184-185 | a posted MinValue of 9.484 reads back as 9.48 |
| ChecklistService.MeasurementRows | Services/ChecklistService.cs:318-373 | one stored measurement per posted measurement of the row |
| ChecklistService.MeasurementRowsAt | Services/ChecklistService.cs:318-373 | the k-th stored measurement of a row is the k-th posted one, converted |
| ChecklistService.ParsedPrefix | Services/ChecklistService.cs:297-309 | the save stops at the first row whose time does not parse |
| ChecklistService.NewRecords | Services/ChecklistService.cs:297-314 | one new record per stored row |
| ChecklistService.NewRecordsAt | Services/ChecklistService.cs:297-314 | record i gets the row's shift, parsed time and note, and id base + i |
| ChecklistService.ChecklistDb.SaveInspectionData | Services/ChecklistService.cs:271-384 | updates the header, deletes the checklist's records and their measurements, then inserts the rows that precede the first bad time, each with its measurements; succeeds exactly when every row is stored |
| ChecklistService.ChecklistDb.UpdateChecklistHeader | Services/ChecklistService.cs:280-290 | the checklists become the updated headers; nothing else changes |
| ChecklistService.ChecklistDb.DeleteRecordsOf | Services/ChecklistService.cs:292-294 | the checklist's records and their measurements are removed; nothing else changes |
| ChecklistService.ChecklistDb.InsertRows | Services/ChecklistService.cs:297-375 | the loop stores the rows before the first bad time |
| ChecklistService.ChecklistDb.StoreRow | Services/ChecklistService.cs:301-374 | appends one record with the next id, then that row's measurements |
| ChecklistService.ChecklistDb.InsertRecord | Services/ChecklistService.cs:301-314 | appends the record and advances the identity counter |
| ChecklistService.ChecklistDb.InsertMeasurements | Services/ChecklistService.cs:318-374 | appends the row's converted measurements |
| ChecklistService.SaveReplacesRecords | Services/ChecklistService.cs:292-314 | after a save, the saved checklist's records are exactly the new ones in posted order; every other checklist's records are unchanged |
| ChecklistService.StoredMeasurementCount | Services/ChecklistService.cs:317-318 | the number of stored measurements equals the number posted with a RowIndex among the stored rows |
| ChecklistService.InRows | Services/ChecklistService.cs:317 | the measurements kept are exactly those whose RowIndex names a stored row |
| ChecklistService.SavedMeasurementsOfRow | Services/ChecklistService.cs:306-318 | the new record of row i owns exactly the measurements posted with RowIndex i |
| ChecklistService.MeasurementsOfNew | Services/ChecklistService.cs:306-318 | among the new measurements, record base+i owns row i's block, and none exists for ids past the stored rows |
| ChecklistService.SaveThenRead | Services/ChecklistService.cs:205-384 | reading back after a save gives one view per stored row, in posted order, with that row's shift, time, note and measurements, their limits as the decimal(18,2) columns hold them |
| ChecklistService.NewRecordViews | Services/ChecklistService.cs:205-314 | the views of the new records are the posted rows, limits rounded to hundredths |
| ChecklistService.RowReadsBack | Services/ChecklistService.cs:205-314 | a stored row reads back as the row that was posted, limits rounded to hundredths |
| ChecklistService.SaveKeepsOtherChecklists | Services/ChecklistService.cs:292-294 | a save leaves what every other checklist reads back unchanged |
| ChecklistService.OtherRecordMeasurements | Services/ChecklistService.cs:292-294 | a save leaves the measurements of other checklists' records unchanged |
| ChecklistService.SavedIdsIncreasing | Services/ChecklistService.cs:306-314 | record ids stay increasing and below the identity counter after a save |
| ChecklistService.ChecklistDb.GetInspectionRecords | Services/ChecklistService.cs:205-267 | the views are the dictionary fold of the joined rows, which is one view per record of the checklist in table order |
| RecordsView.FoldRecords | Services/ChecklistService.cs:228-266 | the dictionary-and-order loop yields the same views as the fold |
| RecordsView.StepOnNewId | Services/ChecklistService.cs:234-244 | an unseen id adds a new entry to the dictionary and to the order |
| RecordsView.StepOnSeenId | Services/ChecklistService.cs:246-261 | a seen id only extends that entry's measurements |
| RecordsView.StepOnDict | Services/ChecklistService.cs:230-264 | one reader step on the dictionary matches one step of the fold |
| RecordsView.FoldViews | Services/ChecklistService.cs:228-266 | each view has its id's first-row header and all its measurements; every id has a view, and no id has two |
| RecordsView.FoldIds | Services/ChecklistService.cs:228-266 | the view ids are the distinct row ids in first-appearance order |
| RecordsView.DistinctMembers | Services/ChecklistService.cs:234 | the distinct ids are exactly the ids that occur, each once |
| RecordsView.FoldCountsMeasurements | Services/ChecklistService.cs:246-261 | the total number of measurements equals the number of joined rows with a ParameterId |
| RecordsView.ReadBackRecords | Services/ChecklistService.cs:207-266 | the fold over the LEFT JOIN yields, in record order, each record of the checklist with its measurements sorted by ParameterId |
| RecordsView.FoldBlock | Services/ChecklistService.cs:224-266 | a record's joined rows add exactly its view |
| RecordsView.JoinRecord | Services/ChecklistService.cs:224 | a record joins to at least one row, all carrying its id |
| RecordsView.ToView | Services/ChecklistService.cs:248-260 | a view keeps the stored ParameterId, value and pass/fail flags |
| RecordsView.SortByParameterCorrect | Services/ChecklistService.cs:226 | the measurements are ordered by ParameterId and are a permutation of the record's |
| RecordsView.RecordsOf | Services/ChecklistService.cs:225 | exactly the records of the checklist |
| RecordsView.FindView | Services/ChecklistService.cs:234 | the first view with that id, or the end |
| CsvExport.ExportInspectionData | Services/ChecklistService.cs:407-438 | a missing checklist gives the error; otherwise the header line, then one line per measurement of each record read back |
| CsvExport.AppendRecordLines | Services/ChecklistService.cs:419-434 | the inner loop appends one line per measurement of the record |
| CsvExport.CsvLineCount | Services/ChecklistService.cs:415-435 | the CSV has one header line plus one line per measurement |
| CsvExport.CsvLineAt | Services/ChecklistService.cs:417-435 | the line for measurement t of record j sits after the header and the earlier records' lines |
| CsvExport.LinesAt | Services/ChecklistService.cs:417-435 | the line for measurement t of record j follows the earlier records' lines |
| CsvExport.VerdictCases | Services/ChecklistService.cs:431 | the verdict is ผ่าน exactly when IsPass, ไม่ผ่าน exactly when IsFail and not IsPass, otherwise N/A |
| CsvExport.TypeLabelCases | Services/ChecklistService.cs:430 | the type column is วัดค่า exactly when the type is "number" |
| CsvExport.CsvFields | Services/ChecklistService.cs:421-433 | every line has thirteen fields |
| CsvExport.DateText | Services/ChecklistService.cs:421 | the date renders as yyyy-MM-dd |
| CsvExport.SplitJoin | Services/ChecklistService.cs:421-433 | splitting a joined line at commas recovers its fields when none contains a comma |
| CsvExport.CsvColumns | Services/ChecklistService.cs:421-433 | a line splits into thirteen columns exactly when no field contains a comma |
| CsvExport.CommaInNoteShifts | Services/ChecklistService.cs:433 | a comma in the note yields more than thirteen columns, because fields are not quoted |
| ExcelLayout.ExportChecklistToExcel | Services/ChecklistService.cs:563-725 | a missing checklist gives the error; otherwise the sheet is built from the visible catalogue rows of the FG code and the records read back |
| ExcelLayout.TableHeader | Services/ChecklistService.cs:622-674 | the header loop yields the group spans, one sub-header per catalogue row, and the next free column |
| ExcelLayout.RecordRow | Services/ChecklistService.cs:681-725 | the row loop fills one cell per catalogue row in group order |
| ExcelLayout.GroupByWellGrouped | Services/ChecklistService.cs:641 | groups are non-empty and have distinct keys |
| ExcelLayout.GroupByMembers | Services/ChecklistService.cs:641 | each group holds exactly the rows with its key (DocDataType or อื่นๆ), in catalogue order |
| ExcelLayout.GroupByOrder | Services/ChecklistService.cs:641 | groups appear in the order of their first row |
| ExcelLayout.GroupByPermutation | Services/ChecklistService.cs:641-671 | the grouped columns are a permutation of the catalogue rows |
| ExcelLayout.SpansTile | Services/ChecklistService.cs:643-671 | group headers span their members contiguously from column 4 to column 3 + n |
| ExcelLayout.SheetLayout | Services/ChecklistService.cs:622-725 | 3 fixed columns plus one per catalogue row; one data row per record, each with one cell per catalogue row |
| ExcelLayout.ColumnUnderHeader | Services/ChecklistService.cs:643-721 | the column at group start + t carries that group's t-th row in the sub-header and in every data row |
| ExcelLayout.Limits | Services/ChecklistService.cs:662-665 | the min/max line appears exactly when DocMin > 0 or DocMax > 0 |
| ExcelLayout.FirstWith | Services/ChecklistService.cs:699-700 | the lookup finds a measurement with the key, or none exactly when no measurement has it |
| ExcelLayout.FirstWithIsFirst | Services/ChecklistService.cs:699-700 | the measurement found is the first one with that key |
| ExcelLayout.CellForCases | Services/ChecklistService.cs:699-719 | the cell is blank exactly when no measurement has "param_"+DocId; otherwise it holds the first such measurement's value, with the fail hint before the pass hint |
| ExcelLayout.TitleRows | Services/ChecklistService.cs:586-612 | three title rows of four cells |
| ExcelLayout.FindGroup | Services/ChecklistService.cs:641 | the group with the key, or none exactly when no group has it |
| ProductionOrder.PadOrderNumber | Services/ProductionOrderService.cs:35-42 | an 8-character number is looked up as "0000" + number; any other length unchanged |
| ProductionOrder.PadIdempotent | Services/ProductionOrderService.cs:35-42 | padding twice equals padding once |
| ProductionOrder.PadMerges | Services/ProductionOrderService.cs:35-42 | an 8-character number and its 12-character padded form look up the same order |
| ProductionOrder.FindOrder | Services/ProductionOrderService.cs:27-51 | finds a row with that AUFNR, or none exactly when no row has it |
| ProductionOrder.ToViewModel | Services/ProductionOrderService.cs:59-70 | the plant is always KB01, and NULL columns become "" |
| ProductionOrder.GetAndValidateProductionOrder | Services/ProductionOrderService.cs:20-104 | no row gives failure without an order; with a row, success holds exactly when PLNBEZ is non-empty and an active master has that code; HasMaterialMaster equals Success; the message names the outcome: order not found, no PLNBEZ, master missing or found |
| MaterialMasterLocal.ActiveByCode | Services/MaterialMasterLocalService.cs:102-112 | finds an active row with the code, or none exactly when there is none |
| MaterialMasterLocal.ActiveNewestFirst | Services/MaterialMasterLocalService.cs:87-97 | exactly the active rows |
| MaterialMasterLocal.ActiveNewestFirstDescending | Services/MaterialMasterLocalService.cs:94 | the active rows are listed in descending MaterialId order |
| MaterialMasterLocal.InsertedRow | Services/MaterialMasterLocalService.cs:42-62 | the inserted row takes code and name from upstream, plant KB01, active, and the caller as CreatedBy |
| MaterialMasterLocal.MaterialMasterTable.constructor | Services/MaterialMasterLocalService.cs:13-17 | the table starts empty |
| MaterialMasterLocal.MaterialMasterTable.CheckMaterialExists | Services/MaterialMasterLocalService.cs:77-82 | true exactly when some row, active or not, has the code |
| MaterialMasterLocal.MaterialMasterTable.GetMaterialMasterByCode | Services/MaterialMasterLocalService.cs:102-112 | only active rows are found |
| MaterialMasterLocal.MaterialMasterTable.GetAllMaterialMaster | Services/MaterialMasterLocalService.cs:87-97 | exactly the active rows |
| MaterialMasterLocal.MaterialMasterTable.SaveMaterialMaster | Services/MaterialMasterLocalService.cs:22-72 | an existing code or a missing upstream row gives failure with the table unchanged; otherwise exactly one row is appended and the result is success |
| MaterialMasterLocal.InactiveRowBlocksButIsInvisible | Services/MaterialMasterLocalService.cs:79-108 | an inactive row blocks a new save yet lookup by code does not find it |
| Models.NewMaterialMaster | Models/MaterialMaster.cs:61-66 | a new master defaults to plant KB01 and active |
| Models.MaterialMasterViewModel.DisplayText | Models/MaterialMaster.cs:93 | material number, " - ", then description |
| Models.MaterialMasterViewModel.SearchText | Models/MaterialMaster.cs:95 | equals DisplayText |
| Models.ProductionOrderViewModel.DisplayText | Models/MaterialMaster.cs:124 | order number, " - ", description, " (", customer name, ")" |
| Models.HourMinute | Services/ChecklistService.cs:211 | the read-back time is five characters HH:mm: two digits that parse back to the hour, a colon, two digits that parse back to the minute |
| MaterialController.OverallPassedIff | Models/MaterialMaster.cs:108 | OverallPassed holds exactly when the material has parameters and all of them passed; so it is false with none |
| Catalogue.ParametersForCorrect | Services/MaterialService.cs:85-97 | the parameters of an FG code are its visible rows with multiplicity, sorted by DocOrderSort |
| Catalogue.SortByKeyCorrect | Services/MaterialService.cs:48 | the listing is sorted by DocFg, then DocFgItem (NULL first, ordinal order), then DocOrderSort, and is a permutation of the visible rows |
| Catalogue.KeyLeTransitive | Services/MaterialService.cs:48 | the three-key order is transitive on not-after, so inserting into a sorted listing keeps it sorted |
| Catalogue.SelectForItemSorted | Controllers/ChecklistController.cs:379-381 | one FG code's rows taken from the sorted listing are in DocFgItem order |
| Catalogue.WithOrderItemSorted | Controllers/ChecklistController.cs:382 | the rows of one DocOrderSort taken from an item-ordered list stay in item order |
| ChecklistController.InspectParametersCorrect | Controllers/ChecklistController.cs:379-383 | the parameters are the visible catalogue rows of the FG code with multiplicity, sorted by DocOrderSort, and rows sharing a DocOrderSort are in DocFgItem order, as the listing query delivers them to the stable OrderBy |
| ChecklistController.TieFollowsItemExample | Controllers/ChecklistController.cs:379-383 | two rows with equal DocOrderSort stored as item "B" then item "A" are shown as "A" then "B" |
| ChecklistController.SelectForVisible | Controllers/ChecklistController.cs:379-381 | filtering the already-visible rows by FG code and visibility equals filtering the whole catalogue |
| ChecklistController.Inspect | Controllers/ChecklistController.cs:370-389 | NotFound exactly when the checklist is missing; the unhandled read error exactly when a visible catalogue row has a NULL mapped column; otherwise the page carries the FG code's visible parameters by DocOrderSort, ties in DocFgItem order, and the records read back |
| ChecklistController.UserById | Controllers/ChecklistController.cs:297-298 | finds the user with the id, or none exactly when there is none |
| ChecklistController.Filled | Controllers/ChecklistController.cs:329-336 | the inspector names come from the users, with CreatedBy set to the identity or "System" and Status "Active" |
| ChecklistController.IdTextParses | Controllers/ChecklistController.cs:275-287 | the TryParse of an int's own text always succeeds, so those two guards never reject |
| ChecklistController.CreatePost | Controllers/ChecklistController.cs:263-357 | nothing is saved unless the form is valid, both users exist and the order validates; a failed validation returns the form with the validation's own message; then the filled checklist is created, and errors return to the form; the created header is the corrected one that keeps the users' full names (see Findings) |
| ChecklistController.GetMaterialData | Controllers/ChecklistController.cs:439-481 | not found exactly when no active master has the code; the bare read error exactly when one of its parameters has a NULL mapped column; otherwise the master's fields, with customer "" and process CP when no parameter row exists |
| ChecklistController.MaterialDataFromFirstParameter | Controllers/ChecklistController.cs:452-457 | when the parameters read, customer and process come from a parameter row with the smallest DocOrderSort |
| ChecklistController.SaveInspectionData | Controllers/ChecklistController.cs:393-404 | success exactly when the save stores every row; otherwise the exception message; the tables change as the service says |
| MaterialController.FilterBySearch | Controllers/MaterialController.cs:36-42 | keeps exactly the masters whose code or name contains the term, ignoring case |
| MaterialController.EmptyTermKeepsAll | Controllers/MaterialController.cs:36 | an empty term keeps every master |
| MaterialController.PassedCount | Controllers/MaterialController.cs:55 | at most the number of parameters |
| MaterialController.PassedCountAll | Controllers/MaterialController.cs:55-56 | the passed count equals the total exactly when every parameter passed |
| MaterialController.GroupsOf | Controllers/MaterialController.cs:45-58 | one group per shown master, in order |
| MaterialController.GroupMaterials | Controllers/MaterialController.cs:45-58 | the loop builds the groups of the shown masters, and stops with the read error exactly when some master's parameters hold a NULL mapped column |
| MaterialController.ReadGroup | Controllers/MaterialController.cs:49-57 | one master's entry from its parameter query, or the read error exactly when one of its parameters has a NULL mapped column |
| MaterialController.ParametersReadableIff | Controllers/MaterialController.cs:47-58 | the loop's queries all read exactly when no shown master has a parameter with a NULL mapped column |
| MaterialController.Index | Controllers/MaterialController.cs:28-70 | one group per filtered active master, with its parameters, passed count and total count; when a parameter query meets a NULL mapped column, no groups and the prefixed error text |
| MaterialController.ParameterRejection | Controllers/MaterialController.cs:137-164 | rejects blank inspection or unit in that order; for "number", rejects missing limits, Min >= Max, or Std outside [Min, Max]; other types skip the limit checks |
| MaterialController.MaxOrderOf | Controllers/MaterialController.cs:168-172 | none exactly when no row has the FG code; otherwise an upper bound on its rows' DocOrderSort |
| MaterialController.NextOrderSort | Controllers/MaterialController.cs:167-201 | a 32-bit value: 1 with no visible row of the FG code; while no such row holds int.MaxValue, above every such row and one more than some row; when one does, int.MinValue |
| MaterialController.MaxOrderOfSameRows | Controllers/MaterialController.cs:167-172 | the maximum depends only on which rows the listing holds, so the listing's order does not change it |
| MaterialController.NewParameter | Controllers/MaterialController.cs:175-205 | DocIsLr exactly for "leftright" and DocIsMm exactly for "passfail"; missing limits stored as 0; not passed, not hidden; DocSo and DocSoItem default to "" |
| MaterialController.AcceptedLimitsStored | Controllers/MaterialController.cs:148-192 | an accepted "number" parameter is stored with Std between Min and Max, and with Min < Max when the request's limits have at most two places |
| MaterialController.AcceptedLimitsCollapse | Models/DocumentInspection.cs:28-35 | limits 1.001 and 1.004 with standard 1.002 pass the check and are all stored as 1.00 |
| MaterialController.AppendedParameterComesLast | Controllers/MaterialController.cs:167-201 | a row above every other row of its FG code comes last in that code's parameter list |
| MaterialController.NewParameterComesLast | Controllers/MaterialController.cs:167-201 | while no visible row of the FG code holds int.MaxValue, the new parameter comes last in its FG code's parameter list |
| MaterialController.NewParameterWrapsFirst | Controllers/MaterialController.cs:167-201 | when a visible row of the FG code holds int.MaxValue and none int.MinValue, the new parameter wraps to int.MinValue and is listed first |
| MaterialController.MinimumFirst | Controllers/MaterialController.cs:167-201 | a row below every other row of its FG code comes first in that code's parameter list |
| MaterialController.FirstNull | Services/MaterialService.cs:231-273 | none exactly when every column has a value; otherwise the name of a null column with values in all columns before it |
| MaterialController.UnsuppliedParameter | Services/MaterialService.cs:231-273 | none exactly when the eight columns bound without a DBNull fallback all hold a value; a null DocCustomer is reported first; @DocDataType exactly when it is the only null one |
| MaterialController.NewParameterUnsupplied | Controllers/MaterialController.cs:174-205 | the row a request creates misses a parameter exactly when the request has no DocDataType, and then it is @DocDataType |
| MaterialController.ReportedIdAsWritten | Controllers/MaterialController.cs:207-213 | as written, the reply reports the DocId of the object given to the insert, which stays 0 |
| MaterialController.AsWrittenReportsZero | Controllers/MaterialController.cs:207-213 | after the insert the table holds the new row under the next identity value, while the id reported as written is 0, which names no row |
| MaterialController.CatalogueTable.constructor | Services/MaterialService.cs:12-15 | the catalogue starts empty with the identity at 1 |
| Catalogue.ReadListing | Services/MaterialService.cs:17-51 | the listing of the visible rows, or the read error exactly when one of them has a NULL mapped column |
| Catalogue.CatalogueOrderCorrect | Services/MaterialService.cs:17-51 | the listing holds exactly the rows that are not hidden, with multiplicity, sorted by DocFg, DocFgItem and DocOrderSort |
| Catalogue.ReadRows | Services/MaterialService.cs:192-228 | the rows as delivered, or the null-value error exactly when one of them has a NULL in DocCustomer, DocSo, DocSoItem, DocFg, DocFgItem, DocSize or DocTypeOfFilm |
| Catalogue.ReadParameters | Services/MaterialService.cs:85-97 | the FG code's parameter list, or the read error exactly when one of its visible rows has a NULL mapped column |
| Catalogue.Stored | Models/DocumentInspection.cs:28-35 | the row as the table holds it: DocMin, DocMax and DocStd within half a hundredth of the given values and at two places; every other column unchanged |
| Catalogue.StoredExact | Models/DocumentInspection.cs:28-35 | a row whose limits already have two places is stored as it is |
| Catalogue.StoredKeepsLimitOrder | Models/DocumentInspection.cs:28-35 | storing keeps Min <= Std <= Max, and Min < Max when the limits have two places |
| Text.Round2 | Models/DocumentInspection.cs:28-35 | a decimal(18,2) column holds a value with two places within half a hundredth of the given one, of the same sign or zero |
| Text.Round2Exact | Models/DocumentInspection.cs:28-35 | a value with at most two places is stored unchanged |
| Text.Round2Monotone | Models/DocumentInspection.cs:28-35 | rounding keeps order |
| Text.Round2Collapses | Models/DocumentInspection.cs:28-35 | 1.001, 1.002 and 1.004 are all stored as 1.00 |
| MaterialController.CatalogueTable.NextOrderSortOf | Controllers/MaterialController.cs:167-172 | the value computed over the listing is NextOrderSort of the visible rows; the read error exactly when a visible row has a NULL mapped column |
| MaterialController.NextOrderSortSameRows | Controllers/MaterialController.cs:167-172 | the next DocOrderSort depends only on which rows are present, not on their order |
| MaterialController.CatalogueTable.AddInspectionParameter | Controllers/MaterialController.cs:132-220 | a rejection gives its message and no write; a listing read that meets a NULL mapped column gives the prefixed read error and no write; a request without DocDataType fails on the insert with the not-supplied error and no write; otherwise appends the new parameter, limits rounded to hundredths, with the next DocId and replies with that id; the parameter comes last for its FG code unless that code already holds int.MaxValue |
| MaterialController.CatalogueTable.CreateParameter | Controllers/MaterialController.cs:174-213 | without DocDataType the insert fails with the not-supplied error and no write; otherwise the new row, limits rounded to hundredths, is appended under the next DocId, which the reply names, and comes last for its FG code unless that code already holds int.MaxValue |
| MaterialController.CatalogueTable.InsertParameter | Services/MaterialService.cs:116-137 | appends the row with its limits rounded to hundredths and advances the identity; every stored limit has two places |
| MaterialController.ReplaceById | Services/MaterialService.cs:139-157 | rows with the model's DocId become the model; all others are unchanged |
| MaterialController.CatalogueTable.EditPost | Controllers/MaterialController.cs:236-267 | NotFound when the route id differs from DocId; an invalid form returns the form; a null raw-bound column returns the form with the not-supplied error and no write; a missing row returns the form; otherwise the row is replaced by the model with its limits rounded to hundredths, and the action redirects |

## Left out

- SQL execution, connections, dependency injection and the EF configuration. The tables are in-memory sequences.
- SQL `LIKE` wildcards inside the prefix (`%`, `_` and `[` in the plant or zone), and collation. Codes are compared in ordinal order.
- Ties in `ORDER BY DocOrderSort`, and in `ORDER BY DocFg, DocFgItem, DocOrderSort` between rows equal in all three: the model keeps such rows in table order (a stable sort). SQL Server leaves that order open.
- Concurrency between allocators or between saves, and the 100 ms `Task.Delay` between retries. The model is sequential, and it claims no uniqueness under racing callers.
- `DateTime.Now`. It is a date parameter, and the controller and the service are given the same date.
- `CreatedDate` of records and measurements, and `DocCreateDate` of catalogue rows. These are not stored in the model.
- `TimeSpan.Parse` and `decimal.TryParse`. They are parameters; a bad time is the only failure the save models.
- Other database failures inside `SaveInspectionDataAsync`, and in the controllers' `catch` blocks beyond the ones modelled. The modelled ones are a NULL `@Plant`, the null catalogue columns bound without a `DBNull` fallback, and the NULL catalogue columns read without a NULL check.
- The overflow of a `decimal(18,2)` column (a value of 10^16 or more is refused by SQL Server); only the rounding is modelled.
- The type of the measurement's `ActualValue` column is not declared in the source's entity; it is stored exactly as parsed.
- NULL in the catalogue's `DocPlant`, `DocProcess`, `DocInspection`, `DocUnit`, `DocMin`, `DocMax`, `DocStd` and flag columns: these are not-nullable in the entity and are plain values in the model, so their read failure is not represented.
- `ChecklistController.Inspect`: the unhandled exception is the result `InspectFailed` with the exception's message; the error page ASP.NET then renders is not modelled.
- The text of SQL Server's not-supplied error is shortened to its last clause; the query's parameter list it quotes is not modelled.
- `MaterialController.CatalogueTable.AddInspectionParameter`: a JSON `null` for a request field declared as a non-nullable `string` is not modelled; only the nullable `DocDataType` can be missing.
- The foreign key from records to checklists. A save for an id with no checklist still stores its records.
- Deleting records is modelled as cascading to their measurements.
- EPPlus styling: merges, fonts, colours, borders, column widths and the byte-array output. The sheet is a value holding titles, spans, sub-headers and cells, each with a Fail/Pass/Neutral hint.
- `CsvExport.ExportInspectionData`: `AppendLine` line endings. The result is the sequence of lines.
- Number formatting of `DocMin`/`DocMax` in the Excel min/max line. It is a parameter.
- Case folding in `Contains(…, OrdinalIgnoreCase)`: only ASCII letters are folded.
- Actions not among the modelled decisions:
  - `GetActiveChecklistsAsync`, `CompleteChecklistAsync`, `DeleteChecklistAsync`, `GetDailyStatisticsAsync`, `GetTodayInspectCodesAsync`, `GetInspectionParametersAsync` and `InitializeDefaultParametersAsync`;
  - the `Create` GET defaults;
  - `MaterialController.Create`, `SaveMaterialMaster` (the action), `Details` and `Delete`;
  - the `ExportInspectionData` action's file response.
- `ChecklistController.CreatePost`: the user lookup ignores `IsActive`, as `GetUserByIdAsync` is not part of this model. A NULL plant on the form is modelled as the SQL error for a missing `@Plant` parameter.
- Views, TempData, ViewBag, anti-forgery and authentication. The identity name is an optional parameter.
- `MaterialMasterLocal.MaterialMasterTable.SaveMaterialMaster`: the `catch` that turns database exceptions into `(false, message)` is not modelled. The ERP lookup is a map parameter.

## Findings

| source | as written | input that shows it | evidently intended | confidence | as-written member | corrected member |
|---|---|---|---|---|---|---|
| Services/ChecklistService.cs:196-197 | the inspector columns receive `InspectorTeamAId`/`InspectorTeamBId`, the integer ids | team A user with id 7 and full name "Somchai": the header stores "7" | store the full names the controller sets (Controllers/ChecklistController.cs:329-330) | high; not executed | ChecklistService.AsWrittenLosesInspectorName | ChecklistService.HeaderRow, stored by ChecklistService.ChecklistDb.CreateChecklist and ChecklistController.CreatePost |
| Controllers/MaterialController.cs:207-213 | the reply reports `newParameter.DocId`; `CreateMaterialAsync` returns the new id, but nothing assigns it (Services/MaterialService.cs:134-136) | any accepted request on a table whose next id is 1: the row gets DocId 1, the reply says 0 | report the id `CreateMaterialAsync` returns | high; not executed | MaterialController.AsWrittenReportsZero | MaterialController.CatalogueTable.AddInspectionParameter |
