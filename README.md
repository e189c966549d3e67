# Dormitory bookkeeping — a verified model

This project models the bookkeeping core of a dormitory management web
application. It covers three screens:

- **The warehouse page** (`Warehouse`). It holds the stock of bedding and furniture, seeded with ten items. It also holds per-row quantity edits that are not yet saved. "Save" commits an edit to the stock. Inventory snapshots are recorded newest first, with a running id, the date, the total and a copy of every row. A selected snapshot exports as a CSV file: a heading line, a column header, one line per item and a total line. The file content starts with a byte-order mark and the file is named `inventory_<date>.csv`. The page also computes the current total, the number of zero-quantity items and the per-row "0 in stock" / "low" badge.
- **The issue/return ledger** (`IssueLedger`). Two components share it: the student tab and the inventory table. The ledger keeps the quantity of each kind of item held, in active rows, and a history of operations, newest first. Issuing adds to a kind's row or creates one. Returning subtracts, clamps at zero, and removes the row when it reaches zero. Every operation gets a history id one above the largest id so far. A quantity stepper (minimum 1) feeds the operations. The two components differ in four ways:
  - which deltas a missing row refuses: negative ones, or non-positive ones;
  - whether the stepper resets to 1 after an action;
  - the initial lists: the student tab starts empty, the inventory table starts from the lists it is given;
  - where the next history id is computed: the student tab computes it from the list being updated, the inventory table from a memoised value of the current history. With each handler modelled as one atomic update, both are `NextHistoryId` of the current history.
- **The residents roster** (`Roster`). This is the combobox filter, which lower-cases and trims the input and keeps the items containing it, and the de-duplicated option lists built from the residents.

`Text` holds the string operations these rely on:

- decimal rendering of integers;
- join and split on one character;
- counting a character;
- ASCII lower-casing;
- JavaScript whitespace trimming;
- substring search.

State that the source updates in place is modelled as a class: `Warehouse.WarehousePage`, `IssueLedger.Ledger` and `IssueLedger.QuantityStepper`. Each method's contract gives its whole new state as a pure function of the old state and its arguments, and the lemmas state the properties of those functions.

## Model

| member | source | states |
|---|---|---|
| Warehouse.Seed | src/app/inventory/page.tsx:16-27 | the initial stock has ten items with distinct ids and non-negative quantities |
| Warehouse.Reduce | src/app/inventory/page.tsx:163 | the fold adds the quantities to the accumulator, so over a stock without negative quantities it never falls below the accumulator; ReduceIsSum gives its exact value |
| Warehouse.TotalNow | src/app/inventory/page.tsx:163 | the reduce over the stock equals the sum of all quantities |
| Warehouse.ReduceIsSum | src/app/inventory/page.tsx:163 | the left fold started at any accumulator adds the sum of quantities to it |
| Warehouse.SumQtyNonNegative | src/app/inventory/page.tsx:163 | a stock with no negative quantity has a non-negative total |
| Warehouse.ZeroCount | src/app/inventory/page.tsx:223 | the count of zero items is at most the stock size; it is 0 exactly when no item is zero and the full size exactly when every item is zero |
| Warehouse.ZeroCountIsMultiplicity | src/app/inventory/page.tsx:223 | the zero count equals the multiplicity of 0 in the multiset of quantities |
| Warehouse.BadgeFor | src/app/inventory/page.tsx:255-257 | the red badge appears exactly for 0, the amber one exactly for 1..5, and none otherwise |
| Warehouse.Current | src/app/inventory/page.tsx:255 | a row shows its pending edit when there is one and its stored quantity otherwise; it is non-negative when both are |
| Warehouse.CellValue | src/app/inventory/page.tsx:119-142 | decrement clamps at 0, increment adds 1, a typed value below 0 becomes 0; the result is never negative from a non-negative value |
| Warehouse.CellDecrementUndoesIncrement | src/app/inventory/page.tsx:119-142 | the minus button undoes the plus button, and the plus button undoes the minus button above 0 |
| Warehouse.SaveItem | src/app/inventory/page.tsx:168 | saving keeps an item's id and name; the item with the saved id takes its shown quantity, every other item stays as it is |
| Warehouse.Commit | src/app/inventory/page.tsx:166-169 | saving keeps the length and changes only the item with the saved id, to its pending edit if any |
| Warehouse.CommitTotal | src/app/inventory/page.tsx:166-169 | with distinct ids, saving changes the total by exactly the edited quantity minus the old one |
| Warehouse.CommitAbsent | src/app/inventory/page.tsx:166-169 | saving an id that no item has leaves the stock unchanged |
| Warehouse.CommitNonNegative | src/app/inventory/page.tsx:166-169 | saving non-negative edits keeps quantities non-negative and ids distinct |
| Warehouse.Rows | src/app/inventory/page.tsx:188 | the snapshot rows copy each item's name and quantity in order |
| Warehouse.SumRowsOfStock | src/app/inventory/page.tsx:187-188 | the snapshot total equals the sum of its copied rows |
| Warehouse.Capture | src/app/inventory/page.tsx:184-189 | a new snapshot carries the given id and date, a copy of every row, and the total of those rows |
| Warehouse.NextSnapId | src/app/inventory/page.tsx:185 | the first snapshot gets id 1, later ones the newest id plus one |
| Warehouse.SnapHistoryIdsDecrease | src/app/inventory/page.tsx:183-191 | recorded snapshot ids are positive and strictly decrease from newest to oldest |
| Warehouse.RecordKeepsHistory | src/app/inventory/page.tsx:183-191 | prepending a captured snapshot keeps ids equal to their 1-based age and totals equal to their rows; the next id equals the count plus one |
| Warehouse.FindSnap | src/app/inventory/page.tsx:164 | the lookup finds a snapshot with the id exactly when one exists |
| Warehouse.FindSnapInHistory | src/app/inventory/page.tsx:164 | in a recorded history an id is found exactly when it lies between 1 and the number of snapshots |
| Warehouse.DataLines | src/app/inventory/page.tsx:32 | one data line per row, in order |
| Warehouse.CsvLines | src/app/inventory/page.tsx:30-39 | the export has rows+3 lines: `Heading` with the date, the column header, one `DataLine` (name, comma, quantity) per row in order, and `TotalLine` with the total last |
| Warehouse.Csv | src/app/inventory/page.tsx:34-39 | the file text starts with the heading line |
| Warehouse.CsvSplitsIntoLines | src/app/inventory/page.tsx:34-39 | when no name or date contains a line break, splitting the text on line breaks gives back exactly the lines |
| Warehouse.LineNoBreak | src/app/inventory/page.tsx:32-38 | no exported line contains a line break when no name or date does |
| Warehouse.DataLineOneComma | src/app/inventory/page.tsx:32-37 | a data line has exactly one comma when the item name has none |
| Warehouse.CsvExample | src/app/inventory/page.tsx:30-39 | a one-row snapshot exports as the four expected lines |
| Warehouse.FileContent | src/app/inventory/page.tsx:41 | the file content is the byte-order mark followed by the CSV text |
| Warehouse.FileName | src/app/inventory/page.tsx:45 | the file name is "inventory_", the snapshot date, then ".csv" |
| Warehouse.WarehousePage.constructor | src/app/inventory/page.tsx:156-160 | the page starts with the seed stock, no edits, no snapshots and no selection |
| Warehouse.WarehousePage.Total | src/app/inventory/page.tsx:163 | the displayed total is the sum of quantities and is non-negative |
| Warehouse.WarehousePage.EditCell | src/app/inventory/page.tsx:282-286 | an edit records the stepper's value for that item's id and changes nothing else |
| Warehouse.WarehousePage.SaveQty | src/app/inventory/page.tsx:166-174 | the item with the id takes its pending edit, other items stay, the edit is discarded |
| Warehouse.WarehousePage.CreateSnapshot | src/app/inventory/page.tsx:183-192 | a snapshot of the current stock with the next id is prepended and selected; the history invariant is kept |
| Warehouse.WarehousePage.SelectSnapshot | src/app/inventory/page.tsx:307-311 | the selection becomes the chosen id or none; nothing else changes and the page invariant is kept |
| Warehouse.WarehousePage.ExportSelected | src/app/inventory/page.tsx:321-323 | export yields nothing exactly when no snapshot is selected or the selected id is not found; otherwise the file name and content of the snapshot the lookup finds |
| IssueLedger.FindKind | src/components/ui/Tabs.tsx:41 | the index of the first row of the kind, or -1 exactly when there is none |
| IssueLedger.Upsert | src/components/ui/Tabs.tsx:39-52 | the list grows or shrinks by at most one row, and every row in it is an old row or a row of the changed kind; a missing kind gets no row when `Refuses` holds for the guard (the student tab refuses `delta < 0`, the inventory table `delta <= 0`); UpsertHeld, UpsertKeepsOthers and UpsertKeepsWellFormed state the rest, for both guards (the inventory table's copy is src/components/ui/InventoryTable.tsx:47-60) |
| IssueLedger.Others | src/components/ui/Tabs.tsx:46-49 | the rows of other kinds contain no row of the given kind |
| IssueLedger.OthersAppend | src/components/ui/Tabs.tsx:44 | the rows of other kinds distribute over concatenation |
| IssueLedger.FindKindAt | src/components/ui/Tabs.tsx:41 | with unique kinds, the search finds the one row of the kind |
| IssueLedger.HeldAppend | src/components/ui/Tabs.tsx:44 | appending a row of a new kind sets that kind's holding and keeps the others |
| IssueLedger.HeldRemove | src/components/ui/Tabs.tsx:48 | splicing out a row zeroes that kind's holding and keeps the others |
| IssueLedger.HeldUpdate | src/components/ui/Tabs.tsx:49 | replacing a row's quantity sets that kind's holding and keeps the others |
| IssueLedger.UpsertHeld | src/components/ui/Tabs.tsx:39-52 | after an upsert the kind holds max(0, held + delta), and every other kind holds the same |
| IssueLedger.OthersDropRow | src/components/ui/Tabs.tsx:48 | removing a row of the kind leaves the other kinds' rows unchanged |
| IssueLedger.UpsertKeepsOthers | src/components/ui/Tabs.tsx:46-49 | an upsert leaves the rows of every other kind unchanged and in order |
| IssueLedger.UpsertKeepsWellFormed | src/components/ui/Tabs.tsx:41-50 | an upsert keeps one row per kind with positive quantities, unless the delta is 0 under the student-tab guard |
| IssueLedger.ZeroDeltaUnderNegativeGuard | src/components/ui/Tabs.tsx:42-44 | under the student-tab guard a zero delta on a missing kind appends a zero row, which the inventory-table guard refuses |
| IssueLedger.GuardsAgreeOffZero | src/components/ui/InventoryTable.tsx:50-52 | the two guards behave the same for every non-zero delta |
| IssueLedger.HandlerUpsert | src/components/ui/Tabs.tsx:68-78 | a non-zero change keeps a well-formed list well formed and moves the kind's holding to max(0, held + change) |
| IssueLedger.IssueActive | src/components/ui/Tabs.tsx:68-72 | issuing leaves the list exactly as it was for a non-positive quantity; otherwise the kind's holding grows by exactly the quantity; a well-formed list stays well formed |
| IssueLedger.ReturnActive | src/components/ui/Tabs.tsx:74-78 | returning leaves the list exactly as it was for a non-positive quantity; otherwise the kind's holding shrinks by the quantity, never below zero; a well-formed list stays well formed |
| IssueLedger.IssueShape | src/components/ui/Tabs.tsx:68-72 | a positive issue adds to the kind's row, or appends one of that quantity |
| IssueLedger.ReturnShape | src/components/ui/Tabs.tsx:74-78 | a positive return on a missing kind changes nothing; otherwise it lowers, or removes, the kind's row |
| IssueLedger.MaxId | src/components/ui/Tabs.tsx:57 | the largest history id bounds every id and belongs to one row |
| IssueLedger.NextHistoryId | src/components/ui/InventoryTable.tsx:42-45 | the next id is one more than the largest id in the history: greater than every id, with its predecessor among the ids; 1 for an empty history |
| IssueLedger.Record | src/components/ui/Tabs.tsx:54-66 | recording puts one row in front of the unchanged history, with the id one more than the largest older id (1 for an empty history) and the given operation, kind, quantity and date |
| IssueLedger.RecordKeepsIdsUnique | src/components/ui/InventoryTable.tsx:62-71 | recording keeps ids unique, puts the largest id first and keeps the older rows |
| IssueLedger.RecordKeepsDescending | src/components/ui/Tabs.tsx:54-66 | recording keeps ids strictly decreasing, and the next id is the newest plus one |
| IssueLedger.SelectedKind | src/components/ui/Tabs.tsx:107-110 | the first kind with the chosen id if one exists, otherwise the first kind, and none only for an empty list |
| IssueLedger.FindById | src/components/ui/Tabs.tsx:108 | the first kind with the id, and none exactly when no kind has it |
| IssueLedger.StepDown | src/components/ui/Tabs.tsx:134 | minus lowers the quantity by one but never below 1 |
| IssueLedger.StepUp | src/components/ui/Tabs.tsx:145 | plus raises the quantity by one |
| IssueLedger.StepDownUndoesStepUp | src/components/ui/Tabs.tsx:134-145 | minus undoes plus, and plus undoes minus above 1 |
| IssueLedger.Ledger.ForStudentTab | src/components/ui/Tabs.tsx:36-37 | the student tab starts empty, with the guard that refuses negative deltas |
| IssueLedger.Ledger.ForInventoryTable | src/components/ui/InventoryTable.tsx:40-41 | the inventory table starts from the given rows, with the guard that refuses non-positive deltas |
| IssueLedger.Ledger.UpsertActive | src/components/ui/InventoryTable.tsx:47-60 | the active rows become the upsert of the old rows |
| IssueLedger.Ledger.AddHistory | src/components/ui/Tabs.tsx:54-66 | the history gains one newest row whose id is above every older id |
| IssueLedger.Ledger.HandleIssue | src/components/ui/Tabs.tsx:68-72 | a non-positive quantity changes nothing; otherwise the kind is issued and recorded; well-formed rows and unique ids are kept |
| IssueLedger.Ledger.HandleReturn | src/components/ui/InventoryTable.tsx:80-84 | a non-positive quantity changes nothing; otherwise the kind is returned and recorded; well-formed rows and unique ids are kept |
| IssueLedger.QuantityStepper.constructor | src/components/ui/Tabs.tsx:106 | the stepper starts at 1 |
| IssueLedger.QuantityStepper.Decrement | src/components/ui/InventoryTable.tsx:142 | minus applies StepDown to the quantity |
| IssueLedger.QuantityStepper.Increment | src/components/ui/InventoryTable.tsx:149 | plus applies StepUp to the quantity |
| IssueLedger.QuantityStepper.Act | src/components/ui/Tabs.tsx:160-188 | an action issues or returns the stepper's quantity of the selected kind, giving both new ledger lists; with no kind nothing changes; the student tab resets the stepper to 1 and the quantity never drops below 1 |
| Roster.Matches | src/app/page.tsx:43 | an item matches exactly when the query occurs at some position of its lower-cased text |
| Roster.KeepMatching | src/app/page.tsx:43 | an item is kept exactly when its lower-cased text contains the query, and every occurrence of a kept value is kept |
| Roster.KeepMatchingIsSubsequence | src/app/page.tsx:43 | filtering keeps items in their original order |
| Roster.FilterOptions | src/app/page.tsx:41-44 | a blank trimmed query shows all items; otherwise exactly the matching items, each as many times as it occurs |
| Roster.FilterIsSubsequence | src/app/page.tsx:41-44 | the shown options are the items with some left out, never reordered |
| Roster.SubsequenceRefl | src/app/page.tsx:43 | the full item list is a subsequence of itself |
| Roster.FilterIgnoresPadding | src/app/page.tsx:42 | blanks typed around the query do not change the options shown |
| Roster.Dedupe | src/app/page.tsx:168 | the de-duplicated list has the same members, each once, and is no longer |
| Roster.FirstIndex | src/app/page.tsx:168 | the position of the first occurrence of a value |
| Roster.DedupeFirstOccurrenceOrder | src/app/page.tsx:168 | the de-duplicated list follows the order of first occurrences |
| Roster.DedupeShorterIffDuplicate | src/app/page.tsx:167-170 | de-duplication shortens the list exactly when some value repeats |
| Roster.Names | src/app/page.tsx:168 | the names of the residents, in order |
| Roster.Rooms | src/app/page.tsx:173 | the rooms of the residents, in order |
| Roster.Groups | src/app/page.tsx:186 | the groups of the residents, in order |
| Roster.NameOptions | src/app/page.tsx:167-170 | every resident's name appears exactly once |
| Roster.RoomOptions | src/app/page.tsx:171-181 | the residents' rooms, each once and every one present, then the five fixed rooms appended as they are |
| Roster.GroupOptions | src/app/page.tsx:184-194 | the residents' groups, each once and every one present, then the five fixed groups appended as they are |
| Roster.SeedResidents | src/app/page.tsx:108-165 | the page lists seven residents |
| Roster.SeedNameOptionsShorter | src/app/page.tsx:151-170 | the two identical sample residents make the name list shorter than the roster |
| Roster.SeedGroupOptionsRepeat | src/app/page.tsx:184-194 | "ІН-31" is offered twice among the groups, once from a resident and once from the fixed list |
| Text.DigitChar | src/app/inventory/page.tsx:32 | a digit below ten becomes its decimal character |
| Text.DigitValue | src/app/inventory/page.tsx:32 | a decimal character reads back as the digit it renders |
| Text.NatToString | src/app/inventory/page.tsx:32-33 | `String(n)` of a natural number is non-empty decimal digits without a leading zero |
| Text.ParseNatToString | src/app/inventory/page.tsx:32-33 | reading back the rendered digits gives the number |
| Text.IntToString | src/app/inventory/page.tsx:32-33 | a rendered number is non-empty and contains neither a comma nor a line break |
| Text.ParseIntToString | src/app/inventory/page.tsx:32-33 | reading back a rendered integer, sign included, gives the integer |
| Text.Join | src/app/inventory/page.tsx:34-39 | a joined text starts with the first part |
| Text.Split | src/app/inventory/page.tsx:34-39 | splitting always yields at least one piece |
| Text.SplitPrefix | src/app/inventory/page.tsx:34-39 | a separator-free prefix ends up glued onto the first piece |
| Text.SplitJoin | src/app/inventory/page.tsx:34-39 | splitting a join gives back the parts when no part contains the separator |
| Text.CountChar | src/app/inventory/page.tsx:32 | the count is at most the length, and 0 exactly when the character is absent |
| Text.CountCharAppend | src/app/inventory/page.tsx:32 | counting distributes over concatenation |
| Text.LowerChar | src/app/page.tsx:42-43 | an ASCII capital maps to its small letter, every other character to itself |
| Text.Lower | src/app/page.tsx:42-43 | lower-casing maps each character and keeps the length |
| Text.LowerAppend | src/app/page.tsx:42-43 | lower-casing distributes over concatenation |
| Text.TrimStart | src/app/page.tsx:42 | the result is the input with a run of blanks removed from its start, and does not start with a blank |
| Text.TrimEnd | src/app/page.tsx:42 | the result is the input with a run of blanks removed from its end, and does not end with a blank |
| Text.Trim | src/app/page.tsx:42 | the trimmed text is no longer than the input and has no blank at either end |
| Text.TrimIsSlice | src/app/page.tsx:42 | the trimmed text is a slice of the input with only blanks before and after it |
| Text.TrimStartSpace | src/app/page.tsx:42 | leading blanks do not change the start-trimmed text |
| Text.TrimEndSpace | src/app/page.tsx:42 | trailing blanks do not change the end-trimmed text |
| Text.TrimStartAppend | src/app/page.tsx:42 | text following the first non-blank character is kept verbatim |
| Text.TrimPadded | src/app/page.tsx:42 | surrounding blanks never change what trim returns |
| Text.ContainsAt | src/app/page.tsx:43 | `includes` holds exactly when the query occurs at some position |

## Left out

- File download: the browser side (Blob, object URL, anchor click, revoke) is left out. `ExportSelected` returns the file name and content that would be downloaded.
- Clock reads: `today()` and `new Date().toISOString()` are not modelled. The date is a parameter of `CreateSnapshot`, `AddHistory`, `HandleIssue`, `HandleReturn` and `Act`.
- Asynchronous refresh: `doRefresh`, with its timeout and loading flag, has no effect on the data, so it is not modelled.
- React mechanics are not modelled: state batching, functional updates, `useMemo` and `useCallback`. Each handler is modelled as one atomic update of the state it touches.
- The inventory table memoises the next history id. With atomic handlers, that memoised value equals `NextHistoryId` of the current history.
- Number input: `Number(e.target.value || 0)` parsing of the typed text is not modelled. `CellAction.Typed` carries the integer already parsed. Non-numeric text (NaN) is not modelled.
- `Text.Lower`: lower-cases ASCII letters only, not the full Unicode `toLowerCase` mapping. Cyrillic capitals are kept as they are, in the query and in the items alike. So a lower-case Cyrillic query such as "іван" matches "Іваненко Іван Іванович" in the page, but not in the model.
- `Text.LowerChar`: maps only the ASCII capitals A-Z to small letters, for the same reason.
- `Text.IntToString`: JavaScript numbers are doubles. The model uses unbounded integers, so fractions, exponent notation and precision loss are not modelled.
- Combobox widget: the downshift state machine (highlighting, selection, opening) is not modelled. `inputValue ?? ""` is represented by always passing a string.
- "Last inventory" metric card: its text formatting is display-only and is not modelled.
- Snapshot-date modal: the modal's date picker is display-only. Its confirmed date reaches `CreateSnapshot` as the parameter.
- Display-only components are not modelled: the sidebar, the profile and student pages, the import modal and the table markup.
- Deleting snapshots or ledger rows and recording return dates: the code does neither, so the model has no such operations.
- Snapshot ids are computed as the newest id plus one, not the largest id plus one. `RecordKeepsHistory` shows the two coincide for every history the page itself records.
- `Warehouse.ZeroCount`: its contract states bounds and the two extreme cases. The exact count is stated by `ZeroCountIsMultiplicity`.
