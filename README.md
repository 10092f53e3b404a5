# asset_manager core, modelled in Dafny

This project models the core of asset_manager, a system that tracks company assets, the people who hold them and custom fields on both. It covers seven parts:

- **The report filter engine** (`internal/repository/report.go`). A client sends a chain of filter conditions, each with a field, an operator, a value and a connector (AND/OR) that joins it to the next condition.
  - Conditions on base columns become a parameterised SQL WHERE fragment.
  - Conditions on custom fields (`prop_…` for asset properties, `attr_…` for person attributes) are checked in memory, after each returned row has been merged with its custom fields.
  - Modules: `ReportFilter` (in-memory matching and splitting), `ReportWhere` (the SQL fragment) and `ReportEngine` (the report execution and the merge).
- **The asset assignment ledger** (`internal/repository/asset_assignment.go`). Rows are per-asset holding intervals `[effective_from, effective_to)`, with soft deletes and a half-open overlap check before inserts and updates.
  - Module `AssignmentLedger`: specification functions over the rows, plus the class `AssignmentTable`, whose methods change the table.
- **The custom-value repositories** (`internal/repository/asset_property.go` and `internal/repository/person_attribute.go`).
  - The two files are the same code over two tables.
  - Their shared behaviour is stated once, as functions and lemmas, in module `CustomValues`.
  - The classes `AssetProperties.AssetPropertyTable` and `PersonAttributes.PersonAttributeTable` hold each table and delegate to it.
- **The CSV serialiser** (`shared/utils/csvExport.js`), module `CsvExport`. It covers field quoting as in section 2 of RFC 4180, the header (the union of all rows' keys) and the rows' cells.
- **The migration runner's text handling and control flow** (`cmd/migrate/main.go`), module `Migrate`. It covers comment removal, the choice of pending migrations, statement splitting, and the apply loop.
- **The notification store** (`shared/stores/notifications.js`), class `Notifications.NotificationStore`.
- **Shared primitives.** `Common` holds `Option`, `Result` and the repository errors. `Strings` holds the Go/JavaScript string functions the core calls: prefix tests, `strings.Index`, lower-casing (`strings.ToLower` on the capitals whose small letter lies at a fixed offset: ASCII, Latin-1, Greek and Cyrillic), byte order, `strings.TrimSpace`, `strings.Split` and `strings.Join`.

**External parts are parameters:**

- Clocks are an integer `now`.
- The database is a function from the WHERE fragment and its arguments to the rows or an error.
- The custom-field lookup is a function from an entity id to the scanned (name, value) rows, or to a failure.
- Migration file contents are a function from a file name to its text.
- The database's verdict on a statement is a function from the statement to a boolean.

**Where the design and the code differ, the model follows the code:**

- The design promises that SQL filtering and in-memory filtering agree. They agree only for chains whose connectors are all the same.
  - SQL gives AND precedence over OR.
  - The in-memory chain is folded strictly left to right.
  - `ReportWhere.UniformChainParity` and `ReportWhere.WhereParity` prove the agreement for uniform chains. `ReportWhere.MixedChainDisagrees` gives a chain on which the two readings differ.
- The assignment `Update` checks overlaps against the asset named in the request, not the stored one (`AssignmentLedger.UpdateNamingAnotherAssetCanOverlap`).
- `EndAssignment` runs no check at all (`AssignmentLedger.EndingLaterCanOverlap`).
- The design promises that assigning an asset and then reassigning it hands it over without a gap or an overlap. `AssignmentLedger.ReassignIsContinuous` proves this when the first holder's start has arrived by the time of the second call.
  - `AssignAsset` ends only the row that is current at `now`. A first assignment dated in the future is not current, so the second call's create clashes with it and fails (`AssignmentLedger.FutureAssignmentBlocksReassign`).
  - `AssignAsset` ends the current row before it runs the create's check, and a failed create does not undo the end. An effective date later than the current row's end can therefore leave two overlapping intervals (`AssignmentLedger.AssignCanLeaveOverlap`). `AssignmentLedger.AssignPreservesNoOverlap` proves that the invariant holds when the effective date shortens the current row.

## Model

| member | source | states |
|---|---|---|
| ReportFilter.ConnectorOf | internal/repository/report.go:313-317 | the connector is OR exactly when the stored string is "OR"; anything else means AND |
| ReportFilter.NullOperators | internal/repository/report.go:323-335 | IS NULL holds iff the field is absent, nil or ""; IS NOT NULL is its negation; an absent field fails every other operator |
| ReportFilter.PresentFieldOperators | internal/repository/report.go:337-360 | on a present field `=` is equality of the printed values and `!=` its negation; LIKE is containment after `strings.ToLower` of both sides and NOT LIKE its negation; `<`/`>=` and `>`/`<=` are complementary; an unknown operator never matches |
| ReportFilter.LikeFoldsNonAsciiCapitals | internal/repository/report.go:346-349 | LIKE matches a value in small Latin-1, Greek or Cyrillic letters against a pattern in the capitals |
| ReportFilter.LikeIgnoresCase | internal/repository/report.go:346-349 | lower-casing the stored value and the pattern does not change a LIKE result |
| ReportFilter.MatchesPostFilters | internal/repository/report.go:289-321 | the loop computes the strict left fold of the conditions' truth values with the connectors of the preceding conditions; the empty chain matches |
| ReportFilter.FoldAllAnd | internal/repository/report.go:299-318 | a chain joined only by AND matches iff every condition holds |
| ReportFilter.FoldAllOr | internal/repository/report.go:299-318 | a chain joined only by OR matches iff some condition holds |
| ReportFilter.ConnectorsRead | internal/repository/report.go:313-317 | the last condition's connector is never read, and any two non-"OR" connectors are interchangeable |
| ReportFilter.ChainAppend | internal/repository/report.go:299-318 | a one-condition chain is that condition; appending a condition combines the whole earlier chain with it through the previous connector (strict left to right) |
| ReportFilter.SeparateFilters | internal/repository/report.go:265-275 | the SQL list is the filters whose field lacks the prop_/attr_ prefix, and the post list those that have it, both in order |
| ReportFilter.SeparateIsPartition | internal/repository/report.go:265-275 | every filter goes to exactly one list: the multisets add up to the input |
| ReportFilter.ApplyPostFilters | internal/repository/report.go:277-287 | the loop returns the rows that satisfy the chain, in order |
| ReportFilter.SelectedRows | internal/repository/report.go:277-287 | a row is kept iff it is an input row satisfying the chain; never more rows than given |
| ReportFilter.SelectedAppend | internal/repository/report.go:280-284 | selection distributes over concatenation (order preserved) |
| ReportFilter.SelectedEmptyChain | internal/repository/report.go:291-293 | the empty chain keeps every row |
| ReportWhere.SanitizeFieldName | internal/repository/report.go:363-391 | the column is empty iff the field is not one of the fifteen mapped names |
| ReportWhere.CustomFieldHasNoColumn | internal/repository/report.go:387-390 | a prop_/attr_ field never gets a column |
| ReportWhere.BuildWhereClauseCases | internal/repository/report.go:209-254 | a filter is dropped iff its field is unmapped or its operator unknown; otherwise its clause uses the column and operator; IS [NOT] NULL binds nothing, LIKE/NOT LIKE bind `%value%`, comparisons bind the value (nil included) |
| ReportWhere.BuildWhereClauseWithLogic | internal/repository/report.go:171-207 | the loop yields the tokens, the arguments and the counter bump of the compiled chain |
| ReportWhere.CompileShape | internal/repository/report.go:179-203 | the fragment is empty iff no filter is kept; otherwise it alternates the kept clauses in order with connectors, and the connector before a kept clause is the one stored on the filter just before it in the original chain, kept or not |
| ReportWhere.PlaceholderAccounting | internal/repository/report.go:215-251 | with the argument binding of report.go lines 196-198, the number of `?` placeholders equals the counter bumps, which equal the bound arguments plus the nil-valued comparisons |
| ReportWhere.SqlAllAnd | internal/repository/report.go:185-195 | with only AND connectors, the database accepts iff every clause holds |
| ReportWhere.SqlAllOr | internal/repository/report.go:185-195 | with only OR connectors, the database accepts iff some clause holds |
| ReportWhere.UniformChainParity | internal/repository/report.go:299-318 | against the SQL chain of report.go lines 185-195: with uniform connectors, the SQL reading and the in-memory left fold agree |
| ReportWhere.MixedChainDisagrees | internal/repository/report.go:299-318 | against the SQL chain of report.go lines 185-195: `T OR F AND F` is true in SQL and false in the left fold |
| ReportWhere.WhereParity | internal/repository/report.go:171-207 | against the fold of report.go lines 299-318: when every filter is kept and the connectors are uniform, the fragment's connectors are the chain's, and the database's verdict equals the in-memory verdict |
| ReportWhere.CompiledConnectors | internal/repository/report.go:185-195 | when every filter is kept, the fragment alternates and its connectors are the chain's links |
| ReportEngine.Prefix | internal/repository/report.go:415 | (and line 443 for persons) each entity's custom-field keys carry a prefix that separateFilters routes to the post list |
| ReportEngine.CollectCustomFields | internal/repository/report.go:407-418 | the scan loop builds the prefixed name-to-value map; unscannable rows are skipped and a later row wins |
| ReportEngine.CustomFieldsKeys | internal/repository/report.go:407-418 | every key is the prefix plus a scanned name, and every scanned name has its key |
| ReportEngine.CustomFieldsLastWins | internal/repository/report.go:408-416 | a key holds the value of the last scanned row with that name |
| ReportEngine.CustomFieldsPrefixed | internal/repository/report.go:415 | (and line 443 for persons) every custom key carries the prefix |
| ReportEngine.MergeRowContent | internal/repository/report.go:87-96 | a merged row keeps every unprefixed base column; it is unchanged when the lookup fails; otherwise its keys are the base keys plus the custom keys, and the custom keys hold the looked-up values |
| ReportEngine.MergeCustomFields | internal/repository/report.go:87-96 | (and lines 152-161 for persons) the merge loop merges each row, in order, with its custom fields |
| ReportEngine.ExecuteReport | internal/repository/report.go:31-104 | (and lines 106-169 for persons) the fragment and arguments are those of the base filters; a database error is returned as is; otherwise the result is the merged rows that satisfy the custom-field chain, in the database's order |
| ReportEngine.ReportRows | internal/repository/report.go:98-103 | a report never has more rows than the query answered; a row is in it iff it is a merged row that satisfies the custom chain; with no custom filter, every merged row |
| AssignmentLedger.CheckEnd | internal/repository/asset_assignment.go:126-130 | the checked end is the given end, or a point after now when the interval is open |
| AssignmentLedger.CountConflicts | internal/repository/asset_assignment.go:114-122 | the count is positive iff some row conflicts, and at most the number of rows |
| AssignmentLedger.CheckOverlap | internal/repository/asset_assignment.go:114-122 | overlap iff some live row of the asset other than the excluded id starts before the end and does not end by the start |
| AssignmentLedger.TouchingIsNoConflict | internal/repository/asset_assignment.go:116-118 | intervals that only touch (one ends where the other starts) do not conflict |
| AssignmentLedger.ConflictIsOverlap | internal/repository/asset_assignment.go:114-130 | for a stored interval before the sentinel, the check's conflict is exactly the half-open overlap with the requested interval |
| AssignmentLedger.CreatePreservesNoOverlap | internal/repository/asset_assignment.go:125-155 | when the check passes, inserting keeps the live intervals of each asset pairwise disjoint |
| AssignmentLedger.Updated | internal/repository/asset_assignment.go:169-176 | only the live row with the request's id changes, taking the request's person, dates and notes; its asset, id and tombstone are kept, since the UPDATE never sets asset_id |
| AssignmentLedger.UpdatePreservesNoOverlap | internal/repository/asset_assignment.go:158-180 | when the check passes and the request names the row's own asset, updating keeps the intervals disjoint |
| AssignmentLedger.UpdateNamingAnotherAssetCanOverlap | internal/repository/asset_assignment.go:159-176 | an update naming another asset passes the check yet makes two intervals of the stored asset overlap |
| AssignmentLedger.Ended | internal/repository/asset_assignment.go:183-188 | only the live row with that id changes, taking the new end |
| AssignmentLedger.EndPreservesNoOverlap | internal/repository/asset_assignment.go:183-188 | ending a row no later than it already ends keeps the intervals disjoint |
| AssignmentLedger.EndingLaterCanOverlap | internal/repository/asset_assignment.go:183-188 | ending a row later than it ends can overlap the next interval, since no check runs |
| AssignmentLedger.Deleted | internal/repository/asset_assignment.go:191-195 | only the live row with that id changes, tombstoned at now |
| AssignmentLedger.DeleteIdempotent | internal/repository/asset_assignment.go:191-195 | deleting twice is deleting once |
| AssignmentLedger.DeletePreservesNoOverlap | internal/repository/asset_assignment.go:191-195 | deleting keeps the intervals disjoint |
| AssignmentLedger.GetByID | internal/repository/asset_assignment.go:30-44 | the live row with that id, or AssetAssignmentNotFound when there is none |
| AssignmentLedger.GetCurrentByAssetID | internal/repository/asset_assignment.go:47-64 | a current row of the asset with the latest start, or not found iff the asset has no current row |
| AssignmentLedger.SortDesc | internal/repository/asset_assignment.go:76 | (and lines 91 and 108) ORDER BY effective_from DESC: the same rows (as a multiset), latest start first |
| AssignmentLedger.GetHistoryByAssetID | internal/repository/asset_assignment.go:67-79 | exactly the live rows of the asset, latest start first |
| AssignmentLedger.GetByPersonID | internal/repository/asset_assignment.go:82-94 | exactly the live rows of the person, latest start first |
| AssignmentLedger.GetCurrentByPersonID | internal/repository/asset_assignment.go:97-111 | exactly the person's rows in effect at now, latest start first |
| AssignmentLedger.AssignmentTable.Create | internal/repository/asset_assignment.go:125-155 | on overlap fails with OverlappingAssignment and changes nothing; otherwise appends the row under a fresh id and returns it; keeps the intervals disjoint |
| AssignmentLedger.AssignmentTable.Update | internal/repository/asset_assignment.go:158-180 | on overlap fails and changes nothing; otherwise rewrites the live row with the request's id; keeps the intervals disjoint when the request names the row's own asset |
| AssignmentLedger.AssignmentTable.EndAssignment | internal/repository/asset_assignment.go:183-188 | sets the end of the live row with that id, with no check |
| AssignmentLedger.AssignmentTable.Delete | internal/repository/asset_assignment.go:191-195 | tombstones the live row with that id; keeps the intervals disjoint |
| AssignmentLedger.AssignmentTable.AssignAsset | internal/repository/asset_assignment.go:198-215 | the new table and result are `Assigned` of the old table: the asset's current row ends at the effective date, then an open row for the person is created, and a failed create leaves the end in place; the id counter moves only on success; the no-overlap invariant is kept when the effective date shortens the current row |
| AssignmentLedger.AssignPreservesNoOverlap | internal/repository/asset_assignment.go:198-215 | with unique non-zero ids, no overlap, no start past the sentinel and an effective date no later than the current row's end, the table after AssignAsset has no overlap, whether the create succeeds or fails |
| AssignmentLedger.AssignCanLeaveOverlap | internal/repository/asset_assignment.go:198-215 | a concrete table on which the end extends the current row, the create then fails, and the two live intervals overlap |
| AssignmentLedger.ReassignIsContinuous | internal/repository/asset_assignment.go:198-215 | from an empty table, assigning at t1 and then at t2 with t1 no later than the second call's `now` gives rows [t1, t2) and [t2, open) under consecutive ids, with no overlap |
| AssignmentLedger.FutureAssignmentBlocksReassign | internal/repository/asset_assignment.go:198-215 | an assignment dated after `now` is not current, so a second assignment is refused with OverlappingAssignment and the table stays as it was |
| CustomValues.FindLive | internal/repository/asset_property.go:93-98 | the first live row of the (owner, definition) pair, or none iff the pair has no live row |
| CustomValues.GetByID | internal/repository/asset_property.go:26-38 | the live row with that id, or the not-found error when there is none |
| CustomValues.GetByOwner | internal/repository/asset_property.go:41-51 | exactly the owner's live rows, taken from the table |
| CustomValues.ValueSet | internal/repository/asset_property.go:69-74 | only the live row with that id changes, taking the new value |
| CustomValues.Deleted | internal/repository/asset_property.go:77-81 | only the live row with that id changes, tombstoned at now |
| CustomValues.DeletedByOwner | internal/repository/asset_property.go:84-88 | only the owner's live rows change, tombstoned at now |
| CustomValues.UpsertKeepsUniqueLive | internal/repository/asset_property.go:91-104 | upsert keeps at most one live row per (owner, definition) pair |
| CustomValues.UpsertStoresValue | internal/repository/asset_property.go:91-104 | after upsert the pair's live row holds the value under the returned id; an existing pair keeps its id and the table size; a new pair is appended under the next id |
| CustomValues.CreateCanDuplicatePair | internal/repository/asset_property.go:54-66 | Create runs no check: creating a pair twice leaves two live rows for it |
| CustomValues.DeleteIdempotent | internal/repository/asset_property.go:77-81 | deleting twice is deleting once |
| CustomValues.DeleteHides | internal/repository/asset_property.go:77-81 | after delete, GetByID of that id is not found; one live row per pair is preserved |
| CustomValues.DeleteByOwnerScope | internal/repository/asset_property.go:84-88 | after deleting by owner, the owner lists nothing and every other owner lists the same rows |
| CustomValues.DeleteByOwnerKeepsUniqueLive | internal/repository/asset_property.go:84-88 | deleting by owner preserves one live row per pair |
| AssetProperties.AssetPropertyTable.GetByID | internal/repository/asset_property.go:26-38 | the live row with that id, or AssetPropertyNotFound |
| AssetProperties.AssetPropertyTable.GetByAssetID | internal/repository/asset_property.go:41-51 | exactly the asset's live property rows |
| AssetProperties.AssetPropertyTable.Create | internal/repository/asset_property.go:54-66 | appends a live row under the next id and returns that id |
| AssetProperties.AssetPropertyTable.Update | internal/repository/asset_property.go:69-74 | sets the value of the live row with that id |
| AssetProperties.AssetPropertyTable.Delete | internal/repository/asset_property.go:77-81 | tombstones the live row with that id, which GetByID then no longer finds |
| AssetProperties.AssetPropertyTable.DeleteByAssetID | internal/repository/asset_property.go:84-88 | tombstones the asset's live rows; the asset then lists nothing and other assets are untouched |
| AssetProperties.AssetPropertyTable.Upsert | internal/repository/asset_property.go:91-104 | updates the pair's live row or creates one; afterwards the pair's live row holds the value under the returned id, and one live row per pair is preserved |
| PersonAttributes.PersonAttributeTable.GetByID | internal/repository/person_attribute.go:26-38 | the live row with that id, or PersonAttributeNotFound |
| PersonAttributes.PersonAttributeTable.GetByPersonID | internal/repository/person_attribute.go:41-51 | exactly the person's live attribute rows |
| PersonAttributes.PersonAttributeTable.Create | internal/repository/person_attribute.go:54-66 | appends a live row under the next id and returns that id |
| PersonAttributes.PersonAttributeTable.Update | internal/repository/person_attribute.go:69-74 | sets the value of the live row with that id |
| PersonAttributes.PersonAttributeTable.Delete | internal/repository/person_attribute.go:77-81 | tombstones the live row with that id, which GetByID then no longer finds |
| PersonAttributes.PersonAttributeTable.DeleteByPersonID | internal/repository/person_attribute.go:84-88 | tombstones the person's live rows; the person then lists nothing and other persons are untouched |
| PersonAttributes.PersonAttributeTable.Upsert | internal/repository/person_attribute.go:91-103 | updates the pair's live row or creates one; afterwards the pair's live row holds the value under the returned id, and one live row per pair is preserved |
| CsvExport.EscapeCSVValue | shared/utils/csvExport.js:72-85 | null/undefined give ""; text without a comma, quote or line feed is unchanged (a lone CR does not force quoting); otherwise the text is wrapped in quotes with its quotes doubled |
| CsvExport.EscapeRoundTrip | shared/utils/csvExport.js:80-84 | stripping the outer quotes and collapsing doubled quotes recovers the original text |
| CsvExport.CollapseDoubleQuotes | shared/utils/csvExport.js:81 | collapsing `""` undoes doubling every `"` |
| CsvExport.EscapeAvoidsNewline | shared/utils/csvExport.js:72-85 | escaping never introduces a line feed |
| CsvExport.CollectHeaders | shared/utils/csvExport.js:13-18 | the allKeys loop yields the first-seen-order deduplication of every row's keys |
| CsvExport.HeadersAreUnion | shared/utils/csvExport.js:13-18 | the header has no duplicates, holds exactly the keys of some row, and lists them in the order they were first seen |
| CsvExport.RowCells | shared/utils/csvExport.js:24-46 | every row yields exactly one cell per header |
| CsvExport.RowCellsDecode | shared/utils/csvExport.js:24-46 | each cell decodes to the row's value under that header, or "" when the row has no own property of that name or the value is null |
| CsvExport.ExportToCSV | shared/utils/csvExport.js:6-49 | nothing for absent or empty data; otherwise the header line and one line per row, joined by line feeds |
| CsvExport.CsvLines | shared/utils/csvExport.js:21-49 | when no key or value holds a line feed, the text splits into exactly the header line and one line per row |
| Migrate.CleanLine | cmd/migrate/main.go:119-123 | a cleaned line is trimmed and contains no `--` |
| Migrate.RemoveComments | cmd/migrate/main.go:114-131 | the builder loop emits each non-empty cleaned line followed by a line feed |
| Migrate.RemovedCommentsLines | cmd/migrate/main.go:115-130 | the output splits at line feeds into the kept lines plus a final empty piece; each kept line is non-empty, trimmed and free of `--`; the output is "" iff every input line is blank or a comment |
| Migrate.RemoveCommentsIdempotent | cmd/migrate/main.go:114-131 | removing comments twice is removing them once |
| Migrate.CommentMarkerInLiteralCuts | cmd/migrate/main.go:120-122 | a `--` inside a string literal still cuts the line |
| Migrate.Statements | cmd/migrate/main.go:88-94 | every statement is non-empty, trimmed and free of `;` |
| Migrate.StatementsOf | cmd/migrate/main.go:89-94 | the statements are exactly the non-empty trimmed pieces |
| Migrate.Version | cmd/migrate/main.go:74 | the version plus ".sql" is the file name |
| Migrate.SortStrings | cmd/migrate/main.go:70 | sort.Strings yields an ascending permutation |
| Migrate.Candidates | cmd/migrate/main.go:64-69 | exactly the names of non-directory entries ending in ".sql" |
| Migrate.Pending | cmd/migrate/main.go:73-79 | exactly the migrations whose version is not applied |
| Migrate.PlanMigrations | cmd/migrate/main.go:53-79 | the loops yield the sorted candidates whose version is not applied |
| Migrate.PlanChoosesPending | cmd/migrate/main.go:53-79 | the plan is ascending and holds a name iff it is a listed non-directory ".sql" file whose version is not applied |
| Migrate.RunStatements | cmd/migrate/main.go:90-99 | statements run in order until the first refused one |
| Migrate.ApplyPending | cmd/migrate/main.go:73-108 | without a failure, every statement of every pending migration runs in order and every version is recorded in order; on a failure, the refused statement is the last one run, only the earlier migrations are recorded, and what ran is all of their statements followed by a non-empty prefix of the failing migration's statements |
| Notifications.Without | shared/stores/notifications.js:42-44 | keeps exactly the notifications with another id |
| Notifications.WithoutAbsent | shared/stores/notifications.js:42-44 | removing an unknown id changes nothing |
| Notifications.WithoutIdempotent | shared/stores/notifications.js:42-44 | removing twice is removing once |
| Notifications.WithoutAscending | shared/stores/notifications.js:42-44 | the remaining notifications keep their order |
| Notifications.WithoutPresent | shared/stores/notifications.js:42-44 | removing a present id removes exactly one notification |
| Notifications.NotificationStore.Add | shared/stores/notifications.js:11-24 | returns the old counter and increments it, so ids are fresh and increasing; appends the notification with kind "info" by default; schedules its removal when the timeout (default 5000) is positive |
| Notifications.NotificationStore.Success | shared/stores/notifications.js:26-28 | adds with kind "success" and default timeout 5000 |
| Notifications.NotificationStore.Error | shared/stores/notifications.js:30-32 | adds with kind "danger" and default timeout 8000 |
| Notifications.NotificationStore.Warning | shared/stores/notifications.js:34-36 | adds with kind "warning" and default timeout 6000 |
| Notifications.NotificationStore.Info | shared/stores/notifications.js:38-40 | adds with kind "info" and default timeout 5000 |
| Notifications.NotificationStore.Remove | shared/stores/notifications.js:42-44 | drops exactly the notification with that id, keeping the order; an unknown id changes nothing |
| Notifications.NotificationStore.FireTimer | shared/stores/notifications.js:17-21 | a firing timer is consumed and removes its notification |
| Notifications.NotificationStore.Clear | shared/stores/notifications.js:46-48 | empties the list and keeps the counter |
| Strings.Index | internal/repository/report.go:347 | the first occurrence, or -1 iff none |
| Strings.TrimSpace | cmd/migrate/main.go:123 | the result is a slice of the input with no whitespace at either end; trimmed text is unchanged |
| Strings.JoinSplit | cmd/migrate/main.go:116 | joining the pieces with the separator gives back the text |
| Strings.SplitJoin | shared/utils/csvExport.js:49 | splitting text made by joining separator-free pieces recovers the pieces |
| Strings.CompareTransitive | cmd/migrate/main.go:70 | byte order is transitive |
| Strings.OrderingOperatorsComplementary | internal/repository/report.go:350-357 | `<` and `>=` (and `>` and `<=`) split every pair of strings |

## Left out

- Row and field shapes: rows are modelled as maps from names to `Option<string>`. The `[]byte` → string conversion of convertBytesToStrings and Go's printing of non-string values (numbers, times) are not modelled; every value is already text or nil.
- The SELECT list, joins and `ORDER BY a.name` of the report queries are not modelled: the database is a parameter, so the row order is whatever the parameter answers.
- The report's custom-field queries read tombstoned property and attribute rows too (they have no `deleted_at IS NULL`). The lookup is a parameter, so this is not captured.
- ReportEngine.MergeCustomFields: is modelled on values. The Go loop writes into the shared result maps in place; aliasing of those maps is not modelled.
- A nil result slice versus an empty one (both encode differently as JSON) is not distinguished.
- Report argCounter: the model returns the counter bump; the counter does not feed into the SQL text, which uses `?`.
- Timestamps: created_at, updated_at and the joined asset, person, property and attribute names are not part of the rows.
- AssignmentLedger.CheckEnd: `AddDate(100, 0, 0)` is approximated by a fixed offset of 36524 days; calendar arithmetic and time zones are not modelled.
- The `ORDER BY p.name` of GetByAssetID/GetByPersonID is not modelled: the lists are in table order, with exact membership.
- Database failures of the custom-value repositories and of the ledger (other than not-found and overlap) are not modelled; each operation either succeeds or returns its documented error.
- Concurrency: two requests interleaving between CheckOverlap and the INSERT, or between the Upsert lookup and the insert, are not modelled.
- CsvExport.RowCells: the Date (`toISOString`) and object (`JSON.stringify`) branches are not modelled; values are already text or null. Object.keys ordering rules for integer-like keys are not modelled; a row is its keys in the given order. A header that names an inherited Object.prototype member (`toString`, `constructor`, `valueOf`, `hasOwnProperty`, `__proto__`, …) is read from the prototype in a row that lacks it as an own key; the model gives the empty field there.
- CsvExport.RowCellsDecode: its empty field for a missing key holds only for keys that are not Object.prototype members. For such a key, JavaScript prints the inherited value (`function toString() { [native code] }`, or `{}` for `__proto__`). Report rows carry only column names and `prop_`/`attr_` keys, so they never meet this case.
- The Blob/DOM download part of exportToCSV and the clock-dependent generateFilename are not modelled.
- Migrate: loading the configuration, connecting, creating schema_migrations, reading the directory and files, and log output are not modelled; their results are parameters. A failing directory read or file read aborts the program and is not modelled; a refused statement is.
- ReportFilter.PresentFieldOperators: LIKE and NOT LIKE lower-case only the capitals of ASCII, Latin-1 (U+00C0-U+00DE), Greek (U+0391-U+03A9) and Cyrillic (U+0400-U+042F). Go's `strings.ToLower` applies the whole Unicode case table (Latin Extended, Armenian, Georgian, the Kelvin sign and others); those letters are kept unchanged here (`Strings.LowerChar`). The model works on code points, so it does not show that lower-casing can change a string's length in UTF-8 bytes.
- Migrate.ApplyPending: the INSERT into schema_migrations is assumed to succeed; its failure (which also aborts the program) is not modelled.
- Notifications: the Svelte store's subscribe is not modelled; the timer delay is recorded but time does not pass — a timer fires when FireTimer is called.
