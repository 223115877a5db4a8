# DQA environmental-standard registry, modelled in Dafny

This project models the core of the DQA Environmental Standard Checker. The checker is a
browser page (`app.js`) that keeps a registry of environmental test standards. It has two
reconcilers, against a seed data file and against a verification report. The companion
script `verify_standards.py` loads the data file, scrapes each standard's web page and
classifies the result.

The model is split into modules that follow the program's structure:

| module | file | what it models |
|---|---|---|
| `Text` | text.dfy | JavaScript string primitives the core relies on: `trim`, `toUpperCase`/`toLowerCase`, `includes`, `indexOf`, `split`/`join`, `/\d{4}/`, and property values that may be missing (`Field`) |
| `Record` | record.dfy | a standard record, the stress-type taxonomy (`SUBCATEGORY_MAP`, `getSubcategory`), the default order lists, `find`/`findIndex` by id |
| `Csv` | csv.dfy | `parseCSV`: line splitting, the quote-aware field loop, mapping fields to headers, de-duplication by name |
| `Reconcile` | reconcile.dfy | the check-updates comparison of the seed collection with the current one |
| `Merge` | merge.dfy | both `applyUpdates` merges: the confirm-button merge with its revision summary, and the top-level Update All merge |
| `Verify` | verify.dfy | `load_standards` with its `get_field` regex, `verify_standard_logic`, and the classification loop of `run_verification` |
| `Report` | report.dfy | the report-issue reconciler: extracting `Live='…'` values from issues and folding them into updates |
| `Dates` | dates.dfy | `formatDate`, `isExpired`, `isExpiringThisYear` for stability years |
| `View` | view.dfy | `renderStandards`: the normalised filter, the two-level grouping, the category order and the subcategory sort |
| `Ordering` | ordering.dfy | `moveStandard`, `moveCategory`, `moveSubcategory`, and the add, edit and delete handlers |
| `Registry` | registry.dfy | the page's mutable state as a class; each handler is a method proved equal to the function above that specifies it |

Most of the logic is pure, so it is modelled as functions with lemmas. The loops that update
variables are methods with loop invariants, proved equal to those functions:

- CSV field splitting;
- header mapping;
- de-duplication;
- loading;
- the verification loop;
- grouping;
- the registry handlers.

The page's mutable state (`standards`, `categoryOrder`, `subcategoryOrder`,
`pendingDeleteId`) is the class `Registry.Registry`.

Where the code behaves differently from its documented intent, the model follows the code:

- `parseCSV`: the field loop never copies a `"` into a field. So the "strip surrounding
  quotes" and `""`-unescape steps never apply, and a doubled quote inside a quoted field
  disappears instead of becoming `"` (`Csv.QuotedRowFields`, `Csv.CleanValueOfQuoteFree`).
- The confirm-button merge overwrites all eight fields with the update's values whether or
  not they are empty. A blank seed cost therefore clears the local cost, even though the
  comparison ignores blank values (`Merge.BlankCostIsCleared`).
- The check-updates path never sets `oldExpiry`. So every UPDATE with a seed expiry that
  holds a year gets a `穩定性:` clause and a synthesised summary
  (`Merge.CheckUpdatesStabilityClause`).

## Model

| member | source | states |
|---|---|---|
| Record.GetSubcategory | app.js:28-30 | a listed stress type gets its table entry; a missing or unknown one gets `其他` with order 99 |
| Record.FindIndex | app.js:1160 | the index of the first record with the id, or -1 exactly when no record has it |
| Record.Find | app.js:1010 | the record at the first index with the id, or none exactly when the id is absent |
| Record.GroupItems | app.js:790-793 | a record is in the group exactly when it is in the collection and has the group's category and subcategory keys |
| Text.TrimIdempotent | app.js:918 | trimming twice is trimming once |
| Text.IndexOf | app.js:824 | -1 exactly when the entry is absent; otherwise the first position holding it |
| Csv.SplitLinesNoNewline | app.js:90 | no line produced by the split contains a newline |
| Csv.ScanFacts | app.js:103-118 | after the field loop: the quote flag is the parity of the quotes seen; one field is pushed per unquoted comma; no field holds a quote; joining the fields with commas gives the line without its quotes |
| Csv.SplitRow | app.js:103-118 | the loop computes the specified fields: one more than the unquoted commas, none holding a quote |
| Csv.QuotedRowFields | app.js:103-118 | a quoted field keeps its commas, and a doubled quote inside quotes vanishes |
| Csv.CleanValueOfQuoteFree | app.js:124-129 | on a quote-free field, stripping and unescaping reduce to trimming |
| Csv.RowObjectFacts | app.js:121-132 | a header is a key exactly when its index is below the row's length; no value holds a quote |
| Csv.MapToHeaders | app.js:121-132 | the header loop builds the specified object |
| Csv.CleanField | app.js:124-129 | the mapping step stores for a raw field the cleaned value that the three lemmas on quote-free, quoted and doubled-quote fields describe |
| Csv.CleanValueOfQuoted | app.js:124-129 | a field that trims to a quoted text without inner quotes is stored as exactly that text, the quotes and the outer white space gone |
| Csv.CleanValueOfDoubledQuote | app.js:124-129 | inside the surrounding quotes a doubled quote is stored as a single quote, the text around it kept |
| Csv.RecordsFacts | app.js:96-135 | every kept row has a non-empty id, there are at most as many rows as data lines, and no value holds a quote |
| Csv.SeenKeysSpec | app.js:139-146 | the seen set holds exactly the non-empty name keys of the rows so far |
| Csv.DedupIsFirstOccurrences | app.js:138-147 | de-duplication keeps exactly the first row of each non-empty name key, in order |
| Csv.DedupKeys | app.js:138-147 | kept rows have non-empty, pairwise distinct keys, and every key seen is kept |
| Csv.DedupFromRows | app.js:138-147 | de-duplication only drops rows |
| Csv.DedupRows | app.js:138-147 | the loop computes the specified de-duplication |
| Csv.ParseCsv | app.js:89-150 | the parser computes the specified rows |
| Csv.ParseCsvFacts | app.js:89-150 | every parsed row has an id and a non-blank name; names are distinct ignoring case; no value holds a quote; the result is the first occurrences of the data rows |
| Reconcile.ReconcileOneNew | app.js:1010-1027 | a seed yields a NEW update exactly when its id is unknown, and then exactly one, carrying its values |
| Reconcile.ReconcileOneChange | app.js:1028-1055 | a seed with a known id yields an update exactly when a compared field differs with both sides non-empty; VERSION exactly when the version differs |
| Reconcile.EmptyFieldNeverDiffs | app.js:1029-1033 | a field that is empty on either side never counts as changed |
| Reconcile.ReconcileCounts | app.js:1009-1058 | the NEW updates number the unknown seed ids; at most one update per seed; every update's id comes from a seed |
| Reconcile.ReconcileAppend | app.js:1009 | reconciling a concatenation is concatenating the reconciliations, so the loop is order-preserving |
| Reconcile.VersionBumpScenario | app.js:1028-1055 | a version bump with a blank seed cost yields one VERSION update and the cost counts as unchanged |
| Merge.ExpiryYear | app.js:1172-1173 | a year extracted from an expiry value is four digits taken from a non-empty value |
| Merge.RevisionSummary | app.js:1163-1191 | with changes, the summary is the dated prefix followed by the change clauses joined by `; `; without, it is the new summary, else the old one, else empty |
| Merge.ChangesShape | app.js:1163-1182 | at most four clauses, in the fixed order version, date, stability, cost; each is present exactly when its field changed (stability only when the new value has a year) |
| Merge.CheckUpdatesStabilityClause | app.js:1037-1054 | an UPDATE from check-updates whose seed expiry has a year always carries the stability clause and a dated summary |
| Merge.NewRecord | app.js:1145-1155 | the appended record has the update's id and name, no stress type and no source URL |
| Merge.Merged | app.js:1193-1200 | the merged record keeps id, name and stress type, takes version, dates, cost, description, category and source URL from the update, and takes the synthesised summary |
| Merge.MergedIdempotent | app.js:1163-1200 | merging the same update twice is merging it once |
| Merge.ApplyOneFacts | app.js:1142-1204 | NEW appends at the end; UPDATE with an unknown id changes nothing; UPDATE with a known id rewrites only the first record with it; counters follow |
| Merge.ApplyAllCounts | app.js:1138-1204 | the ids after the merge are the old ids followed by the NEW ids; the collection grows by the NEW count; the two counts total at most the number of updates |
| Merge.ApplyAllIsPatch | app.js:1158-1203 | without NEW updates the merge patches the first record of each id |
| Merge.AfterTwice | app.js:1163-1200 | a record merged with all the UPDATEs carrying its id, in order, is left as it is by a second round of them, however many carry that id |
| Merge.ApplyAllIdempotent | app.js:1142-1204 | without NEW updates, re-applying the updates changes nothing, also when several carry the same id |
| Merge.BlankCostIsCleared | app.js:1193-1200 | the comparison ignores a blank seed cost, but the merge clears the local cost and records a cost clause |
| Merge.Overlay | app.js:59-64 | the top-level merge keeps id, name, description, category and stress type |
| Merge.AfterOverlay | app.js:55-67 | a record ends with, per field, the last non-empty value the updates with its id carry, or its own |
| Merge.TruthyNeverCleared | app.js:55-67 | the top-level merge never empties a non-empty field and keeps id, name, description and category |
| Merge.ApplyTruthyIdempotent | app.js:55-67 | applying the top-level merge twice is applying it once |
| Verify.FirstDigits | verify_standards.py:437-440 | the first digit run: none exactly when no digit occurs; otherwise a non-empty string of digits |
| Verify.FirstNumber | verify_standards.py:315-319 | the first number token: none exactly when no digit occurs; otherwise it starts with a digit |
| Verify.EditionTokenEmpty | verify_standards.py:315-319 | the edition token is empty exactly when the value is |
| Verify.DigitsOnly | verify_standards.py:332-333 | the price digits: only digits, no longer than the value |
| Verify.DigitsOnlyFacts | verify_standards.py:332-333 | empty exactly when no digit occurs; identity on a digit string |
| Verify.DigitsOnlyAppend | verify_standards.py:332-333 | the digits of a concatenation are the digits of each part, in order |
| Verify.DigitsOnlySingle | verify_standards.py:332-333 | a single character is kept exactly when it is a digit |
| Verify.EditionIssueIff | verify_standards.py:314-324 | an edition issue exactly when the live token is non-empty and the local one is empty or different; `(empty)` stands for a blank local version |
| Verify.CostIssueFacts | verify_standards.py:331-337 | no cost issue without live digits or with equal digits; otherwise the issue text, with `(empty)` for a blank local cost |
| Verify.DateStabilityIff | verify_standards.py:326-344 | a date issue exactly when the live date differs; a stability issue exactly when the live year is not in the local expiry; an empty live year never raises one |
| Verify.IssueOrder | verify_standards.py:310-345 | no live keys give no issues; issues come in the order edition, date, cost, stability |
| Verify.StripFromNoComment | verify_standards.py:66 | a text without `//` is unchanged by comment removal |
| Verify.GetField | verify_standards.py:74-77 | a field value never contains a quote |
| Verify.GetFieldAbsent | verify_standards.py:74-77 | a field name that does not occur gives the empty string |
| Verify.GetFieldJson | verify_standards.py:74-77 | a JSON-style `"name": "value"` pair whose value holds no `"` is read back as the value |
| Verify.LoadedFacts | verify_standards.py:68-88 | at most one record per chunk; every record has a non-empty id and name and quote-free values |
| Verify.LoadStandards | verify_standards.py:58-90 | the loop computes the specified records, each with a non-empty id and name |
| Verify.EntryFacts | verify_standards.py:357-450 | skipped exactly for a missing or search URL; an IEC page is a mismatch exactly when the logic reports issues; mismatches have issues, OK entries have none; id and URL are kept |
| Verify.RunVerification | verify_standards.py:357-450 | the loop produces the specified entry for every record, in order |
| Verify.EntriesIndex | verify_standards.py:357-450 | entry k of the report is the entry of record k |
| Report.CloseFrom | app.js:1311 | the closing quote found is the first quote, with no line terminator before it |
| Report.LiveFrom | app.js:1311 | an extracted live value holds no quote and no line terminator |
| Report.LiveRoundTrip | app.js:1311 | the live value written into an issue by the verifier is read back exactly, when tag, local and live value hold no `'`, the live value no line break, and the local value does not end in `Live=` |
| Report.IssuesRoundTrip | app.js:1309-1331 | each issue the verifier emits yields the scraped live value when read back, when the local values hold no `'` and do not end in `Live=`, and the live values hold no `'` and no line break |
| Report.FoldIssueFacts | app.js:1309-1331 | a Date, Cost or Edition issue sets its field to the live value; a Stability issue stores it in stability form; under the same conditions as `Report.LiveRoundTrip` |
| Report.UntaggedIssuesNoUpdate | app.js:1309-1342 | issues without one of the four tags leave the values unchanged and yield no update |
| Report.ReportUpdateFacts | app.js:1334-1361 | an update exactly when one of the four values changed; it is a DATA update keeping the local old values, summary, description and category, with the report URL |
| Report.ReportReconcileFacts | app.js:1294-1363 | at most one update per entry; every update comes from a MISMATCH entry whose id is known |
| Report.ReportReconcileAppend | app.js:1294 | the reconciler is order-preserving over the entries |
| Dates.StabilityYear | app.js:238-241 | a year exactly when the value holds a four-digit run, and then below 10000 |
| Dates.FormatDate | app.js:235-252 | `-` for an empty value; a stability value shows its first year or itself |
| Dates.ExpiredIsExpiring | app.js:254-296 | whatever is expired is expiring this year |
| Dates.ExpiringMonotone | app.js:254-296 | expiring this year, and an expired stability value, stay so in later years |
| Dates.StabilityWithoutYear | app.js:254-296 | a stability value without a year is neither expired nor expiring and shows as itself |
| Dates.StabilityRoundTrip | app.js:235-296 | a year stored as `<year>(Stability)` shows as the year, is expired exactly when the current year is past it, and expiring exactly when it is not later |
| View.Strip | app.js:442 | the stripped text keeps only characters of the input that are not white space, `-` or `_` |
| View.StripAppend | app.js:442 | stripping a concatenation strips each part, in order |
| View.StripSingle | app.js:442 | a single character is kept exactly when it is not white space, `-` or `_` |
| View.NormalizeText | app.js:440-443 | an empty or absent value normalises to `''`, any other to its lower-cased text with the ignored characters stripped; the result has no ignored and no upper-case characters |
| View.NormalizeIdempotent | app.js:440-443 | normalising twice is normalising once |
| View.Filtered | app.js:447-457 | a record is shown exactly when it is in the collection and one of its four texts contains the filter |
| View.FilteredAppend | app.js:447-457 | filtering distributes over concatenation, keeping order |
| View.EmptyFilterShowsAll | app.js:445-457 | a filter that normalises to nothing shows every record |
| View.GroupedFacts | app.js:460-475 | the grouping is well formed; a category appears exactly when a record has it; each block holds exactly that block's records in collection order |
| View.GroupedOrder | app.js:460-478 | the categories of the grouping are the records' category keys without repeats, each where it first occurs |
| View.Group | app.js:460-475 | the loop builds the specified grouping |
| View.AllCategoriesFacts | app.js:478-482 | the full list starts with the stored order; it holds every category; the additions are not in the stored order |
| View.GroupOrderFacts | app.js:478-483 | a category is drawn exactly when it has records; the stored order comes first, then the rest |
| View.SortByRankFacts | app.js:511-516 | the subcategories are sorted by their rank and the sort permutes them |
| View.DrawCategories | app.js:485-602 | the category loop draws exactly one block per category of the group order, in that order |
| View.ViewSound | app.js:436-602 | no drawn block is empty; subcategories are in rank order; every drawn record is in the collection, matches the filter and sits under its own keys |
| View.ViewComplete | app.js:436-602 | every record that matches the filter is drawn under its category and subcategory |
| Ordering.Swap | app.js:812 | the exchange swaps two positions and keeps the others |
| Ordering.SwapMultiset | app.js:812 | the exchange permutes the collection |
| Ordering.SwapBack | app.js:812 | exchanging twice restores the collection |
| Ordering.PositionsFacts | app.js:790-793 | the group's positions increase, hold exactly the group's records, and cover every one of them |
| Ordering.MovedStandardCases | app.js:780-812 | a move does nothing exactly when no group member lies in that direction; otherwise it exchanges the target with the nearest group member that way |
| Ordering.MovedStandardSpec | app.js:780-812 | with unique ids, the move leaves the collection when no group member lies in the direction, and otherwise exchanges the target with the nearest member that way |
| Ordering.MovedStandardPermutes | app.js:780-812 | a move permutes the collection; an unknown id does nothing |
| Ordering.MovedStandardLocal | app.js:790-812 | with unique ids, only members of the target's group change places |
| Ordering.DuplicateIdMoveLeavesGroup | app.js:803-812 | with two records sharing an id, moving the record before them down exchanges it with the first of the two, a record of another group |
| Ordering.MoveUpThenDown | app.js:780-812 | with unique ids, moving a record up and then down restores the collection when some member of its group lies above it |
| Ordering.MovedCategoryFacts | app.js:823-840 | a category move permutes the order; an absent entry or a boundary does nothing; otherwise the entry swaps with its neighbour |
| Ordering.MovedSubcategoryFacts | app.js:843-867 | an absent subcategory is appended; a present one moves like a category; afterwards it is in the list |
| Ordering.CategoryUpThenDown | app.js:823-840 | moving an entry that is present and not first up and then down restores the order |
| Ordering.FormCategory | app.js:913-916 | a non-Other choice is kept; Other takes the trimmed custom text or `Other` |
| Ordering.AddedFacts | app.js:943-964 | an add is rejected exactly when a record has the same trimmed upper-case name; otherwise the new record is first and the rest are unchanged |
| Ordering.AddedKeepsUnique | app.js:943-964 | an accepted add keeps names unique, and ids unique when the fresh id is new |
| Ordering.EditedRecord | app.js:924-932 | an edit keeps id, stress type and revision summary |
| Ordering.EditedFacts | app.js:921-941 | an edit changes only the record with the form's id, keeps every id, and editing twice is editing once |
| Ordering.Removed | app.js:749 | a record remains exactly when it is in the collection and has another id |
| Ordering.RemovedFacts | app.js:749 | deleting an unknown id changes nothing; with unique ids it removes exactly the record's position |
| Ordering.RemovedIdempotent | app.js:749 | deleting twice is deleting once |
| Registry.OrDefault | app.js:3-6 | a stored order list is used as is; otherwise the default |
| Registry.Registry.constructor | app.js:2-6 | the initial state: the loaded collection, each order list as stored or its default, and no delete pending |
| Registry.Registry.CheckUpdates | app.js:1008-1058 | the check-updates loop computes the reconciler's updates |
| Registry.Registry.ReportUpdates | app.js:1294-1363 | the report loop computes the report reconciler's updates |
| Registry.Registry.ReportEntry | app.js:1298-1361 | the issue loop folds the live values and yields the specified update, if any |
| Registry.Registry.ApplyUpdates | app.js:1138-1204 | the new collection and both counters are those of the merge function; ids are kept and NEW ids appended; the counts total at most the number of updates |
| Registry.Registry.ApplyTruthyUpdates | app.js:55-67 | the new collection is the top-level merge of the old one |
| Registry.Registry.MoveStandard | app.js:780-812 | the new collection is the move of the old one and a permutation of it |
| Registry.Registry.MoveCategory | app.js:823-840 | the new category order is the move of the old one and a permutation of it |
| Registry.Registry.MoveSubcategory | app.js:843-867 | the new subcategory order is the move of the old one and contains the entry |
| Registry.Registry.Submit | app.js:910-964 | the new collection is the submitted one; an edit is saved exactly when its id is known, an add exactly when no record has the same name key |
| Registry.Registry.RequestDelete | app.js:739-743 | the id waits for confirmation |
| Registry.Registry.ConfirmDelete | app.js:747-770 | a non-empty pending id is removed, every other record is kept, and nothing waits afterwards |
| Registry.Registry.CancelDelete | app.js:766-770 | nothing waits for confirmation |
| Registry.Registry.Render | app.js:436-602 | the drawn blocks are the specified view of the current state |

## Left out

- DOM rendering, modals, alerts, icons, the dashboard counters and `showStandardDetails` are not modelled. The view is modelled as far as which blocks and records are drawn, in which order.
- `localStorage`, `fetch` (`/api/sync-data`, the report request), `syncToDataJs`, `loadStandards`' choice of data source and the reset button are I/O. The collection they provide is a constructor parameter.
- The clock is a parameter: `Date.now()` becomes the fresh id, `toLocaleDateString` the date string, `getFullYear` the current year. One date string is used for a whole merge.
- `new Date(value)` for non-stability values is the `ParsedDate` parameter of the date helpers.
- The scrapers (Selenium, HTTP, HTML parsing) are the `scrape` parameter of `run_verification`; printing and writing the JSON report are not modelled.
- `parseCost`, `getSearchUrl` and the export scripts are outside the core.
- Case mapping is ASCII only. White space is the ECMAScript set. Python's `\d`, `\w` and `\s` are approximated by ASCII digits and word characters and the `str.isspace` set.
- JavaScript object key order (`Object.keys` puts integer-like keys first) is not modelled. The grouping keeps categories in first-seen order (`View.GroupedOrder`). Subcategories are kept in insertion order too; no lemma states that order, and the view sorts them by rank. Prototype keys such as `constructor` or `__proto__` are not modelled, neither in `SUBCATEGORY_MAP` nor in `grouped` (app.js:466). In the source, a category with such a name finds an inherited value, gets no entry of its own and is not drawn; the model draws it like any other category.
- Registry.Registry.CheckUpdates, Registry.Registry.Submit, Registry.Registry.ApplyUpdates, Registry.Registry.ApplyTruthyUpdates: records are values. When the collection is loaded from the seed list or reset to it (app.js:183 and app.js:223), the source copies the array but shares the record objects. An edit or merge then also changes the seed record, and a later check-updates compares a record with itself and reports no change where the model reports an UPDATE. This aliasing is not modelled.
- Ordering.MovedStandardCases, Ordering.MovedStandardLocal, Ordering.MovedStandardSpec, Ordering.MoveUpThenDown: proved for collections with unique ids only. The source does not guarantee unique ids, since two seed rows with the same unknown id both become new records. With duplicate ids a move can exchange the target with a record of another group, as `Ordering.DuplicateIdMoveLeavesGroup` shows.
- Ordering.MoveUpThenDown, Ordering.CategoryUpThenDown: proved only where the move up does something. For the first record of its group, or the first entry of an order list, moving up does nothing and moving down then exchanges it with its successor.
- Report.LiveRoundTrip, Report.IssuesRoundTrip, Report.FoldIssueFacts: proved for values without `'`, live values without a line break, and local values not ending in `Live=`. The source's `/Live='(.*?)'/` cuts a live value at its first `'` and does not cross a line break.
- Verify.GetFieldJson: proved for values without `"`. The source's `"([^"]*)"` stops at the first quote of a value.
- View.SortByRankFacts: proves the subcategory sort sorted and a permutation, but not that the sort is stable.
- The HTML `required` attributes of the form are not modelled; the handlers accept any field values.
- Concurrency between the asynchronous handlers is not modelled; each handler runs to completion.
