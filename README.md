# job-hunt-os: a verified model of the applications service

job-hunt-os is a small service that tracks job applications. Each
application is one row of the `applications` table: company, role,
location, source, link, a salary range, the employment type, the pipeline
stage and status, the next action date, free notes, and the creation and
last-update timestamps.

The service offers five operations:

- create an application (guarded by an API key);
- read one application;
- list applications, filtered, ordered and paged;
- update an application partially (guarded by an API key);
- delete an application (guarded by an API key).

A sixth endpoint streams the whole filtered set as CSV. It pages through
the query internally, 100 rows at a time.

This Dafny project models those operations and proves what they promise:

- which request is rejected with which error, in which order;
- that a partial update touches only the fields that were sent;
- that a listing is exactly the requested page of the matching records, in
  the requested order, with the count of all matches;
- that the export pages through every matching record exactly once;
- that every CSV cell the writer emits reads back as the value it encodes,
  under the export's own dialect, in which a record ends at `\n`.

Layout:

| file | module | what it holds |
|---|---|---|
| `common.dfy` | `Common` | `Option`, `Outcome`, the `Error` kinds, `Result` |
| `text.dfy` | `Text` | lower-casing, substring search, text order, decimal rendering |
| `schemas.dfy` | `Schemas` | enum sets, payload field constraints, query parameters, `validate_enums` |
| `models.dfy` | `Models` | the `Record` row and its column order |
| `query.dfy` | `Query` | filter, ordering, table scan, sort, OFFSET/LIMIT paging |
| `csv_export.dfy` | `CsvExport` | `csv_quote` and `iter_csv` |
| `csv_read.dfy` | `CsvRead` | a reader for the export's dialect, used only to state the read-back property |
| `applications.dfy` | `Applications` | business rules, the update merge, the `Store` class, the export |

The database is a `Store` object:

- `records` is the table, a map from id to `Record`;
- `nextId` is the next primary key to hand out;
- `clock` is the latest clock reading a successful write received.

Each handler that writes to the table is a method with a `modifies` clause.
Its contract states the error cases, the new table, and the store
invariant `Valid()`. That invariant says each record sits under its own id,
every id is below `nextId`, and `created_at <= updated_at <= clock`.

The HTTP layer is reduced to its decisions:

- the API-key dependency is an `authorized` flag;
- a body that fails the pydantic schema is `SchemaError` (HTTP 422);
- an exception no handler catches is `ServerError` (HTTP 500); the list
  endpoint raises one for a page below 1 or a page size outside 1..100,
  because those bounds are checked outside its `try`; the database driver
  raises one for an id or an OFFSET it cannot bind as a 64-bit integer;
- a business-rule failure is `DomainError(detail)` (HTTP 400);
- an invalid query parameter value is `QueryError(detail)` (HTTP 400);
- a missing id is `NotFound` (HTTP 404);
- a missing API key is `Unauthorized`;
- a commit rejected by a NOT NULL constraint is `StorageFailure`; the source
  does not catch that error either, so it too answers HTTP 500.

Current time is a parameter `now`, strictly later than the store's clock.

## Model

| member | source | states |
|---|---|---|
| Schemas.CreateWellFormed | app/schemas.py:10-25 | the create schema: company and role are required, the text fields are capped at 200 characters, salaries are non-negative |
| Schemas.UpdateWellFormed | app/schemas.py:27-39 | the update schema: every field is optional, with the same caps and salary bounds |
| Schemas.BoundsValid | app/schemas.py:63-64 | page is at least 1 and page size is between 1 and 100 |
| Schemas.EnumSetsFixed | app/schemas.py:6-8 | the employment types, stages and statuses are fixed sets of 3, 8 and 2 values; the sortable columns exclude company, role, stage and status |
| Schemas.UpdateIsLaxerThanCreate | app/schemas.py:10-39 | every body the create schema accepts is accepted by the update schema; a body without a company (absent or null) passes update but never create |
| Schemas.DefaultParams | app/schemas.py:59-66 | the defaults are page 1, page size 20, created_at descending, no filters, and they pass both the bounds and the enum check |
| Schemas.ValidateEnums | app/schemas.py:68-76 | passes exactly when stage, status, order_by and order_dir are all allowed; otherwise the message names the first failing check, in that order |
| Schemas.EmptyStageRejected | app/schemas.py:68-70 | an empty stage is not None, so it fails validation instead of being ignored by the filter |
| Text.Lower | app/routers/applications.py:31-32 | lower-casing keeps the length and maps each character on its own |
| Text.LowerIdempotent | app/routers/applications.py:31-32 | lowering the search text and the column a second time changes nothing |
| Text.ContainsIff | app/routers/applications.py:31-32 | `LIKE '%s%'` containment holds iff the needle starts at some position of the text |
| Text.StrLessIrreflexive | app/routers/applications.py:39-43 | no date text sorts before itself |
| Text.StrLessTransitive | app/routers/applications.py:39-43 | the text order of ISO dates is transitive |
| Text.StrLessTotal | app/routers/applications.py:39-43 | two different date texts are always ordered one way or the other |
| Text.StrLessAsymmetric | app/routers/applications.py:39-43 | two date texts are never ordered both ways |
| Text.NatToStringValue | app/routers/applications.py:211-218 | `str()` of a non-negative id or salary cell is a digit string that denotes exactly that number |
| Text.IntToString | app/utils/csv_export.py:16-20 | `str()` of an integer cell is non-empty and made only of digits and a minus sign |
| Query.KeyLessIrreflexive | app/routers/applications.py:39-43 | records with equal sort keys are not ordered by the key in either direction |
| Query.KeyLessTotal | app/routers/applications.py:39-43 | records with different sort keys are ordered by the key one way or the other, NULL dates included |
| Query.KeyLessAsymmetric | app/routers/applications.py:39-43 | the key order is never both ways and implies different keys |
| Query.KeyLessTransitive | app/routers/applications.py:39-43 | the key order is transitive, with NULL dates placed consistently |
| Query.PrecedesAsymmetric | app/routers/applications.py:39-43 | the result order (column in its direction, then id descending) never puts a record before itself or two records both ways |
| Query.PrecedesTransitive | app/routers/applications.py:39-43 | the result order is transitive in both directions and under the id tie-break |
| Query.PrecedesTotal | app/routers/applications.py:39-43 | any two records with different ids are ordered, so the id tie-break makes the order total |
| Query.Matches | app/routers/applications.py:29-37 | a record passes the filters exactly when a truthy search occurs, case-folded, in its company or its role, and a truthy stage and status equal its own |
| Query.Precedes | app/routers/applications.py:39-43 | with equal sort keys the larger id comes first; otherwise the key decides, ascending or descending as requested; no record precedes itself |
| Query.Insert | app/routers/applications.py:43 | inserting a record with a new id into a sorted sequence gives a sorted sequence with that record added |
| Query.Sort | app/routers/applications.py:43 | ORDER BY gives a permutation of its input that is strictly sorted by the requested order |
| Query.Scan | app/routers/applications.py:71 | the table scan lists exactly the stored records, in ascending id order |
| Query.Select | app/routers/applications.py:29-37 | the WHERE clauses keep exactly the records that match every given filter; ids stay ascending when the input's are |
| Query.Ordered | app/routers/applications.py:71-80 | the filtered, ordered query returns exactly the matching records of the table, strictly sorted |
| Query.SortedUnique | app/routers/applications.py:40-43 | the id tie-break makes the result unique: two strictly sorted sequences with the same members are equal |
| Query.OrderedCount | app/routers/applications.py:73-75 | the ordered result has one entry per matching row id |
| Query.Window | app/routers/applications.py:78 | OFFSET/LIMIT returns up to `size` consecutive records starting at `(page-1)*size`, and fewer only at the end |
| Query.WindowSlice | app/routers/applications.py:78 | each page is one contiguous slice of the full result, of at most `size` records |
| Query.PagesArePrefix | app/routers/applications.py:188-228 | pages 1..n laid end to end are the first `n*size` records of the result |
| Query.PagesCover | app/routers/applications.py:188-228 | paging until the first empty page visits every record exactly once, in order; every earlier page is non-empty |
| CsvExport.Quote | app/utils/csv_export.py:16-24 | null writes as empty; a value without comma, newline or quote is written unchanged; any other value is wrapped in quotes with its inner quotes paired |
| CsvExport.EscapePaired | app/utils/csv_export.py:23 | doubling the quotes leaves every quote of the cell body in a pair |
| CsvExport.UnescapeEscape | app/utils/csv_export.py:23 | halving the paired quotes undoes the doubling |
| CsvExport.QuoteRoundTrip | app/utils/csv_export.py:16-24 | unquoting a written cell gives back the value's text, with null as empty |
| CsvExport.Line | app/utils/csv_export.py:9-11 | one output line is the quoted cells joined by commas, then a newline (its properties are `CsvExport.LineEndsOnce` and `CsvRead.ReadRecordLine`) |
| CsvExport.CarriageReturnWrittenBare | app/utils/csv_export.py:22 | a value holding a carriage return is written without quotes |
| CsvExport.LineEndsOnce | app/utils/csv_export.py:9-11 | every written line ends in exactly one newline; no cell adds a trailing newline of its own |
| CsvExport.CsvLines | app/utils/csv_export.py:4-14 | no rows give no output; otherwise one header line and one line per row, each ending in a newline |
| CsvExport.IterCsv | app/utils/csv_export.py:4-14 | the loop with its `first` flag yields the first row's keys once, then every row's values, in order |
| CsvRead.ReadFieldQuote | app/utils/csv_export.py:16-24 | a written cell followed by a comma or newline reads back as the value's text |
| CsvRead.ReadRecordLine | app/utils/csv_export.py:9-11 | a written line reads back as the texts of its values, cell for cell |
| CsvRead.ReadBackCsv | app/utils/csv_export.py:4-14 | the whole output reads back as the first row's keys, then every row's values as texts |
| Applications.ValidateBusinessRules | app/routers/applications.py:17-27 | passes exactly when the salaries are ordered and the employment type, stage and status are unset or allowed; otherwise the first failing rule gives the message |
| Applications.SalaryBoundary | app/routers/applications.py:19-21 | equal minimum and maximum salaries pass the salary rule; a minimum above the maximum always fails it |
| Applications.Merge | app/routers/applications.py:126-130 | for every nullable column an absent field keeps the value, null clears it and a given value overwrites it; company and role change only when given; id and timestamps are untouched |
| Applications.UpdateCanUnorderSalaries | app/routers/applications.py:19-20 | a body `{"salary_min": 500}` passes the rules on a record whose salary_max is 100, and the merged record has minimum 500 above maximum 100 |
| Applications.MergeIdempotent | app/routers/applications.py:126-130 | an empty body changes nothing, and sending the same body twice changes nothing the second time |
| Applications.OrderOf | app/routers/applications.py:39-43 | the validated order_by picks the sort column and order_dir picks ascending exactly when it is "asc" |
| Applications.HeaderRow | app/routers/applications.py:170-186 | the header dict pairs each export column, in order, with its own name |
| Applications.RecordRow | app/routers/applications.py:209-226 | a record's dict pairs each export column, in order, with that record's cell |
| Applications.Store.constructor | app/routers/applications.py:15 | a new store is an empty table whose first id will be 1 and which satisfies the store invariant |
| Applications.Store.Get | app/routers/applications.py:90-95 | an id outside the 64-bit range gives ServerError (the driver cannot bind it, HTTP 500); otherwise returns the stored record exactly when its id is present, and NotFound otherwise |
| Applications.Store.List | app/routers/applications.py:45-88 | an out-of-range page or page size gives ServerError (the validation error escapes the handler, HTTP 500); a bad enum gives the validation message; an OFFSET `(page-1)*page_size` outside the 64-bit range gives ServerError; otherwise the items are the requested page of the ordered matching records, the total counts every match, and page and page size are echoed |
| Applications.ListedPage | app/routers/applications.py:77-80 | a listed page holds at most page-size records, all stored and matching the filters, strictly in the requested order |
| Applications.CountQuery | app/routers/applications.py:73-75 | the count query and the ordered listing agree: both count one entry per matching row |
| Applications.Store.Create | app/routers/applications.py:97-117 | rejects a missing key, then a schema failure, then a rule failure, changing nothing; otherwise stores the payload under the next id with both timestamps at `now`, adds nothing else, advances the next id and the clock to `now`, and the new record is found under its id |
| Applications.Store.Update | app/routers/applications.py:119-134 | errors come in the order key, schema, rules, id outside the 64-bit range (ServerError), missing id, NOT NULL; on success the record becomes the merge of the body; updated_at moves to `now` exactly when some column changed; no other record changes; the clock advances to `now` and the next id stays |
| Applications.Store.Delete | app/routers/applications.py:136-143 | rejects a missing key, an id outside the 64-bit range (ServerError) and an unknown id, each unchanged; otherwise removes exactly that record; afterwards the id is not found |
| Applications.HugeArgumentsFail | app/routers/applications.py:78-92 | page 10^20 passes the schema bounds and the enum check, yet listing it fails with ServerError; looking up id 2^64 fails with ServerError |
| Applications.GetUpdateDelete | tests/test_applications.py:66-87 | a record created at time 5 reads back, an update of its stage at time 6 restamps updated_at, and after deletion its id is not found |
| Applications.Store.ExportRows | app/routers/applications.py:145-228 | an invalid filter value gives its validation message; otherwise the rows are the header dict, then one dict per matching record in query order |
| Applications.Store.ExportCsv | app/routers/applications.py:145-235 | the response body is what `iter_csv` writes for the header dict followed by every matching record in query order |
| Applications.RowIter | app/routers/applications.py:168-228 | the page loop yields the header dict, then every record of the ordered result exactly once, in order, and stops at the first empty page |
| Applications.AppendRows | app/routers/applications.py:209-226 | the inner loop appends one row per record of the page, in order |
| Applications.ExportStep | app/routers/applications.py:188-228 | a non-empty page extends the rows yielded so far by exactly that page, and strictly advances through the result |
| Applications.NextPage | app/routers/applications.py:200-207 | a non-empty page extends the pages read so far and stays within the result |
| Applications.LastPage | app/routers/applications.py:205-207 | at the first empty page the pages read so far are the whole result |
| Applications.ExportHeaderTwice | app/routers/applications.py:170-186 | the export file has two identical header lines, then one line per record |
| Applications.ExportReadsBack | app/routers/applications.py:168-228 | reading the export back gives the column names twice, then each record's cells in column order, with null as empty |

## Left out

- HTTP wiring is reduced to error kinds. Left out are FastAPI routing, status codes, response models, the `StreamingResponse` headers and the `/health` endpoint.
- The API-key check is an `authorized` flag. The key comparison itself is not part of this model.
- The development seed endpoint (`app/routers/dev.py`) is not part of this model.
- Session management is left out: sessions, transactions, `refresh` and concurrent requests. In particular, the export's pages are read from one unchanging table, so a write between two pages is not modelled.
- `HttpUrl` validation and normalisation are not modelled. A link is kept as the text that was sent.
- Date checks are not modelled. `next_action_date` is kept as its ISO text, which orders the way the dates do.
- Timestamps are readings of the supplied clock. They are not timezone-aware datetimes, and the export writes them in decimal rather than with `isoformat()`.
- Applications.Store.Create: the new id is the store's counter `nextId`, which only grows, not the SQLite rowid. SQLite may reuse the largest deleted rowid; this model never reuses an id, and it does not model running out of 64-bit ids, so the lookup of the new record is stated only for an id within that range.
- Query.Matches: search lower-cases only ASCII letters. The `%` and `_` wildcards inside a search text are treated as plain characters, not as LIKE patterns.
- The placement of NULL next_action_date values is left to the `nullsLow` flag. SQLite sorts NULL lowest and PostgreSQL highest.
- Text.IntToString: states only the character shape of a negative salary's text, not the number it denotes. The value round trip is proved for non-negative numbers (`Text.NatToStringValue`).
- A body that passes the schema but still makes pydantic fail inside the handler is not modelled (that would be a 500 response). The out-of-range list bounds are the one such case modelled (`ServerError`).
- Applications.Store.Create: stamps created_at and updated_at with one clock reading, while each column's `default=utcnow` reads the clock separately, so the two may differ slightly. It also stores any non-negative salary, while a value beyond the INTEGER column range makes the INSERT fail (HTTP 500).
- Applications.RowIter: the export's page counter is not checked against the 64-bit range; its OFFSET could leave that range only after more than 2^63 matching rows.
- Applications.Store.Update: stores any non-negative salary, while a value beyond the INTEGER column range makes the commit fail (HTTP 500).
- The column length limits of the database (`String(50)` and `String(500)`) are not modelled. Only the schema caps of 200 characters are.

Behaviours of the code that its names and comments do not make obvious, modelled as the code has them:

- `company` and `role` may be empty strings. The schema sets only a maximum length.
- `updated_at` is rewritten only when an update actually changes a column. When nothing changes, no UPDATE statement is issued, so `onupdate` does not fire.
- A null `company` or `role` in an update passes the schema. It then fails the NOT NULL constraint at commit, which the model reports as `StorageFailure`.
- Out-of-range `page` or `page_size` on the list endpoint is a server error (HTTP 500), not a validation response: `ListQueryParams` is built before the `try` that turns `ValueError` into 400.
- `csv_quote` does not quote a carriage return, so a value holding `\r` is written bare (`CsvExport.CarriageReturnWrittenBare`). A reader that also ends records at `\r` would split that cell; the read-back property is stated for the export's own dialect.
- The salary rule of an update looks only at the salaries in the body. A body with only `salary_min` above the stored `salary_max` passes and leaves the record with its minimum above its maximum (`Applications.UpdateCanUnorderSalaries`).
- A path id or a list OFFSET beyond the 64-bit integer range passes every check in Python, whose integers are unbounded, and then fails when the driver binds it: HTTP 500, not 404 or an empty page (`Applications.HugeArgumentsFail`).
- The export repeats its header line. `row_iter` yields a header dict whose values are the keys, and `iter_csv` writes the first row's keys as a header as well (`Applications.ExportHeaderTwice`).
