# House price API with history: a Dafny model of its storage and ingestion core

The service predicts a house price from `area`, `rooms` and `distance` and
keeps every prediction in a SQLite table `predictions` (`id INTEGER PRIMARY
KEY AUTOINCREMENT`, `timestamp TEXT`, `area REAL`, `rooms INTEGER`,
`distance REAL`, `predicted_price REAL`). This project models that core in
`fast_api_app.py` and proves what its handlers promise:

- `init_db` creates the table only if it is absent.
- POST /predict stores the unrounded prediction under the next id and
  answers it rounded to two decimals.
- GET /history builds a parameterised SELECT. The model proves what the
  statement returns: records newest first, at most `limit` of them, the
  first `offset` skipped, and both date bounds inclusive.
- GET /history/{record_id} returns the stored record or "not found".
- DELETE /history needs `confirm=true`. It empties the table and reports
  how many rows it removed.
- POST /predict_csv checks the file name, decodes the upload and reads the
  CSV. It then checks the required columns, coerces them to numbers and
  predicts every row. It inserts one row per input row, all with one shared
  timestamp, and returns the table with a `predicted_price` column.

Modules, one per file:

- `Results` (`results.dfy`): `Option` and `Result`.
- `Errors` (`errors.dfy`): one constructor per error the handlers raise.
  The HTTP status goes with it as a comment.
- `SqlDates` (`sql_dates.dfy`): SQLite's `date()` on a text value, and the
  BINARY (text) comparison the WHERE clauses use. On "YYYY-MM-DD" strings,
  text order is proved to be calendar order.
- `Records` (`records.dfy`): three things.
  - The stored record and the SQL row read back from it. The `rooms`
    column has INTEGER affinity: a whole value reads back as an integer,
    any other as a real.
  - `row_to_dict` and validation against the `HistoryRecord` response
    model.
  - Python's `round(x, 2)`.
- `HistoryQuery` (`history_query.dfy`): four things.
  - The query builder of `get_history`, as a method over a statement made
    of text fragments and `?` placeholders.
  - What SQLite returns for that statement.
  - The page the handler promises.
  - The lookup by id.
- `CsvUpload` (`csv_upload.dfy`): the validation and shaping steps of
  `predict_csv`, as functions on a table value.
- `Service` (`store.dfy`): the database, in two forms.
  - As a value, `Database`, with one function per write.
  - As a class, `PredictionStore`, whose fields are that database's parts.
    Each handler is a method of it, proved to leave the class in the state
    the matching function computes.

Collaborators outside the core become parameters of the handlers:

- the trained model: a `Predictor` function of the feature vector;
- the clock: a `DateTime` reading;
- the two byte decodings of the upload: each an `Option<string>`;
- `pd.read_csv`: a `CsvReader`, which yields a well-formed table or an
  error message;
- the text-to-number parse of `pd.to_numeric`;
- whether `model.predict` raises on the whole feature matrix: a `Refuses`
  predicate of that matrix (an estimator may refuse, say, a matrix
  without rows).

Consequences of the code that the model keeps:

- A `date_from` or `date_to` that SQLite cannot read as a date is not
  rejected. `date(?)` is NULL, every comparison with NULL is false, and the
  page comes back empty (`HistoryQuery.UnreadableBoundEmptiesPage`).
- A non-numeric required column yields one generic error that carries the
  pandas message (`NotNumeric`); the column is not named separately.
- `predict_csv` returns the table but not the number of inserted rows.
- A stored record comes back through `row_to_dict` and `HistoryRecord`
  only when its `rooms` is a whole number (`Records.DictRoundTrip`). Rows
  from a CSV with a fractional `rooms` are stored as REAL. Any GET /history
  page or GET /history/{record_id} answer that contains such a row fails
  response validation (`ResponseInvalid`).
- POST /predict has no error path for a model that raises. The exception
  is not caught, and it escapes before anything is inserted.

## Model

| member | source | states |
|---|---|---|
| SqlDates.SqlDate | fast_api_app.py:122-125 | `date(s)` is defined exactly when `s` is "YYYY-MM-DD" with month 1..12 and day 1..31, optionally followed by ' ' or 'T' and HH:MM[:SS] (hours up to 23); the result is always a "YYYY-MM-DD" string |
| SqlDates.SqlDateCanonical | fast_api_app.py:122-125 | the result of `date()` is a real calendar day, and `date()` of it is itself |
| SqlDates.SqlDateOfTimestamp | fast_api_app.py:122-125 | a timestamp whose first ten characters are a calendar day and whose rest is a time of day has that day as its `date()` |
| SqlDates.SqlDateOfFields | fast_api_app.py:122-125 | on a bare "YYYY-MM-DD" with month 1..12 and day 1..31: a day that exists in its month gives the text back unchanged; a later day gives the same year, the next month, and the day minus the month's length |
| SqlDates.SqlDateCarriesDay | fast_api_app.py:122-125 | `date('2023-02-30')` is '2023-03-02' |
| SqlDates.SqlDateCarriesLeapDay | fast_api_app.py:122-125 | `date('2024-02-30')` is '2024-03-01', since 2024 is a leap year |
| SqlDates.SqlDateRejectsMonth | fast_api_app.py:122-125 | `date('2024-13-01')` is NULL |
| SqlDates.TextOrderIsCalendarOrder | fast_api_app.py:122-125 | on two "YYYY-MM-DD" strings, the text comparison SQLite performs agrees with calendar order (year, then month, then day) |
| SqlDates.DigitTextOrder | fast_api_app.py:122-125 | on digit strings of equal length, text order is numeric order |
| SqlDates.FormatDateRoundTrip | fast_api_app.py:89 | formatting the year, month and day read from a date string gives the string back |
| Records.RoomsValue | fast_api_app.py:59 | the INTEGER affinity of `rooms`: a whole value is stored and read back as that integer, any other as the same real |
| Records.RowOf | fast_api_app.py:117 | a SELECT row has one value per selected column |
| Records.RowToDict | fast_api_app.py:70-78 | `row_to_dict` gives exactly the six keys `id … predicted_price`, the k-th key holding the k-th value of the row |
| Records.DictToRecord | fast_api_app.py:42-48 | validation as `HistoryRecord` succeeds only when all six keys are present |
| Records.DictRoundTrip | fast_api_app.py:70-78 | a stored record comes back unchanged through SELECT, `row_to_dict` and `HistoryRecord` if and only if its `rooms` is whole; otherwise validation fails |
| Records.Response | fast_api_app.py:141-150 | the answer for a stored record is that record when `rooms` is whole and a validation failure otherwise |
| Records.Round2 | fast_api_app.py:99 | `round(x, 2)` is within 0.005 of `x` and a whole number of hundredths |
| Records.Round2Examples | fast_api_app.py:99 | ties go to the even hundredth: 0.125 gives 0.12, 0.375 gives 0.38 |
| Records.Round2Idempotent | fast_api_app.py:99 | rounding a rounded price changes nothing |
| HistoryQuery.BuildQuery | fast_api_app.py:117-132 | one clause and one parameter per given bound, `date_from` first, then `limit` and `offset`; the statement is the column list, `WHERE` and those clauses in that same order joined by `AND` when there are any, then `ORDER BY id DESC LIMIT ? OFFSET ?`; it has WHERE if and only if a bound is given, and as many `?` as parameters |
| HistoryQuery.RenderedPieces | fast_api_app.py:117-131 | each fixed piece of the statement spells the handler's literal: the column list, `" WHERE "`, `" AND "`, the two clause texts, and the ORDER BY suffix |
| HistoryQuery.RenderedStatements | fast_api_app.py:117-131 | for no bound, `date_from` only, `date_to` only and both, the statement's text is the handler's literals glued in the handler's order |
| HistoryQuery.QueryShape | fast_api_app.py:128-131 | the statement is the SELECT, then optionally WHERE and the clauses joined by AND, then ORDER BY … LIMIT ? OFFSET ?; it has WHERE exactly when there are clauses, and its placeholders are the clauses' plus two |
| HistoryQuery.JoinPlaceholders | fast_api_app.py:129 | joining clauses of one `?` each with " AND " gives one `?` per clause |
| HistoryQuery.PlaceholdersAppend | fast_api_app.py:129-131 | the `?` count of a concatenation is the sum of the counts |
| HistoryQuery.StatementPieces | fast_api_app.py:117-131 | the fixed pieces hold 0, 1, 1 and 2 placeholders, and the two clause texts differ |
| HistoryQuery.Window | fast_api_app.py:131 | LIMIT/OFFSET keeps at most `limit` rows, skips exactly `offset`, and row i is row `offset + i` of the ordered result |
| HistoryQuery.WhereMeansInRange | fast_api_app.py:121-129 | a row satisfies the built WHERE clauses with their parameters if and only if its date lies within the given bounds |
| HistoryQuery.Execute | fast_api_app.py:131-135 | the rows fetched for the built statement number at most the LIMIT parameter, are stored rows that satisfy the WHERE clauses with their parameters, and come in strictly descending id order when the table is stored in id order |
| HistoryQuery.QueryMeansHistoryPage | fast_api_app.py:117-135 | executing the built statement on the table returns exactly the promised page |
| HistoryQuery.HistoryPageProperties | fast_api_app.py:131-135 | the page has ids strictly descending and at most `limit` rows; its length is `min(limit, matching - offset)`; row i is matching row `offset + i`; the matching rows are exactly the stored rows within the bounds |
| HistoryQuery.NewestFirstDescending | fast_api_app.py:131 | `ORDER BY id DESC` over rows stored in id order gives strictly descending ids |
| HistoryQuery.NewestFirst | fast_api_app.py:128-131 | a row is in the filtered, reordered result if and only if it is stored and satisfies the filter; the result is no longer than the table |
| HistoryQuery.PagesTile | fast_api_app.py:131 | consecutive pages (`offset`, then `offset + limit`) concatenate to one larger page: nothing skipped twice or lost |
| HistoryQuery.NoBoundsReturnsAll | fast_api_app.py:121-128 | with neither bound given (absent or empty), every stored record matches, newest first |
| HistoryQuery.InRangeIsCalendarRange | fast_api_app.py:121-126 | for readable bounds and timestamps, being in range is calendar order of the dates |
| HistoryQuery.BoundsInclusive | fast_api_app.py:112 | a record dated on the bound day is inside `[day, day]` |
| HistoryQuery.UnreadableBoundEmptiesPage | fast_api_app.py:121-126 | a given bound that `date()` cannot read makes the page empty |
| HistoryQuery.FindById | fast_api_app.py:145-146 | `WHERE id = ?` with `fetchone` finds a stored row with that id, or nothing exactly when no row has it |
| HistoryQuery.FindByIdExact | fast_api_app.py:145-150 | with increasing ids, looking up a stored record's id returns that very record |
| CsvUpload.HasCsvExtension | fast_api_app.py:167-168 | the name passes if and only if it ends in ".csv" or ".txt", letters compared without case |
| CsvUpload.UpperCaseExtensionAccepted | fast_api_app.py:167 | "a.CSV" passes |
| CsvUpload.OtherNamesRejected | fast_api_app.py:167 | "a.csv.gz" and "csv" are refused |
| CsvUpload.ReadUpload | fast_api_app.py:167-181 | three checks. A bad name is the first error and only that. Undecodable is reported exactly when both UTF-8 and cp1252 fail. Otherwise the reader runs on the UTF-8 text, or on the cp1252 text when UTF-8 failed, and the answer is its table or its message as the unreadable-file error |
| CsvUpload.MissingFrom | fast_api_app.py:183 | the missing list holds exactly the required columns absent from the header, in the required order |
| CsvUpload.MissingDistance | fast_api_app.py:183-185 | a header with `area` and `rooms` only is missing exactly `["distance"]`; an extra column and any order are accepted |
| CsvUpload.CellAt | fast_api_app.py:188 | `df[name][i]` is the cell of row i under the one column labelled `name` |
| CsvUpload.ToNumeric | fast_api_app.py:188 | `pd.to_numeric(..., errors="raise")` on a cell fails exactly on text the parse cannot read; a number passes unchanged, text passes as its parsed number, and NaN comes only from a missing cell |
| CsvUpload.RowFeatures | fast_api_app.py:188-192 | a row's feature vector is its coerced `area`, `rooms` and `distance`, and exists exactly when none of them is NaN |
| CsvUpload.WithPredictions | fast_api_app.py:198-199 | the output has the same rows; `predicted_price` is added last, or replaced where it existed; row i holds price i there, and every other column keeps its cells |
| CsvUpload.PredictTable | fast_api_app.py:183-199 | checks run in order. Missing columns are reported (listed) exactly when some are absent. A non-numeric column is reported exactly when all are present but one does not coerce. The model fails exactly when the estimator refuses the matrix or a row has NaN, and otherwise the call succeeds. On success there is one feature vector and one price per input row, in order, and the output is exactly `WithPredictions` of the input and those prices |
| Service.CsvOutcome | fast_api_app.py:166-199 | a bad name gives only the extension error, an upload neither decoding reads gives only the decoding error, every other failure is one of the handler's later errors; success means the name and a decoding passed, with one price per feature vector and output row, each the model's price for its vector |
| Service.Timestamp | fast_api_app.py:89 | the timestamp is 19 characters, and its `date()` is the day of the clock reading |
| Service.DayOf | fast_api_app.py:89 | the day of a clock reading is a calendar date that `date()` leaves as it is |
| Service.QueryErrors | fast_api_app.py:104-105 | `limit` is reported exactly when outside 1..1000 and `offset` exactly when negative |
| Service.Validated | fast_api_app.py:102 | a `List[HistoryRecord]` answer succeeds if and only if every row validates, and then holds the validated rows in order |
| Service.ResponseOfRecords | fast_api_app.py:138 | the answer for a list of stored records is that list exactly when all their `rooms` are whole |
| Service.Initialized | fast_api_app.py:54-63 | `CREATE TABLE IF NOT EXISTS`: afterwards the table exists; an existing table is kept whole, a new one is empty with counter 0; consistency is kept |
| Service.Inserted | fast_api_app.py:92-95 | with `id INTEGER PRIMARY KEY AUTOINCREMENT` (line 56), an insert appends one row with id `lastId + 1` and keeps the others; the new id exceeds every stored id, and ids stay positive and increasing |
| Service.InsertedAll | fast_api_app.py:207-211 | a batch of inserts adds one row per input row and advances the counter by the same number |
| Service.Cleared | fast_api_app.py:159 | `DELETE FROM predictions` removes every row, keeps the table and the counter, and keeps consistency |
| Service.PredictionStore.constructor | fast_api_app.py:52 | the database starts without the table |
| Service.PredictionStore.InitDb | fast_api_app.py:51-65 | afterwards the table exists; an existing table keeps its rows and counter |
| Service.InitDbIdempotent | fast_api_app.py:51-67 | calling `init_db` any number n ≥ 1 of times equals calling it once; existing data is never altered |
| Service.PredictionStore.Insert | fast_api_app.py:92-95 | the row is appended with id `lastId + 1`, which becomes the counter |
| Service.PredictionStore.PredictPrice | fast_api_app.py:85-99 | the answer is `round(prediction, 2)`; the stored row holds the unrounded prediction, the features and the timestamp of the clock reading |
| Service.PredictionReadsBack | fast_api_app.py:145-150 | after a prediction, looking up its id finds the record, and it reads back unchanged |
| Service.NewestLeadsItsDay | fast_api_app.py:121-131 | after a prediction, the page filtered to its day (`date_from = date_to = day`, offset 0) starts with it |
| Service.PredictionStore.GetHistory | fast_api_app.py:103-138 | parameters out of range give the invalid-query error naming them. Otherwise the answer is the promised page, or a validation failure when a row on it has a fractional `rooms` |
| Service.PredictionStore.GetRecord | fast_api_app.py:141-150 | not found exactly when no stored row has the id; otherwise that record, or a validation failure when its `rooms` is fractional |
| Service.PredictionStore.ClearHistory | fast_api_app.py:153-163 | without confirmation: the error, nothing changed. With it: the prior row count is returned, the table is empty, and the counter is kept |
| Service.ClearKeepsCounter | fast_api_app.py:153-163 | after a clear the next insert still gets an id above every id ever stored (AUTOINCREMENT never reuses ids) |
| Service.PredictionStore.PredictCsv | fast_api_app.py:166-213 | any error leaves the table unchanged. On success the answer is the output table, and one row per input row is inserted, all with one timestamp |
| Service.PredictionStore.InsertBatch | fast_api_app.py:203-213 | the loop leaves the store as the inserts of all rows, in order, with the shared timestamp |
| Service.BatchInsertShape | fast_api_app.py:205-211 | a batch appends exactly one row per input row and keeps the old rows. The ids are consecutive after the counter, all rows carry the same timestamp, and each carries the row's features and price |
| Service.BatchKeepsConsistent | fast_api_app.py:207-211 | after a batch, ids are still positive, increasing and bounded by the counter |

## Left out

- Framework plumbing: HTTP handling, the HTML home page (`home`), static
  files, and the streamed CSV response with its file name. The
  output table is modelled; its re-encoding with `to_csv` is not.
- `explain_prediction` and the OpenAI client are outside this core. Line
  20 calls `OpenAI`, which the module never imports (it imports `openai`).
- The trained model, the clock, the byte decodings of the upload,
  `pd.read_csv`, and the text parsing inside `pd.to_numeric` are parameters.
  Their internals are not modelled.
- Service.PredictionStore.PredictPrice: a model that raises is not
  modelled. The `Predictor` is total.
- Records.Round2: rounds the exact real value, not the binary double that
  Python's `round` sees. Prices are reals, not IEEE doubles, and infinities
  are not modelled.
- SqlDates.SqlDate: other inputs give NULL in the model, though SQLite's
  `date()` reads them. These are: `'now'`, which depends on the clock (so
  `GET /history?date_from=now` returns today's rows under SQLite and an
  empty page here); a bare `HH:MM[:SS]` time, which SQLite reads as
  2000-01-01; a time written straight after the date or after several
  spaces or 'T's; a leading '-' on the year; fractional seconds; time
  zones; modifiers; Julian day numbers; hours "24"; and surrounding
  whitespace.
- Service.PredictionStore.InsertBatch: two simplifications. Each row is
  stored with its coerced numbers, while the source binds the cells of
  `df_out`. The model assumes that SQLite's REAL/INTEGER affinity turns
  those cells into the same numbers. How the sqlite3 driver binds numpy
  scalar types is not modelled.
- Storage failures, concurrent requests, and the 64-bit limit on AUTOINCREMENT
  ids are not modelled. Every statement succeeds.
- The handlers require the table to exist. Line 67 runs `init_db` when the
  module is imported, before any request.
- The query defaults `limit=100`, `offset=0` (lines 104-105) and
  `confirm=False` (line 154) are filled in by the framework before a
  handler runs. The methods take the resulting values as arguments, so a
  request that omits them is a call with those values.
- CsvUpload.PredictTable: a row with NaN always makes the prediction fail,
  as for estimators that reject missing values; an estimator that accepts
  NaN is not modelled. Infinities are not numbers in the model (the parse
  yields reals), so a column holding `inf` counts as non-numeric.
- Request validation by the framework: modelled only for the range of `limit`
  and `offset`. Type coercion of the query string and of the `HouseData`
  body, and a missing file name, are not modelled.
- CsvUpload.Lower: lowers ASCII letters only, where Python's `str.lower`
  lowers all of Unicode. No character outside ASCII lowers to a letter of
  ".csv" or ".txt", so the extension check comes out the same.
- The text of the error messages (for example the Python list printed for
  missing columns) is not modelled; the error constructor carries its data.
