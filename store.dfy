/**
 * The `predictions` table of predictions.db and the handlers that read and
 * write it: `init_db`, the INSERT of POST /predict and of POST /predict_csv,
 * GET /history, GET /history/{record_id} and DELETE /history.
 */
module Service {
  import opened Results
  import opened Errors
  import opened SqlDates
  import opened Records
  import opened HistoryQuery
  import opened CsvUpload

  // ---------------------------------------------------------------------------
  // Timestamps
  // ---------------------------------------------------------------------------

  /** A reading of `datetime.now()`. */
  datatype DateTime = DateTime(year: nat, month: nat, day: nat, hour: nat, minute: nat, second: nat)

  predicate ValidDateTime(t: DateTime)
  {
    && 1 <= t.year <= 9999 && 1 <= t.month <= 12 && 1 <= t.day <= DaysInMonth(t.year, t.month)
    && t.hour < 24 && t.minute < 60 && t.second < 60
  }

  /** The calendar day of a reading, as "YYYY-MM-DD". */
  function DayOf(t: DateTime): (s: string)
    requires ValidDateTime(t)
    ensures CalendarDate(s) && SqlDate(s) == Some(s)
  {
    var s := FormatDate(t.year, t.month, t.day);
    assert s[..10] == s && s[10..] == [];
    SqlDateOfTimestamp(s);
    s
  }

  /** `strftime("%Y-%m-%d %H:%M:%S")`: sqlite's `date()` reads back the day of the reading. */
  function Timestamp(t: DateTime): (s: string)
    requires ValidDateTime(t)
    ensures |s| == 19 && s[..10] == DayOf(t)
    ensures SqlDate(s) == Some(DayOf(t))
  {
    var date := DayOf(t);
    var time := " " + Format2(t.hour) + ":" + Format2(t.minute) + ":" + Format2(t.second);
    var s := date + time;
    assert s[..10] == date && s[10..] == time;
    assert time[1..3] == Format2(t.hour) && time[4..6] == Format2(t.minute) && time[7..9] == Format2(t.second);
    SqlDateOfTimestamp(s);
    s
  }

  // ---------------------------------------------------------------------------
  // The database, as a value
  // ---------------------------------------------------------------------------

  /**
   * The state of predictions.db: whether the table exists, its rows in rowid
   * order, and the AUTOINCREMENT counter that sqlite_sequence keeps for it.
   */
  datatype Database = Database(hasTable: bool, rows: seq<Record>, lastId: int)

  /** No table means no rows; ids are positive, increasing, and never above the counter. */
  predicate Consistent(db: Database)
  {
    && (!db.hasTable ==> db.rows == [] && db.lastId == 0)
    && 0 <= db.lastId
    && IdsAscending(db.rows)
    && forall k :: 0 <= k < |db.rows| ==> 0 < db.rows[k].id <= db.lastId
  }

  /** `CREATE TABLE IF NOT EXISTS predictions (...)`: afterwards the table exists, and an existing one is kept whole. */
  function Initialized(db: Database): (r: Database)
    ensures r.hasTable
    ensures db.hasTable ==> r == db
    ensures !db.hasTable ==> r.rows == [] && r.lastId == 0
    ensures Consistent(db) ==> Consistent(r)
  {
    if db.hasTable then db else Database(true, [], 0)
  }

  /** `init_db()` called `n` times in a row. */
  function InitializedTimes(db: Database, n: nat): Database
  {
    if n == 0 then db else Initialized(InitializedTimes(db, n - 1))
  }

  /**
   * One INSERT: the row is appended with the next AUTOINCREMENT id, which
   * exceeds every stored id, and the other rows stay as they were.
   */
  function Inserted(db: Database, ts: string, f: Features, price: real): (r: Database)
    ensures r.hasTable == db.hasTable && r.lastId == db.lastId + 1
    ensures |r.rows| == |db.rows| + 1 && r.rows[..|db.rows|] == db.rows
    ensures r.rows[|db.rows|] == Record(r.lastId, ts, f.area, f.rooms, f.distance, price)
    ensures Consistent(db) && db.hasTable ==>
              && Consistent(r)
              && forall k :: 0 <= k < |db.rows| ==> db.rows[k].id < r.rows[|db.rows|].id
  {
    Database(db.hasTable, db.rows + [Record(db.lastId + 1, ts, f.area, f.rooms, f.distance, price)], db.lastId + 1)
  }

  /** One INSERT per row, in row order, all with the same timestamp. */
  function InsertedAll(db: Database, ts: string, features: seq<Features>, prices: seq<real>): (r: Database)
    requires |features| == |prices|
    ensures r.hasTable == db.hasTable
    ensures |r.rows| == |db.rows| + |features| && r.lastId == db.lastId + |features|
    decreases |features|
  {
    if features == [] then db
    else
      var n := |features| - 1;
      Inserted(InsertedAll(db, ts, features[..n], prices[..n]), ts, features[n], prices[n])
  }

  /** `DELETE FROM predictions`: the rows go, sqlite_sequence keeps the counter. */
  function Cleared(db: Database): (r: Database)
    ensures r.rows == [] && r.hasTable == db.hasTable && r.lastId == db.lastId
    ensures Consistent(db) ==> Consistent(r)
  {
    Database(db.hasTable, [], db.lastId)
  }

  // ---------------------------------------------------------------------------
  // Responses
  // ---------------------------------------------------------------------------

  /** `Query(100, gt=0, le=1000)` and `Query(0, ge=0)`: the names of the parameters that fail. */
  function QueryErrors(limit: int, offset: int): (fields: seq<string>)
    ensures "limit" in fields <==> !(0 < limit <= 1000)
    ensures "offset" in fields <==> offset < 0
    ensures fields == [] <==> 0 < limit <= 1000 && 0 <= offset
  {
    (if 0 < limit <= 1000 then [] else ["limit"]) + (if 0 <= offset then [] else ["offset"])
  }

  /** `[row_to_dict(r) for r in rows]` validated as `List[HistoryRecord]`: every row converts, or the response fails. */
  function Validated(rs: seq<Record>): (v: Result<seq<Record>, Error>)
    ensures v.Success? <==> forall k :: 0 <= k < |rs| ==> Response(rs[k]).Some?
    ensures v.Success? ==> |v.value| == |rs| && forall k :: 0 <= k < |rs| ==> Response(rs[k]) == Some(v.value[k])
    ensures v.Failure? ==> v.error == ResponseInvalid
  {
    if forall k :: 0 <= k < |rs| ==> Response(rs[k]).Some? then
      Success(seq(|rs|, k requires 0 <= k < |rs| && Response(rs[k]).Some? => Response(rs[k]).value))
    else
      Failure(ResponseInvalid)
  }

  predicate AllWhole(rs: seq<Record>)
  {
    forall k :: 0 <= k < |rs| ==> IsWhole(rs[k].rooms)
  }

  /**
   * Everything POST /predict_csv does before its database writes, its checks
   * in the handler's order: the file name, the decoding, the reader, the
   * columns, the numbers, the model.
   */
  function CsvOutcome(filename: string, utf8: Option<string>, cp1252: Option<string>, readCsv: CsvReader,
                      parse: string -> Option<real>, predict: Predictor, refuses: Refuses): (r: Result<Batch, Error>)
    requires ReaderWellFormed(readCsv)
    ensures !HasCsvExtension(filename) ==> r == Failure(NotCsv)
    ensures HasCsvExtension(filename) && utf8.None? && cp1252.None? ==> r == Failure(Undecodable)
    ensures r.Failure? ==> || r.error.NotCsv? || r.error.Undecodable? || r.error.Unreadable?
                           || r.error.MissingColumns? || r.error.NotNumeric? || r.error.PredictionFailed?
    ensures r.Success? ==> && HasCsvExtension(filename) && (utf8.Some? || cp1252.Some?)
                           && |r.value.features| == |r.value.prices| == |r.value.output.rows|
                           && forall i :: 0 <= i < |r.value.prices| ==> r.value.prices[i] == predict(r.value.features[i])
  {
    match ReadUpload(filename, utf8, cp1252, readCsv)
    case Failure(e) => Failure(e)
    case Success(t) => PredictTable(t, parse, predict, refuses)
  }

  // ---------------------------------------------------------------------------
  // The store
  // ---------------------------------------------------------------------------

  class PredictionStore {
    var hasTable: bool
    var rows: seq<Record>
    var lastId: int

    function Snapshot(): Database
      reads this
    {
      Database(hasTable, rows, lastId)
    }

    ghost predicate Valid()
      reads this
    {
      Consistent(Snapshot())
    }

    /** No database file yet. */
    constructor ()
      ensures Valid() && Snapshot() == Database(false, [], 0)
    {
      hasTable, rows, lastId := false, [], 0;
    }

    method InitDb()
      requires Valid()
      modifies this
      ensures Valid() && hasTable
      ensures Snapshot() == Initialized(old(Snapshot()))
    {
      if !hasTable {
        hasTable, rows, lastId := true, [], 0;
      }
    }

    /** The parameterised INSERT; returns the id the row received. */
    method Insert(ts: string, f: Features, price: real) returns (id: int)
      requires Valid() && hasTable
      modifies this
      ensures Valid() && hasTable
      ensures Snapshot() == Inserted(old(Snapshot()), ts, f, price)
      ensures id == lastId == old(lastId) + 1
    {
      id := lastId + 1;
      rows := rows + [Record(id, ts, f.area, f.rooms, f.distance, price)];
      lastId := id;
    }

    /** POST /predict: store the unrounded prediction, answer it rounded to two decimals. */
    method PredictPrice(data: HouseData, predict: Predictor, now: DateTime) returns (price: real)
      requires Valid() && hasTable && ValidDateTime(now)
      modifies this
      ensures Valid() && hasTable
      ensures price == Round2(predict(FeaturesOf(data)))
      ensures Snapshot() == Inserted(old(Snapshot()), Timestamp(now), FeaturesOf(data), predict(FeaturesOf(data)))
    {
      var features := FeaturesOf(data);
      var prediction := predict(features);
      var ts := Timestamp(now);
      var id := Insert(ts, features, prediction);
      price := Round2(prediction);
    }

    /** GET /history: one page of records, newest first. */
    method GetHistory(limit: int, offset: int, dateFrom: Option<string>, dateTo: Option<string>)
      returns (r: Result<seq<Record>, Error>)
      requires Valid() && hasTable
      ensures QueryErrors(limit, offset) != [] ==> r == Failure(InvalidQuery(QueryErrors(limit, offset)))
      ensures QueryErrors(limit, offset) == [] ==>
        var page := HistoryPage(rows, limit, offset, dateFrom, dateTo);
        r == if AllWhole(page) then Success(page) else Failure(ResponseInvalid)
    {
      var errors := QueryErrors(limit, offset);
      if errors != [] {
        return Failure(InvalidQuery(errors));
      }
      var sql, whereClauses, params := BuildQuery(limit, offset, dateFrom, dateTo);
      QueryMeansHistoryPage(rows, limit, offset, dateFrom, dateTo, sql, whereClauses, params);
      var fetched := Execute(rows, sql, whereClauses, params);
      ResponseOfRecords(fetched);
      r := Validated(fetched);
    }

    /** GET /history/{record_id}. */
    method GetRecord(recordId: int) returns (r: Result<Record, Error>)
      requires Valid() && hasTable
      ensures r == Failure(NotFound) <==> forall k :: 0 <= k < |rows| ==> rows[k].id != recordId
      ensures forall k :: 0 <= k < |rows| && rows[k].id == recordId ==>
                r == if IsWhole(rows[k].rooms) then Success(rows[k]) else Failure(ResponseInvalid)
    {
      var row := FindById(rows, recordId);
      forall k | 0 <= k < |rows| && rows[k].id == recordId
        ensures row == Some(rows[k])
      {
        FindByIdExact(rows, k);
      }
      if row.None? {
        return Failure(NotFound);
      }
      var response := Response(row.value);
      r := if response.Some? then Success(response.value) else Failure(ResponseInvalid);
    }

    /** DELETE /history. */
    method ClearHistory(confirm: bool) returns (r: Result<int, Error>)
      requires Valid() && hasTable
      modifies this
      ensures Valid() && hasTable
      ensures !confirm ==> r == Failure(ConfirmationRequired) && Snapshot() == old(Snapshot())
      ensures confirm ==> r == Success(|old(rows)|) && Snapshot() == Cleared(old(Snapshot()))
    {
      if !confirm {
        return Failure(ConfirmationRequired);
      }
      var deleted := |rows|;
      rows := [];
      return Success(deleted);
    }

    /** POST /predict_csv: on success every row is stored, and the table with its prices is returned. */
    method PredictCsv(filename: string, utf8: Option<string>, cp1252: Option<string>, readCsv: CsvReader,
                      parse: string -> Option<real>, predict: Predictor, refuses: Refuses, now: DateTime)
      returns (r: Result<Table, Error>)
      requires Valid() && hasTable && ReaderWellFormed(readCsv) && ValidDateTime(now)
      modifies this
      ensures Valid() && hasTable
      ensures var outcome := CsvOutcome(filename, utf8, cp1252, readCsv, parse, predict, refuses);
        match outcome
        case Failure(e) => r == Failure(e) && Snapshot() == old(Snapshot())
        case Success(b) => r == Success(b.output) && Snapshot() == InsertedAll(old(Snapshot()), Timestamp(now), b.features, b.prices)
    {
      var outcome := CsvOutcome(filename, utf8, cp1252, readCsv, parse, predict, refuses);
      if outcome.Failure? {
        return Failure(outcome.error);
      }
      var batch := outcome.value;
      InsertBatch(Timestamp(now), batch.features, batch.prices);
      r := Success(batch.output);
    }

    /** The loop over `df_out.iterrows()`: one INSERT per row, all with the timestamp taken once before it. */
    method InsertBatch(ts: string, features: seq<Features>, prices: seq<real>)
      requires Valid() && hasTable && |features| == |prices|
      modifies this
      ensures Valid() && hasTable
      ensures Snapshot() == InsertedAll(old(Snapshot()), ts, features, prices)
    {
      ghost var before := Snapshot();
      var i := 0;
      while i < |features|
        invariant 0 <= i <= |features|
        invariant Valid() && hasTable
        invariant Snapshot() == InsertedAll(before, ts, features[..i], prices[..i])
      {
        var id := Insert(ts, features[i], prices[i]);
        assert features[..i + 1][..i] == features[..i];
        assert prices[..i + 1][..i] == prices[..i];
        i := i + 1;
      }
      assert features[..i] == features && prices[..i] == prices;
    }
  }

  // ---------------------------------------------------------------------------
  // Lemmas
  // ---------------------------------------------------------------------------

  /** `init_db()` creates the table once; calling it again changes nothing. */
  lemma {:induction false} InitDbIdempotent(db: Database, n: nat)
    requires Consistent(db) && n >= 1
    ensures InitializedTimes(db, n) == Initialized(db)
    ensures Consistent(Initialized(db)) && Initialized(db).hasTable
    ensures db.hasTable ==> Initialized(db) == db
  {
    if n > 1 {
      InitDbIdempotent(db, n - 1);
    }
  }

  /** A batch adds one row per input row, ids consecutive after the counter, all sharing one timestamp. */
  lemma {:induction false} BatchInsertShape(db: Database, ts: string, features: seq<Features>, prices: seq<real>)
    requires |features| == |prices|
    ensures var after := InsertedAll(db, ts, features, prices);
      && after.hasTable == db.hasTable
      && |after.rows| == |db.rows| + |features|
      && after.rows[..|db.rows|] == db.rows
      && after.lastId == db.lastId + |features|
      && forall i :: 0 <= i < |features| ==>
           after.rows[|db.rows| + i] == Record(db.lastId + 1 + i, ts, features[i].area, features[i].rooms, features[i].distance, prices[i])
    decreases |features|
  {
    if features != [] {
      var n := |features| - 1;
      BatchInsertShape(db, ts, features[..n], prices[..n]);
      var mid := InsertedAll(db, ts, features[..n], prices[..n]);
      var after := InsertedAll(db, ts, features, prices);
      assert after == Inserted(mid, ts, features[n], prices[n]);
      assert after.rows[..|mid.rows|] == mid.rows;
      assert after.rows[..|db.rows|] == mid.rows[..|db.rows|];
    }
  }

  /** A batch keeps the table consistent. */
  lemma {:induction false} BatchKeepsConsistent(db: Database, ts: string, features: seq<Features>, prices: seq<real>)
    requires Consistent(db) && db.hasTable && |features| == |prices|
    ensures Consistent(InsertedAll(db, ts, features, prices))
    decreases |features|
  {
    if features != [] {
      var n := |features| - 1;
      BatchKeepsConsistent(db, ts, features[..n], prices[..n]);
      BatchInsertShape(db, ts, features[..n], prices[..n]);
    }
  }

  /** After DELETE the next row still gets a fresh id: ids are never reused. */
  lemma ClearKeepsCounter(db: Database, ts: string, f: Features, price: real)
    requires Consistent(db) && db.hasTable
    ensures Consistent(Cleared(db))
    ensures Inserted(Cleared(db), ts, f, price).rows == [Record(db.lastId + 1, ts, f.area, f.rooms, f.distance, price)]
    ensures forall k :: 0 <= k < |db.rows| ==> db.rows[k].id < db.lastId + 1
  {
  }

  /** The response for a list of rows is those rows exactly when every `rooms` is whole. */
  lemma ResponseOfRecords(rs: seq<Record>)
    ensures Validated(rs) == if AllWhole(rs) then Success(rs) else Failure(ResponseInvalid)
  {
    var v := Validated(rs);
    if AllWhole(rs) {
      assert v.Success?;
      assert |v.value| == |rs| && forall k :: 0 <= k < |rs| ==> v.value[k] == rs[k];
      assert v.value == rs;
    } else {
      var k :| 0 <= k < |rs| && !IsWhole(rs[k].rooms);
      assert Response(rs[k]).None?;
    }
  }

  /** A prediction's record is found by its id and reads back as it was stored. */
  lemma PredictionReadsBack(db: Database, data: HouseData, ts: string, price: real)
    requires Consistent(db) && db.hasTable
    ensures var after := Inserted(db, ts, FeaturesOf(data), price);
      var rec := Record(db.lastId + 1, ts, data.area, data.rooms as real, data.distance, price);
      && FindById(after.rows, db.lastId + 1) == Some(rec)
      && Response(rec) == Some(rec)
  {
    var after := Inserted(db, ts, FeaturesOf(data), price);
    FindByIdExact(after.rows, |db.rows|);
  }

  /** The newest prediction heads the page of its own day. */
  lemma NewestLeadsItsDay(db: Database, now: DateTime, f: Features, price: real, limit: nat)
    requires Consistent(db) && db.hasTable && ValidDateTime(now) && limit >= 1
    ensures var after := Inserted(db, Timestamp(now), f, price);
      var page := HistoryPage(after.rows, limit, 0, Some(DayOf(now)), Some(DayOf(now)));
      |page| >= 1 && page[0] == after.rows[|after.rows| - 1]
  {
    var after := Inserted(db, Timestamp(now), f, price);
    var rec := after.rows[|after.rows| - 1];
    var day := DayOf(now);
    BoundsInclusive(rec, day);
    assert after.rows[..|after.rows| - 1] == db.rows;
    var matching := Matching(after.rows, Some(day), Some(day));
    assert matching[0] == rec;
  }
}
