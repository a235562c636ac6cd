/**
 * One prediction as it lives in the `predictions` table, as the SELECT hands it
 * back (a row of SQL values), as `row_to_dict` turns it into a dictionary, and
 * as the `HistoryRecord` response model reads that dictionary.
 */
module Records {
  import opened Results

  /** The request body of POST /predict (`HouseData`). */
  datatype HouseData = HouseData(area: real, rooms: int, distance: real)

  /** The feature vector the predictor receives, in the fixed order [area, rooms, distance]. */
  datatype Features = Features(area: real, rooms: real, distance: real)

  /** The pre-trained model: a price for every feature vector. */
  type Predictor = Features -> real

  function FeaturesOf(data: HouseData): (f: Features)
    ensures f.area == data.area && f.rooms == data.rooms as real && f.distance == data.distance
  {
    Features(data.area, data.rooms as real, data.distance)
  }

  /**
   * A row of the `predictions` table.  `rooms` holds the number the INSERT
   * bound; the column's INTEGER affinity decides how it is read back.
   */
  datatype Record = Record(id: int, timestamp: string, area: real, rooms: real, distance: real, predictedPrice: real)

  /** A value of an SQLite result row. */
  datatype SqlValue = Integer(i: int) | Real(r: real) | Text(t: string) | Null

  /** The columns of `SELECT id, timestamp, area, rooms, distance, predicted_price`, in order. */
  const COLUMNS: seq<string> := ["id", "timestamp", "area", "rooms", "distance", "predicted_price"]

  predicate IsWhole(x: real) { x.Floor as real == x }

  /** INTEGER affinity: a REAL with no fractional part is stored, and read back, as an INTEGER. */
  function RoomsValue(rooms: real): (v: SqlValue)
    ensures v.Integer? <==> IsWhole(rooms)
    ensures v.Integer? ==> v.i as real == rooms
    ensures v.Real? ==> v.r == rooms
    ensures !IsWhole(rooms) ==> v == Real(rooms)
  {
    if IsWhole(rooms) then Integer(rooms.Floor) else Real(rooms)
  }

  /** The result row the SELECT of the history handlers yields for a stored record. */
  function RowOf(r: Record): (row: seq<SqlValue>)
    ensures |row| == |COLUMNS|
  {
    [Integer(r.id), Text(r.timestamp), Real(r.area), RoomsValue(r.rooms), Real(r.distance), Real(r.predictedPrice)]
  }

  /** `row_to_dict`: the i-th value of the row under the i-th column name. */
  function RowToDict(row: seq<SqlValue>): (d: map<string, SqlValue>)
    requires |row| >= |COLUMNS|
    ensures d.Keys == set c | c in COLUMNS
    ensures forall k :: 0 <= k < |COLUMNS| ==> d[COLUMNS[k]] == row[k]
  {
    map["id" := row[0], "timestamp" := row[1], "area" := row[2],
        "rooms" := row[3], "distance" := row[4], "predicted_price" := row[5]]
  }

  // `HistoryRecord`'s field checks in lax mode: an int field takes an INTEGER
  // (or a whole REAL), a float field takes an INTEGER or a REAL, a str field takes TEXT.

  function AsInt(v: SqlValue): Option<int>
  {
    match v
    case Integer(i) => Some(i)
    case Real(x) => if IsWhole(x) then Some(x.Floor) else None
    case _ => None
  }

  function AsFloat(v: SqlValue): Option<real>
  {
    match v
    case Integer(i) => Some(i as real)
    case Real(x) => Some(x)
    case _ => None
  }

  function AsText(v: SqlValue): Option<string>
  {
    match v
    case Text(t) => Some(t)
    case _ => None
  }

  /** The `HistoryRecord` response model read from a dictionary, or `None` when validation fails. */
  function DictToRecord(d: map<string, SqlValue>): (r: Option<Record>)
    ensures r.Some? ==> forall c :: c in COLUMNS ==> c in d
  {
    if forall c :: c in COLUMNS ==> c in d then
      match (AsInt(d["id"]), AsText(d["timestamp"]), AsFloat(d["area"]),
             AsInt(d["rooms"]), AsFloat(d["distance"]), AsFloat(d["predicted_price"]))
      case (Some(id), Some(ts), Some(area), Some(rooms), Some(distance), Some(price)) =>
        Some(Record(id, ts, area, rooms as real, distance, price))
      case _ => None
    else
      None
  }

  /**
   * A stored record comes back unchanged through SELECT, `row_to_dict` and
   * `HistoryRecord`, exactly when its `rooms` is a whole number; otherwise the
   * response model rejects it.
   */
  lemma DictRoundTrip(r: Record)
    ensures DictToRecord(RowToDict(RowOf(r))) == (if IsWhole(r.rooms) then Some(r) else None)
  {
    var d := RowToDict(RowOf(r));
    assert forall c :: c in COLUMNS ==> c in d;
  }

  /** A stored record as the handlers answer it: `row_to_dict` of its row, validated as a `HistoryRecord`. */
  function Response(r: Record): (v: Option<Record>)
    ensures v == if IsWhole(r.rooms) then Some(r) else None
  {
    DictRoundTrip(r);
    DictToRecord(RowToDict(RowOf(r)))
  }

  /** Python's `round(x, 2)`: the nearest multiple of 0.01, a tie going to the even multiple. */
  function Round2(x: real): (r: real)
    ensures -0.005 <= r - x <= 0.005
    ensures IsWhole(r * 100.0)
  {
    var scaled := x * 100.0;
    var k := scaled.Floor;
    var frac := scaled - k as real;
    assert 0.0 <= frac < 1.0;
    var n := if frac < 0.5 then k else if frac > 0.5 then k + 1 else if k % 2 == 0 then k else k + 1;
    assert -0.5 <= n as real - scaled <= 0.5;
    var r := n as real / 100.0;
    assert r * 100.0 == n as real;
    assert r - x == (n as real - scaled) / 100.0;
    r
  }

  /** A tie goes to the even neighbour. */
  lemma Round2Examples()
    ensures Round2(0.125) == 0.12 && Round2(0.375) == 0.38 && Round2(2.5) == 2.5
  {
  }

  /** Rounding an already rounded price changes nothing. */
  lemma {:induction false} Round2Idempotent(x: real)
    ensures Round2(Round2(x)) == Round2(x)
  {
    var r := Round2(x);
    var n := (r * 100.0).Floor;
    assert r * 100.0 == n as real;
    assert (r * 100.0 - n as real) == 0.0;
  }
}
