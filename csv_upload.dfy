/**
 * The validation and shaping rules of POST /predict_csv: the file-name
 * check, the decoding fallback, the list of missing required columns, the
 * numeric coercion of those columns, and the output table with its
 * `predicted_price` column.
 */
module CsvUpload {
  import opened Results
  import opened Errors
  import opened Records

  const REQUIRED_COLUMNS: seq<string> := ["area", "rooms", "distance"]
  const PRICE_COLUMN := "predicted_price"

  // ---------------------------------------------------------------------------
  // File name
  // ---------------------------------------------------------------------------

  function LowerChar(c: char): char
  {
    if 'A' <= c <= 'Z' then (c as int + 32) as char else c
  }

  /** `str.lower()` on the ASCII letters. */
  function Lower(s: string): (r: string)
    ensures |r| == |s| && forall i :: 0 <= i < |s| ==> r[i] == LowerChar(s[i])
  {
    seq(|s|, i requires 0 <= i < |s| => LowerChar(s[i]))
  }

  predicate EndsWith(s: string, suffix: string)
  {
    |suffix| <= |s| && s[|s| - |suffix|..] == suffix
  }

  /** `name` ends with `suffix` when its letters are compared in lower case. */
  predicate EndsWithIgnoringCase(name: string, suffix: string)
  {
    |suffix| <= |name| && forall i :: 0 <= i < |suffix| ==> LowerChar(name[|name| - |suffix| + i]) == suffix[i]
  }

  /** `file.filename.lower().endswith((".csv", ".txt"))`. */
  function HasCsvExtension(filename: string): (ok: bool)
    ensures ok <==> EndsWithIgnoringCase(filename, ".csv") || EndsWithIgnoringCase(filename, ".txt")
  {
    LowerSuffix(filename, ".csv");
    LowerSuffix(filename, ".txt");
    EndsWith(Lower(filename), ".csv") || EndsWith(Lower(filename), ".txt")
  }

  lemma LowerSuffix(name: string, suffix: string)
    ensures EndsWith(Lower(name), suffix) <==> EndsWithIgnoringCase(name, suffix)
  {
    var lower, n, m := Lower(name), |name|, |suffix|;
    if m <= n {
      var tail := lower[n - m..];
      assert |tail| == m && forall i :: 0 <= i < m ==> tail[i] == LowerChar(name[n - m + i]);
    }
  }

  /** Upper-case extensions pass. */
  lemma UpperCaseExtensionAccepted()
    ensures HasCsvExtension("a.CSV")
  {
    var n := "a.CSV";
    assert LowerChar(n[2]) == 'c' && LowerChar(n[3]) == 's' && LowerChar(n[4]) == 'v';
  }

  /** Only the last suffix counts, and the dot is required. */
  lemma OtherNamesRejected()
    ensures !HasCsvExtension("a.csv.gz") && !HasCsvExtension("csv")
  {
    assert "a.csv.gz"[4] == 'v' && LowerChar('v') != '.';
  }

  // ---------------------------------------------------------------------------
  // Decoding and parsing
  // ---------------------------------------------------------------------------

  /** A cell as the CSV reader types it: text, a number, or a missing value (NaN). */
  datatype Cell = StrCell(text: string) | NumCell(value: real) | NaNCell

  /** A data frame: column labels and rows of cells. */
  datatype Table = Table(columns: seq<string>, rows: seq<seq<Cell>>)

  /** What the CSV reader guarantees: distinct labels and one cell per label in every row. */
  predicate WellFormed(t: Table)
  {
    && (forall i, j :: 0 <= i < j < |t.columns| ==> t.columns[i] != t.columns[j])
    && (forall k :: 0 <= k < |t.rows| ==> |t.rows[k]| == |t.columns|)
  }

  /** The CSV reader on the decoded text: a table or the message of its exception. */
  type CsvReader = string -> Result<Table, string>

  ghost predicate ReaderWellFormed(readCsv: CsvReader)
  {
    forall text :: readCsv(text).Success? ==> WellFormed(readCsv(text).value)
  }

  /**
   * The upload as a table: the name is checked first, then the bytes are
   * decoded as UTF-8, or as cp1252 when UTF-8 fails, then the text is read.
   * `utf8` and `cp1252` are the outcomes of the two decodings.
   */
  function ReadUpload(filename: string, utf8: Option<string>, cp1252: Option<string>, readCsv: CsvReader): (r: Result<Table, Error>)
    ensures !HasCsvExtension(filename) <==> r == Failure(NotCsv)
    ensures r == Failure(Undecodable) <==> HasCsvExtension(filename) && utf8.None? && cp1252.None?
    ensures r.Success? ==> HasCsvExtension(filename)
                           && ((utf8.Some? && readCsv(utf8.value) == Success(r.value))
                               || (utf8.None? && cp1252.Some? && readCsv(cp1252.value) == Success(r.value)))
    ensures r.Failure? && r.error.Unreadable? ==> HasCsvExtension(filename)
    ensures HasCsvExtension(filename) && (utf8.Some? || cp1252.Some?) ==>
      var text := if utf8.Some? then utf8.value else cp1252.value;
      r == match readCsv(text) case Success(t) => Success(t) case Failure(m) => Failure(Unreadable(m))
  {
    if !HasCsvExtension(filename) then Failure(NotCsv)
    else
      var text := if utf8.Some? then utf8 else cp1252;
      match text
      case None => Failure(Undecodable)
      case Some(s) =>
        match readCsv(s)
        case Failure(message) => Failure(Unreadable(message))
        case Success(t) => Success(t)
  }

  // ---------------------------------------------------------------------------
  // Columns
  // ---------------------------------------------------------------------------

  /** `a` is `b` with some elements left out, order kept. */
  predicate Subsequence(a: seq<string>, b: seq<string>)
    decreases |b|
  {
    a == [] || (b != [] && ((a[0] == b[0] && Subsequence(a[1..], b[1..])) || Subsequence(a, b[1..])))
  }

  /** `[c for c in wanted if c not in columns]`. */
  function MissingFrom(wanted: seq<string>, columns: seq<string>): (missing: seq<string>)
    ensures forall c :: c in missing <==> c in wanted && c !in columns
    ensures Subsequence(missing, wanted)
  {
    if wanted == [] then []
    else if wanted[0] in columns then MissingFrom(wanted[1..], columns)
    else [wanted[0]] + MissingFrom(wanted[1..], columns)
  }

  function MissingRequired(columns: seq<string>): seq<string>
  {
    MissingFrom(REQUIRED_COLUMNS, columns)
  }

  /** A header without `distance` is reported as missing exactly that column. */
  lemma MissingDistance()
    ensures MissingRequired(["area", "rooms"]) == ["distance"]
    ensures MissingRequired(["rooms", "x", "distance", "area"]) == []
  {
  }

  /** The position of a label. */
  function IndexOf(columns: seq<string>, name: string): (k: nat)
    requires name in columns
    ensures k < |columns| && columns[k] == name
    ensures forall j :: 0 <= j < k ==> columns[j] != name
  {
    if columns[0] == name then 0 else 1 + IndexOf(columns[1..], name)
  }

  /** `df[name][i]`: the cell of row `i` under the one column labelled `name`. */
  function CellAt(t: Table, i: nat, name: string): (c: Cell)
    requires WellFormed(t) && i < |t.rows| && name in t.columns
    ensures forall k :: 0 <= k < |t.columns| && t.columns[k] == name ==> c == t.rows[i][k]
  {
    t.rows[i][IndexOf(t.columns, name)]
  }

  // ---------------------------------------------------------------------------
  // Numeric coercion and prediction
  // ---------------------------------------------------------------------------

  datatype Numeric = Finite(x: real) | NotANumber

  /**
   * `pd.to_numeric(..., errors="raise")` on one cell: numbers and NaN pass,
   * text passes when `parse` reads a number from it.
   */
  function ToNumeric(c: Cell, parse: string -> Option<real>): (v: Option<Numeric>)
    ensures v.None? <==> c.StrCell? && parse(c.text).None?
    ensures v == Some(NotANumber) <==> c.NaNCell?
    ensures c.NumCell? ==> v == Some(Finite(c.value))
    ensures c.StrCell? && parse(c.text).Some? ==> v == Some(Finite(parse(c.text).value))
  {
    match c
    case NumCell(x) => Some(Finite(x))
    case NaNCell => Some(NotANumber)
    case StrCell(s) => if parse(s).Some? then Some(Finite(parse(s).value)) else None
  }

  predicate HasRequired(t: Table)
  {
    forall c :: c in REQUIRED_COLUMNS ==> c in t.columns
  }

  /** Every cell of the required columns coerces to a number or NaN. */
  predicate RequiredNumeric(t: Table, parse: string -> Option<real>)
    requires WellFormed(t) && HasRequired(t)
  {
    forall i, c :: 0 <= i < |t.rows| && c in REQUIRED_COLUMNS ==> ToNumeric(CellAt(t, i, c), parse).Some?
  }

  /** The feature vector of row `i`, or `None` when one of its values is NaN (the model then fails). */
  function RowFeatures(t: Table, i: nat, parse: string -> Option<real>): (f: Option<Features>)
    requires WellFormed(t) && HasRequired(t) && i < |t.rows| && RequiredNumeric(t, parse)
    ensures f.Some? <==> forall c :: c in REQUIRED_COLUMNS ==> ToNumeric(CellAt(t, i, c), parse).value.Finite?
    ensures f.Some? ==> && ToNumeric(CellAt(t, i, "area"), parse) == Some(Finite(f.value.area))
                        && ToNumeric(CellAt(t, i, "rooms"), parse) == Some(Finite(f.value.rooms))
                        && ToNumeric(CellAt(t, i, "distance"), parse) == Some(Finite(f.value.distance))
  {
    var area, rooms, distance :=
      ToNumeric(CellAt(t, i, "area"), parse).value,
      ToNumeric(CellAt(t, i, "rooms"), parse).value,
      ToNumeric(CellAt(t, i, "distance"), parse).value;
    if area.Finite? && rooms.Finite? && distance.Finite? then Some(Features(area.x, rooms.x, distance.x)) else None
  }

  /** `df_out = df.copy(); df_out["predicted_price"] = preds`: a new last column, or the old one overwritten. */
  function WithPredictions(t: Table, prices: seq<real>): (out: Table)
    requires WellFormed(t) && |prices| == |t.rows|
    ensures WellFormed(out) && |out.rows| == |t.rows|
    ensures out.columns == if PRICE_COLUMN in t.columns then t.columns else t.columns + [PRICE_COLUMN]
    ensures forall i :: 0 <= i < |t.rows| ==> CellAt(out, i, PRICE_COLUMN) == NumCell(prices[i])
    ensures forall i, c :: 0 <= i < |t.rows| && c in t.columns && c != PRICE_COLUMN ==> CellAt(out, i, c) == CellAt(t, i, c)
  {
    if PRICE_COLUMN in t.columns then
      var j := IndexOf(t.columns, PRICE_COLUMN);
      var out := Table(t.columns, seq(|t.rows|, i requires 0 <= i < |t.rows| => t.rows[i][j := NumCell(prices[i])]));
      assert forall i :: 0 <= i < |t.rows| ==> out.rows[i] == t.rows[i][j := NumCell(prices[i])];
      out
    else
      var out := Table(t.columns + [PRICE_COLUMN], seq(|t.rows|, i requires 0 <= i < |t.rows| => t.rows[i] + [NumCell(prices[i])]));
      assert forall i :: 0 <= i < |t.rows| ==> out.rows[i] == t.rows[i] + [NumCell(prices[i])];
      AppendedIndex(t.columns, PRICE_COLUMN);
      out
  }

  /** A label keeps its position when another is appended after it; the new one is last. */
  lemma AppendedIndex(columns: seq<string>, name: string)
    requires name !in columns
    ensures forall c :: c in columns ==> IndexOf(columns + [name], c) == IndexOf(columns, c)
    ensures IndexOf(columns + [name], name) == |columns|
  {
    var longer := columns + [name];
    forall c | c in columns
      ensures IndexOf(longer, c) == IndexOf(columns, c)
    {
      var k, m := IndexOf(longer, c), IndexOf(columns, c);
      assert longer[m] == c;
    }
  }

  /**
   * `df_required.values`: one row per input row holding its coerced area,
   * rooms and distance, in the order of REQUIRED_COLUMNS.
   */
  function Matrix(t: Table, parse: string -> Option<real>): (x: seq<seq<Numeric>>)
    requires WellFormed(t) && HasRequired(t) && RequiredNumeric(t, parse)
    ensures |x| == |t.rows|
    ensures forall i :: 0 <= i < |t.rows| ==> |x[i]| == |REQUIRED_COLUMNS|
    ensures forall i, j :: 0 <= i < |t.rows| && 0 <= j < |REQUIRED_COLUMNS| ==>
              Some(x[i][j]) == ToNumeric(CellAt(t, i, REQUIRED_COLUMNS[j]), parse)
  {
    seq(|t.rows|, i requires 0 <= i < |t.rows| =>
      seq(|REQUIRED_COLUMNS|, j requires 0 <= j < |REQUIRED_COLUMNS| => ToNumeric(CellAt(t, i, REQUIRED_COLUMNS[j]), parse).value))
  }

  /**
   * Whether `model.predict(X)` raises on the matrix `X`: the estimator may
   * refuse, for instance, a matrix without rows.  A NaN in `X` is refused in
   * any case (see PredictTable).
   */
  type Refuses = seq<seq<Numeric>> -> bool

  /** A table ready to be stored: the output table, and per row its features and its price. */
  datatype Batch = Batch(output: Table, features: seq<Features>, prices: seq<real>)

  /**
   * Everything `predict_csv` does with a read table before it touches the
   * database: missing columns first, then numeric coercion, then the model
   * on the whole matrix.  On success one output row and one feature vector
   * per input row, in order; the output is the input table with
   * `predicted_price` holding the model's price for each row's
   * [area, rooms, distance].
   */
  function PredictTable(t: Table, parse: string -> Option<real>, predict: Predictor, refuses: Refuses): (r: Result<Batch, Error>)
    requires WellFormed(t)
    ensures MissingRequired(t.columns) != [] <==> r == Failure(MissingColumns(MissingRequired(t.columns)))
    ensures r == Failure(NotNumeric) <==> HasRequired(t) && !RequiredNumeric(t, parse)
    ensures r == Failure(PredictionFailed) <==>
      && HasRequired(t) && RequiredNumeric(t, parse)
      && (refuses(Matrix(t, parse)) || exists i :: 0 <= i < |t.rows| && RowFeatures(t, i, parse).None?)
    ensures (&& HasRequired(t) && RequiredNumeric(t, parse) && !refuses(Matrix(t, parse))
             && forall i :: 0 <= i < |t.rows| ==> RowFeatures(t, i, parse).Some?) ==> r.Success?
    ensures r.Success? ==>
      var b := r.value;
      && HasRequired(t) && RequiredNumeric(t, parse)
      && |b.features| == |b.prices| == |t.rows|
      && b.output == WithPredictions(t, b.prices)
      && (forall i :: 0 <= i < |t.rows| ==>
            && RowFeatures(t, i, parse) == Some(b.features[i])
            && b.prices[i] == predict(b.features[i]))
  {
    var missing := MissingRequired(t.columns);
    if missing != [] then
      assert missing[0] in missing;
      Failure(MissingColumns(missing))
    else if !RequiredNumeric(t, parse) then
      Failure(NotNumeric)
    else if refuses(Matrix(t, parse)) || exists i :: 0 <= i < |t.rows| && RowFeatures(t, i, parse).None? then
      Failure(PredictionFailed)
    else
      var features := seq(|t.rows|, i requires 0 <= i < |t.rows| => RowFeatures(t, i, parse).value);
      var prices := seq(|t.rows|, i requires 0 <= i < |t.rows| => predict(features[i]));
      Success(Batch(WithPredictions(t, prices), features, prices))
  }
}
