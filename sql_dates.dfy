/**
 * The two pieces of SQLite that the history filter relies on:
 * the `date()` function applied to a text value, and the BINARY collation
 * that compares the two text results.
 */
module SqlDates {
  import opened Results

  predicate IsDigit(c: char) { '0' <= c <= '9' }

  predicate AllDigits(s: string) { forall i :: 0 <= i < |s| ==> IsDigit(s[i]) }

  function DigitValue(c: char): (d: nat)
    requires IsDigit(c)
    ensures d < 10
  {
    c as int - '0' as int
  }

  function Digit(d: nat): (c: char)
    requires d < 10
    ensures IsDigit(c) && DigitValue(c) == d
  {
    ('0' as int + d) as char
  }

  function Pow10(n: nat): (p: nat)
    ensures p >= 1
  {
    if n == 0 then 1 else 10 * Pow10(n - 1)
  }

  /** The number a string of decimal digits denotes, most significant digit first. */
  function Value(s: string): nat
    requires AllDigits(s)
  {
    if s == [] then 0 else 10 * Value(s[..|s| - 1]) + DigitValue(s[|s| - 1])
  }

  lemma {:induction false} ValueBound(s: string)
    requires AllDigits(s)
    ensures Value(s) < Pow10(|s|)
  {
    if s != [] {
      ValueBound(s[..|s| - 1]);
    }
  }

  lemma Value2(s: string)
    requires |s| == 2 && AllDigits(s)
    ensures Value(s) == 10 * DigitValue(s[0]) + DigitValue(s[1])
  {
    assert s[..1][..0] == [];
    assert Value(s[..1]) == DigitValue(s[0]);
  }

  lemma Value4(s: string)
    requires |s| == 4 && AllDigits(s)
    ensures Value(s) == 1000 * DigitValue(s[0]) + 100 * DigitValue(s[1]) + 10 * DigitValue(s[2]) + DigitValue(s[3])
  {
    assert s[..1][..0] == [];
    assert Value(s[..1]) == DigitValue(s[0]);
    assert s[..2][..1] == s[..1];
    assert Value(s[..2]) == 10 * DigitValue(s[0]) + DigitValue(s[1]);
    assert s[..3][..2] == s[..2];
    assert Value(s[..3]) == 100 * DigitValue(s[0]) + 10 * DigitValue(s[1]) + DigitValue(s[2]);
  }

  // ---------------------------------------------------------------------------
  // BINARY collation: text compared character by character, a proper prefix first
  // ---------------------------------------------------------------------------

  /** `a <= b` on two TEXT values under SQLite's default BINARY collation. */
  predicate TextLe(a: string, b: string)
    decreases |a|
  {
    |a| == 0 || (|b| > 0 && (a[0] < b[0] || (a[0] == b[0] && TextLe(a[1..], b[1..]))))
  }

  // ---------------------------------------------------------------------------
  // date(): the calendar date of a time value, as "YYYY-MM-DD", or NULL
  // ---------------------------------------------------------------------------

  /** "YYYY-MM-DD" with digits and dashes in place (ranges are checked separately). */
  predicate DateShape(s: string)
  {
    && |s| == 10
    && AllDigits(s[0..4]) && s[4] == '-'
    && AllDigits(s[5..7]) && s[7] == '-'
    && AllDigits(s[8..10])
  }

  /** A two-digit field whose value is at most `max`. */
  predicate Field2(s: string, max: nat)
  {
    |s| == 2 && AllDigits(s) && Value(s) <= max
  }

  /** What may follow the date: nothing, or a separator and "HH:MM" or "HH:MM:SS". */
  predicate TimeSuffix(t: string)
  {
    || t == []
    || (&& (|t| == 6 || |t| == 9)
        && (t[0] == ' ' || t[0] == 'T')
        && Field2(t[1..3], 23) && t[3] == ':' && Field2(t[4..6], 59)
        && (|t| == 9 ==> t[6] == ':' && Field2(t[7..9], 59)))
  }

  predicate IsLeapYear(y: nat)
  {
    y % 4 == 0 && (y % 100 != 0 || y % 400 == 0)
  }

  function DaysInMonth(y: nat, m: nat): (n: nat)
    requires 1 <= m <= 12
    ensures 28 <= n <= 31
    ensures m == 12 ==> n == 31
  {
    if m == 2 then (if IsLeapYear(y) then 29 else 28)
    else if m == 4 || m == 6 || m == 9 || m == 11 then 30
    else 31
  }

  function Format2(n: nat): (s: string)
    requires n < 100
    ensures |s| == 2 && AllDigits(s) && Value(s) == n
  {
    var s := [Digit(n / 10), Digit(n % 10)];
    Value2(s);
    s
  }

  function Format4(n: nat): (s: string)
    requires n < 10000
    ensures |s| == 4 && AllDigits(s) && Value(s) == n
  {
    var q1 := n / 10;
    var q2 := q1 / 10;
    var q3 := q2 / 10;
    assert n == 10 * q1 + n % 10 && q1 == 10 * q2 + q1 % 10 && q2 == 10 * q3 + q2 % 10;
    var s := [Digit(q3), Digit(q2 % 10), Digit(q1 % 10), Digit(n % 10)];
    Value4(s);
    s
  }

  function FormatDate(y: nat, m: nat, d: nat): (s: string)
    requires y < 10000 && m < 100 && d < 100
    ensures DateShape(s)
    ensures Value(s[0..4]) == y && Value(s[5..7]) == m && Value(s[8..10]) == d
  {
    var s := Format4(y) + "-" + Format2(m) + "-" + Format2(d);
    assert s[0..4] == Format4(y) && s[5..7] == Format2(m) && s[8..10] == Format2(d);
    s
  }

  /**
   * The date SQLite computes for year `y`, month `m` and day `d` once the
   * fields are in range: a day past the end of its month carries into the
   * next month ("2023-02-30" is 2023-03-02).  December has 31 days, so the
   * carry never reaches the year.
   */
  function CarryDate(y: nat, m: nat, d: nat): string
    requires y < 10000 && 1 <= m <= 12 && 1 <= d <= 31
  {
    var dim := DaysInMonth(y, m);
    if d <= dim then FormatDate(y, m, d) else FormatDate(y, m + 1, d - dim)
  }

  /** The year, month and day fields of a date-shaped string. */
  function Year(d: string): (y: nat)
    requires DateShape(d)
    ensures y < 10000
  {
    ValueBound(d[0..4]);
    Value(d[0..4])
  }

  function Month(d: string): nat requires DateShape(d) { Value(d[5..7]) }

  function Day(d: string): nat requires DateShape(d) { Value(d[8..10]) }

  /**
   * SQLite's `date(s)` for a TEXT argument: `Some` of the "YYYY-MM-DD" text, or
   * `None` where SQLite yields NULL.
   */
  function SqlDate(s: string): (r: Option<string>)
    ensures r.Some? ==> DateShape(r.value)
    ensures r.Some? <==> |s| >= 10 && DateShape(s[..10]) && TimeSuffix(s[10..])
                         && 1 <= Month(s[..10]) <= 12 && 1 <= Day(s[..10]) <= 31
  {
    if |s| >= 10 && DateShape(s[..10]) && TimeSuffix(s[10..]) then
      var date := s[..10];
      var y, m, d := Year(date), Month(date), Day(date);
      if 1 <= m <= 12 && 1 <= d <= 31 then Some(CarryDate(y, m, d)) else None
    else
      None
  }

  /** A date string whose day exists in its month, so `date()` leaves it as it is. */
  predicate CalendarDate(s: string)
  {
    && DateShape(s)
    && 1 <= Month(s) <= 12
    && 1 <= Day(s) <= DaysInMonth(Year(s), Month(s))
  }

  /** Chronological order of two date strings: by year, then month, then day. */
  predicate CalendarLe(a: string, b: string)
    requires DateShape(a) && DateShape(b)
  {
    || Year(a) < Year(b)
    || (Year(a) == Year(b) && (Month(a) < Month(b) || (Month(a) == Month(b) && Day(a) <= Day(b))))
  }

  // ---------------------------------------------------------------------------
  // Lemmas
  // ---------------------------------------------------------------------------

  /** Two digit strings of one length have one value only if they are equal. */
  lemma {:induction false} ValueInjective(a: string, b: string)
    requires AllDigits(a) && AllDigits(b) && |a| == |b|
    requires Value(a) == Value(b)
    ensures a == b
  {
    if a != [] {
      var n := |a|;
      ValueInjective(a[..n - 1], b[..n - 1]);
      assert a == a[..n - 1] + [a[n - 1]] && b == b[..n - 1] + [b[n - 1]];
    }
  }

  /** Text order on a concatenation with prefixes of one length: the prefixes decide unless equal. */
  lemma {:induction false} TextLeAppend(p: string, x: string, q: string, y: string)
    requires |p| == |q|
    ensures TextLe(p + x, q + y) <==> (p != q && TextLe(p, q)) || (p == q && TextLe(x, y))
  {
    if p != [] {
      assert (p + x)[1..] == p[1..] + x && (q + y)[1..] == q[1..] + y;
      TextLeAppend(p[1..], x, q[1..], y);
      if p[0] == q[0] {
        assert p != q <==> p[1..] != q[1..] by {
          assert p == [p[0]] + p[1..] && q == [q[0]] + q[1..];
        }
      }
    } else {
      assert p + x == x && q + y == y;
    }
  }

  /** On digit strings of one length, text order is numeric order. */
  lemma {:induction false} DigitTextOrder(a: string, b: string)
    requires AllDigits(a) && AllDigits(b) && |a| == |b|
    ensures TextLe(a, b) <==> Value(a) <= Value(b)
  {
    if a != [] {
      var n := |a|;
      var ia, ib := a[..n - 1], b[..n - 1];
      DigitTextOrder(ia, ib);
      if Value(ia) == Value(ib) { ValueInjective(ia, ib); }
      assert a == ia + [a[n - 1]] && b == ib + [b[n - 1]];
      TextLeAppend(ia, [a[n - 1]], ib, [b[n - 1]]);
      assert TextLe([a[n - 1]], [b[n - 1]]) <==> a[n - 1] <= b[n - 1];
    }
  }

  /** A digit-string comparison splits into "strictly before" and "equal". */
  lemma DigitsSplit(p: string, x: string, q: string, y: string)
    requires AllDigits(p) && AllDigits(q) && |p| == |q|
    ensures TextLe(p + x, q + y) <==> Value(p) < Value(q) || (Value(p) == Value(q) && TextLe(x, y))
  {
    TextLeAppend(p, x, q, y);
    DigitTextOrder(p, q);
    if Value(p) == Value(q) { ValueInjective(p, q); }
  }

  /** Text order on "-DD": the order of the day numbers. */
  lemma DashDigitsOrder(x: string, y: string)
    requires |x| == |y| && |x| >= 1 && x[0] == '-' && y[0] == '-' && AllDigits(x[1..]) && AllDigits(y[1..])
    ensures TextLe(x, y) <==> Value(x[1..]) <= Value(y[1..])
  {
    assert x == x[..1] + x[1..] && y == y[..1] + y[1..];
    TextLeAppend(x[..1], x[1..], y[..1], y[1..]);
    DigitTextOrder(x[1..], y[1..]);
  }

  /** Text order on "-MM-DD": month first, then day. */
  lemma MonthDayOrder(x: string, y: string)
    requires |x| == |y| == 6 && x[0] == '-' && y[0] == '-' && x[3] == '-' && y[3] == '-'
    requires AllDigits(x[1..3]) && AllDigits(y[1..3]) && AllDigits(x[4..]) && AllDigits(y[4..])
    ensures TextLe(x, y) <==> Value(x[1..3]) < Value(y[1..3]) || (Value(x[1..3]) == Value(y[1..3]) && Value(x[4..]) <= Value(y[4..]))
  {
    var mx, my := x[1..], y[1..];
    assert x == x[..1] + mx && y == y[..1] + my;
    TextLeAppend(x[..1], mx, y[..1], my);
    assert mx[..2] == x[1..3] && my[..2] == y[1..3];
    assert mx == mx[..2] + mx[2..] && my == my[..2] + my[2..];
    DigitsSplit(mx[..2], mx[2..], my[..2], my[2..]);
    assert mx[2..][1..] == x[4..] && my[2..][1..] == y[4..];
    DashDigitsOrder(mx[2..], my[2..]);
  }

  /**
   * The comparison `date(timestamp) >= date(?)` is done on text, yet on two
   * "YYYY-MM-DD" strings the text order is the calendar order.
   */
  lemma TextOrderIsCalendarOrder(a: string, b: string)
    requires DateShape(a) && DateShape(b)
    ensures TextLe(a, b) <==> CalendarLe(a, b)
  {
    var ta, tb := a[4..], b[4..];
    assert a == a[0..4] + ta && b == b[0..4] + tb;
    DigitsSplit(a[0..4], ta, b[0..4], tb);
    assert ta[1..3] == a[5..7] && tb[1..3] == b[5..7] && ta[4..] == a[8..10] && tb[4..] == b[8..10];
    MonthDayOrder(ta, tb);
  }

  lemma Format2RoundTrip(s: string)
    requires |s| == 2 && AllDigits(s)
    ensures Value(s) < 100 && Format2(Value(s)) == s
  {
    Value2(s);
  }

  lemma Format4RoundTrip(s: string)
    requires |s| == 4 && AllDigits(s)
    ensures Value(s) < 10000 && Format4(Value(s)) == s
  {
    Value4(s);
    var n := Value(s);
    var d0, d1, d2, d3 := DigitValue(s[0]), DigitValue(s[1]), DigitValue(s[2]), DigitValue(s[3]);
    var q1 := n / 10;
    var q2 := q1 / 10;
    assert n % 10 == d3 && q1 == 100 * d0 + 10 * d1 + d2;
    assert q1 % 10 == d2 && q2 == 10 * d0 + d1;
    assert q2 % 10 == d1 && q2 / 10 == d0;
    assert Format4(n) == [Digit(d0), Digit(d1), Digit(d2), Digit(d3)];
  }

  /** Formatting the fields read from a date string gives that string back. */
  lemma FormatDateRoundTrip(d: string)
    requires DateShape(d)
    ensures Year(d) < 10000 && Month(d) < 100 && Day(d) < 100
    ensures FormatDate(Year(d), Month(d), Day(d)) == d
  {
    ValueBound(d[0..4]);
    ValueBound(d[5..7]);
    ValueBound(d[8..10]);
    Format4RoundTrip(d[0..4]);
    Format2RoundTrip(d[5..7]);
    Format2RoundTrip(d[8..10]);
    assert d == d[0..4] + "-" + d[5..7] + "-" + d[8..10];
  }

  /** A timestamp as the service writes it ("YYYY-MM-DD HH:MM:SS", a real calendar day) has its own first ten characters as date. */
  lemma SqlDateOfTimestamp(ts: string)
    requires |ts| >= 10 && CalendarDate(ts[..10]) && TimeSuffix(ts[10..])
    ensures SqlDate(ts) == Some(ts[..10])
  {
    FormatDateRoundTrip(ts[..10]);
  }

  /** date() always yields a real calendar day, so applying it twice changes nothing. */
  lemma SqlDateCanonical(s: string)
    requires SqlDate(s).Some?
    ensures CalendarDate(SqlDate(s).value)
    ensures SqlDate(SqlDate(s).value) == SqlDate(s)
  {
    var date := s[..10];
    var y, m, d := Year(date), Month(date), Day(date);
    var r := SqlDate(s).value;
    assert r == CarryDate(y, m, d);
    var dim := DaysInMonth(y, m);
    if d > dim {
      assert m < 12;
      assert DaysInMonth(y, m + 1) >= 28;
    }
    assert CalendarDate(r);
    assert r[..10] == r && r[10..] == [];
    SqlDateOfTimestamp(r);
  }

  /**
   * What date() does with a bare "YYYY-MM-DD" whose month and day fields are
   * in range: a day that exists in its month leaves the text as it is; a day
   * past the month's end moves to the next month, in the same year, by the
   * days it overshoots.
   */
  lemma SqlDateOfFields(s: string)
    requires |s| == 10 && DateShape(s) && 1 <= Month(s) <= 12 && 1 <= Day(s) <= 31
    ensures SqlDate(s) == Some(CarryDate(Year(s), Month(s), Day(s)))
    ensures Day(s) <= DaysInMonth(Year(s), Month(s)) ==> SqlDate(s) == Some(s)
    ensures Day(s) > DaysInMonth(Year(s), Month(s)) ==>
      && SqlDate(s).Some? && Month(s) < 12
      && Year(SqlDate(s).value) == Year(s)
      && Month(SqlDate(s).value) == Month(s) + 1
      && Day(SqlDate(s).value) == Day(s) - DaysInMonth(Year(s), Month(s))
  {
    assert s[..10] == s && s[10..] == [];
    if Day(s) <= DaysInMonth(Year(s), Month(s)) {
      FormatDateRoundTrip(s);
    }
  }

  /** The fields of a date-shaped string, read digit by digit. */
  lemma DateFields(s: string)
    requires |s| == 10 && DateShape(s)
    ensures Year(s) == 1000 * DigitValue(s[0]) + 100 * DigitValue(s[1]) + 10 * DigitValue(s[2]) + DigitValue(s[3])
    ensures Month(s) == 10 * DigitValue(s[5]) + DigitValue(s[6])
    ensures Day(s) == 10 * DigitValue(s[8]) + DigitValue(s[9])
  {
    Value4(s[0..4]);
    Value2(s[5..7]);
    Value2(s[8..10]);
  }

  /** A day past the end of its month carries into the next one. */
  lemma SqlDateCarriesDay()
    ensures SqlDate("2023-02-30") == Some("2023-03-02")
  {
    var s, t := "2023-02-30", "2023-03-02";
    assert DateShape(s) && DateShape(t) by {
      assert s[0..4] == "2023" && s[5..7] == "02" && s[8..10] == "30";
      assert t[0..4] == "2023" && t[5..7] == "03" && t[8..10] == "02";
    }
    assert Year(s) == 2023 && Month(s) == 2 && Day(s) == 30 && Year(t) == 2023 && Month(t) == 3 && Day(t) == 2 by {
      DateFields(s);
      DateFields(t);
    }
    assert CarryDate(2023, 2, 30) == FormatDate(2023, 3, 2) by {
      assert DaysInMonth(2023, 2) == 28;
    }
    SqlDateOfFields(s);
    FormatDateRoundTrip(t);
  }

  /** In a leap year February has 29 days. */
  lemma SqlDateCarriesLeapDay()
    ensures SqlDate("2024-02-30") == Some("2024-03-01")
  {
    var s, t := "2024-02-30", "2024-03-01";
    assert DateShape(s) && DateShape(t) by {
      assert s[0..4] == "2024" && s[5..7] == "02" && s[8..10] == "30";
      assert t[0..4] == "2024" && t[5..7] == "03" && t[8..10] == "01";
    }
    assert Year(s) == 2024 && Month(s) == 2 && Day(s) == 30 && Year(t) == 2024 && Month(t) == 3 && Day(t) == 1 by {
      DateFields(s);
      DateFields(t);
    }
    assert CarryDate(2024, 2, 30) == FormatDate(2024, 3, 1) by {
      assert DaysInMonth(2024, 2) == 29;
    }
    SqlDateOfFields(s);
    FormatDateRoundTrip(t);
  }

  /** A month out of range makes date() NULL. */
  lemma SqlDateRejectsMonth()
    ensures SqlDate("2024-13-01") == None
  {
    var s := "2024-13-01";
    assert s[..10] == s;
    assert Month(s) == 13 by { Value2(s[5..7]); }
  }
}
