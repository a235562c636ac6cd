/**
 * GET /history and GET /history/{id}: the SELECT statement `get_history`
 * builds, what SQLite does with it, and the page the handler promises.
 */
module HistoryQuery {
  import opened Results
  import opened SqlDates
  import opened Records

  /** A value bound to one `?` of the statement. */
  datatype Param = TextParam(text: string) | IntParam(n: int)

  /**
   * SQL text in which every `?` placeholder stands as a fragment of its
   * own, which is how SQLite's tokenizer sees it.
   */
  datatype Fragment = Sql(text: string) | Placeholder

  type Statement = seq<Fragment>

  /** The statement text the fragments spell out. */
  function Render(st: Statement): string
  {
    if st == [] then ""
    else (match st[0] case Sql(t) => t case Placeholder => "?") + Render(st[1..])
  }

  const SELECT_ALL: Statement := [Sql("SELECT id, timestamp, area, rooms, distance, predicted_price FROM predictions")]
  const WHERE: Statement := [Sql(" WHERE ")]
  const AND: Statement := [Sql(" AND ")]
  const FROM_CLAUSE: Statement := [Sql("date(timestamp) >= date("), Placeholder, Sql(")")]
  const TO_CLAUSE: Statement := [Sql("date(timestamp) <= date("), Placeholder, Sql(")")]
  const ORDER_AND_PAGE: Statement := [Sql(" ORDER BY id DESC LIMIT "), Placeholder, Sql(" OFFSET "), Placeholder]

  /** Python truthiness of an optional query string: neither `None` nor empty. */
  predicate Given(bound: Option<string>)
  {
    bound.Some? && bound.value != ""
  }

  /** `sep.join(parts)`. */
  function Join(parts: seq<Statement>, sep: Statement): Statement
  {
    if parts == [] then [] else if |parts| == 1 then parts[0] else parts[0] + sep + Join(parts[1..], sep)
  }

  /** The number of `?` placeholders in a statement. */
  function Placeholders(st: Statement): nat
  {
    if st == [] then 0 else (if st[0] == Placeholder then 1 else 0) + Placeholders(st[1..])
  }

  lemma {:induction false} PlaceholdersAppend(a: Statement, b: Statement)
    ensures Placeholders(a + b) == Placeholders(a) + Placeholders(b)
  {
    if a != [] {
      assert (a + b)[1..] == a[1..] + b;
      PlaceholdersAppend(a[1..], b);
    } else {
      assert a + b == b;
    }
  }

  /** The statement carries a WHERE clause right after the column list. */
  predicate HasWhere(sql: Statement)
  {
    |sql| >= |SELECT_ALL| + |WHERE| && sql[|SELECT_ALL|..|SELECT_ALL| + |WHERE|] == WHERE
  }

  /** Facts about the fixed pieces of the statement. */
  lemma StatementPieces()
    ensures Placeholders(SELECT_ALL) == 0 && Placeholders(WHERE) == 0 && Placeholders(AND) == 0
    ensures Placeholders(FROM_CLAUSE) == 1 && Placeholders(TO_CLAUSE) == 1
    ensures Placeholders(ORDER_AND_PAGE) == 2
    ensures |WHERE| == 1 && ORDER_AND_PAGE[0] != WHERE[0]
    ensures FROM_CLAUSE != TO_CLAUSE
  {
    assert SELECT_ALL[1..] == [] && WHERE[1..] == [] && AND[1..] == [];
    assert FROM_CLAUSE[1..][1..][1..] == [] && TO_CLAUSE[1..][1..][1..] == [];
    assert ORDER_AND_PAGE[1..][1..][1..][1..] == [];
    assert FROM_CLAUSE[0].text[16] != TO_CLAUSE[0].text[16];
    assert ORDER_AND_PAGE[0].text[1] != WHERE[0].text[1];
  }

  lemma {:induction false} JoinPlaceholders(parts: seq<Statement>, sep: Statement)
    requires Placeholders(sep) == 0
    requires forall k :: 0 <= k < |parts| ==> Placeholders(parts[k]) == 1
    ensures Placeholders(Join(parts, sep)) == |parts|
  {
    if |parts| > 1 {
      JoinPlaceholders(parts[1..], sep);
      PlaceholdersAppend(parts[0] + sep, Join(parts[1..], sep));
      PlaceholdersAppend(parts[0], sep);
    }
  }

  /** The statement `get_history` sends for a list of WHERE clauses. */
  function StatementOf(whereClauses: seq<Statement>): Statement
  {
    SELECT_ALL + (if whereClauses == [] then [] else WHERE + Join(whereClauses, AND)) + ORDER_AND_PAGE
  }

  lemma {:induction false} RenderAppend(a: Statement, b: Statement)
    ensures Render(a + b) == Render(a) + Render(b)
  {
    if a != [] {
      assert (a + b)[1..] == a[1..] + b;
      RenderAppend(a[1..], b);
    } else {
      assert a + b == b;
    }
  }

  /** Each fixed fragment list spells the literal of `get_history` it stands for. */
  lemma RenderedPieces()
    ensures Render(SELECT_ALL) == "SELECT id, timestamp, area, rooms, distance, predicted_price FROM predictions"
    ensures Render(WHERE) == " WHERE " && Render(AND) == " AND "
    ensures Render(FROM_CLAUSE) == "date(timestamp) >= date(?)" && Render(TO_CLAUSE) == "date(timestamp) <= date(?)"
    ensures Render(ORDER_AND_PAGE) == " ORDER BY id DESC LIMIT ? OFFSET ?"
  {
    assert SELECT_ALL[1..] == [] && WHERE[1..] == [] && AND[1..] == [];
    assert FROM_CLAUSE[1..][1..][1..] == [] && TO_CLAUSE[1..][1..][1..] == [];
    assert ORDER_AND_PAGE[1..][1..][1..][1..] == [];
  }

  /**
   * The statement spells out the string `get_history` sends: the column
   * list, `" WHERE "` and the clauses joined by `" AND "` when there are
   * any, then the ORDER BY, LIMIT and OFFSET suffix, glued as the handler
   * glues its literals.
   */
  lemma RenderedStatements()
    ensures Render(StatementOf([])) ==
      "SELECT id, timestamp, area, rooms, distance, predicted_price FROM predictions" + " ORDER BY id DESC LIMIT ? OFFSET ?"
    ensures Render(StatementOf([FROM_CLAUSE])) ==
      "SELECT id, timestamp, area, rooms, distance, predicted_price FROM predictions" + " WHERE "
      + "date(timestamp) >= date(?)" + " ORDER BY id DESC LIMIT ? OFFSET ?"
    ensures Render(StatementOf([TO_CLAUSE])) ==
      "SELECT id, timestamp, area, rooms, distance, predicted_price FROM predictions" + " WHERE "
      + "date(timestamp) <= date(?)" + " ORDER BY id DESC LIMIT ? OFFSET ?"
    ensures Render(StatementOf([FROM_CLAUSE, TO_CLAUSE])) ==
      "SELECT id, timestamp, area, rooms, distance, predicted_price FROM predictions" + " WHERE "
      + "date(timestamp) >= date(?)" + " AND " + "date(timestamp) <= date(?)" + " ORDER BY id DESC LIMIT ? OFFSET ?"
  {
    RenderedPieces();
    RenderedNone();
    RenderedOne(FROM_CLAUSE);
    RenderedOne(TO_CLAUSE);
    RenderedTwo(FROM_CLAUSE, TO_CLAUSE);
  }

  lemma RenderedNone()
    ensures Render(StatementOf([])) == Render(SELECT_ALL) + Render(ORDER_AND_PAGE)
  {
    assert StatementOf([]) == SELECT_ALL + ORDER_AND_PAGE;
    RenderAppend(SELECT_ALL, ORDER_AND_PAGE);
  }

  lemma RenderedTwo(c0: Statement, c1: Statement)
    ensures Render(StatementOf([c0, c1])) ==
      Render(SELECT_ALL) + Render(WHERE) + Render(c0) + Render(AND) + Render(c1) + Render(ORDER_AND_PAGE)
  {
    var clauses := [c0, c1];
    var both := Join(clauses, AND);
    assert clauses[1..] == [c1] && Join([c1], AND) == c1;
    assert both == c0 + AND + c1;
    RenderAppend(c0, AND);
    RenderAppend(c0 + AND, c1);
    RenderAppend(WHERE, both);
    RenderAppend(SELECT_ALL, WHERE + both);
    RenderAppend(SELECT_ALL + (WHERE + both), ORDER_AND_PAGE);
  }

  lemma RenderedOne(clause: Statement)
    ensures Render(StatementOf([clause])) == Render(SELECT_ALL) + Render(WHERE) + Render(clause) + Render(ORDER_AND_PAGE)
  {
    assert Join([clause], AND) == clause;
    RenderAppend(WHERE, clause);
    RenderAppend(SELECT_ALL, WHERE + clause);
    RenderAppend(SELECT_ALL + (WHERE + clause), ORDER_AND_PAGE);
  }

  /**
   * The query building of `get_history`: one clause and one parameter per
   * given date bound, `date_from` first, then LIMIT and OFFSET.  The statement
   * has a WHERE clause exactly when a bound is given, and as many
   * placeholders as parameters.
   */
  method BuildQuery(limit: int, offset: int, dateFrom: Option<string>, dateTo: Option<string>)
    returns (sql: Statement, whereClauses: seq<Statement>, params: seq<Param>)
    ensures whereClauses == (if Given(dateFrom) then [FROM_CLAUSE] else [])
                          + (if Given(dateTo) then [TO_CLAUSE] else [])
    ensures params == (if Given(dateFrom) then [TextParam(dateFrom.value)] else [])
                    + (if Given(dateTo) then [TextParam(dateTo.value)] else [])
                    + [IntParam(limit), IntParam(offset)]
    ensures sql == StatementOf(whereClauses)
    ensures |sql| >= |SELECT_ALL| && sql[..|SELECT_ALL|] == SELECT_ALL
    ensures HasWhere(sql) <==> Given(dateFrom) || Given(dateTo)
    ensures Placeholders(sql) == |params| == |whereClauses| + 2
  {
    StatementPieces();
    var query := SELECT_ALL;
    params := [];
    whereClauses := [];
    if Given(dateFrom) {
      whereClauses := whereClauses + [FROM_CLAUSE];
      params := params + [TextParam(dateFrom.value)];
    }
    if Given(dateTo) {
      whereClauses := whereClauses + [TO_CLAUSE];
      params := params + [TextParam(dateTo.value)];
    }
    assert |whereClauses| == |params|;
    if whereClauses != [] {
      query := query + (WHERE + Join(whereClauses, AND));
    } else {
      assert query == SELECT_ALL + [];
    }
    query := query + ORDER_AND_PAGE;
    params := params + [IntParam(limit), IntParam(offset)];
    sql := query;
    QueryShape(whereClauses);
  }

  /** The two shapes the statement can take, with and without WHERE. */
  lemma QueryShape(clauses: seq<Statement>)
    requires forall k :: 0 <= k < |clauses| ==> Placeholders(clauses[k]) == 1
    ensures var sql := StatementOf(clauses);
      && |sql| >= |SELECT_ALL| && sql[..|SELECT_ALL|] == SELECT_ALL
      && (HasWhere(sql) <==> clauses != [])
      && Placeholders(sql) == |clauses| + 2
  {
    StatementPieces();
    var middle := if clauses == [] then [] else WHERE + Join(clauses, AND);
    var sql := SELECT_ALL + middle + ORDER_AND_PAGE;
    if clauses != [] {
      JoinPlaceholders(clauses, AND);
      PlaceholdersAppend(WHERE, Join(clauses, AND));
      assert sql[|SELECT_ALL|..|SELECT_ALL| + |WHERE|] == WHERE;
    } else {
      assert sql[|SELECT_ALL|..|SELECT_ALL| + |WHERE|] == ORDER_AND_PAGE[..1];
    }
    assert Placeholders(middle) == |clauses|;
    PlaceholdersAppend(SELECT_ALL, middle);
    PlaceholdersAppend(SELECT_ALL + middle, ORDER_AND_PAGE);
    assert sql[..|SELECT_ALL|] == SELECT_ALL;
  }

  // ---------------------------------------------------------------------------
  // What SQLite does with the statement
  // ---------------------------------------------------------------------------

  /** `date(x) <= date(y)`: false as soon as either side is NULL. */
  predicate SqlDateLe(x: string, y: string)
  {
    SqlDate(x).Some? && SqlDate(y).Some? && TextLe(SqlDate(x).value, SqlDate(y).value)
  }

  /** One WHERE clause of `get_history`, with the parameter bound to its `?`, on one row. */
  predicate ClauseHolds(clause: Statement, p: Param, r: Record)
  {
    match p
    case TextParam(bound) =>
      || (clause == FROM_CLAUSE && SqlDateLe(bound, r.timestamp))
      || (clause == TO_CLAUSE && SqlDateLe(r.timestamp, bound))
    case IntParam(_) => false
  }

  /** The conjunction of the WHERE clauses; the k-th clause reads the k-th parameter. */
  predicate WhereHolds(whereClauses: seq<Statement>, params: seq<Param>, r: Record)
    requires |params| >= |whereClauses|
  {
    forall k :: 0 <= k < |whereClauses| ==> ClauseHolds(whereClauses[k], params[k], r)
  }

  /**
   * The kept rows, last stored first.  Rows are stored in increasing id order,
   * so this is ORDER BY id DESC of the kept rows.
   */
  function NewestFirst(rows: seq<Record>, keep: Record -> bool): (s: seq<Record>)
    ensures |s| <= |rows|
    ensures forall r :: r in s <==> r in rows && keep(r)
  {
    if rows == [] then []
    else
      var last := rows[|rows| - 1];
      (if keep(last) then [last] else []) + NewestFirst(rows[..|rows| - 1], keep)
  }

  function Min(a: int, b: int): int { if a <= b then a else b }

  /** `LIMIT limit OFFSET offset` on an ordered result. */
  function Window<T>(s: seq<T>, limit: nat, offset: nat): (w: seq<T>)
    ensures |w| == if offset >= |s| then 0 else Min(limit, |s| - offset)
    ensures forall i :: 0 <= i < |w| ==> w[i] == s[offset + i]
  {
    if offset >= |s| then [] else s[offset..offset + Min(limit, |s| - offset)]
  }

  /**
   * `cursor.execute(sql, params)` and `fetchall()` for the statement built
   * from `whereClauses`: the k-th `?` takes the k-th parameter, so the
   * clauses read the first parameters and LIMIT and OFFSET the last two.
   */
  function Execute(table: seq<Record>, sql: Statement, whereClauses: seq<Statement>, params: seq<Param>): (fetched: seq<Record>)
    requires sql == StatementOf(whereClauses)
    requires |params| == |whereClauses| + 2
    requires params[|whereClauses|].IntParam? && params[|whereClauses|].n >= 0
    requires params[|whereClauses| + 1].IntParam? && params[|whereClauses| + 1].n >= 0
    ensures |fetched| <= params[|whereClauses|].n
    ensures forall r :: r in fetched ==> r in table && WhereHolds(whereClauses, params, r)
    ensures IdsAscending(table) ==> IdsDescending(fetched)
  {
    var n := |whereClauses|;
    var kept := NewestFirst(table, r => WhereHolds(whereClauses, params, r));
    assert IdsAscending(table) ==> IdsDescending(kept) by {
      if IdsAscending(table) {
        NewestFirstDescending(table, r => WhereHolds(whereClauses, params, r));
      }
    }
    var fetched := Window(kept, params[n].n, params[n + 1].n);
    assert forall r :: r in fetched ==> r in kept;
    fetched
  }

  // ---------------------------------------------------------------------------
  // The page the handler promises
  // ---------------------------------------------------------------------------

  /** Both date bounds are inclusive, on the date part of the timestamp; an absent or empty bound constrains nothing. */
  predicate InRange(r: Record, dateFrom: Option<string>, dateTo: Option<string>)
  {
    && (Given(dateFrom) ==> SqlDateLe(dateFrom.value, r.timestamp))
    && (Given(dateTo) ==> SqlDateLe(r.timestamp, dateTo.value))
  }

  /** All records within the bounds, newest first. */
  function Matching(table: seq<Record>, dateFrom: Option<string>, dateTo: Option<string>): seq<Record>
  {
    NewestFirst(table, r => InRange(r, dateFrom, dateTo))
  }

  /** The page of history: the matching records newest first, the first `offset` skipped, at most `limit` kept. */
  function HistoryPage(table: seq<Record>, limit: nat, offset: nat, dateFrom: Option<string>, dateTo: Option<string>): seq<Record>
  {
    Window(Matching(table, dateFrom, dateTo), limit, offset)
  }

  predicate IdsAscending(rows: seq<Record>)
  {
    forall i, j :: 0 <= i < j < |rows| ==> rows[i].id < rows[j].id
  }

  predicate IdsDescending(rows: seq<Record>)
  {
    forall i, j :: 0 <= i < j < |rows| ==> rows[i].id > rows[j].id
  }

  /** The row with a given id (`WHERE id = ?` and `fetchone`), or `None`. */
  function FindById(table: seq<Record>, id: int): (r: Option<Record>)
    ensures r.Some? ==> r.value in table && r.value.id == id
    ensures r.None? <==> forall k :: 0 <= k < |table| ==> table[k].id != id
  {
    if table == [] then None
    else if table[0].id == id then Some(table[0])
    else FindById(table[1..], id)
  }

  // ---------------------------------------------------------------------------
  // Lemmas
  // ---------------------------------------------------------------------------

  lemma {:induction false} NewestFirstDescending(rows: seq<Record>, keep: Record -> bool)
    requires IdsAscending(rows)
    ensures IdsDescending(NewestFirst(rows, keep))
  {
    if rows != [] {
      var init := rows[..|rows| - 1];
      var last := rows[|rows| - 1];
      var rest := NewestFirst(init, keep);
      assert IdsAscending(init);
      NewestFirstDescending(init, keep);
      if keep(last) {
        var all := NewestFirst(rows, keep);
        assert all == [last] + rest;
        forall i, j | 0 <= i < j < |all|
          ensures all[i].id > all[j].id
        {
          assert all[j] == rest[j - 1];
          if i == 0 {
            assert rest[j - 1] in init;
            var k :| 0 <= k < |init| && init[k] == rest[j - 1];
            assert rows[k] == init[k] && k < |rows| - 1;
          } else {
            assert all[i] == rest[i - 1];
          }
        }
      }
    }
  }

  /** With no filter the result is the whole table, newest record first. */
  lemma {:induction false} NewestFirstKeepAll(rows: seq<Record>, keep: Record -> bool)
    requires forall r :: r in rows ==> keep(r)
    ensures |NewestFirst(rows, keep)| == |rows|
    ensures forall i :: 0 <= i < |rows| ==> NewestFirst(rows, keep)[i] == rows[|rows| - 1 - i]
  {
    if rows != [] {
      var init, last := rows[..|rows| - 1], rows[|rows| - 1];
      forall r | r in init
        ensures keep(r)
      {
        var k :| 0 <= k < |init| && init[k] == r;
        assert rows[k] == r;
      }
      NewestFirstKeepAll(init, keep);
      assert last in rows;
      var all, rest := NewestFirst(rows, keep), NewestFirst(init, keep);
      assert all == [last] + rest;
      forall i | 0 <= i < |rows|
        ensures all[i] == rows[|rows| - 1 - i]
      {
        if i > 0 {
          assert all[i] == rest[i - 1] == init[|init| - 1 - (i - 1)];
        }
      }
    }
  }

  lemma {:induction false} NewestFirstKeepNone(rows: seq<Record>, keep: Record -> bool)
    requires forall r :: r in rows ==> !keep(r)
    ensures NewestFirst(rows, keep) == []
  {
    if rows != [] {
      NewestFirstKeepNone(rows[..|rows| - 1], keep);
    }
  }

  lemma {:induction false} NewestFirstCongruent(rows: seq<Record>, k1: Record -> bool, k2: Record -> bool)
    requires forall r :: r in rows ==> k1(r) == k2(r)
    ensures NewestFirst(rows, k1) == NewestFirst(rows, k2)
  {
    if rows != [] {
      NewestFirstCongruent(rows[..|rows| - 1], k1, k2);
    }
  }

  /** The WHERE clauses that BuildQuery emits select exactly the records in range. */
  lemma WhereMeansInRange(dateFrom: Option<string>, dateTo: Option<string>, whereClauses: seq<Statement>, params: seq<Param>, r: Record)
    requires whereClauses == (if Given(dateFrom) then [FROM_CLAUSE] else [])
                           + (if Given(dateTo) then [TO_CLAUSE] else [])
    requires |params| >= |whereClauses|
    requires params[..|whereClauses|] == (if Given(dateFrom) then [TextParam(dateFrom.value)] else [])
                                       + (if Given(dateTo) then [TextParam(dateTo.value)] else [])
    ensures WhereHolds(whereClauses, params, r) <==> InRange(r, dateFrom, dateTo)
  {
    if Given(dateFrom) && Given(dateTo) {
      assert whereClauses == [FROM_CLAUSE, TO_CLAUSE];
      assert params[0] == TextParam(dateFrom.value) && params[1] == TextParam(dateTo.value);
      WhereOfTwo(FROM_CLAUSE, TO_CLAUSE, params, r);
      ClauseMeaning(dateFrom.value, r);
      ClauseMeaning(dateTo.value, r);
    } else if Given(dateFrom) {
      assert whereClauses == [FROM_CLAUSE];
      assert params[0] == TextParam(dateFrom.value);
      WhereOfOne(FROM_CLAUSE, params, r);
      ClauseMeaning(dateFrom.value, r);
    } else if Given(dateTo) {
      assert whereClauses == [TO_CLAUSE];
      assert params[0] == TextParam(dateTo.value);
      WhereOfOne(TO_CLAUSE, params, r);
      ClauseMeaning(dateTo.value, r);
    }
  }

  lemma WhereOfOne(c: Statement, params: seq<Param>, r: Record)
    requires |params| >= 1
    ensures WhereHolds([c], params, r) <==> ClauseHolds(c, params[0], r)
  {
  }

  lemma WhereOfTwo(c0: Statement, c1: Statement, params: seq<Param>, r: Record)
    requires |params| >= 2
    ensures WhereHolds([c0, c1], params, r) <==> ClauseHolds(c0, params[0], r) && ClauseHolds(c1, params[1], r)
  {
    var w := [c0, c1];
    if ClauseHolds(c0, params[0], r) && ClauseHolds(c1, params[1], r) {
      forall k | 0 <= k < 2
        ensures ClauseHolds(w[k], params[k], r)
      {
        if k == 1 {
          assert w[k] == c1;
        }
      }
    }
  }

  /** The two clause texts compare the record's date against the bound in opposite directions. */
  lemma ClauseMeaning(bound: string, r: Record)
    ensures ClauseHolds(FROM_CLAUSE, TextParam(bound), r) == SqlDateLe(bound, r.timestamp)
    ensures ClauseHolds(TO_CLAUSE, TextParam(bound), r) == SqlDateLe(r.timestamp, bound)
  {
    StatementPieces();
  }

  /**
   * The statement BuildQuery produces, run by SQLite, returns exactly the
   * history page: the SQL text and its parameters mean what the handler promises.
   */
  lemma QueryMeansHistoryPage(table: seq<Record>, limit: nat, offset: nat, dateFrom: Option<string>, dateTo: Option<string>,
                              sql: Statement, whereClauses: seq<Statement>, params: seq<Param>)
    requires sql == StatementOf(whereClauses)
    requires whereClauses == (if Given(dateFrom) then [FROM_CLAUSE] else [])
                           + (if Given(dateTo) then [TO_CLAUSE] else [])
    requires params == (if Given(dateFrom) then [TextParam(dateFrom.value)] else [])
                     + (if Given(dateTo) then [TextParam(dateTo.value)] else [])
                     + [IntParam(limit), IntParam(offset)]
    ensures |params| == |whereClauses| + 2
    ensures Execute(table, sql, whereClauses, params) == HistoryPage(table, limit, offset, dateFrom, dateTo)
  {
    var n := |whereClauses|;
    assert params[..n] == (if Given(dateFrom) then [TextParam(dateFrom.value)] else [])
                        + (if Given(dateTo) then [TextParam(dateTo.value)] else []);
    forall r | r in table
      ensures WhereHolds(whereClauses, params, r) == InRange(r, dateFrom, dateTo)
    {
      WhereMeansInRange(dateFrom, dateTo, whereClauses, params, r);
    }
    NewestFirstCongruent(table, r => WhereHolds(whereClauses, params, r), r => InRange(r, dateFrom, dateTo));
  }

  /**
   * What GET /history returns: records of the table within the date bounds,
   * in strictly decreasing id order, at most `limit` of them, namely the
   * matching records from position `offset` on; every matching record is
   * on some page.
   */
  lemma HistoryPageProperties(table: seq<Record>, limit: nat, offset: nat, dateFrom: Option<string>, dateTo: Option<string>)
    requires IdsAscending(table)
    ensures var page := HistoryPage(table, limit, offset, dateFrom, dateTo);
            var all := Matching(table, dateFrom, dateTo);
            && IdsDescending(page)
            && |page| <= limit
            && |page| == (if offset >= |all| then 0 else Min(limit, |all| - offset))
            && (forall i :: 0 <= i < |page| ==> page[i] == all[offset + i])
            && (forall r :: r in page ==> r in table && InRange(r, dateFrom, dateTo))
            && (forall r :: r in all <==> r in table && InRange(r, dateFrom, dateTo))
  {
    var all := Matching(table, dateFrom, dateTo);
    var page := HistoryPage(table, limit, offset, dateFrom, dateTo);
    NewestFirstDescending(table, r => InRange(r, dateFrom, dateTo));
    forall r | r in page
      ensures r in all
    {
      var i :| 0 <= i < |page| && page[i] == r;
      assert all[offset + i] == r;
    }
  }

  /** Consecutive pages tile the matching records: nothing is skipped or repeated between them. */
  lemma PagesTile(s: seq<Record>, limit: nat, more: nat, offset: nat)
    ensures Window(s, limit, offset) + Window(s, more, offset + limit) == Window(s, limit + more, offset)
  {
  }

  /** Without bounds every stored record is returned, newest first. */
  lemma NoBoundsReturnsAll(table: seq<Record>, dateFrom: Option<string>, dateTo: Option<string>)
    requires !Given(dateFrom) && !Given(dateTo)
    ensures |Matching(table, dateFrom, dateTo)| == |table|
    ensures forall i :: 0 <= i < |table| ==> Matching(table, dateFrom, dateTo)[i] == table[|table| - 1 - i]
  {
    NewestFirstKeepAll(table, r => InRange(r, dateFrom, dateTo));
  }

  /**
   * The bounds in calendar terms: a record is in range iff its timestamp has
   * a date on or after `date_from`'s and on or before `date_to`'s, both
   * bounds being dates SQLite understands.
   */
  lemma InRangeIsCalendarRange(r: Record, dateFrom: Option<string>, dateTo: Option<string>)
    ensures InRange(r, dateFrom, dateTo) <==>
      && (Given(dateFrom) ==> SqlDate(dateFrom.value).Some? && SqlDate(r.timestamp).Some?
                              && CalendarLe(SqlDate(dateFrom.value).value, SqlDate(r.timestamp).value))
      && (Given(dateTo) ==> SqlDate(dateTo.value).Some? && SqlDate(r.timestamp).Some?
                            && CalendarLe(SqlDate(r.timestamp).value, SqlDate(dateTo.value).value))
  {
    var d := SqlDate(r.timestamp);
    if Given(dateFrom) && SqlDate(dateFrom.value).Some? && d.Some? {
      TextOrderIsCalendarOrder(SqlDate(dateFrom.value).value, d.value);
    }
    if Given(dateTo) && SqlDate(dateTo.value).Some? && d.Some? {
      TextOrderIsCalendarOrder(d.value, SqlDate(dateTo.value).value);
    }
  }

  /** Both bounds are inclusive: a record whose date equals both bounds is returned. */
  lemma BoundsInclusive(r: Record, day: string)
    requires SqlDate(r.timestamp).Some? && SqlDate(day) == SqlDate(r.timestamp)
    ensures InRange(r, Some(day), Some(day))
  {
    var d := SqlDate(r.timestamp).value;
    TextOrderIsCalendarOrder(d, d);
  }

  /** A bound that date() cannot read matches no record, so the page is empty (no error is raised). */
  lemma UnreadableBoundEmptiesPage(table: seq<Record>, limit: nat, offset: nat, dateFrom: Option<string>, dateTo: Option<string>)
    requires (Given(dateFrom) && SqlDate(dateFrom.value).None?) || (Given(dateTo) && SqlDate(dateTo.value).None?)
    ensures HistoryPage(table, limit, offset, dateFrom, dateTo) == []
  {
    NewestFirstKeepNone(table, r => InRange(r, dateFrom, dateTo));
  }

  /** With unique ascending ids, the lookup finds the one record that carries the id. */
  lemma {:induction false} FindByIdExact(table: seq<Record>, k: nat)
    requires IdsAscending(table) && k < |table|
    ensures FindById(table, table[k].id) == Some(table[k])
  {
    if k > 0 {
      assert table[0].id < table[k].id;
      FindByIdExact(table[1..], k - 1);
    }
  }
}
