/**
 * The statement assembly of the `QueryBuilder` class: `select`, `selectOR`
 * and `delete` build the SQL text, the positional parameters and the
 * mysqli type string that they hand to the connection, and `auth` decides
 * a login from the rows a `select` returns.
 *
 * The connection itself (`prepare`, `bind_param`, `execute`, `get_result`,
 * `fetch_all`) is not modelled: each builder returns the `Statement` it
 * would prepare and bind, and `Auth` receives the driver's row-fetching
 * behaviour and PHP's `password_verify` as function parameters.
 */
module QueryBuilder {
  import opened Wrappers
  import opened Text
  import opened Values
  import opened ConditionKeys

  /** The `$columns` argument: an array of names, or a string used verbatim. */
  datatype Columns = Verbatim(text: string) | Listed(names: seq<string>)

  /** A non-empty `$orderBy` array: `['column' => ..., 'direction' => ...]`. */
  datatype OrderBy = OrderBy(column: string, direction: string)

  /** The arguments of `bind_param`: the type string, then the values. */
  datatype Binding = Binding(types: string, params: seq<Value>)

  /** The SQL handed to `prepare`, and the binding when one is made. */
  datatype Statement = Statement(sql: string, bind: Option<Binding>)

  /** The `$conditions` array: key/value entries in iteration order. */
  type Conditions = seq<(string, Value)>

  /** The column list after `SELECT`: array entries joined by `", "`. */
  function ColumnList(columns: Columns): string
  {
    match columns
    case Verbatim(text) => text
    case Listed(names) => Join(names, ", ")
  }

  /** The leading `SELECT <columns> FROM <table>` both selects share. */
  function SelectHead(table: string, columns: Columns): string
  {
    "SELECT " + ColumnList(columns) + " FROM " + table
  }

  lemma PrefixOfConcat(a: string, b: string, c: string, d: string)
    ensures a <= a + b + c + d
  {
    assert (a + b + c + d)[..|a|] == a;
  }

  /** The condition values, collected in the order the loop visits them. */
  function Params(conds: Conditions): (params: seq<Value>)
    ensures |params| == |conds|
    ensures forall k | 0 <= k < |conds| :: params[k] == conds[k].1
  {
    if |conds| == 0 then [] else [conds[0].1] + Params(conds[1..])
  }

  /** `select`'s clauses: each key parsed for a trailing operator. */
  function SelectClauses(conds: Conditions): (clauses: seq<string>)
    ensures |clauses| == |conds|
    ensures forall k | 0 <= k < |conds| :: clauses[k] == Clause(conds[k].0)
  {
    if |conds| == 0 then [] else [Clause(conds[0].0)] + SelectClauses(conds[1..])
  }

  /** `selectOR`'s and `delete`'s clauses: `"$col = ?"` with the key verbatim. */
  function EqualityClauses(conds: Conditions): (clauses: seq<string>)
    ensures |clauses| == |conds|
    ensures forall k | 0 <= k < |conds| :: clauses[k] == conds[k].0 + " = ?"
  {
    if |conds| == 0 then [] else [conds[0].0 + " = ?"] + EqualityClauses(conds[1..])
  }

  /** The WHERE clause, present only when there is a condition. */
  function Where(clauses: seq<string>, joiner: string): (w: string)
    ensures |clauses| == 0 <==> w == ""
    ensures |clauses| > 0 ==> |w| >= 7 && w[..7] == " WHERE "
  {
    if |clauses| == 0 then ""
    else
      var w := " WHERE " + Join(clauses, joiner);
      assert w[..7] == " WHERE ";
      w
  }

  /** The ORDER BY clause, with the direction upper-cased; absent without `$orderBy`. */
  function OrderClause(orderBy: Option<OrderBy>): (o: string)
    ensures orderBy.None? <==> o == ""
    ensures orderBy.Some? ==> |o| == 11 + |orderBy.value.column| + |orderBy.value.direction|
    ensures orderBy.Some? ==> o[..10] == " ORDER BY "
    ensures orderBy.Some? ==> forall i | 11 + |orderBy.value.column| <= i < |o| :: !IsLower(o[i])
    ensures orderBy.Some? ==> o[10..10 + |orderBy.value.column|] == orderBy.value.column
    ensures orderBy.Some? ==> o[10 + |orderBy.value.column|] == ' '
    ensures orderBy.Some? ==> o[11 + |orderBy.value.column|..] == ToUpper(orderBy.value.direction)
  {
    match orderBy
    case None => ""
    case Some(ob) => " ORDER BY " + ob.column + " " + ToUpper(ob.direction)
  }

  /**
   * The LIMIT clause. `if ($limit)` skips both a missing limit and a limit
   * of zero; otherwise the limit is written in decimal.
   */
  function LimitClause(limit: Option<int>): (l: string)
    ensures l == "" <==> limit.None? || limit.value == 0
    ensures l != "" ==> |l| > 7 && l[..7] == " LIMIT " && IsCanonicalDecimal(l[7..]) && ParseInt(l[7..]) == limit.value
  {
    if limit.None? || limit.value == 0 then ""
    else
      IntToStringRoundTrip(limit.value);
      var l := " LIMIT " + IntToString(limit.value);
      assert l[7..] == IntToString(limit.value);
      l
  }

  /** `bind_param` is called only when there are parameters. */
  function Bind(params: seq<Value>, types: string): (b: Option<Binding>)
    ensures b.None? <==> |params| == 0
    ensures b.Some? ==> b.value == Binding(types, params)
  {
    if |params| == 0 then None else Some(Binding(types, params))
  }

  /**
   * `select`: the conditions are AND-ed, each key may end in a comparison
   * operator, and each parameter is typed by its PHP type.
   */
  function Select(table: string, columns: Columns, conds: Conditions, orderBy: Option<OrderBy>, limit: Option<int>): (st: Statement)
    ensures st.bind.None? <==> |conds| == 0
    ensures st.bind.Some? ==> |st.bind.value.params| == |conds|
    ensures st.bind.Some? ==> forall k | 0 <= k < |conds| :: st.bind.value.params[k] == conds[k].1
    ensures st.bind.Some? ==> |st.bind.value.types| == |conds|
    ensures st.bind.Some? ==> forall k | 0 <= k < |conds| :: st.bind.value.types[k] == TypeCode(conds[k].1)
    ensures SelectHead(table, columns) <= st.sql
  {
    var params := Params(conds);
    var head := SelectHead(table, columns);
    var w, o, l := Where(SelectClauses(conds), " AND "), OrderClause(orderBy), LimitClause(limit);
    PrefixOfConcat(head, w, o, l);
    Statement(head + w + o + l, Bind(params, TypeString(params)))
  }

  /**
   * `selectOR`: the conditions are OR-ed, keys are never parsed for an
   * operator, and every parameter is bound as a string.
   */
  function SelectOr(table: string, columns: Columns, conds: Conditions, orderBy: Option<OrderBy>, limit: Option<int>): (st: Statement)
    ensures st.bind.None? <==> |conds| == 0
    ensures st.bind.Some? ==> |st.bind.value.params| == |conds|
    ensures st.bind.Some? ==> forall k | 0 <= k < |conds| :: st.bind.value.params[k] == conds[k].1
    ensures st.bind.Some? ==> |st.bind.value.types| == |conds|
    ensures st.bind.Some? ==> forall k | 0 <= k < |conds| :: st.bind.value.types[k] == 's'
    ensures SelectHead(table, columns) <= st.sql
  {
    var params := Params(conds);
    var head := SelectHead(table, columns);
    var w, o, l := Where(EqualityClauses(conds), " OR "), OrderClause(orderBy), LimitClause(limit);
    PrefixOfConcat(head, w, o, l);
    Statement(head + w + o + l, Bind(params, StringTypes(params)))
  }

  /**
   * `delete`: the conditions are AND-ed equalities bound as strings; with
   * no condition the statement deletes every row of the table.
   */
  function Delete(table: string, conds: Conditions): (st: Statement)
    ensures |conds| == 0 ==> st == Statement("DELETE FROM " + table, None)
    ensures |conds| > 0 ==> st.bind.Some?
    ensures st.bind.Some? ==> |st.bind.value.params| == |conds|
    ensures st.bind.Some? ==> forall k | 0 <= k < |conds| :: st.bind.value.params[k] == conds[k].1
    ensures st.bind.Some? ==> |st.bind.value.types| == |conds|
    ensures st.bind.Some? ==> forall k | 0 <= k < |conds| :: st.bind.value.types[k] == 's'
    ensures "DELETE FROM " + table <= st.sql
  {
    var params := Params(conds);
    Statement("DELETE FROM " + table + Where(EqualityClauses(conds), " AND "), Bind(params, StringTypes(params)))
  }

  // ---------------------------------------------------------------------
  // Clause order and the clauses themselves

  /**
   * `select`'s SQL: SELECT first, then WHERE only when there are
   * conditions, with the clauses joined by `" AND "`, then ORDER BY only
   * when requested, then LIMIT only when non-zero.
   */
  lemma SelectLayout(table: string, columns: Columns, conds: Conditions, orderBy: Option<OrderBy>, limit: Option<int>)
    ensures var sql := Select(table, columns, conds, orderBy, limit).sql;
      && (|conds| == 0 ==> sql == SelectHead(table, columns) + OrderClause(orderBy) + LimitClause(limit))
      && (|conds| > 0 ==>
            sql == SelectHead(table, columns) + " WHERE " + Join(SelectClauses(conds), " AND ")
                   + OrderClause(orderBy) + LimitClause(limit))
  {
    var head := SelectHead(table, columns);
    if |conds| > 0 {
      Associate(head, " WHERE ", Join(SelectClauses(conds), " AND "));
    } else {
      assert head + Where(SelectClauses(conds), " AND ") == head;
    }
  }

  /**
   * Each of `select`'s WHERE clauses is the one the operator pattern
   * prescribes for its key (and, by `PrescribedClauseUnique`, the only one).
   */
  lemma SelectClausesPrescribed(conds: Conditions)
    ensures forall k | 0 <= k < |conds| :: IsClauseFor(conds[k].0, SelectClauses(conds)[k])
  {
    forall k | 0 <= k < |conds|
      ensures IsClauseFor(conds[k].0, SelectClauses(conds)[k])
    {
      ClauseIsPrescribed(conds[k].0);
    }
  }

  lemma Associate(a: string, b: string, c: string)
    ensures a + (b + c) == a + b + c
  {
  }

  /**
   * `selectOR`'s SQL: the same clause order as `select`, but the WHERE
   * clauses are `key = ?` with the key verbatim, joined with `" OR "`.
   */
  lemma SelectOrLayout(table: string, columns: Columns, conds: Conditions, orderBy: Option<OrderBy>, limit: Option<int>)
    ensures var sql := SelectOr(table, columns, conds, orderBy, limit).sql;
      && (|conds| == 0 ==> sql == SelectHead(table, columns) + OrderClause(orderBy) + LimitClause(limit))
      && (|conds| > 0 ==>
            sql == SelectHead(table, columns) + " WHERE " + Join(EqualityClauses(conds), " OR ")
                   + OrderClause(orderBy) + LimitClause(limit))
  {
    var head := SelectHead(table, columns);
    if |conds| > 0 {
      Associate(head, " WHERE ", Join(EqualityClauses(conds), " OR "));
    } else {
      assert head + Where(EqualityClauses(conds), " OR ") == head;
    }
  }

  /** `delete`'s SQL with conditions: `key = ?` clauses joined with `" AND "`. */
  lemma DeleteLayout(table: string, conds: Conditions)
    requires |conds| > 0
    ensures Delete(table, conds).sql == "DELETE FROM " + table + " WHERE " + Join(EqualityClauses(conds), " AND ")
  {
  }

  // ---------------------------------------------------------------------
  // Placeholder and parameter alignment

  /** No `?` in any name the caller splices into the SQL. */
  predicate NoMarks(table: string, columns: Columns, conds: Conditions, orderBy: Option<OrderBy>)
  {
    && '?' !in table
    && '?' !in ColumnList(columns)
    && (forall k | 0 <= k < |conds| :: '?' !in conds[k].0)
    && (orderBy.Some? ==> '?' !in orderBy.value.column && '?' !in orderBy.value.direction)
  }

  lemma {:induction false} WherePlaceholders(clauses: seq<string>, joiner: string)
    requires '?' !in joiner
    requires forall k | 0 <= k < |clauses| :: Count(clauses[k], '?') == 1
    ensures Count(Where(clauses, joiner), '?') == |clauses|
  {
    if |clauses| > 0 {
      CountJoin(clauses, joiner, '?');
      CountConcat(" WHERE ", Join(clauses, joiner), '?');
    }
  }

  lemma HeadHasNoMark(table: string, columns: Columns)
    requires '?' !in table && '?' !in ColumnList(columns)
    ensures Count(SelectHead(table, columns), '?') == 0
  {
    CountAbsent(ColumnList(columns), '?');
    CountAbsent(table, '?');
    CountConcat("SELECT ", ColumnList(columns), '?');
    CountConcat("SELECT " + ColumnList(columns), " FROM ", '?');
    CountConcat("SELECT " + ColumnList(columns) + " FROM ", table, '?');
  }

  lemma OrderHasNoMark(orderBy: Option<OrderBy>)
    requires orderBy.Some? ==> '?' !in orderBy.value.column && '?' !in orderBy.value.direction
    ensures Count(OrderClause(orderBy), '?') == 0
  {
    if orderBy.Some? {
      var d := orderBy.value.direction;
      assert forall i | 0 <= i < |d| :: ToUpper(d)[i] != '?';
    }
    CountAbsent(OrderClause(orderBy), '?');
  }

  lemma LimitHasNoMark(limit: Option<int>)
    ensures Count(LimitClause(limit), '?') == 0
  {
    if limit.Some? {
      IntToStringHasNoMark(limit.value, '?');
    }
    CountAbsent(LimitClause(limit), '?');
  }

  /** Counting `?` over the four parts of a SELECT statement. */
  lemma CountSelectParts(head: string, w: string, o: string, l: string, n: nat)
    requires Count(head, '?') == 0 && Count(w, '?') == n && Count(o, '?') == 0 && Count(l, '?') == 0
    ensures Count(head + w + o + l, '?') == n
  {
    CountConcat(head, w, '?');
    CountConcat(head + w, o, '?');
    CountConcat(head + w + o, l, '?');
  }

  /**
   * The SQL `select` prepares holds exactly one `?` per parameter, provided
   * no spliced name contains a `?` of its own.
   */
  lemma SelectPlaceholders(table: string, columns: Columns, conds: Conditions, orderBy: Option<OrderBy>, limit: Option<int>)
    requires NoMarks(table, columns, conds, orderBy)
    ensures Count(Select(table, columns, conds, orderBy, limit).sql, '?') == |conds|
  {
    var clauses := SelectClauses(conds);
    forall k | 0 <= k < |clauses|
      ensures Count(clauses[k], '?') == 1
    {
      ClauseHasOnePlaceholder(conds[k].0);
    }
    WherePlaceholders(clauses, " AND ");
    HeadHasNoMark(table, columns);
    OrderHasNoMark(orderBy);
    LimitHasNoMark(limit);
    CountSelectParts(SelectHead(table, columns), Where(clauses, " AND "), OrderClause(orderBy), LimitClause(limit), |conds|);
  }

  lemma EqualityClausePlaceholders(conds: Conditions)
    requires forall k | 0 <= k < |conds| :: '?' !in conds[k].0
    ensures forall k | 0 <= k < |conds| :: Count(EqualityClauses(conds)[k], '?') == 1
  {
    forall k | 0 <= k < |conds|
      ensures Count(EqualityClauses(conds)[k], '?') == 1
    {
      CountAbsent(conds[k].0, '?');
      CountConcat(conds[k].0, " = ?", '?');
    }
  }

  /** As for `select`: one `?` per parameter in `selectOR`'s SQL. */
  lemma SelectOrPlaceholders(table: string, columns: Columns, conds: Conditions, orderBy: Option<OrderBy>, limit: Option<int>)
    requires NoMarks(table, columns, conds, orderBy)
    ensures Count(SelectOr(table, columns, conds, orderBy, limit).sql, '?') == |conds|
  {
    EqualityClausePlaceholders(conds);
    WherePlaceholders(EqualityClauses(conds), " OR ");
    HeadHasNoMark(table, columns);
    OrderHasNoMark(orderBy);
    LimitHasNoMark(limit);
    CountSelectParts(SelectHead(table, columns), Where(EqualityClauses(conds), " OR "), OrderClause(orderBy), LimitClause(limit), |conds|);
  }

  /** As for `select`: one `?` per parameter in `delete`'s SQL. */
  lemma DeletePlaceholders(table: string, conds: Conditions)
    requires '?' !in table
    requires forall k | 0 <= k < |conds| :: '?' !in conds[k].0
    ensures Count(Delete(table, conds).sql, '?') == |conds|
  {
    EqualityClausePlaceholders(conds);
    WherePlaceholders(EqualityClauses(conds), " AND ");
    CountAbsent("DELETE FROM " + table, '?');
    CountConcat("DELETE FROM " + table, Where(EqualityClauses(conds), " AND "), '?');
  }

  // ---------------------------------------------------------------------
  // Authentication

  /** One fetched row, `MYSQLI_ASSOC`: column name to value. */
  type Row = map<string, Value>

  /** The `Data` entry: the fetched rows on success, `''` on failure. */
  datatype AuthData = Rows(rows: seq<Row>) | NoData

  /** The `['Status' => ..., 'Data' => ..., 'Message' => ...]` array `auth` returns. */
  datatype AuthResult = AuthResult(status: string, data: AuthData, message: string)

  /** The single value every failed authentication returns. */
  const AuthFailed := AuthResult("Failed", NoData, "Invalid Credentials")

  /** The statement `auth` runs: `select($table, '*', ['username' => $uname])`. */
  function AuthQuery(table: string, uname: Value): (st: Statement)
    ensures "SELECT * FROM " + table <= st.sql
    ensures st.bind == Some(Binding([TypeCode(uname)], [uname]))
  {
    var st := Select(table, Verbatim("*"), [("username", uname)], None, None);
    assert SelectHead(table, Verbatim("*")) == "SELECT * FROM " + table;
    assert st.bind.value.types == [TypeCode(uname)];
    assert st.bind.value.params == [uname];
    st
  }

  /** `$row['password']`, which PHP reads as null when the column is absent. */
  function StoredPassword(row: Row): (v: Value)
    ensures "password" in row ==> v == row["password"]
    ensures "password" !in row ==> v.Null?
  {
    if "password" in row then row["password"] else Null
  }

  /**
   * `auth`: succeeds with every fetched row exactly when some row came back
   * and `verify` (PHP's `password_verify`) accepts the password against the
   * first row's stored hash. `fetch` stands for preparing, binding and
   * running a statement and fetching all its rows.
   */
  function Auth(table: string, uname: Value, password: string,
                fetch: Statement -> seq<Row>, verify: (string, Value) -> bool): (r: AuthResult)
    ensures var rows := fetch(AuthQuery(table, uname));
      r.status == "Success" <==> |rows| > 0 && verify(password, StoredPassword(rows[0]))
    ensures r.status == "Success" ==>
      r == AuthResult("Success", Rows(fetch(AuthQuery(table, uname))), "Authentication Successful")
    ensures r.status != "Success" ==> r == AuthFailed
  {
    var user := fetch(AuthQuery(table, uname));
    if |user| > 0 && verify(password, StoredPassword(user[0])) then
      AuthResult("Success", Rows(user), "Authentication Successful")
    else
      AuthFailed
  }

  /** The lookup `auth` prepares: one username equality, bound by the name's type. */
  lemma AuthQueryShape(table: string, uname: Value)
    ensures AuthQuery(table, uname) ==
      Statement("SELECT * FROM " + table + " WHERE " + ("username" + " = ?"), Some(Binding([TypeCode(uname)], [uname])))
  {
    SelectPlainKey(table, Verbatim("*"), "username", uname);
    assert SelectHead(table, Verbatim("*")) == "SELECT * FROM " + table;
  }

  /**
   * No failure reveals its cause: an unknown user and a wrong password give
   * the identical result.
   */
  lemma AuthFailuresIdentical(table1: string, uname1: Value, password1: string,
                              fetch1: Statement -> seq<Row>, verify1: (string, Value) -> bool,
                              table2: string, uname2: Value, password2: string,
                              fetch2: Statement -> seq<Row>, verify2: (string, Value) -> bool)
    requires Auth(table1, uname1, password1, fetch1, verify1).status != "Success"
    requires Auth(table2, uname2, password2, fetch2, verify2).status != "Success"
    ensures Auth(table1, uname1, password1, fetch1, verify1) == Auth(table2, uname2, password2, fetch2, verify2)
  {
  }

  /**
   * Only the first fetched row is ever checked: two lookups that return the
   * same first row reach the same verdict, whatever rows follow it.
   */
  lemma AuthChecksFirstRowOnly(table: string, uname: Value, password: string,
                               fetch1: Statement -> seq<Row>, fetch2: Statement -> seq<Row>,
                               verify: (string, Value) -> bool)
    requires |fetch1(AuthQuery(table, uname))| > 0 && |fetch2(AuthQuery(table, uname))| > 0
    requires fetch1(AuthQuery(table, uname))[0] == fetch2(AuthQuery(table, uname))[0]
    ensures Auth(table, uname, password, fetch1, verify).status == Auth(table, uname, password, fetch2, verify).status
  {
  }

  // ---------------------------------------------------------------------
  // Worked instances

  /** A single condition and nothing else: one clause, one parameter. */
  lemma SelectSingleCondition(table: string, columns: Columns, key: string, v: Value)
    ensures Select(table, columns, [(key, v)], None, None)
      == Statement(SelectHead(table, columns) + " WHERE " + Clause(key), Some(Binding([TypeCode(v)], [v])))
  {
    var st := Select(table, columns, [(key, v)], None, None);
    assert st.sql == SelectHead(table, columns) + " WHERE " + Clause(key) by {
      SelectLayout(table, columns, [(key, v)], None, None);
      assert SelectClauses([(key, v)]) == [Clause(key)];
      assert OrderClause(None) + LimitClause(None) == "";
    }
    assert st.bind.value.types == [TypeCode(v)];
    assert st.bind.value.params == [v];
  }

  /** A single key without an operator suffix is used whole with `= ?`. */
  lemma SelectPlainKey(table: string, columns: Columns, key: string, v: Value)
    requires |key| > 0 && !IsSpace(key[|key| - 1]) && key[|key| - 1] !in "<>="
    ensures Select(table, columns, [(key, v)], None, None).sql == SelectHead(table, columns) + " WHERE " + (key + " = ?")
  {
    SelectSingleCondition(table, columns, key, v);
    PlainKey(key);
  }

  /** The lookup in the repository's test page: `select('users', 'name', ['id' => 5])`. */
  lemma SelectUserNameExample()
    ensures Select("users", Verbatim("name"), [("id", Int(5))], None, None)
      == Statement("SELECT " + "name" + " FROM " + "users" + " WHERE " + ("id" + " = ?"), Some(Binding("i", [Int(5)])))
  {
    SelectSingleCondition("users", Verbatim("name"), "id", Int(5));
    PlainKey("id");
  }

  /** `selectOR` keeps an operator-bearing key verbatim, giving `age > = ?`. */
  lemma SelectOrKeepsKeyExample()
    ensures SelectOr("people", Verbatim("*"), [("age >", Int(30)), ("name", Str("x"))], None, None)
      == Statement("SELECT * FROM people" + " WHERE " + ("age >" + " = ?" + " OR " + "name" + " = ?"),
                   Some(Binding("ss", [Int(30), Str("x")])))
  {
    var conds := [("age >", Int(30)), ("name", Str("x"))];
    var st := SelectOr("people", Verbatim("*"), conds, None, None);
    SelectOrLayout("people", Verbatim("*"), conds, None, None);
    assert Join(EqualityClauses(conds), " OR ") == "age >" + " = ?" + " OR " + "name" + " = ?" by {
      assert EqualityClauses(conds) == ["age >" + " = ?", "name" + " = ?"];
    }
    assert SelectHead("people", Verbatim("*")) == "SELECT * FROM people";
    assert OrderClause(None) + LimitClause(None) == "";
    assert st.bind.value.types == "ss";
    assert st.bind.value.params == [Int(30), Str("x")];
  }

  /** The direction is upper-cased, and a zero limit emits no LIMIT. */
  lemma OrderAndLimitExample()
    ensures OrderClause(Some(OrderBy("age", "desc"))) == " ORDER BY age DESC"
    ensures LimitClause(Some(10)) == " LIMIT 10"
    ensures LimitClause(Some(0)) == ""
  {
    assert ToUpper("desc") == "DESC";
    assert IntToString(10) == "10";
  }
}
