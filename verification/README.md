# QueryBuilder statement assembly, in Dafny

This project models the `QueryBuilder` class of a small PHP database
library. The class turns a table name, a column list, an ordered array of
conditions, an optional ordering and an optional limit into a parameterised
mysqli statement. It has four public operations:

- `select` AND-joins its conditions. Each condition key may end in a
  comparison operator (`"age >"` means `age > ?`). Each parameter is typed
  `i`, `d` or `s` from its PHP type.
- `selectOR` OR-joins its conditions. It uses every key verbatim with `=`
  and binds every parameter as a string.
- `delete` AND-joins `key = ?` equalities. With no conditions it deletes
  every row.
- `auth` runs a `select` on the username. It succeeds when a row comes back
  and `password_verify` accepts the password against the first row's stored
  hash. Every failure returns the same value.

The model is functional. Each builder returns a `Statement`: the SQL text
handed to `prepare`, plus the `bind_param` arguments (type string and
values) when there are parameters. `Auth` takes two functions as
parameters. `fetch` stands for prepare/bind/execute/fetch_all. `verify`
stands for `password_verify`.

Files:

- `wrappers.dfy`: `Option`.
- `text.dfy`: the PHP string built-ins the class relies on. These are
  `implode`, `strtoupper`, integer-to-string conversion and PCRE's `\s`.
  The file also has occurrence counting.
- `values.dfy`: the scalar `Value` datatype and the mysqli type codes.
- `condition_keys.dfy`: the operator-suffix parser for condition keys. It
  also holds `MatchAt`, an independent statement of where the pattern
  `\s*(<|>|<=|>=|!=|=)\s*$` can match. The lemmas prove that the parser
  returns PCRE's leftmost match.
- `query_builder.dfy`: `Select`, `SelectOr`, `Delete` and `Auth`, with
  lemmas on clause order, placeholder/parameter alignment and the
  authentication decision.

## Model

| member | source | states |
|---|---|---|
| ConditionKeys.ParseKey | Database/QueryBuilder.php:18-20 | an operator is found exactly when the key, trailing whitespace aside, ends in `<`, `>` or `=`; the column is then a prefix of the key that does not end in whitespace and leaves room for the token; that this is PCRE's leftmost match is stated by the lemmas below, not by this contract |
| ConditionKeys.ParseKeyAgreesWithPattern | Database/QueryBuilder.php:18-20 | the parser reports no operator exactly when the pattern matches nowhere in the key; otherwise its column is the key cut at the leftmost match start (what `preg_replace` leaves), and its operator is the one captured at that start |
| ConditionKeys.ParseKeyIsLeftmost | Database/QueryBuilder.php:18-20 | whenever the pattern matches the key at some start, the parser finds an operator, its column ends at or before that start, and a match starting exactly at the column end captures the parser's operator |
| ConditionKeys.MatchUnique | Database/QueryBuilder.php:18-19 | at a given start position the pattern matches with only one token position and one operator, so the captured group is determined by the match start |
| ConditionKeys.Clause | Database/QueryBuilder.php:24 | the contract only fixes that every clause ends in ` ?`; which column and operator come before it is stated by `ClauseIsPrescribed` and the worked examples |
| ConditionKeys.ClauseIsPrescribed | Database/QueryBuilder.php:18-24 | the clause for a key is `column op ?`, with column and op taken from the leftmost pattern match; with no match it is `key = ?` |
| ConditionKeys.PrescribedClauseUnique | Database/QueryBuilder.php:18-24 | that prescription fixes the clause: two clauses meeting it for one key are equal |
| ConditionKeys.PlainKey | Database/QueryBuilder.php:21-24 | a key ending in neither whitespace nor `<`, `>`, `=` gets no operator and yields `key = ?` |
| ConditionKeys.ClauseExampleGreater | Database/QueryBuilder.php:18-24 | `"age >"` parses to column `age` with `>`, giving `age > ?` |
| ConditionKeys.ClauseExampleAtMost | Database/QueryBuilder.php:18-24 | `"age <="` parses to `age` with `<=` (the two-character token, not `=`), giving `age <= ?` |
| ConditionKeys.ClauseExamplePlain | Database/QueryBuilder.php:21-24 | `"age"` has no operator and gives `age = ?` |
| ConditionKeys.ClauseHasOnePlaceholder | Database/QueryBuilder.php:24 | a clause built from a key without `?` holds exactly one `?` |
| Text.TrimRight | Database/QueryBuilder.php:18 | dropping the trailing `\s*` gives a prefix of the key; everything dropped is whitespace; what remains does not end in whitespace |
| Text.ToUpper | Database/QueryBuilder.php:31 | `strtoupper` keeps the length, leaves no lower-case ASCII letter, maps each lower-case letter to its upper-case letter and keeps every other character |
| Text.IntToStringRoundTrip | Database/QueryBuilder.php:35 | the number written after `LIMIT` is a canonical decimal numeral (optional `-`, no leading zero, no `-0`) that reads back as the limit |
| Text.CanonicalDecimalUnique | Database/QueryBuilder.php:35 | a canonical numeral that reads back as `n` is exactly PHP's rendering of `n`, so being canonical and reading back as the limit pins down the LIMIT text |
| Values.TypeCode | Database/QueryBuilder.php:42 | the code is `i` exactly for an int, `d` exactly for a float, and `s` exactly for every other value |
| Values.TypeString | Database/QueryBuilder.php:40-43 | the type string has one code per parameter, in order: `i` for an int, `d` for a float, `s` for anything else |
| Values.StringTypes | Database/QueryBuilder.php:74 | `str_repeat('s', count($params))` has one `s` per parameter |
| QueryBuilder.Where | Database/QueryBuilder.php:15-27 | the WHERE clause is absent exactly when there are no conditions, and otherwise starts with ` WHERE `; its joined clauses are stated by the layout and placeholder lemmas |
| QueryBuilder.OrderClause | Database/QueryBuilder.php:30-32 | ORDER BY is absent exactly when no ordering is given; otherwise it is ` ORDER BY `, then the column verbatim, a space, and the direction upper-cased by `strtoupper` (so the direction part holds no lower-case ASCII letter) |
| QueryBuilder.LimitClause | Database/QueryBuilder.php:34-36 | LIMIT is omitted exactly when the limit is missing or zero; otherwise it is ` LIMIT ` followed by a canonical numeral that reads back as the limit (by `CanonicalDecimalUnique`, PHP's own rendering) |
| QueryBuilder.Bind | Database/QueryBuilder.php:39-44 | `bind_param` is called exactly when there are parameters, and then with the given type string and parameters |
| QueryBuilder.Select | Database/QueryBuilder.php:11-48 | no binding exactly when there are no conditions; the parameters are the condition values in iteration order; the type code of each parameter follows its value's type; the SQL starts with `SELECT <columns> FROM <table>` |
| QueryBuilder.SelectLayout | Database/QueryBuilder.php:12-36 | the clause order: SELECT, then WHERE (only with conditions, clauses joined by `" AND "`), then ORDER BY (only when given), then LIMIT (only when non-zero, and also without ORDER BY) |
| QueryBuilder.SelectClausesPrescribed | Database/QueryBuilder.php:17-24 | the k-th WHERE clause of `select` is the one the operator pattern prescribes for the k-th key |
| QueryBuilder.SelectPlaceholders | Database/QueryBuilder.php:17-27 | the SQL of `select` holds exactly one `?` per condition, so it has as many placeholders as parameters |
| QueryBuilder.SelectSingleCondition | Database/QueryBuilder.php:15-45 | one condition and no ordering or limit give `SELECT … FROM … WHERE <clause>`, one parameter and its type code |
| QueryBuilder.SelectPlainKey | Database/QueryBuilder.php:21-24 | a single key ending in neither whitespace nor `<`, `>`, `=` gives `SELECT … FROM … WHERE key = ?` |
| QueryBuilder.SelectUserNameExample | testing/index.php:7 | `select('users', 'name', ['id' => 5])` prepares `SELECT name FROM users WHERE id = ?` and binds `"i"` with `[5]` |
| QueryBuilder.SelectOr | Database/QueryBuilder.php:51-79 | no binding exactly when there are no conditions; the parameters are the condition values in order; every type code is `s`; the SQL starts with `SELECT <columns> FROM <table>` |
| QueryBuilder.SelectOrLayout | Database/QueryBuilder.php:52-70 | same clause order as `select`, but the WHERE clauses are `key = ?` with the key verbatim, joined by `" OR "` |
| QueryBuilder.SelectOrPlaceholders | Database/QueryBuilder.php:55-61 | the SQL of `selectOR` holds exactly one `?` per condition |
| QueryBuilder.SelectOrKeepsKeyExample | Database/QueryBuilder.php:57-61 | `selectOR` does not parse operators: key `"age >"` gives `age > = ?`, and every type code is `s` |
| QueryBuilder.OrderAndLimitExample | Database/QueryBuilder.php:30-36 | direction `desc` is written `DESC`; limit 10 is written ` LIMIT 10`; limit 0 emits nothing |
| QueryBuilder.Delete | Database/QueryBuilder.php:92-111 | with no conditions the statement is the bare `DELETE FROM <table>` with no binding; otherwise the parameters are the condition values in order and every type code is `s` |
| QueryBuilder.DeleteLayout | Database/QueryBuilder.php:93-103 | with conditions the SQL is `DELETE FROM <table> WHERE` followed by `key = ?` clauses joined by `" AND "` |
| QueryBuilder.DeletePlaceholders | Database/QueryBuilder.php:96-102 | the SQL of `delete` holds exactly one `?` per condition |
| QueryBuilder.Auth | Database/QueryBuilder.php:82-89 | success exactly when the lookup returns a row and `password_verify` accepts the first row's stored password; success carries every fetched row; every other outcome is the single failure value |
| QueryBuilder.AuthQuery | Database/QueryBuilder.php:83 | the lookup's SQL starts with `SELECT * FROM <table>` and binds just the user name, with that name's type code |
| QueryBuilder.StoredPassword | Database/QueryBuilder.php:85 | `$row['password']` is the row's password entry when it has one and null otherwise |
| QueryBuilder.AuthQueryShape | Database/QueryBuilder.php:83 | the lookup is `SELECT * FROM <table> WHERE username = ?`, binding just the user name with that name's type code |
| QueryBuilder.AuthFailuresIdentical | Database/QueryBuilder.php:85-88 | any two failed authentications give identical results, so an unknown user cannot be told apart from a wrong password |
| QueryBuilder.AuthChecksFirstRowOnly | Database/QueryBuilder.php:85 | only the first fetched row is checked: lookups with the same first row reach the same verdict, whatever rows follow it |

## Left out

- Database/Connection.php is not part of this model. It opens the mysqli connection and sets the charset; that is I/O only.
- The driver calls `prepare`, `bind_param`, `execute`, `get_result` and `fetch_all` are not modelled. Each builder returns the statement it would prepare and bind. `Auth` receives the row-fetching behaviour as a function parameter. Driver errors and exceptions are not modelled.
- The results that `select`, `selectOR` and `delete` return (rows, or `execute`'s boolean) come from the driver, so they are not modelled.
- `password_verify` is an uninterpreted function parameter. Hashing is not modelled.
- Floats are an opaque tag. The builder only uses them to choose the type code `d`.
- PHP truthiness of arguments other than the modelled ones is not modelled. `$orderBy` is an optional pair of column and direction; a malformed or empty array is not modelled. `$limit` is an optional integer, so `intval` of a string limit is not modelled.
- PHP's conversion of numeric-string array keys to integers is not modelled. It does not change the SQL text, because the key is interpolated either way.
- `strtoupper` is modelled with PHP 8.2's ASCII-only behaviour. Locale-dependent upper-casing is left out.
- Strings are sequences of characters, not bytes. `\s` is taken as PCRE's ASCII whitespace set without UTF mode.
- No identifier validation or escaping is added. Table and column names are spliced into the SQL unchecked, as the source does.
- A conditions array is modelled as a sequence of key/value pairs, which may repeat a key. A PHP array cannot hold the same key twice, so inputs with repeated keys have no PHP counterpart.
- Integers are unbounded. PHP integers are 64-bit, and a larger literal becomes a float, so integers outside the 64-bit range have no PHP counterpart. The builder does no arithmetic on them, so nothing else changes.
- src/APIS/Curl.php (the HTTP client), src/Helpers/DateHelper.php (date formatting) and the HTML part of testing/index.php are not part of this model.
- SelectPlaceholders: the count holds only when no table name, column name, condition key or ordering text contains a `?` of its own. The source interpolates these unchecked, so a `?` in a name would add a stray placeholder.
- SelectOrPlaceholders: same restriction as SelectPlaceholders.
- DeletePlaceholders: same restriction, on the table name and the condition keys.

## Notes on the source

- `selectOR` takes `$limit` and appends LIMIT exactly as `select` does (Database/QueryBuilder.php:51, 68-70).
- Only the pattern's match is removed from a key: the whitespace run before the operator, the operator, and trailing whitespace. Leading whitespace and anything else earlier in the key stays (Database/QueryBuilder.php:20).
- A key such as `"a =<"` ends in `<` without forming a two-character token, so its column is `a =`. A key such as `"a =="` has operator `=` and column `a =`. Both follow from the leftmost-match semantics proved in `ParseKeyAgreesWithPattern`.
