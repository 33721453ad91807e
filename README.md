# LightBnB dynamic query builders

This project models the two dynamic SQL builders of the LightBnB
data-access layer, `LightBnB_WebApp/server/database.js`:

- `getAllProperties(options, limit = 10)` walks the options object in
  `Object.keys` order and skips every falsy value. For each remaining
  option it does three things:
  - pushes one positional parameter value, starting at `$2`, since `$1` is
    the limit;
  - collects a `WHERE` condition, or for `minimum_rating` a
    `HAVING AVG(rating) >= $n` clause;
  - numbers the placeholder `$n` from one shared counter.

  It then splices the conditions (joined by `AND`) and the rating clause
  into a fixed template with two `String.prototype.replace` calls, which
  replace the words `WHERE` and `RATING`. The `LIMIT` is bound by `$1`,
  the limit pushed first, not by the last placeholder.
- `addProperty(property)` pushes one value and one placeholder `$n` per key
  of the record. It then splices the key list and the placeholder list into
  `INSERT INTO properties(col_placeholder) VALUES(col_parameters)
  RETURNING*`. The arrays are converted to strings, which joins them with
  `,`.

Both builders are modelled as methods (`Database.GetAllProperties`,
`Database.AddProperty`) with the same loop, counter and pushes as the
source. Each method is proved against a specification function
(`SearchSql`, `InsertSql` and the parameter-value functions). The
properties of those functions are proved as lemmas:
- which options take part;
- in which order conditions are bound to which placeholder;
- when the rating clause appears;
- that no `WHERE` keyword is left dangling;
- what the finished statement looks like.

The JavaScript built-ins the builders rely on are modelled in their own
modules, following ECMAScript:
- `JsText`: `replace` with a string pattern and the `$` replacement
  patterns of GetSubstitution, plus `Array.prototype.join`.
- `JsValues`: truthiness, conversion to a string, and `parseInt` with no
  radix.

## Model

| member | source | states |
|---|---|---|
| Database.GetAllProperties | LightBnB_WebApp/server/database.js:104-161 | value list = the limit (10 when undefined), then one value per truthy option in key order, each the value its switch branch pushes; the statement is the template with the collected conditions and rating clause spliced in by the two `replace` calls |
| Database.AddProperty | LightBnB_WebApp/server/database.js:177-192 | one value per key, the record's values in key order; the statement is the template with the key list and the placeholders `$1..$n` spliced in |
| Database.AddOption | LightBnB_WebApp/server/database.js:125-146 | one pass of the `switch`: the counter goes up by one, the option's value is pushed, `minimum_rating` overwrites the rating clause with `HAVING AVG(rating) >= $n`, every other key appends its condition bound to `$n` |
| Database.AcceptedMembers | LightBnB_WebApp/server/database.js:123-124 | an option is acted on exactly when it is among the options and its value is truthy |
| Database.AcceptedConcat | LightBnB_WebApp/server/database.js:123-148 | options are handled one at a time in key order: the accepted options of a concatenation are the concatenation of the accepted options |
| Database.FalsyOptionAddsNothing | LightBnB_WebApp/server/database.js:124 | an option with a falsy value changes neither the value list nor the statement |
| Database.ZeroRatingIgnored | LightBnB_WebApp/server/database.js:124-133 | `minimum_rating` given as the number 0 is falsy and skipped: the statement and values are those built without it |
| Database.RatingTextApplies | LightBnB_WebApp/server/database.js:124-133 | `minimum_rating` given as the text of a whole number, even "0", is truthy: as the last option it is accepted, bound as that number and sets `HAVING AVG(rating) >= $n` for its placeholder |
| Database.ConditionsInOrder | LightBnB_WebApp/server/database.js:121-148 | the accepted option at position j is bound to `$(2+j)`; conditions of earlier options form a prefix, and the option's own condition follows them |
| Database.ConditionsCount | LightBnB_WebApp/server/database.js:125-146 | every accepted option adds exactly one condition except `minimum_rating`, which adds none |
| Database.RatingAbsent | LightBnB_WebApp/server/database.js:109-133 | the rating clause is empty exactly when no accepted option is `minimum_rating` |
| Database.RatingFromLast | LightBnB_WebApp/server/database.js:130-133 | with several `minimum_rating` options the last one wins: the clause is `HAVING AVG(rating) >= $n` for its counter |
| Database.TextOptionValues | LightBnB_WebApp/server/database.js:130-145 | an option given as the text of a whole number, as a query string carries it, is bound as that number; the two price options as 100 times it |
| Database.NumericOptionValues | LightBnB_WebApp/server/database.js:130-145 | a number option is bound as that number; the two price options are bound as 100 times it |
| Database.PlaceholderDenotes | LightBnB_WebApp/server/database.js:128 | the placeholder for counter n is `$` followed by a numeral that parses back to n |
| Database.PlaceholdersDistinct | LightBnB_WebApp/server/database.js:121-144 | distinct counter values give distinct placeholders |
| Database.SpliceShape | LightBnB_WebApp/server/database.js:151-161 | for texts without `$` patterns and a WHERE text without the word `RATING`, the two `replace` calls put the WHERE text and the rating clause exactly where the tokens were |
| Database.SpliceFrame | LightBnB_WebApp/server/database.js:151-161 | whatever is spliced in, the template's head stays in front and its tail at the end |
| Database.SearchStatementFrame | LightBnB_WebApp/server/database.js:111-119 | for every options object the statement starts with the SELECT, FROM, JOIN and ON lines and ends with `ORDER BY cost_per_night` and `LIMIT $1` |
| Database.SearchSqlShape | LightBnB_WebApp/server/database.js:111-161 | with splice-safe keys the statement is head + (`WHERE c1 AND ...` or nothing) + GROUP BY line + (rating clause or nothing) + tail |
| Database.NoDanglingWhere | LightBnB_WebApp/server/database.js:151-156 | when no condition is collected no `WHERE` keyword is left, for every options object |
| Database.WhereIffConditions | LightBnB_WebApp/server/database.js:151-156 | for every options object the statement contains `WHERE` exactly when some condition was collected |
| Database.WhereOccurs | LightBnB_WebApp/server/database.js:151-156 | for every options object with at least one condition, `WHERE` stands right after the ON line |
| Database.WhereLeads | LightBnB_WebApp/server/database.js:151-161 | with at least one condition the statement starts with the SELECT ... ON lines and `WHERE `, whatever the conditions and the rating clause hold |
| Database.NoRatingTokenLeft | LightBnB_WebApp/server/database.js:157-161 | with splice-safe keys no `RATING` token is left in the statement |
| Database.InsertStatementFrame | LightBnB_WebApp/server/database.js:180-192 | for every record the statement starts with `INSERT INTO properties(` and ends with `) RETURNING*` |
| Database.PlaceholderListVerbatim | LightBnB_WebApp/server/database.js:186-192 | the placeholder list never contains a special `$` pattern, so `replace` inserts it unchanged |
| Database.InsertSqlShape | LightBnB_WebApp/server/database.js:180-192 | for keys without `$` patterns and without `col_parameters`, the statement is `INSERT INTO properties(k1,...,kn) VALUES($1,...,$n) RETURNING*` |
| Database.EmptyPropertyStatement | LightBnB_WebApp/server/database.js:185-192 | a record without keys gives `INSERT INTO properties() VALUES() RETURNING*` |
| JsText.IndexOf | LightBnB_WebApp/server/database.js:152 | `replace` with a string pattern finds the first occurrence: -1 exactly when there is none, otherwise an occurrence with none before it |
| JsText.ReplaceFirstAt | LightBnB_WebApp/server/database.js:151-161 | replacing in `a + pat + b`, where `pat` cannot start inside `a`, puts the substituted replacement between `a` and `b` |
| JsText.ReplaceVerbatimAt | LightBnB_WebApp/server/database.js:151-152 | replacing the first `pat` in `a + pat + b` by a text without special `$` patterns gives `a + rep + b` |
| JsText.SubstituteVerbatim | LightBnB_WebApp/server/database.js:151-161 | a replacement without special `$` patterns is inserted unchanged |
| JsText.ReplaceTwiceFrame | LightBnB_WebApp/server/database.js:151-161 | two chained replaces into `h + p + m + q + t` keep `h` in front and `t` at the end |
| JsText.ReplaceTwiceKeepsLead | LightBnB_WebApp/server/database.js:151-161 | when the first replacement starts with text free of `$` that the second token cannot start inside, two chained replaces keep the head and that text in front |
| JsText.SubstitutePlainPrefix | LightBnB_WebApp/server/database.js:154 | text without `$` at the start of a replacement is inserted unchanged, ahead of whatever the rest becomes |
| JsText.ReplaceTwiceAt | LightBnB_WebApp/server/database.js:190-192 | two chained replaces with verbatim replacements give `h + x + m + y + t` |
| JsText.JoinNoOcc | LightBnB_WebApp/server/database.js:154 | joining texts that do not contain a pattern, with a separator that cannot start or end it, leaves the pattern out of the result |
| JsValues.ParseInt | LightBnB_WebApp/server/database.js:131 | `parseInt` yields a number or NaN |
| JsValues.ParseIntOfIntToString | LightBnB_WebApp/server/database.js:143 | `parseInt(String(n))` gives back n for every integer n |
| JsValues.ParseIntOfNumeral | LightBnB_WebApp/server/database.js:143 | a decimal numeral is read whole as the number it denotes |
| JsValues.ParseIntOfNegatedNumeral | LightBnB_WebApp/server/database.js:143 | a minus sign and a decimal numeral are read as the negated number |
| JsValues.DigitsValueOfNatToString | LightBnB_WebApp/server/database.js:143 | the decimal digits `String(n)` writes denote n |
| JsValues.ParseIntValueOfText | LightBnB_WebApp/server/database.js:131-143 | `parseInt` of the text of a whole number gives back that number |
| JsValues.ParseIntValueOfNum | LightBnB_WebApp/server/database.js:143 | `parseInt` of a number value gives back that number |

## Left out

- Running the statements is not modelled:
  - the `pool.query` call and the connection pool;
  - the promise chain, the `.then`/`.catch` handlers and the value they resolve with;
  - the `console.log` calls.

  These are I/O.
- The static query functions of the same file are not part of this model:
  - `getUserWithEmail`;
  - `getUserWithId`;
  - `addUser`;
  - `getAllReservations`.
- The implicit global that `addProperty` assigns `queryString` to is not modelled. It has no effect on the values built.
- Numbers are integers plus NaN. Not modelled:
  - floating point;
  - `-0`;
  - loss of precision beyond 2^53;
  - `Infinity` from `* 100`;
  - the exponent form of `String(n)`.
- Option and record values that are objects, arrays, symbols or bigints are not modelled. A value is undefined, null, a boolean, a number, NaN or a string.
- `Object.keys(options)` and `Object.keys(property)` throw a TypeError when the argument is null or undefined. The input is a sequence of entries, so that case cannot be expressed.
- Strings are sequences of Unicode scalar values, not UTF-16 code units. A key holding a lone surrogate cannot be represented. Every token the builders search for is ASCII, so for every representable key the two views agree.
- `Object.keys` order is taken as the order of the given entries. Its rule that integer-like keys come first is not modelled.
- The model does not assume that keys are distinct. A JavaScript object always has distinct keys.
- What the SQL text means to the database is not modelled. Keys are spliced into the statement unchecked, so the SQL-injection exposure of the `default` branch and of `addProperty` is visible only as text.
- Database.SearchSqlShape: proved only for splice-safe keys. A key that contains `RATING` or a special `$` pattern changes where the second `replace` lands. `SearchSql` models that behaviour, but no shape is proved for it.
- Database.NoRatingTokenLeft: proved only for splice-safe keys, for the same reason.
- Database.InsertSqlShape: proved only for keys without `col_parameters` and without special `$` patterns. `InsertStatementFrame` holds for every record.
- JsValues.ParseInt: its contract says only that the result is a number or NaN. What it reads is stated by `ParseIntOfIntToString` for the numerals the builders meet.
