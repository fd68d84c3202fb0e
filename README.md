# Datalayer trait: a Dafny model

This project models the core of `DatalayerTrait`, the PHP trait that gives
a data-access object these capabilities:

- one lazily opened PDO connection;
- a rule that adds a staging suffix to the database name;
- `executeSQL`, which prepares and executes a query;
- the `count` and `fetch*` helpers, which read a statement;
- transaction and last-insert-id helpers;
- `setLogSQL`, which builds a human-readable version of the last query with its parameters written in.

The model has five modules:

- `Wrappers`: the `Option` type.
- `Text`: the PHP string primitives the trait relies on, stated as functions:
  - `strpos` (`FirstIndex`);
  - `str_replace` (`ReplaceAll`: left to right, non-overlapping, inserted text is not rescanned, an empty search leaves the subject alone);
  - `preg_replace` with limit 1 on `/\?/` (`ReplaceFirst`);
  - `implode`/`explode` (`Join`/`Split`);
  - integer-to-string conversion;
  - zero padding;
  - ASCII `strtolower`/`ucfirst`.
- `SqlLog`: the rendering done by `setLogSQL`.
  - Values are rendered by their PHP type. Strings are quoted without escaping, `null` becomes `NULL`, integers are written in decimal, `true`/`false` become `1` and an empty string, arrays are comma-joined, and `DateTime` uses `Y-m-d H:i:s`. Any other object is skipped.
  - In positional mode (keys exactly `0..n-1` in order), each value takes the first `?` still in the text. The text searched includes values inserted earlier.
  - In named mode, each value replaces every occurrence of its key. A `:` is added in front of the key when it is missing.
  - `Reconstruct` is the loop itself, proved equal to the functional `RenderForLog`.
- `Environment`: the database-name rule at the head of `getInstance`.
  - Both `strpos` tests are used as truth values, so a match at position 0 counts as no match. A host whose name begins with the marker is therefore never treated as a staging host.
  - On a staging host, a database name that does not settle gets the suffix again on every call. A name settles when, once suffixed, it does not begin with the suffix. A name that already begins with the suffix never settles.
- `Datalayer`: the per-object state as a class `Session`.
  - Its fields are `instance`, `database`, `prepare`, `logSql` and `resultArray`.
  - Every method has the PHP branch structure. Each driver outcome (connect, prepare, execute, fetch, raise) is a parameter.
  - `Session.Valid` is the invariant the methods keep: the database name is the configured name plus some copies of the suffix, and at most one copy when the name settles.

Results of the PHP methods are `Ret` values:

- `Value`: a normal return.
- `False` and `Null`: the PHP `false` and `null`. When a `PDOException` is caught, the fetch, transaction and lastId methods return `null`. executeSQL returns `false`, count returns `false` (read as 0 under its `?int` type), and getInstance returns `false`, which the model gives as no connection.
- `Thrown`: an `Error` that leaves the method uncaught. Examples are calling a method on `false`/`null`, or returning a value that the declared return type refuses.

## Model

| member | source | states |
|---|---|---|
| Text.FirstIndex | src/DatalayerTrait.php:52 | strpos: a found position leaves room for the needle |
| Text.FirstIndexSpec | src/DatalayerTrait.php:52 | strpos finds the first occurrence, and reports none exactly when there is none |
| Text.ReplaceFirstAt | src/DatalayerTrait.php:296 | replacing the first `?` leaves a `?`-free prefix and everything after that `?` untouched |
| Text.ReplaceAllUnchanged | src/DatalayerTrait.php:301 | str_replace leaves the text unchanged exactly when the search does not occur or the replacement equals the search |
| Text.ReplaceAllAtHead | src/DatalayerTrait.php:301 | a match at the start is replaced, and scanning resumes after it |
| Text.ReplaceAllLengthOrder | src/DatalayerTrait.php:301 | replacing with a longer or shorter text never shrinks or grows the text, respectively |
| Text.SplitJoin | src/DatalayerTrait.php:292 | implode with ',' is undone by explode when no item holds a ',' |
| Text.ParseIntToString | src/DatalayerTrait.php:298-299 | an integer key written in decimal reads back as the same integer |
| Text.PadFacts | src/DatalayerTrait.php:283 | zero padding to width w has length w and keeps the value |
| Text.Lower | src/DatalayerTrait.php:52 | strtolower keeps the length and lowers each ASCII letter |
| Text.UcFirstCaseOnly | src/DatalayerTrait.php:52-53 | ucfirst only changes case: lower-cased, its result is the lower-cased input |
| Text.UcFirstIdempotent | src/DatalayerTrait.php:52-53 | applying ucfirst twice is the same as applying it once |
| SqlLog.Token | src/DatalayerTrait.php:298-300 | the named-mode placeholder always begins with ':' |
| SqlLog.TokenKeepsKey | src/DatalayerTrait.php:298-300 | the token gives its key back: a name that starts with ':' is kept as it is, any other name follows the added ':', and an integer key follows it in decimal |
| SqlLog.TokenIdempotent | src/DatalayerTrait.php:298-300 | adding the leading ':' twice is the same as adding it once |
| SqlLog.Render | src/DatalayerTrait.php:281-293 | a value is skipped exactly when it is an object other than a DateTime; a string is written between single quotes, two characters longer |
| SqlLog.RenderForLog | src/DatalayerTrait.php:276-305 | with no parameters, the stored text is the query itself |
| SqlLog.Reconstruct | src/DatalayerTrait.php:276-306 | the loop computes exactly the functional rendering of the query and parameters |
| SqlLog.PositionalMatchesScan | src/DatalayerTrait.php:279-296 | in positional mode, with no '?' inside a value, the log is a one-pass scan that fills the '?' marks left to right with the values that are not skipped |
| SqlLog.PositionalSubstitutions | src/DatalayerTrait.php:295-296 | in positional mode, when no value holds a '?', the number of '?' left is the query's count minus the substituted values (down to zero), and never more are filled than there are parameters |
| SqlLog.PositionalMarksBound | src/DatalayerTrait.php:295-296 | in positional mode, for any values ('?' inside them included), each substituted value fills at most one '?': the marks left plus the values substituted are at least the query's marks |
| SqlLog.UnmarkedQueryUnchanged | src/DatalayerTrait.php:295-296 | in positional mode a query without '?' is logged unchanged, whatever the values hold |
| SqlLog.PositionalSingle | src/DatalayerTrait.php:287-296 | one positional value replaces the first '?' with its rendering |
| SqlLog.PositionalTwo | src/DatalayerTrait.php:280-296 | two positional values are two first-'?' replacements in turn |
| SqlLog.QuotedWithoutEscaping | src/DatalayerTrait.php:287-288 | a string is quoted with no escaping: O'Brien is logged as 'O'Brien' |
| SqlLog.SkippedObjectKeepsMark | src/DatalayerTrait.php:281-286 | an object that is not a DateTime is skipped, and its '?' goes to the next value |
| SqlLog.InsertedMarkIsFilled | src/DatalayerTrait.php:296 | a '?' inside an inserted value is taken by the next value before the query's own next '?' |
| SqlLog.NamedColonAdded | src/DatalayerTrait.php:297-301 | in named mode, a key given without its ':' behaves exactly like the same key with it |
| SqlLog.NamedSingle | src/DatalayerTrait.php:297-301 | one named value replaces every occurrence of its token, and leaves the text unchanged exactly when the token is absent, the value renders as the token, or the value is skipped |
| SqlLog.TokenMatchesInsideLongerToken | src/DatalayerTrait.php:301 | the token `:id` is also replaced at the head of a longer token such as `:idx` |
| SqlLog.FormatDateRoundTrip | src/DatalayerTrait.php:282-283 | `Y-m-d H:i:s` text has length 19, its separators at fixed places, and gives back every field |
| SqlLog.ArrayRoundTrip | src/DatalayerTrait.php:291-292 | an array value is comma-joined and splits back into its items |
| SqlLog.IntRoundTrip | src/DatalayerTrait.php:289-301 | an integer value is written in decimal and reads back as itself |
| Environment.ResolveDatabase | src/DatalayerTrait.php:52-54 | the rule either keeps the name or appends the suffix once |
| Environment.StrposTruthy | src/DatalayerTrait.php:52 | strpos as a truth value holds exactly when the needle occurs but not at position 0 |
| Environment.HostAtStartIgnored | src/DatalayerTrait.php:52 | a server name that begins with the marker is not a staging host, so every database name is left as it is |
| Environment.EmptyMarkerNeverAppends | src/DatalayerTrait.php:52-54 | an empty marker never changes the name |
| Environment.NoSecondAppend | src/DatalayerTrait.php:52-54 | when the name settles, a second check does not append again |
| Environment.EveryCheckAppends | src/DatalayerTrait.php:52-54 | on a staging host, a name that does not settle gets the suffix again on every check: after k >= 1 appends, the next check makes it k + 1 |
| Environment.SecondCheckIff | src/DatalayerTrait.php:52-54 | after one append, a second check leaves the name alone exactly when the name settles |
| Environment.ResolveIdempotent | src/DatalayerTrait.php:52-54 | for a name that settles, the rule is idempotent |
| Environment.LeadingSuffixNeverSettles | src/DatalayerTrait.php:52-54 | a name that begins with the suffix never settles |
| Datalayer.DsnFields | src/DatalayerTrait.php:58 | the DSN splits on ';' into its host, dbname and port fields |
| Datalayer.Session.constructor | src/DatalayerTrait.php:22-44 | a new object holds no connection, the configured name, no statement and an empty result set |
| Datalayer.Session.GetInstance | src/DatalayerTrait.php:49-71 | the suffix rule is applied on every call; a connection is opened only when none is held and is then kept; the result is the held connection or none |
| Datalayer.Session.SetLogSql | src/DatalayerTrait.php:276-306 | logSQL becomes the rendering of the query with its parameters |
| Datalayer.Session.ExecuteSql | src/DatalayerTrait.php:78-89 | with no connection, it raises and changes nothing but the database name. A raising prepare gives false; a false prepare is stored and then raises. A prepared statement is stored; after a raising execute it gives false, otherwise it is returned and the query is logged |
| Datalayer.Rows | src/DatalayerTrait.php:95-107 | rowCount raises exactly when there is no handle; otherwise it returns the driver's count, and a caught failure gives 0 under the `?int` return type |
| Datalayer.PickStatement | src/DatalayerTrait.php:98 | the handle used is the argument when it is a statement, and otherwise the stored one; there is none only when both are missing (the same test recurs at lines 116, 133, 151, 169, 185 and 202) |
| Datalayer.Session.Count | src/DatalayerTrait.php:95-107 | it raises exactly when neither argument nor stored statement is a handle; the argument is preferred over the stored statement |
| Datalayer.AllRows | src/DatalayerTrait.php:113-160 | fetchAll raises exactly when there is no handle; with a handle it returns the driver's rows, or null when the driver raises; it never gives false |
| Datalayer.Session.FetchAllInto | src/DatalayerTrait.php:116-119 | the body shared by the fetchArray methods: the fetchAll result through the picked handle, and resultArray replaced exactly when rows come back (also lines 133-136 and 151-155) |
| Datalayer.Session.FetchArrayAssoc | src/DatalayerTrait.php:113-124 | the associative fetchAll result; resultArray is replaced only when rows come back |
| Datalayer.Session.FetchArrayObj | src/DatalayerTrait.php:130-141 | the object fetchAll result; resultArray is replaced only when rows come back |
| Datalayer.Session.FetchArrayClass | src/DatalayerTrait.php:148-160 | the fetchAll result in the models directory's class (the argument, or classModel when it is empty); resultArray is replaced only when rows come back |
| Datalayer.OneRowAsWritten | src/DatalayerTrait.php:166-210 | a single fetch as written never gives false: an exhausted cursor raises |
| Datalayer.ExhaustedCursorThrows | src/DatalayerTrait.php:166-210 | on an exhausted cursor the code as written raises, where a false was intended |
| Datalayer.OneRowOutcomes | src/DatalayerTrait.php:166-210 | the corrected single fetch tells a row, the end of the rows and a driver failure apart, and differs from the code as written only at the end of the rows |
| Datalayer.Session.FetchOneAssoc | src/DatalayerTrait.php:166-176 | one associative row by the corrected single fetch; no state changes |
| Datalayer.Session.FetchOneObj | src/DatalayerTrait.php:182-192 | one object row by the corrected single fetch; no state changes |
| Datalayer.Session.FetchOneClass | src/DatalayerTrait.php:199-210 | one row in the resolved model class by the corrected single fetch; no state changes |
| Datalayer.Session.Transaction | src/DatalayerTrait.php:215-254 | begin, commit and rollback raise without a connection, give null when the driver raises, and give true otherwise, after getInstance's effects |
| Datalayer.Session.LastId | src/DatalayerTrait.php:259-269 | lastInsertId raises without a connection, gives null when the driver raises, and otherwise gives the driver's id, after getInstance's effects |
| Datalayer.ConnectTwice | src/DatalayerTrait.php:52-65 | two getInstance calls in a row return the same connection once one is open, the DSN carries the resolved name, and a name that settles has the suffix at most once |

## Left out

- Error reporting (`setError`, lines 313-343) prints JSON or HTML and stores the exception in a static property. That is output, so it is not modelled: every catch is modelled only by what it returns.
- The PDO driver is not modelled. Whether a connection opens, which statement prepare yields, and what execute, rowCount, the fetches and lastInsertId return or raise are all parameters. The `options` entry passed to `new PDO` is not modelled.
- `$_SERVER['SERVER_NAME']` and the `CONFIG_DATA_LAYER` constant are read from the environment. They become the `serverName` argument and a `Config` value.
- FETCH_CLASS hydration (FETCH_PROPS_LATE, constructors, a missing class) is left to the driver. A row is a list of column/value pairs in every mode.
- The `fields` and `tableName` properties are never used by the trait's methods.
- Text.Lower: models `mb_strtolower` on ASCII letters only. Multibyte case mapping is outside the model, and strings are sequences of characters rather than bytes.
- SqlLog.Param: floating-point values are not modelled. Array items are strings, and nested arrays are not modelled.
- SqlLog.ValidParams: excludes two kinds of input. The first is key sets `0..n-1` given out of order, where `==` against `array_values` depends on loose comparison of the values. The second is positional values whose rendering `preg_replace` would interpret rather than copy. Those are a backslash before a digit, a backslash or a `$`, and `$n`. `${n` is excluded too, even without its closing brace, where it would be copied (a conservative bound).
- SqlLog.RenderForLog: a `null` parameter array is modelled as the empty sequence; both skip the loop.
- SqlLog.FormatDateRoundTrip: stated only for years 0 to 9999 and fields below 100.
- SqlLog.IntRoundTrip: integers are unbounded. PHP's 64-bit limits are not modelled, because no operation here overflows.
- Datalayer.Rows: rowCount's catch returns `false` from a `?int` method, and PHP's weak typing turns it into 0. Strict typing is not modelled.
- Datalayer.Session.FetchOneAssoc, Datalayer.Session.FetchOneObj and Datalayer.Session.FetchOneClass: these use the corrected single fetch from the finding below, not the code as written, which `Datalayer.OneRowAsWritten` models.
- Concurrency and the process-wide error state are not modelled.

## Findings

| source | as written | input that shows it | evidently intended | confidence | as-written member | corrected member |
|---|---|---|---|---|---|---|
| src/DatalayerTrait.php:166-176 | `fetchOneAssoc` returns `fetch()`'s result from a method declared `?array`; `fetch()` gives `false` when no row is left, and PHP refuses `false` for `?array` with a TypeError | a statement whose cursor has no rows left | return `false` at the end of the rows, as the docblock's `array|false` says, distinct from the `null` of a driver failure | not executed | Datalayer.OneRowAsWritten | Datalayer.OneRowOutcomes |
| src/DatalayerTrait.php:182-192 | `fetchOneObj` is declared `?stdClass` and returns `fetch()`'s `false` in the same way | a statement whose cursor has no rows left | return `false` at the end of the rows | not executed | Datalayer.OneRowAsWritten | Datalayer.OneRowOutcomes |
| src/DatalayerTrait.php:199-210 | `fetchOneClass` is declared `?object` and returns `fetchObject()`'s `false` in the same way | a statement whose cursor has no rows left | return `false` at the end of the rows | not executed | Datalayer.OneRowAsWritten | Datalayer.OneRowOutcomes |
