# LaravelAuth authentication source, modelled in Dafny

`LaravelAuth` is a SimpleSAMLphp authentication source. It checks a username and
password against the `users` table of a Laravel application. The model covers three parts of it:

- **Construction.** The configuration array must hold `dsn`, `username`, `password` and
  `uidfield`, each as a string. The first one that is missing or not a string makes the
  constructor throw. `options` is kept only when it is set and not null.
- **Connecting.** The driver is the DSN text before the first `:`, lower-cased. `mysql` gets
  `SET NAMES 'utf8mb4'`, `pgsql` gets `SET NAMES 'UTF8'`, and any other driver gets no
  initialisation statement.
- **`login`.** The account is looked up only if its `login_attempts` counter is below 6. A
  wrong password adds one to the counter and fails with `WRONGUSERPASS`. A right password
  clears the counter and returns the row projected into an attribute map.

Files, one module each:

- `wrappers.dfy` (`Wrappers`): `Option` and `Result`.
- `php_values.dfy` (`PhpValues`): PHP values, the `(string)` cast (decimal rendering of
  integers, with its round trip) and `strtolower`.
- `auth_config.dfy` (`AuthConfig`): the parameter-checking loop of the constructor.
- `driver.dfy` (`Driver`): the driver name and the initialisation statement it selects.
- `attributes.dfy` (`Attributes`): the loop that projects the fetched row into attributes.
- `user_table.dfy` (`Users`): the `users` table as a class whose rows change only through the
  two counter `UPDATE`s, and the lockout-filtered `SELECT`.
- `auth_source.dfy` (`AuthSource`): the `LaravelAuth` class. It holds the constructor, the
  `Login` method, and the functions `LoginOutcome` (what `login` returns) and `LoginEffect`
  (how it may change the table). `Login` is proved against both.
- `login_properties.dfy` (`LoginProperties`): lockout, counter and attribute properties,
  stated over `LoginOutcome` and `LoginEffect`.

Modelling choices:

- The table is a map from the value of the configured uid column to a row. So the
  `WHERE uidfield = :username` clause is a key lookup. A row maps column names to PHP
  values, and SQL NULL is `Null`.
- `password_verify` is a parameter `verify: (string, string) -> bool`. Nothing is assumed
  about it.
- The PDO connection is not modelled. `Login` receives the table object directly. The
  initialisation statement is the pure function `Driver.InitStatement` of the DSN.

Where the code and the design text around it disagree, the model follows the code:

- Deny-listed columns (`password`, `remember_token`, `login_attempts`, `updated_at`) still get
  a key in the result, mapped to an empty list. The key is created before the deny-list test
  (LaravelAuth.php:201-203 against 210). Only their values are withheld.
- When nothing matches, `fetch` (line 155) returns `false`, and the code then calls
  `count($row)` (line 161, inside the log message, before the test at line 164). From PHP 8
  on, `count(false)` throws a `TypeError` there, so `login` ends with that error rather than
  `WRONGUSERPASS`. Before PHP 8, `count(false)` is 1, so the test at line 164 never fires;
  execution reaches `password_verify` with a null hash, which fails, and then the increment
  `UPDATE` (line 176), which has no lockout filter. The model reports `WRONGUSERPASS` on this
  path in both cases, and `LoginEffect` allows the table to stay unchanged or the user's
  counter to rise by one. A locked account may therefore still be counted up. It can never
  log in either way.

## Model

| member | source | states |
|---|---|---|
| `AuthConfig.FirstConfigError` | modules/laravelmodule/lib/Auth/Source/LaravelAuth.php:58-70 | no complaint exactly when every listed parameter is present and a string; otherwise the complaint names a failing parameter and every parameter before it passed (the first failure in order) |
| `AuthConfig.CheckConfig` | modules/laravelmodule/lib/Auth/Source/LaravelAuth.php:58-70 | the loop over `dsn`, `username`, `password`, `uidfield` returns exactly the first complaint (missing, or not a string with the value found) |
| `AuthConfig.ConfigAccepted` | modules/laravelmodule/lib/Auth/Source/LaravelAuth.php:58-70 | construction is accepted if and only if all four required parameters are present strings |
| `AuthConfig.MissingDsnReportedFirst` | modules/laravelmodule/lib/Auth/Source/LaravelAuth.php:58-62 | a missing `dsn` is the error raised, whatever else is wrong |
| `AuthConfig.ParamError` | modules/laravelmodule/lib/Auth/Source/LaravelAuth.php:59-69 | no complaint exactly when the parameter is present and a string; any complaint names that parameter |
| `AuthSource.LaravelAuth.constructor` | modules/laravelmodule/lib/Auth/Source/LaravelAuth.php:72-78 | the four fields take the configured strings; `options` is kept only when set and not null |
| `AuthSource.LaravelAuth.Create` | modules/laravelmodule/lib/Auth/Source/LaravelAuth.php:49-79 | fails exactly when a required parameter is missing or not a string, with the first such complaint; otherwise a fresh source holding the configuration |
| `Driver.DsnPrefix` | modules/laravelmodule/lib/Auth/Source/LaravelAuth.php:98 | the result is a colon-free prefix of the DSN followed by `:` or by the end of the DSN |
| `Driver.PrefixOfDriverDsn` | modules/laravelmodule/lib/Auth/Source/LaravelAuth.php:98 | for `driver:rest` with a colon-free driver, the prefix is `driver` even when `rest` holds more colons |
| `Driver.PrefixOfColonFree` | modules/laravelmodule/lib/Auth/Source/LaravelAuth.php:98 | a DSN without a colon is its own prefix |
| `Driver.DriverName` | modules/laravelmodule/lib/Auth/Source/LaravelAuth.php:98-99 | the name is the DSN up to its first colon (or its end), lower-cased; it holds no colon and no upper-case ASCII letter |
| `Driver.InitStatement` | modules/laravelmodule/lib/Auth/Source/LaravelAuth.php:102-111 | the result is none, `SET NAMES 'utf8mb4'` or `SET NAMES 'UTF8'`; a statement is issued only when the DSN starts with five characters followed by a colon or the end, and those five lower-case to `mysql` for the MySQL statement and to `pgsql` for the PostgreSQL one |
| `Driver.InitStatementOfDsn` | modules/laravelmodule/lib/Auth/Source/LaravelAuth.php:98-111 | `mysql` in any ASCII case gives `SET NAMES 'utf8mb4'`, `pgsql` gives `SET NAMES 'UTF8'`, every other driver gives none |
| `PhpValues.Lower` | modules/laravelmodule/lib/Auth/Source/LaravelAuth.php:99 | `strtolower` keeps the length and lowers each character |
| `PhpValues.DecimalRoundTrip` | modules/laravelmodule/lib/Auth/Source/LaravelAuth.php:199 | the decimal string that `(string)` gives an integer parses back to that integer, so the cast loses nothing |
| `PhpValues.ToPhpString` | modules/laravelmodule/lib/Auth/Source/LaravelAuth.php:199 | the `(string)` cast gives "" for null, a string itself, and for an integer a non-empty decimal string that parses back to it |
| `Attributes.Projection` | modules/laravelmodule/lib/Auth/Source/LaravelAuth.php:193-214 | only columns of the row become keys, every non-null column does, deny-listed keys hold no value, and no list has more than one entry or a duplicate |
| `Attributes.ExtractAttributes` | modules/laravelmodule/lib/Auth/Source/LaravelAuth.php:193-214 | keys are exactly the non-null columns; deny-listed columns map to an empty list; every other column maps to exactly the string form of its value; no list has duplicates or more than one entry |
| `Users.Incremented` | modules/laravelmodule/lib/Auth/Source/LaravelAuth.php:176 | the counter goes up by exactly one (NULL stays NULL) and no other column changes |
| `Users.Cleared` | modules/laravelmodule/lib/Auth/Source/LaravelAuth.php:185 | the counter becomes 0 and no other column changes |
| `Users.EligibleRow` | modules/laravelmodule/lib/Auth/Source/LaravelAuth.php:139-155 | a row is found if and only if the user exists with an integer counter below 6; the row found is that user's and is not locked |
| `Users.UserTable.SelectEligible` | modules/laravelmodule/lib/Auth/Source/LaravelAuth.php:139-155 | returns exactly `EligibleRow` of the current table: that user's row when its counter is an integer below 6, else nothing |
| `Users.UserTable.IncrementAttempts` | modules/laravelmodule/lib/Auth/Source/LaravelAuth.php:176-178 | the user's row, if any, is replaced by its incremented form; no other row changes |
| `Users.UserTable.ResetAttempts` | modules/laravelmodule/lib/Auth/Source/LaravelAuth.php:185-187 | the user's row, if any, has its counter cleared; no other row changes |
| `AuthSource.StoredHash` | modules/laravelmodule/lib/Auth/Source/LaravelAuth.php:174 | the hash handed to `password_verify` is the `password` cell's string, or "" when that cell is missing or NULL |
| `AuthSource.LoginOutcome` | modules/laravelmodule/lib/Auth/Source/LaravelAuth.php:139-219 | the login succeeds if and only if the user exists, is below the threshold and the stored hash verifies; success returns the projection of the row; every failure is `WRONGUSERPASS` |
| `AuthSource.LoginEffect` | modules/laravelmodule/lib/Auth/Source/LaravelAuth.php:164-187 | an allowed change adds and removes no user, changes no other user's row, and changes nothing in the user's row but the counter (so the hash is kept) |
| `AuthSource.LaravelAuth.Login` | modules/laravelmodule/lib/Auth/Source/LaravelAuth.php:130-220 | returns `LoginOutcome` of the table it started from and leaves the table in a state `LoginEffect` allows |
| `LoginProperties.UnknownUserRejected` | modules/laravelmodule/lib/Auth/Source/LaravelAuth.php:139-171 | a username with no row is refused with `WRONGUSERPASS` and the table is unchanged |
| `LoginProperties.LockedStaysLocked` | modules/laravelmodule/lib/Auth/Source/LaravelAuth.php:139 | an account with counter at least 6 is refused whatever the password, stays locked, and its counter does not go down |
| `LoginProperties.WrongPasswordCountsOnce` | modules/laravelmodule/lib/Auth/Source/LaravelAuth.php:174-181 | a wrong password on an eligible account is refused and raises its counter by exactly one; nothing else in the table changes |
| `LoginProperties.RightPasswordClears` | modules/laravelmodule/lib/Auth/Source/LaravelAuth.php:185-219 | a right password on an eligible account returns the projection of its row and sets its counter to 0; nothing else changes |
| `LoginProperties.SuccessAttributes` | modules/laravelmodule/lib/Auth/Source/LaravelAuth.php:193-219 | on success, null columns have no key, deny-listed columns have no value, every other column has exactly its string form, and no list has duplicates |
| `LoginProperties.RepeatedFailuresLock` | modules/laravelmodule/lib/Auth/Source/LaravelAuth.php:138-181 | after n consecutive wrong passwords the counter has grown by at least n or reached 6, from any integer start, and the hash is unchanged; six failures from a non-negative count lock the account |
| `LoginProperties.AliceExample` | modules/laravelmodule/lib/Auth/Source/LaravelAuth.php:130-220 | for the sample account, the right password yields `username` and `group` with their values, and `password` and `login_attempts` as empty keys; a wrong one is refused and sets the counter to 1 |

## Left out

- PDO: opening the connection, `prepare`/`execute`/`exec`/`fetch`, and turning driver
  exceptions into generic errors (LaravelAuth.php:89-96, 137-159). These are I/O. Their
  failures are fatal errors outside the credential outcome, and they are not modelled.
- `AuthSource.LaravelAuth.Login`: on the path with no eligible row, the model returns
  `WRONGUSERPASS`. From PHP 8 on, the source throws a `TypeError` from `count(false)` at
  line 161 instead. The contract allows the table to stay unchanged or the user's counter to
  rise by one, which is what the PHP 8 and pre-PHP 8 paths do. The body leaves the table
  unchanged.
- Keying the table by the uid value assumes the uid column is unique. If it is not, the
  `SELECT` matches several rows, `fetch` takes the first of them, and both `UPDATE`s
  (lines 176 and 185) change every matching row. The model does not represent that case.
- `Users.UserTable.SelectEligible`: the column comparison is exact string equality. Database
  collations, such as MySQL's case-insensitive default, and numeric coercion of a
  string-typed counter are not modelled.
- `PhpValues.Lower`: ASCII-only lower-casing, as `strtolower` does from PHP 8.2 on. The
  locale-dependent behaviour of older PHP versions is not modelled.
- `PhpValues.ToPhpString`: floating-point cells are not represented. A PHP array in a cell
  casts to `"Array"`, and the notice PHP raises for that is not modelled.
- `Attributes.ExtractAttributes`: a row is a map, so its column order is not modelled, and
  the result is a map without key order. In PHP, `$attributes` keeps its keys in the row's
  column order. The model keeps which keys exist and what they hold, but not their order.
- Only the first fetched row is projected, as in the source. The multi-valued
  accumulation that the comment at lines 189-191 describes would need several rows, and
  the code never projects more than one. The `in_array` test at line 205 therefore never
  fires in the model.
- `password_verify` and bcrypt: an arbitrary verification function is passed in.
- Logging (`\SimpleSAML\Logger`) and the `UserPassBase` parent class.
- Races between concurrent logins on the same counter: the source takes no locks, and the
  model is sequential.
- The fixture generators `laravel/database/factories/UserFactory.php` and
  `laravel/database/seeds/UsersTableSeeder.php`: random test data, with no behaviour to state.
