# Session store model

A Dafny model of the session store of the mobile application server
(`local_db.py`). The store keeps one PostgreSQL table, `sessions`, whose rows
hold a `token`, a `login`, a `role_id` and an `expires` timestamp, and it
offers five operations on it:

- `store_user_auth` issues a session that expires twelve hours (`TTL`) after
  the current time;
- `is_valid_token` asks whether a row with the token has not yet expired, and
  then deletes every expired row of the table (the store's only garbage
  collection);
- `get_login_by_token` and `get_role_id_by_token` read the login (stripped of
  surrounding whitespace) and the role of a row with the token, whatever its
  expiry;
- `remove_token` deletes every row with the token.

The table is an immutable `seq<Session>` in insertion order, and every
operation is a pure function of the table, the current time and its
arguments. The current time is an integer number of seconds. The token that
`secrets.token_hex(32)` would produce is an argument that must be 64
lower-case hexadecimal digits.

The files:

- `results.dfy` (`Results`): `Option` and `Result`.
- `text.dfy` (`Text`): Python's `str.strip()` and its whitespace set, and
  the PostgreSQL `CHAR(64)` column type. Storing a value pads it with
  spaces, or refuses it when it is too long. Comparing two values ignores
  trailing spaces (`CharEq`).
- `sessions.dfy` (`Sessions`): the row type and the meaning of `SELECT`,
  `DELETE` and `EXISTS` with the `WHERE` conditions the store uses.
  `SELECT` keeps exactly the matching rows, each as often as it occurs, in
  table order. `DELETE` keeps exactly the others.
- `local_db.dfy` (`LocalDb`): the five operations and `TTL`.
- `lifecycle.dfy` (`Lifecycle`): properties over one call and over runs of
  calls. These cover garbage collection, revocation, issue followed by
  lookup, and the twelve-hour validity window over any run of intervening
  calls made in time order.

Points where the code's behaviour is easy to misread:

- `remove_token` deletes every row with the token, not "the row".
- A lookup of a token that no row carries fails with `IndexError` on
  `res[0][0]`, modelled as `Err(NoRow)`, and does not return an empty result.
- The table has no uniqueness constraint on `token`. An insert with a token
  that is already present succeeds and adds a second row.
- Lookups do not look at expiry. A row that has expired but has not yet been
  swept is still found.

## Model

| member | source | states |
|---|---|---|
| Text.Strip | local_db.py:149 | `str.strip()` removes exactly the whitespace before and after the value. The result is empty exactly when the value is all whitespace. Otherwise it starts and ends with a non-whitespace character. |
| Text.ToChar | local_db.py:81-82 | Storing a login in `CHAR(64)` fails exactly when it has more than 64 characters and one of the excess characters is not a space. A stored value is 64 characters wide, equals the original under `CHAR` comparison, and strips to the same text as the original. |
| Text.StripPadded | local_db.py:149 | Trailing whitespace, the `CHAR(64)` padding included, never changes what `strip()` returns. |
| Text.StripIdempotent | local_db.py:149 | Stripping a stripped login changes nothing. |
| Sessions.Select | local_db.py:127-129 | A `WHERE` filter returns only matching rows, and every matching row of the table appears in its result. |
| Sessions.SelectCounts | local_db.py:146 | A filter keeps every matching row as many times as it occurs in the table, and drops every other row. |
| Sessions.SelectOrder | local_db.py:146 | A filter keeps the table order of the rows it returns. |
| Sessions.Delete | local_db.py:134 | `DELETE ... WHERE` leaves no matching row. It keeps every other row as many times as it occurred, in table order. |
| Sessions.ExistsIffSelected | local_db.py:127-130 | `SELECT exists (...)` is true exactly when the inner `SELECT` returns a row. |
| Sessions.SelectAppend | local_db.py:113 | Filtering a table extended by an insert is filtering the old rows and then the new rows. |
| Sessions.SelectCommute | local_db.py:134 | Two filters applied one after the other give the same rows in either order. |
| LocalDb.StoreUserAuth | local_db.py:102-116 | Issuing fails exactly when the role is outside the 32-bit `INTEGER` range, or the login does not fit `CHAR(64)`. On success the table grows by exactly one row at the end, and every old row is unchanged. The new row carries the token, the role, a login equal to the given one under `CHAR` comparison, and `expires == now + TTL`. |
| LocalDb.Sweep | local_db.py:134 | After garbage collection no row with `expires <= now` remains. Every row with `expires > now` is kept as many times as it occurred, in its order. |
| LocalDb.IsValidToken | local_db.py:119-135 | The answer is true exactly when the table before the sweep has a row with the token and `expires > now`. The table left behind is the swept table: every live row kept as often as it occurred and in its order, and no expired row. |
| LocalDb.IsValidTokenAsWritten | local_db.py:126-135 | With the `SELECT` reading the clock at one instant and the `DELETE` at a later one, the answer is true exactly when a row with the token outlives the first instant. The table left behind keeps exactly the rows that outlive the second instant. At one instant this is `IsValidToken`. |
| LocalDb.GetLoginByToken | local_db.py:138-149 | The lookup fails with `NoRow` exactly when no row carries the token. Otherwise it returns the stripped login of some row with the token, whatever that row's expiry. |
| LocalDb.GetRoleIdByToken | local_db.py:152-163 | The lookup fails with `NoRow` exactly when no row carries the token. Otherwise it returns the unmodified role of some row with the token. |
| LocalDb.RemoveToken | local_db.py:166-175 | After revocation no row carries the token. Every row with another token is kept as many times as it occurred, in its order. |
| Lifecycle.SweepIdempotent | local_db.py:134 | A second garbage collection at the same instant changes nothing. |
| Lifecycle.ValidTokenSurvivesCheck | local_db.py:126-135 | A token's own check never removes the row that made it valid. Checking again at the same instant gives the same answer. |
| Lifecycle.CheckedTokenResolves | local_db.py:132-163 | Once a token is reported valid, both lookups on the swept table succeed, and a live row with the token remains. |
| Lifecycle.StraddleLosesCheckedToken | local_db.py:126-163 | When every row with the token expires between the two statements of `is_valid_token`, the check reports the token valid, and both lookups on the table it leaves fail with `NoRow`. |
| Lifecycle.StraddleExample | local_db.py:126-149 | One session expiring at second 101, checked at second 100 and swept at second 101, is reported valid and then cannot be looked up. |
| Lifecycle.RemoveTokenIdempotent | local_db.py:172-175 | Revoking a token twice is the same as revoking it once. |
| Lifecycle.RemoveUnusedToken | local_db.py:172-175 | Revoking a token that no row carries leaves the table unchanged. |
| Lifecycle.RemovedTokenIsGone | local_db.py:166-175 | After revocation the token is invalid, and both lookups fail with `NoRow`. |
| Lifecycle.RemoveKeepsOtherRows | local_db.py:172-175 | Revocation leaves the rows of every other token exactly as they were. |
| Lifecycle.RemoveIsolation | local_db.py:166-175 | Revoking one token does not change the validity or either lookup of any other token. |
| Lifecycle.StoreKeepsOtherRows | local_db.py:112-115 | Issuing a session adds no row for any other token. |
| Lifecycle.StoreThenLookup | local_db.py:102-163 | Just after a fresh token is issued, it is valid, its role lookup returns the issued role, and its login lookup returns the stripped issued login. |
| Lifecycle.StoreThenLookupExactLogin | local_db.py:146-149 | For a login without surrounding whitespace, the login lookup after issue returns exactly that login. |
| Lifecycle.WindowSweep | local_db.py:134 | A sweep at a later instant either keeps the issued row or removes it, and it removes it only once the row has expired. |
| Lifecycle.WindowStep | local_db.py:102-175 | No single call that neither issues nor revokes the token can remove its row before the row expires. |
| Lifecycle.WindowRun | local_db.py:102-175 | The same holds for any run of such calls made in time order. |
| Lifecycle.StoreOpensWindow | local_db.py:110-115 | After a fresh token is issued, its row is the only row with that token. |
| Lifecycle.WindowVerdict | local_db.py:126-163 | While a token has one row, the check is true exactly when that row's `expires > now`. Whether or not that row has expired, the lookups return its role and stripped login, because they ignore expiry. |
| Lifecycle.ValidityWindow | local_db.py:102-135 | A fresh token issued at time T, then any calls in time order that neither issue nor revoke it, is reported valid at T' exactly when T' < T + 12 h. The comparison is strict. While the token is valid, both lookups return what was issued. |

## Left out

- Connecting to and provisioning the database, and creating the table (`configure_db`, local_db.py:39-89). These are I/O against PostgreSQL and process exit. The schema's column types are modelled: `CHAR(64)` for `token` and `login`, `INTEGER` for `role_id`.
- Configuration loading (local_db.py:11-16), `_close_db` and the `atexit` hook (local_db.py:178-186). These are process plumbing.
- `_generate_token` (local_db.py:92-99). Cryptographic randomness is not modelled. The token is an argument, required to be 64 lower-case hexadecimal digits. Freshness is a precondition of the lemmas that need it, and no collision bound is stated.
- `assert DB_CONN` in every operation. There is no connection in the model, so there is nothing to assert.
- `LocalDBQueryFailure` (local_db.py:23-36). It is never raised. The driver's own errors for an out-of-range role or an over-long login are `Err(RoleOutOfRange)` and `Err(LoginTooLong)`. When both values are wrong, the model reports the role.
- Concurrency between callers. Each operation is atomic over the table.
- LocalDb.IsValidToken, Lifecycle.ValidTokenSurvivesCheck, Lifecycle.CheckedTokenResolves: the `SELECT` and the `DELETE` of `is_valid_token` are modelled at one instant. In the code they are separate statements, each reading its own `current_timestamp`. The sweep's later timestamp can delete a row that expires between the two, so the check reports the token valid and the lookups that follow fail. `IsValidTokenAsWritten` and `StraddleLosesCheckedToken` model that case; see Findings.
- Time: `datetime.now()` and `current_timestamp` are one integer clock. Timezone skew, sub-second precision and `TIMESTAMP(0)` rounding are not modelled. Datetime overflow past year 9999 is not modelled either.
- The serial `id` column. It is never read, and row position stands for insertion order.
- `LIMIT 1` without `ORDER BY` may return any matching row. The model returns the first matching row in table order. The lookup contracts promise only "some matching row".
- PostgreSQL's refusal of NUL characters in text values.
- Unicode handling beyond Python's whitespace set. There is no normalisation and no encoding.
- The driver's conversion of Python values (a role that is not an `int`, a login that is not a `str`).

## Findings

| source | as written | input that shows it | evidently intended | confidence | as-written member | corrected member |
|---|---|---|---|---|---|---|
| local_db.py:126-135 | The existence check and the garbage-collection `DELETE` are two statements, each with its own `current_timestamp`. | One row for token `t` expiring at second 101. The `SELECT` runs at second 100 and the `DELETE` at second 101. `is_valid_token` returns true, the row is deleted, and `get_login_by_token(t)` then fails on `res[0][0]`. | A token reported valid can be looked up: the check and the sweep use the same instant. | not executed | Lifecycle.StraddleLosesCheckedToken | Lifecycle.CheckedTokenResolves |
