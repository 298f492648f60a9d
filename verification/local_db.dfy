/** The session store: the five operations on the `sessions` table, each a
    pure function of the table before the call, the current time in whole
    seconds and the call's arguments. */
module LocalDb {
  import opened Results
  import opened Text
  import opened Sessions

  /** How long a session lives: twelve hours, in seconds. */
  const TTL: int := 12 * 60 * 60

  /** Width of the `token` and `login` columns, both `CHAR(64)`. */
  const WIDTH: nat := 64

  /** Range of the `role_id` column, a PostgreSQL `INTEGER`. */
  const INT_MIN: int := -0x8000_0000
  const INT_MAX: int := 0x7FFF_FFFF

  /** Why an operation fails. */
  datatype Failure =
    | RoleOutOfRange   // role_id cannot be sent as a 32-bit INTEGER
    | LoginTooLong     // login has more than 64 characters besides trailing spaces
    | NoRow            // `res[0][0]` on an empty result raises IndexError

  predicate IsHexDigit(c: char) {
    '0' <= c <= '9' || 'a' <= c <= 'f'
  }

  /** A value `secrets.token_hex(32)` can produce: 32 random bytes written
      as 64 lower-case hexadecimal digits. */
  predicate IsGeneratedToken(t: string) {
    |t| == 2 * 32 && forall i :: 0 <= i < |t| ==> IsHexDigit(t[i])
  }

  /** No row of `table` carries `token`. */
  predicate Unused(table: Table, token: string) {
    forall row :: row in table ==> !CharEq(row.token, token)
  }

  /** `store_user_auth`: inserts one session for `login` with `roleId`,
      expiring `TTL` seconds after `now`. The token is the one the random
      generator produced for this call. */
  function StoreUserAuth(table: Table, now: int, token: string, login: string, roleId: int)
    : (r: Result<Table, Failure>)
    requires IsGeneratedToken(token)
    ensures r == Err(RoleOutOfRange) <==> !(INT_MIN <= roleId <= INT_MAX)
    ensures r == Err(LoginTooLong) <==> INT_MIN <= roleId <= INT_MAX && ToChar(login, WIDTH).None?
    ensures r.Err? ==> r.error != NoRow
    ensures r.Ok? ==> |r.value| == |table| + 1 && r.value == table + [r.value[|table|]]
    ensures r.Ok? ==>
      var row := r.value[|table|];
      && row.token == token
      && |row.login| == WIDTH
      && CharEq(row.login, login)
      && Strip(row.login) == Strip(login)
      && row.roleId == roleId
      && row.expires == now + TTL
  {
    if !(INT_MIN <= roleId <= INT_MAX) then
      Err(RoleOutOfRange)
    else
      match ToChar(login, WIDTH)
      case None => Err(LoginTooLong)
      case Some(stored) => Ok(table + [Session(token, stored, roleId, now + TTL)])
  }

  /** The condition `expires <= current_timestamp`. */
  function Expired(now: int): Where {
    Not(ExpiresAfter(now))
  }

  /** The garbage-collecting statement `DELETE FROM sessions WHERE expires <=
      current_timestamp`: every expired row goes, every live row stays, as
      often as it was there and in its order. */
  function Sweep(table: Table, now: int): (r: Table)
    ensures forall i :: 0 <= i < |r| ==> r[i].expires > now
    ensures forall row :: row in r <==> row in table && row.expires > now
    ensures forall row: Session :: row.expires > now ==> multiset(r)[row] == multiset(table)[row]
    ensures Subsequence(r, table)
  {
    var r := Delete(table, Expired(now));
    assert forall row :: Matches(Expired(now), row) <==> row.expires <= now;
    r
  }

  /** What `is_valid_token` answers, and the table it leaves behind. */
  datatype Checked = Checked(valid: bool, table: Table)

  /** `is_valid_token`: whether a row with this token outlives `now`, asked
      of the table before the sweep; then the sweep. */
  function IsValidToken(table: Table, now: int, token: string): (r: Checked)
    ensures r.valid <==> exists row :: row in table && CharEq(row.token, token) && row.expires > now
    // The next four clauses are `Sweep`'s contract, restated for callers.
    ensures forall i :: 0 <= i < |r.table| ==> r.table[i].expires > now
    ensures forall row :: row in r.table <==> row in table && row.expires > now
    ensures forall row: Session :: row.expires > now ==> multiset(r.table)[row] == multiset(table)[row]
    ensures Subsequence(r.table, table)
    ensures r.table == Sweep(table, now)
  {
    var live := And(TokenIs(token), ExpiresAfter(now));
    assert forall row :: Matches(live, row) <==> CharEq(row.token, token) && row.expires > now;
    var found := Exists(table, live);
    Checked(found, Sweep(table, now))
  }

  /** `is_valid_token` as the two statements actually run: the `SELECT
      exists` and the `DELETE` are separate transactions, so each reads its
      own `current_timestamp`, `checkAt` for the first and `sweepAt`, no
      earlier, for the second. `IsValidToken` is the case of one instant. */
  function IsValidTokenAsWritten(table: Table, checkAt: int, sweepAt: int, token: string): (r: Checked)
    requires checkAt <= sweepAt
    ensures r.valid <==> exists row :: row in table && CharEq(row.token, token) && row.expires > checkAt
    ensures forall row :: row in r.table <==> row in table && row.expires > sweepAt
    ensures r.table == Sweep(table, sweepAt)
    ensures checkAt == sweepAt ==> r == IsValidToken(table, checkAt, token)
  {
    var live := And(TokenIs(token), ExpiresAfter(checkAt));
    assert forall row :: Matches(live, row) <==> CharEq(row.token, token) && row.expires > checkAt;
    Checked(Exists(table, live), Sweep(table, sweepAt))
  }

  /** The rows a lookup by `token` sees are there exactly when the token is
      in use, and each is a row of the table. */
  lemma SelectedRows(table: Table, token: string)
    ensures Select(table, TokenIs(token)) == [] <==> Unused(table, token)
    ensures forall row :: row in Select(table, TokenIs(token)) <==> row in table && CharEq(row.token, token)
  {
  }

  /** `get_login_by_token`: the login of a row with this token, whatever its
      expiry, with surrounding whitespace (the `CHAR(64)` padding among it)
      stripped. `LIMIT 1` without `ORDER BY` may return any matching row; the
      model takes the first, and the contract promises only "some". */
  function GetLoginByToken(table: Table, token: string): (r: Result<string, Failure>)
    ensures r.Err? <==> Unused(table, token)
    ensures r.Err? ==> r.error == NoRow
    ensures r.Ok? ==> exists row :: row in table && CharEq(row.token, token) && r.value == Strip(row.login)
  {
    var rows := Select(table, TokenIs(token));
    SelectedRows(table, token);
    if rows == [] then Err(NoRow) else Ok(Strip(rows[0].login))
  }

  /** `get_role_id_by_token`: the role of a row with this token, whatever
      its expiry, unmodified; as for the login, some matching row. */
  function GetRoleIdByToken(table: Table, token: string): (r: Result<int, Failure>)
    ensures r.Err? <==> Unused(table, token)
    ensures r.Err? ==> r.error == NoRow
    ensures r.Ok? ==> exists row :: row in table && CharEq(row.token, token) && r.value == row.roleId
  {
    var rows := Select(table, TokenIs(token));
    SelectedRows(table, token);
    if rows == [] then Err(NoRow) else Ok(rows[0].roleId)
  }

  /** `remove_token`: every row with this token goes, every other row stays,
      as often as it was there and in its order. */
  function RemoveToken(table: Table, token: string): (r: Table)
    ensures Unused(r, token)
    ensures forall row: Session :: !CharEq(row.token, token) ==> multiset(r)[row] == multiset(table)[row]
    ensures Subsequence(r, table)
  {
    Delete(table, TokenIs(token))
  }
}
