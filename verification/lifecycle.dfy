/** Properties of the session store over single calls and over sequences of
    calls: garbage collection, revocation, issue followed by lookup, and the
    twelve-hour validity window. */
module Lifecycle {
  import opened Results
  import opened Text
  import opened Sessions
  import opened LocalDb

  /** Sweeping twice at the same instant removes nothing the first sweep kept. */
  lemma SweepIdempotent(table: Table, now: int)
    ensures Sweep(Sweep(table, now), now) == Sweep(table, now)
  {
    SelectIdempotent(table, Not(Expired(now)));
  }

  /** A token found valid keeps its row through its own check: asking again
      at the same instant, on the swept table, gives the same answer. */
  lemma ValidTokenSurvivesCheck(table: Table, now: int, token: string)
    ensures IsValidToken(IsValidToken(table, now, token).table, now, token).valid
       == IsValidToken(table, now, token).valid
  {
  }

  /** Callers look a token up after checking it: once the check says valid,
      both lookups on the swept table find a row, and it is a live one. */
  lemma CheckedTokenResolves(table: Table, now: int, token: string)
    requires IsValidToken(table, now, token).valid
    ensures var swept := IsValidToken(table, now, token).table;
      && GetLoginByToken(swept, token).Ok?
      && GetRoleIdByToken(swept, token).Ok?
      && exists row :: row in swept && CharEq(row.token, token) && row.expires > now
  {
    var swept := IsValidToken(table, now, token).table;
    ValidTokenSurvivesCheck(table, now, token);
    SelectedRows(swept, token);
  }

  /** When the clock moves between the two statements of `is_valid_token`,
      a token whose rows all expire in between is reported valid and its
      rows are deleted by the same call, so the lookups that follow fail. */
  lemma StraddleLosesCheckedToken(table: Table, token: string, checkAt: int, sweepAt: int)
    requires checkAt <= sweepAt
    requires exists row :: row in table && CharEq(row.token, token) && row.expires > checkAt
    requires forall row :: row in table && CharEq(row.token, token) ==> row.expires <= sweepAt
    ensures var r := IsValidTokenAsWritten(table, checkAt, sweepAt, token);
      && r.valid
      && GetLoginByToken(r.table, token) == Err(NoRow)
      && GetRoleIdByToken(r.table, token) == Err(NoRow)
  {
  }

  /** A concrete instance: one session expiring at second 101, checked at
      second 100 and swept at second 101. */
  lemma StraddleExample()
    ensures var table := [Session("t", "alice", 2, 101)];
      var r := IsValidTokenAsWritten(table, 100, 101, "t");
      && r.valid
      && GetLoginByToken(r.table, "t") == Err(NoRow)
  {
    StraddleLosesCheckedToken([Session("t", "alice", 2, 101)], "t", 100, 101);
  }

  /** Revoking a token twice is revoking it once. */
  lemma RemoveTokenIdempotent(table: Table, token: string)
    ensures RemoveToken(RemoveToken(table, token), token) == RemoveToken(table, token)
  {
    SelectIdempotent(table, Not(TokenIs(token)));
  }

  /** Revoking a token no row carries leaves the table as it was. */
  lemma RemoveUnusedToken(table: Table, token: string)
    requires Unused(table, token)
    ensures RemoveToken(table, token) == table
  {
    SelectAll(table, Not(TokenIs(token)));
  }

  /** After revocation the token is invalid and both lookups fail. */
  lemma RemovedTokenIsGone(table: Table, now: int, token: string)
    ensures !IsValidToken(RemoveToken(table, token), now, token).valid
    ensures GetLoginByToken(RemoveToken(table, token), token) == Err(NoRow)
    ensures GetRoleIdByToken(RemoveToken(table, token), token) == Err(NoRow)
  {
  }

  /** Rows of `table` whose token is `other`, unchanged by deleting the rows of
      a token that differs from it. */
  lemma RemoveKeepsOtherRows(table: Table, token: string, other: string)
    requires !CharEq(token, other)
    ensures Select(RemoveToken(table, token), TokenIs(other)) == Select(table, TokenIs(other))
  {
    SelectCommute(table, Not(TokenIs(token)), TokenIs(other));
    SelectAll(Select(table, TokenIs(other)), Not(TokenIs(token)));
  }

  /** Revoking one token changes nothing any call sees of another token. */
  lemma RemoveIsolation(table: Table, now: int, token: string, other: string)
    requires !CharEq(token, other)
    ensures GetLoginByToken(RemoveToken(table, token), other) == GetLoginByToken(table, other)
    ensures GetRoleIdByToken(RemoveToken(table, token), other) == GetRoleIdByToken(table, other)
    ensures IsValidToken(RemoveToken(table, token), now, other).valid == IsValidToken(table, now, other).valid
  {
    RemoveKeepsOtherRows(table, token, other);
    var removed := RemoveToken(table, token);
    var live := And(TokenIs(other), ExpiresAfter(now));
    SelectSelect(removed, TokenIs(other), ExpiresAfter(now));
    SelectSelect(table, TokenIs(other), ExpiresAfter(now));
    ExistsIffSelected(removed, live);
    ExistsIffSelected(table, live);
  }

  /** Issuing a session adds rows for its own token only. */
  lemma StoreKeepsOtherRows(table: Table, now: int, token: string, login: string, roleId: int, other: string)
    requires IsGeneratedToken(token)
    requires StoreUserAuth(table, now, token, login, roleId).Ok?
    requires !CharEq(token, other)
    ensures Select(StoreUserAuth(table, now, token, login, roleId).value, TokenIs(other)) == Select(table, TokenIs(other))
  {
    var stored := StoreUserAuth(table, now, token, login, roleId).value;
    SelectInsert(table, stored[|table|], TokenIs(other));
  }

  /** Issuing a session for a fresh token: right away the token is valid,
      its role comes back unmodified and its login comes back stripped. */
  lemma StoreThenLookup(table: Table, now: int, token: string, login: string, roleId: int)
    requires IsGeneratedToken(token)
    requires Unused(table, token)
    requires StoreUserAuth(table, now, token, login, roleId).Ok?
    ensures var stored := StoreUserAuth(table, now, token, login, roleId).value;
      && IsValidToken(stored, now, token).valid
      && GetRoleIdByToken(stored, token) == Ok(roleId)
      && GetLoginByToken(stored, token) == Ok(Strip(login))
  {
    var stored := StoreUserAuth(table, now, token, login, roleId).value;
    StoreOpensWindow(table, now, token, login, roleId);
    WindowVerdict(stored, token, stored[|table|], now);
  }

  /** With a login that has no surrounding whitespace, the login lookup
      returns exactly what was issued. */
  lemma StoreThenLookupExactLogin(table: Table, now: int, token: string, login: string, roleId: int)
    requires IsGeneratedToken(token)
    requires Unused(table, token)
    requires StoreUserAuth(table, now, token, login, roleId).Ok?
    requires login == [] || (!IsPythonSpace(login[0]) && !IsPythonSpace(login[|login| - 1]))
    ensures GetLoginByToken(StoreUserAuth(table, now, token, login, roleId).value, token) == Ok(login)
  {
    StoreThenLookup(table, now, token, login, roleId);
    StripUnpadded(login);
  }

  /** One call to the store, as a caller makes it at instant `at`. */
  datatype Op =
    | Issue(token: string, login: string, roleId: int)
    | Check(token: string)
    | LoginOf(token: string)
    | RoleOf(token: string)
    | Revoke(token: string)

  datatype Step = Step(at: int, op: Op)

  /** Every issue in `steps` uses a token the generator can produce. */
  predicate Generated(steps: seq<Step>) {
    forall i :: 0 <= i < |steps| ==> steps[i].op.Issue? ==> IsGeneratedToken(steps[i].op.token)
  }

  /** The table after one call. A failed issue inserts nothing; lookups only read. */
  function Apply(table: Table, step: Step): Table
    requires step.op.Issue? ==> IsGeneratedToken(step.op.token)
  {
    match step.op
    case Issue(t, login, roleId) =>
      (match StoreUserAuth(table, step.at, t, login, roleId)
       case Ok(next) => next
       case Err(_) => table)
    case Check(t) => IsValidToken(table, step.at, t).table
    case LoginOf(_) => table
    case RoleOf(_) => table
    case Revoke(t) => RemoveToken(table, t)
  }

  /** The table after the calls of `steps`, one after the other. */
  function Run(table: Table, steps: seq<Step>): Table
    requires Generated(steps)
    decreases |steps|
  {
    if steps == [] then table else Run(Apply(table, steps[0]), steps[1..])
  }

  /** The calls of `steps` happen in time order, none before `from` and none
      after `until`. */
  predicate Clock(steps: seq<Step>, from: int, until: int)
    decreases |steps|
  {
    if steps == [] then from <= until
    else from <= steps[0].at && Clock(steps[1..], steps[0].at, until)
  }

  /** No call of `steps` issues or revokes `token`. */
  predicate Spares(steps: seq<Step>, token: string) {
    forall i :: 0 <= i < |steps| ==> (steps[i].op.Issue? || steps[i].op.Revoke?) ==> !CharEq(steps[i].op.token, token)
  }

  /** The rows carrying `token` are just `row`, or none, and then `row` had
      expired by `clock`. */
  predicate Window(table: Table, token: string, row: Session, clock: int) {
    var owned := Select(table, TokenIs(token));
    owned == [row] || (owned == [] && row.expires <= clock)
  }

  /** A sweep at an instant no earlier than `clock` keeps the window. */
  lemma WindowSweep(table: Table, token: string, row: Session, clock: int, now: int)
    requires Window(table, token, row, clock)
    requires clock <= now
    ensures Window(Sweep(table, now), token, row, now)
  {
    var keep := Not(Expired(now));
    var owned := Select(table, TokenIs(token));
    assert Sweep(table, now) == Select(table, keep);
    SelectCommute(table, keep, TokenIs(token));
    SelectSingle(row, keep);
    if owned == [] {
      assert Select(owned, keep) == [];
    }
  }

  /** Revoking a token other than `token` keeps the window. */
  lemma WindowRemove(table: Table, token: string, row: Session, clock: int, other: string)
    requires Window(table, token, row, clock)
    requires !CharEq(other, token)
    ensures Window(RemoveToken(table, other), token, row, clock)
  {
    RemoveKeepsOtherRows(table, other, token);
  }

  /** One call that neither issues nor revokes `token`, made no earlier than
      `clock`, keeps the window. */
  lemma WindowStep(table: Table, token: string, row: Session, clock: int, step: Step)
    requires Window(table, token, row, clock)
    requires clock <= step.at
    requires step.op.Issue? ==> IsGeneratedToken(step.op.token)
    requires (step.op.Issue? || step.op.Revoke?) ==> !CharEq(step.op.token, token)
    ensures Window(Apply(table, step), token, row, step.at)
  {
    match step.op
    case Issue(t, login, roleId) =>
      if StoreUserAuth(table, step.at, t, login, roleId).Ok? {
        StoreKeepsOtherRows(table, step.at, t, login, roleId, token);
      }
    case Check(t) =>
      WindowSweep(table, token, row, clock, step.at);
    case LoginOf(_) =>
    case RoleOf(_) =>
    case Revoke(t) =>
      WindowRemove(table, token, row, clock, t);
  }

  /** A run of calls that spares `token`, in time order up to `until`, keeps
      the window. */
  lemma {:induction false} WindowRun(table: Table, token: string, row: Session, clock: int, steps: seq<Step>, until: int)
    requires Window(table, token, row, clock)
    requires Generated(steps) && Spares(steps, token) && Clock(steps, clock, until)
    ensures Window(Run(table, steps), token, row, until)
    decreases |steps|
  {
    if steps != [] {
      WindowStep(table, token, row, clock, steps[0]);
      WindowRun(Apply(table, steps[0]), token, row, steps[0].at, steps[1..], until);
    }
  }

  /** Issuing a fresh token opens its window with the inserted row. */
  lemma StoreOpensWindow(table: Table, now: int, token: string, login: string, roleId: int)
    requires IsGeneratedToken(token)
    requires Unused(table, token)
    requires StoreUserAuth(table, now, token, login, roleId).Ok?
    ensures var stored := StoreUserAuth(table, now, token, login, roleId).value;
      Window(stored, token, stored[|table|], now)
  {
    var stored := StoreUserAuth(table, now, token, login, roleId).value;
    SelectInsert(table, stored[|table|], TokenIs(token));
    SelectedRows(table, token);
  }

  /** What the calls report of `token` while its window holds at `now`. */
  lemma WindowVerdict(table: Table, token: string, row: Session, now: int)
    requires Window(table, token, row, now)
    ensures IsValidToken(table, now, token).valid <==> row.expires > now
    ensures row.expires > now ==> GetRoleIdByToken(table, token) == Ok(row.roleId)
    ensures row.expires > now ==> GetLoginByToken(table, token) == Ok(Strip(row.login))
    ensures Select(table, TokenIs(token)) == [row] ==>
      GetRoleIdByToken(table, token) == Ok(row.roleId) && GetLoginByToken(table, token) == Ok(Strip(row.login))
  {
    SelectedRows(table, token);
    if Select(table, TokenIs(token)) == [row] {
      assert row in Select(table, TokenIs(token));
    }
  }

  /** The validity window: a fresh token issued at `issuedAt`, followed by
      any calls in time order that neither issue nor revoke it, is reported
      valid at `checkAt` exactly when `checkAt < issuedAt + TTL`; while it
      is valid, both lookups return what was issued. */
  lemma ValidityWindow(table: Table, issuedAt: int, token: string, login: string, roleId: int,
                       later: seq<Step>, checkAt: int)
    requires IsGeneratedToken(token)
    requires Unused(table, token)
    requires StoreUserAuth(table, issuedAt, token, login, roleId).Ok?
    requires Generated(later) && Spares(later, token) && Clock(later, issuedAt, checkAt)
    ensures var final := Run(StoreUserAuth(table, issuedAt, token, login, roleId).value, later);
      && (IsValidToken(final, checkAt, token).valid <==> checkAt < issuedAt + TTL)
      && (checkAt < issuedAt + TTL ==> GetRoleIdByToken(final, token) == Ok(roleId))
      && (checkAt < issuedAt + TTL ==> GetLoginByToken(final, token) == Ok(Strip(login)))
  {
    var stored := StoreUserAuth(table, issuedAt, token, login, roleId).value;
    var row := stored[|table|];
    StoreOpensWindow(table, issuedAt, token, login, roleId);
    WindowRun(stored, token, row, issuedAt, later, checkAt);
    WindowVerdict(Run(stored, later), token, row, checkAt);
  }
}
