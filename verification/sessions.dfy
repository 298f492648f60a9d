/** The `sessions` table and the meaning of the SQL statements the store runs
    against it: a table is the sequence of its rows in insertion order, and
    SELECT, DELETE and EXISTS with a WHERE condition are functions of it. */
module Sessions {
  import opened Text

  /** One row of `sessions`. The serial `id` column is never read by the
      store, so it is not kept; the position of a row in the table stands
      for its insertion order. `expires` is in whole seconds. */
  datatype Session = Session(token: string, login: string, roleId: int, expires: int)

  type Table = seq<Session>

  /** The WHERE conditions the store's statements are built from. */
  datatype Where =
    | TokenIs(token: string)        // token = $1
    | ExpiresAfter(instant: int)    // expires > current_timestamp
    | Not(negated: Where)
    | And(left: Where, right: Where)

  /** `row` satisfies `w`. The token column is `CHAR(64)`, so comparing it
      ignores trailing spaces. Every column is written by every insert, so no
      comparison meets a NULL. */
  predicate Matches(w: Where, row: Session) {
    match w
    case TokenIs(t) => CharEq(row.token, t)
    case ExpiresAfter(now) => row.expires > now
    case Not(v) => !Matches(v, row)
    case And(v, u) => Matches(v, row) && Matches(u, row)
  }

  /** `a` is `b` with some rows left out and the others kept in their order. */
  predicate Subsequence(a: Table, b: Table)
    decreases |b|
  {
    || a == []
    || (&& b != []
        && (|| (a[0] == b[0] && Subsequence(a[1..], b[1..]))
            || Subsequence(a, b[1..])))
  }

  /** `SELECT * FROM sessions WHERE w`, in table order: exactly the matching
      rows. How often each occurs and in which order is stated by
      `SelectCounts` and `SelectOrder`. */
  function Select(table: Table, w: Where): (r: Table)
    ensures forall i :: 0 <= i < |r| ==> Matches(w, r[i])
    ensures forall row :: row in r <==> row in table && Matches(w, row)
    decreases |table|
  {
    if table == [] then []
    else
      var rest := Select(table[1..], w);
      assert table == [table[0]] + table[1..];
      if Matches(w, table[0]) then [table[0]] + rest else rest
  }

  /** SELECT keeps every matching row as often as it occurs in the table. */
  lemma {:induction false} SelectCounts(table: Table, w: Where)
    ensures forall row :: multiset(Select(table, w))[row] == if Matches(w, row) then multiset(table)[row] else 0
    decreases |table|
  {
    if table != [] {
      SelectCounts(table[1..], w);
      assert table == [table[0]] + table[1..];
      var rest := Select(table[1..], w);
      if Matches(w, table[0]) {
        assert Select(table, w) == [table[0]] + rest;
      } else {
        assert Select(table, w) == rest;
      }
    }
  }

  /** SELECT keeps the matching rows in their table order. */
  lemma {:induction false} SelectOrder(table: Table, w: Where)
    ensures Subsequence(Select(table, w), table)
    decreases |table|
  {
    if table != [] {
      SelectOrder(table[1..], w);
      var rest := Select(table[1..], w);
      if Matches(w, table[0]) {
        assert Select(table, w) == [table[0]] + rest;
        assert ([table[0]] + rest)[1..] == rest;
      } else {
        assert Select(table, w) == rest;
      }
    }
  }

  /** `DELETE FROM sessions WHERE w`: no matching row survives, every other
      row survives as often as it occurred, and the survivors keep their order. */
  function Delete(table: Table, w: Where): (r: Table)
    ensures forall i :: 0 <= i < |r| ==> !Matches(w, r[i])
    ensures forall row :: row in r <==> row in table && !Matches(w, row)
    ensures forall row :: multiset(r)[row] == if Matches(w, row) then 0 else multiset(table)[row]
    ensures Subsequence(r, table)
  {
    SelectCounts(table, Not(w));
    SelectOrder(table, Not(w));
    Select(table, Not(w))
  }

  /** `SELECT exists (SELECT 1 FROM sessions WHERE w)`. */
  predicate Exists(table: Table, w: Where) {
    exists row :: row in table && Matches(w, row)
  }

  /** EXISTS is true exactly when the SELECT with the same condition is not empty. */
  lemma ExistsIffSelected(table: Table, w: Where)
    ensures Exists(table, w) <==> Select(table, w) != []
  {
    if Select(table, w) != [] {
      assert Select(table, w)[0] in Select(table, w);
    }
  }

  /** SELECT on a one-row table. */
  lemma SelectSingle(row: Session, w: Where)
    ensures Select([row], w) == if Matches(w, row) then [row] else []
  {
    assert [row][1..] == [];
  }

  /** SELECT after an INSERT: the new row is selected after the old ones
      when it matches. */
  lemma SelectInsert(table: Table, row: Session, w: Where)
    ensures Select(table + [row], w) == Select(table, w) + (if Matches(w, row) then [row] else [])
  {
    SelectAppend(table, [row], w);
    SelectSingle(row, w);
  }

  /** Selecting rows that all match gives the table back unchanged. */
  lemma {:induction false} SelectAll(table: Table, w: Where)
    requires forall i :: 0 <= i < |table| ==> Matches(w, table[i])
    ensures Select(table, w) == table
    decreases |table|
  {
    if table != [] {
      var rest := table[1..];
      assert forall i :: 0 <= i < |rest| ==> rest[i] == table[i + 1];
      SelectAll(rest, w);
      assert Matches(w, table[0]);
      assert table == [table[0]] + rest;
    }
  }

  /** Selecting twice with one condition is selecting once. */
  lemma SelectIdempotent(table: Table, w: Where)
    ensures Select(Select(table, w), w) == Select(table, w)
  {
    SelectAll(Select(table, w), w);
  }

  /** SELECT distributes over concatenation of tables. */
  lemma {:induction false} SelectAppend(a: Table, b: Table, w: Where)
    ensures Select(a + b, w) == Select(a, w) + Select(b, w)
    decreases |a|
  {
    if a == [] {
      assert a + b == b;
    } else {
      assert (a + b)[0] == a[0];
      assert (a + b)[1..] == a[1..] + b;
      SelectAppend(a[1..], b, w);
    }
  }

  /** Two conditions that agree on every row select the same rows. */
  lemma {:induction false} SelectEquivalent(table: Table, v: Where, w: Where)
    requires forall row :: Matches(v, row) == Matches(w, row)
    ensures Select(table, v) == Select(table, w)
    decreases |table|
  {
    if table != [] {
      SelectEquivalent(table[1..], v, w);
    }
  }

  /** Filtering by `v` and then by `w` is filtering by both at once. */
  lemma {:induction false} SelectSelect(table: Table, v: Where, w: Where)
    ensures Select(Select(table, v), w) == Select(table, And(v, w))
    decreases |table|
  {
    if table != [] {
      SelectSelect(table[1..], v, w);
      var rest := Select(table[1..], v);
      if Matches(v, table[0]) {
        assert Select(table, v) == [table[0]] + rest;
        assert ([table[0]] + rest)[1..] == rest;
      }
    }
  }

  /** The order in which two filters are applied does not matter. */
  lemma SelectCommute(table: Table, v: Where, w: Where)
    ensures Select(Select(table, v), w) == Select(Select(table, w), v)
  {
    SelectSelect(table, v, w);
    SelectSelect(table, w, v);
    SelectEquivalent(table, And(v, w), And(w, v));
  }
}
