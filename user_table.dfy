/**
 * The `users` table as the login routine sees it: the lookup restricted to
 * accounts below the attempt threshold and the two counter updates
 * (modules/laravelmodule/lib/Auth/Source/LaravelAuth.php, `login`). The SQL
 * text and the PDO calls are not modelled; the table is keyed by the value of
 * the configured uid column, which is what the `WHERE uidfield = :username`
 * clause matches.
 */
module Users {
  import opened Wrappers
  import opened PhpValues
  import opened Attributes

  /** The lookup only returns accounts whose counter is below this. */
  const MaxAttempts: int := 6
  /** The failed-attempt counter column. */
  const AttemptsColumn: string := "login_attempts"

  /** The users table: uid value to row. */
  type Table = map<string, Row>

  /** The counter of a row, when it holds an integer (SQL NULL or a missing column give none). */
  function Attempts(row: Row): Option<int>
  {
    if AttemptsColumn in row && row[AttemptsColumn].Int? then Some(row[AttemptsColumn].i) else None
  }

  /** `login_attempts < 6` holds of the row; a NULL counter never compares true. */
  predicate Eligible(row: Row)
  {
    Attempts(row).Some? && Attempts(row).value < MaxAttempts
  }

  /** The account is locked out: its counter has reached the threshold. */
  predicate Locked(row: Row)
  {
    Attempts(row).Some? && Attempts(row).value >= MaxAttempts
  }

  /** Every column but the counter is the same in both rows. */
  predicate SameButAttempts(row: Row, row': Row)
  {
    && row.Keys - {AttemptsColumn} == row'.Keys - {AttemptsColumn}
    && (forall c :: c in row && c in row' && c != AttemptsColumn ==> row'[c] == row[c])
  }

  /** The row after `SET login_attempts = login_attempts + 1` (NULL + 1 stays NULL). */
  function Incremented(row: Row): (r: Row)
    ensures SameButAttempts(row, r)
    ensures Attempts(row).Some? ==> Attempts(r) == Some(Attempts(row).value + 1)
    ensures Attempts(row).None? ==> r == row
  {
    if Attempts(row).Some? then row[AttemptsColumn := Int(Attempts(row).value + 1)] else row
  }

  /** The row after `SET login_attempts = 0`. */
  function Cleared(row: Row): (r: Row)
    ensures SameButAttempts(row, r)
    ensures AttemptsColumn in row ==> Attempts(r) == Some(0)
  {
    if AttemptsColumn in row then row[AttemptsColumn := Int(0)] else row
  }

  /** The row the lockout-filtered `SELECT` returns for a uid, if any. */
  function EligibleRow(rows: Table, uid: string): (r: Option<Row>)
    ensures r.Some? <==> uid in rows && Attempts(rows[uid]).Some? && Attempts(rows[uid]).value < MaxAttempts
    ensures r.Some? ==> r.value == rows[uid] && !Locked(r.value)
  {
    if uid in rows && Eligible(rows[uid]) then Some(rows[uid]) else None
  }

  /** The backing store; its rows change only through the two counter updates. */
  class UserTable {
    var rows: Table

    constructor (rows: Table)
      ensures this.rows == rows
    {
      this.rows := rows;
    }

    /** `SELECT * FROM users WHERE uid = :username AND login_attempts < 6`, first row fetched. */
    method SelectEligible(uid: string) returns (row: Option<Row>)
      ensures row == EligibleRow(rows, uid)
    {
      if uid in rows && Eligible(rows[uid]) {
        row := Some(rows[uid]);
      } else {
        row := None;
      }
    }

    /** `UPDATE users SET login_attempts = login_attempts + 1 WHERE uid = :username`. */
    method IncrementAttempts(uid: string)
      modifies this
      ensures rows == if uid in old(rows) then old(rows)[uid := Incremented(old(rows)[uid])] else old(rows)
    {
      if uid in rows {
        rows := rows[uid := Incremented(rows[uid])];
      }
    }

    /** `UPDATE users SET login_attempts = 0 WHERE uid = :username`. */
    method ResetAttempts(uid: string)
      modifies this
      ensures rows == if uid in old(rows) then old(rows)[uid := Cleared(old(rows)[uid])] else old(rows)
    {
      if uid in rows {
        rows := rows[uid := Cleared(rows[uid])];
      }
    }
  }
}
