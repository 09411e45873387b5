/**
 * What `login` guarantees about the lockout counter and the attributes it
 * hands out, stated over `LoginOutcome` and `LoginEffect`, the functions the
 * `LaravelAuth.Login` method is proved against. How a login may change the
 * table at all (only the user's own counter) is stated on `LoginEffect`.
 */
module LoginProperties {
  import opened Wrappers
  import opened PhpValues
  import opened Attributes
  import opened Users
  import opened AuthSource

  /** A user with no row is refused and nothing changes. */
  lemma UnknownUserRejected(before: Table, after: Table, username: string, password: string, verify: Verifier)
    requires username !in before
    requires LoginEffect(before, after, username, password, verify)
    ensures LoginOutcome(before, username, password, verify) == Failure(WrongUserPass)
    ensures after == before
  {
  }

  /**
   * A locked-out account never logs in, whatever the password, and is still
   * locked afterwards, with its counter not lowered.
   */
  lemma LockedStaysLocked(before: Table, after: Table, username: string, password: string, verify: Verifier)
    requires username in before && Locked(before[username])
    requires LoginEffect(before, after, username, password, verify)
    ensures LoginOutcome(before, username, password, verify) == Failure(WrongUserPass)
    ensures username in after && Locked(after[username])
    ensures Attempts(after[username]).value >= Attempts(before[username]).value
  {
  }

  /**
   * A wrong password on an eligible account is refused and adds exactly one
   * to that account's counter; nothing else in the table changes.
   */
  lemma WrongPasswordCountsOnce(before: Table, after: Table, username: string, password: string, verify: Verifier)
    requires username in before && Eligible(before[username])
    requires !verify(password, StoredHash(before[username]))
    requires LoginEffect(before, after, username, password, verify)
    ensures LoginOutcome(before, username, password, verify) == Failure(WrongUserPass)
    ensures after == before[username := after[username]]
    ensures Attempts(after[username]) == Some(Attempts(before[username]).value + 1)
    ensures SameButAttempts(before[username], after[username])
  {
  }

  /**
   * A matching password on an eligible account logs in with the projection of
   * its row and clears its counter; nothing else in the table changes.
   */
  lemma RightPasswordClears(before: Table, after: Table, username: string, password: string, verify: Verifier)
    requires username in before && Eligible(before[username])
    requires verify(password, StoredHash(before[username]))
    requires LoginEffect(before, after, username, password, verify)
    ensures LoginOutcome(before, username, password, verify) == Success(Projection(before[username]))
    ensures after == before[username := after[username]]
    ensures Attempts(after[username]) == Some(0)
    ensures SameButAttempts(before[username], after[username])
  {
  }

  /**
   * The attributes of a successful login: one key per non-null column, no
   * value of a deny-listed column, and exactly the string form of every other
   * column's value, listed once.
   */
  lemma SuccessAttributes(rows: Table, username: string, password: string, verify: Verifier)
    requires LoginOutcome(rows, username, password, verify).Success?
    ensures var attrs := LoginOutcome(rows, username, password, verify).value;
      var row := rows[username];
      && (forall name :: name in attrs <==> name in row && !row[name].Null?)
      && (forall name :: name in attrs && Denied(name) ==> attrs[name] == [])
      && (forall name :: name in attrs && !Denied(name) ==> attrs[name] == [ToPhpString(row[name])])
      && (forall name :: name in attrs ==> NoDuplicates(attrs[name]))
  {
  }

  function Min(a: int, b: int): int
  {
    if a <= b then a else b
  }

  /**
   * Repeated wrong passwords lock the account: after `n` failed logins in a row
   * the counter has grown by at least `n` or reached the threshold, so six
   * failures from any non-negative count lock the account out.
   */
  lemma {:induction false} RepeatedFailuresLock(trace: seq<Table>, username: string, passwords: seq<string>, verify: Verifier)
    requires |trace| == |passwords| + 1
    requires forall i :: 0 <= i < |passwords| ==> LoginEffect(trace[i], trace[i + 1], username, passwords[i], verify)
    requires username in trace[0] && Attempts(trace[0][username]).Some?
    requires forall i :: 0 <= i < |passwords| ==> !verify(passwords[i], StoredHash(trace[0][username]))
    ensures username in trace[|passwords|]
    ensures StoredHash(trace[|passwords|][username]) == StoredHash(trace[0][username])
    ensures Attempts(trace[|passwords|][username]).Some?
    ensures Attempts(trace[|passwords|][username]).value >=
      Min(Attempts(trace[0][username]).value + |passwords|, MaxAttempts)
    ensures |passwords| >= MaxAttempts && Attempts(trace[0][username]).value >= 0 ==>
      Locked(trace[|passwords|][username])
  {
    var n := |passwords|;
    if n > 0 {
      var prefix, pws := trace[..n], passwords[..n - 1];
      forall i | 0 <= i < |pws|
        ensures LoginEffect(prefix[i], prefix[i + 1], username, pws[i], verify)
        ensures !verify(pws[i], StoredHash(prefix[0][username]))
      {
        assert LoginEffect(trace[i], trace[i + 1], username, passwords[i], verify);
      }
      RepeatedFailuresLock(prefix, username, pws, verify);
      var before, after := trace[n - 1], trace[n];
      assert LoginEffect(before, after, username, passwords[n - 1], verify);
      if Eligible(before[username]) {
        WrongPasswordCountsOnce(before, after, username, passwords[n - 1], verify);
      } else {
        assert Locked(before[username]);
        LockedStaysLocked(before, after, username, passwords[n - 1], verify);
      }
    }
  }

  /**
   * A worked example: `alice`, counter 0, group "50". The right password gives
   * her non-secret columns as attributes and the deny-listed ones as empty
   * keys, and clears the counter; a wrong one is refused and sets it to 1.
   */
  lemma AliceExample(hash: string, verify: Verifier, after: Table)
    requires verify("correct", hash) && !verify("wrong", hash)
    ensures var row := map["username" := Str("alice"), "password" := Str(hash),
                            "login_attempts" := Int(0), "group" := Str("50")];
      var rows := map["alice" := row];
      && LoginOutcome(rows, "alice", "correct", verify) ==
           Success(map["username" := ["alice"], "password" := [], "login_attempts" := [], "group" := ["50"]])
      && LoginOutcome(rows, "alice", "wrong", verify) == Failure(WrongUserPass)
      && (LoginEffect(rows, after, "alice", "wrong", verify) ==> Attempts(after["alice"]) == Some(1))
  {
    var row := map["username" := Str("alice"), "password" := Str(hash),
                   "login_attempts" := Int(0), "group" := Str("50")];
    var rows := map["alice" := row];
    assert Attempts(row) == Some(0);
    assert StoredHash(row) == hash;
    assert EligibleRow(rows, "alice") == Some(row);
    var expected := map["username" := ["alice"], "password" := [], "login_attempts" := [], "group" := ["50"]];
    assert Projection(row).Keys == expected.Keys;
    assert Projection(row) == expected;
  }
}
