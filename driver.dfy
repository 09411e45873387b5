/**
 * Driver-specific initialisation chosen from the DSN when connecting
 * (modules/laravelmodule/lib/Auth/Source/LaravelAuth.php, `connect`). The PDO
 * connection itself is not modelled: only which statement, if any, is issued.
 */
module Driver {
  import opened Wrappers
  import opened PhpValues

  /** The statement issued on a MySQL connection. */
  const MysqlInit: string := "SET NAMES 'utf8mb4'"
  /** The statement issued on a PostgreSQL connection. */
  const PgsqlInit: string := "SET NAMES 'UTF8'"

  /**
   * The first piece of `explode(':', dsn, 2)`: the text before the first ':',
   * or the whole DSN when it has none.
   */
  function DsnPrefix(dsn: string): (p: string)
    ensures |p| <= |dsn| && p == dsn[..|p|]
    ensures ':' !in p
    ensures |p| < |dsn| ==> dsn[|p|] == ':'
  {
    if dsn == [] || dsn[0] == ':' then [] else [dsn[0]] + DsnPrefix(dsn[1..])
  }

  /**
   * The driver name: the DSN up to its first colon (or its end), lower-cased;
   * it holds neither a colon nor an upper-case ASCII letter.
   */
  function DriverName(dsn: string): (d: string)
    ensures |d| <= |dsn| && d == Lower(dsn[..|d|])
    ensures |d| < |dsn| ==> dsn[|d|] == ':'
    ensures ':' !in d
    ensures forall k :: 0 <= k < |d| ==> !('A' <= d[k] <= 'Z')
  {
    var p := DsnPrefix(dsn);
    var d := Lower(p);
    assert ':' !in d by {
      forall k | 0 <= k < |d|
        ensures d[k] != ':'
      {
        assert p[k] in p;
      }
    }
    d
  }

  /**
   * The initialisation statement run on a fresh connection: only a DSN that
   * starts with `mysql` or `pgsql` (in any ASCII case), followed by a colon or
   * by nothing, gets one, and it is the statement of that driver.
   */
  function InitStatement(dsn: string): (r: Option<string>)
    ensures r.None? || r == Some(MysqlInit) || r == Some(PgsqlInit)
    ensures r.Some? ==> |dsn| >= 5 && (|dsn| == 5 || dsn[5] == ':')
    ensures r == Some(MysqlInit) ==> Lower(dsn[..5]) == "mysql"
    ensures r == Some(PgsqlInit) ==> Lower(dsn[..5]) == "pgsql"
  {
    match DriverName(dsn)
    case "mysql" => Some(MysqlInit)
    case "pgsql" => Some(PgsqlInit)
    case _ => None
  }

  /** The prefix of `driver:rest` is `driver`, whatever `rest` holds (including more colons). */
  lemma {:induction false} PrefixOfDriverDsn(driver: string, rest: string)
    requires ':' !in driver
    ensures DsnPrefix(driver + ":" + rest) == driver
  {
    var dsn := driver + ":" + rest;
    if driver != [] {
      assert dsn[0] == driver[0] != ':';
      assert dsn[1..] == driver[1..] + ":" + rest;
      PrefixOfDriverDsn(driver[1..], rest);
    }
  }

  /** A DSN without a colon is its own prefix. */
  lemma PrefixOfColonFree(dsn: string)
    requires ':' !in dsn
    ensures DsnPrefix(dsn) == dsn
  {
  }

  /**
   * The statement chosen for `driver:rest` depends only on the driver written
   * before the first colon, compared without regard to ASCII case.
   */
  lemma {:induction false} InitStatementOfDsn(driver: string, rest: string)
    requires ':' !in driver
    ensures Lower(driver) == "mysql" ==> InitStatement(driver + ":" + rest) == Some(MysqlInit)
    ensures Lower(driver) == "pgsql" ==> InitStatement(driver + ":" + rest) == Some(PgsqlInit)
    ensures Lower(driver) != "mysql" && Lower(driver) != "pgsql" ==>
      InitStatement(driver + ":" + rest) == None
  {
    PrefixOfDriverDsn(driver, rest);
  }
}
