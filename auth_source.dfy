/**
 * The authentication source itself (modules/laravelmodule/lib/Auth/Source/LaravelAuth.php):
 * its construction from a configuration array and its `login` routine, with
 * the properties the lockout counter and the returned attributes satisfy.
 */
module AuthSource {
  import opened Wrappers
  import opened PhpValues
  import opened AuthConfig
  import opened Driver
  import opened Attributes
  import opened Users

  /** The one credential failure the routine reports (`WRONGUSERPASS`). */
  datatype AuthError = WrongUserPass

  /** `password_verify(password, hash)`, taken as given: its algorithm is not modelled. */
  type Verifier = (string, string) -> bool

  /** The stored hash as `password_verify` receives it (a missing or NULL cell reads as ""). */
  function StoredHash(row: Row): (hash: string)
    ensures "password" in row && row["password"].Str? ==> hash == row["password"].s
    ensures "password" !in row || row["password"].Null? ==> hash == ""
  {
    if "password" in row then ToPhpString(row["password"]) else ""
  }

  /** What `login` returns for a table in a given state. */
  function LoginOutcome(rows: Table, username: string, password: string, verify: Verifier)
    : (r: Result<AttributeMap, AuthError>)
    ensures r.Success? <==>
      username in rows && Eligible(rows[username]) && verify(password, StoredHash(rows[username]))
    ensures r.Success? ==> r.value == Projection(rows[username])
    ensures r.Failure? ==> r.error == WrongUserPass
  {
    match EligibleRow(rows, username)
    case None => Failure(WrongUserPass)
    case Some(row) =>
      if verify(password, StoredHash(row)) then Success(Projection(row)) else Failure(WrongUserPass)
  }

  /**
   * How `login` may change the table. With an eligible row: the counter is
   * cleared on a matching password and incremented otherwise. Without one, the
   * table is left alone or, where the PHP runtime lets the flow reach the
   * increment, the user's counter goes up by one.
   */
  predicate LoginEffect(before: Table, after: Table, username: string, password: string, verify: Verifier)
    : (allowed: bool)
    ensures allowed ==> after.Keys == before.Keys
    ensures allowed ==> forall uid :: uid in before && uid != username ==> after[uid] == before[uid]
    ensures allowed && username in before ==> SameButAttempts(before[username], after[username])
    ensures allowed && username in before ==> StoredHash(after[username]) == StoredHash(before[username])
  {
    match EligibleRow(before, username)
    case Some(row) =>
      after == before[username := if verify(password, StoredHash(row)) then Cleared(row) else Incremented(row)]
    case None =>
      || after == before
      || (username in before && after == before[username := Incremented(before[username])])
  }

  /** The configured authentication source. */
  class LaravelAuth {
    /** The DSN to connect to. */
    const dsn: string
    /** The database account name. */
    const username: string
    /** The database account password. */
    const password: string
    /** The column holding the login name. */
    const uidfield: string
    /** Connection options, kept only when set and not null. */
    const options: Option<PhpValue>

    /** The fields hold exactly what the accepted configuration gave. */
    predicate Holds(config: Config)
      requires Accepted(config)
    {
      && dsn == config["dsn"].s
      && username == config["username"].s
      && password == config["password"].s
      && uidfield == config["uidfield"].s
      && options == (if "options" in config && !config["options"].Null? then Some(config["options"]) else None)
    }

    /** The field assignments of the constructor, once the configuration is known to be good. */
    constructor (config: Config)
      requires Accepted(config)
      ensures Holds(config)
    {
      dsn := config["dsn"].s;
      username := config["username"].s;
      password := config["password"].s;
      uidfield := config["uidfield"].s;
      options := if "options" in config && !config["options"].Null? then Some(config["options"]) else None;
    }

    /** The constructor as a whole: refuse a bad configuration with the first complaint, else store it. */
    static method Create(config: Config) returns (r: Result<LaravelAuth, ConfigError>)
      ensures r.Failure? <==> !Accepted(config)
      ensures r.Failure? ==> Some(r.error) == FirstConfigError(config, RequiredParams)
      ensures r.Success? ==> fresh(r.value) && Accepted(config) && r.value.Holds(config)
    {
      var e := CheckConfig(config);
      ConfigAccepted(config);
      if e.Some? {
        return Failure(e.value);
      }
      var auth := new LaravelAuth(config);
      return Success(auth);
    }

    /**
     * `login(username, password)`: look up the eligible row, check the hash,
     * update the counter and, on success, project the row into attributes.
     */
    method Login(table: UserTable, username: string, password: string, verify: Verifier)
      returns (r: Result<AttributeMap, AuthError>)
      modifies table
      ensures r == LoginOutcome(old(table.rows), username, password, verify)
      ensures LoginEffect(old(table.rows), table.rows, username, password, verify)
    {
      var fetched := table.SelectEligible(username);
      if fetched.None? {
        return Failure(WrongUserPass);
      }
      var row := fetched.value;
      if !verify(password, StoredHash(row)) {
        table.IncrementAttempts(username);
        return Failure(WrongUserPass);
      }
      table.ResetAttempts(username);
      var attrs := ExtractAttributes(row);
      return Success(attrs);
    }
  }
}
