/**
 * Validation of the authentication source's configuration array, done by the
 * constructor before anything is stored
 * (modules/laravelmodule/lib/Auth/Source/LaravelAuth.php, `__construct`).
 */
module AuthConfig {
  import opened Wrappers
  import opened PhpValues

  /** The configuration array handed to the constructor. */
  type Config = map<string, PhpValue>

  /** The parameters that must be present and string-valued, in the order they are checked. */
  const RequiredParams: seq<string> := ["dsn", "username", "password", "uidfield"]

  /** Why construction was refused: the first offending parameter, and what was found in it. */
  datatype ConfigError =
    | MissingAttribute(param: string)
    | NotAString(param: string, found: PhpValue)

  /** The complaint about one parameter, if any. */
  function ParamError(config: Config, param: string): (e: Option<ConfigError>)
    ensures e.None? <==> param in config && config[param].Str?
    ensures e.Some? ==> e.value.param == param
  {
    if param !in config then Some(MissingAttribute(param))
    else if !config[param].Str? then Some(NotAString(param, config[param]))
    else None
  }

  /** The complaint about the first parameter of `params` that is missing or not a string. */
  function FirstConfigError(config: Config, params: seq<string>): (e: Option<ConfigError>)
    ensures e.None? <==> forall k :: 0 <= k < |params| ==> ParamError(config, params[k]).None?
    ensures e.Some? ==>
      exists k :: 0 <= k < |params| && e == ParamError(config, params[k]) &&
        forall j :: 0 <= j < k ==> ParamError(config, params[j]).None?
  {
    if params == [] then None
    else
      match ParamError(config, params[0])
      case Some(err) => Some(err)
      case None =>
        var rest := FirstConfigError(config, params[1..]);
        if rest.Some? then
          var k :| 0 <= k < |params[1..]| && rest == ParamError(config, params[1..][k]) &&
            forall j :: 0 <= j < k ==> ParamError(config, params[1..][j]).None?;
          assert rest == ParamError(config, params[k + 1]);
          rest
        else
          rest
  }

  /** The parameter-checking loop of the constructor: the first complaint, or none. */
  method CheckConfig(config: Config) returns (e: Option<ConfigError>)
    ensures e == FirstConfigError(config, RequiredParams)
  {
    var i := 0;
    while i < |RequiredParams|
      invariant 0 <= i <= |RequiredParams|
      invariant FirstConfigError(config, RequiredParams) == FirstConfigError(config, RequiredParams[i..])
    {
      var param := RequiredParams[i];
      assert RequiredParams[i..][1..] == RequiredParams[i + 1..];
      if param !in config {
        return Some(MissingAttribute(param));
      }
      if !config[param].Str? {
        return Some(NotAString(param, config[param]));
      }
      i := i + 1;
    }
    return None;
  }

  /** All four required parameters are present and hold strings. */
  predicate Accepted(config: Config)
  {
    && "dsn" in config && config["dsn"].Str?
    && "username" in config && config["username"].Str?
    && "password" in config && config["password"].Str?
    && "uidfield" in config && config["uidfield"].Str?
  }

  /** Construction is accepted exactly when all four required parameters are present strings. */
  lemma ConfigAccepted(config: Config)
    ensures FirstConfigError(config, RequiredParams).None? <==> Accepted(config)
  {
    var ps := RequiredParams;
    if FirstConfigError(config, ps).None? {
      assert ParamError(config, ps[0]).None?;
      assert ParamError(config, ps[1]).None?;
      assert ParamError(config, ps[2]).None?;
      assert ParamError(config, ps[3]).None?;
    }
  }

  /** A missing `dsn` is always the reported complaint, whatever else is wrong. */
  lemma MissingDsnReportedFirst(config: Config)
    requires "dsn" !in config
    ensures FirstConfigError(config, RequiredParams) == Some(MissingAttribute("dsn"))
  {
  }
}
