/**
  The TuShare token checker: each configured token is looked up in the environment
  (after the local `.env` file is loaded), sent to the user-quota endpoint, and the
  outcomes are reported; the run fails when no token passed.
 */
module TokenCheck {
  import opened Wrappers
  import opened DotEnv
  import opened Text

  /** The environment variables that may hold a token, checked in this order. */
  const EnvKeys: seq<string> := ["TUSHARE_TOKEN", "TUSHARE_TOKEN_2"]

  /** The quota table the endpoint returns: its `user_id` column and its JSON rendering. */
  datatype Frame = Frame(userIds: seq<string>, json: string)

  /** What the endpoint call does for one token: it raises, returns nothing, or returns a table. */
  datatype Reply = Raised(error: string) | NoFrame | Returned(frame: Frame)

  datatype TokenResult =
    | Failed(envKey: string, message: string)
    | Passed(envKey: string, userId: string, rows: string, hasRows: bool)

  function UnsetMessage(envKey: string): string { "环境变量 " + envKey + " 未设置。" }
  function CallFailedMessage(error: string): string { "调用 TuShare 接口失败: " + error }
  function NoFrameMessage(envKey: string): string { "TuShare 返回空对象，无法验证 " + envKey + "。" }
  const UnknownUser: string := "<未知>"
  const NoValidToken: string := "未检测到有效的 TuShare Token。"

  /** The token a variable holds, when it holds a non-empty one. */
  function TokenOf(vars: map<string, string>, envKey: string): (r: Option<string>)
    ensures r.None? <==> envKey !in vars || vars[envKey] == ""
    ensures r.Some? ==> r.value == vars[envKey] && r.value != ""
  {
    if envKey in vars && vars[envKey] != "" then Some(vars[envKey]) else None
  }

  /**
    `check_token`: a missing or empty variable fails without calling the endpoint; a call
    that raises or returns nothing fails; otherwise the token passes, with the first row's
    user id, or a placeholder when the table is empty.
   */
  function CheckToken(vars: map<string, string>, envKey: string, api: string -> Reply): (r: TokenResult)
    ensures r.envKey == envKey
    ensures r.Passed? <==> TokenOf(vars, envKey).Some? && api(TokenOf(vars, envKey).value).Returned?
    ensures TokenOf(vars, envKey).None? ==> r == Failed(envKey, UnsetMessage(envKey))
    ensures r.Passed? ==> var frame := api(vars[envKey]).frame;
      r.rows == frame.json && (r.hasRows <==> frame.userIds != [])
      && r.userId == (if frame.userIds == [] then UnknownUser else frame.userIds[0])
  {
    match TokenOf(vars, envKey)
    case None => Failed(envKey, UnsetMessage(envKey))
    case Some(token) =>
      match api(token)
      case Raised(error) => Failed(envKey, CallFailedMessage(error))
      case NoFrame => Failed(envKey, NoFrameMessage(envKey))
      case Returned(frame) =>
        Passed(envKey, if frame.userIds == [] then UnknownUser else frame.userIds[0], frame.json, frame.userIds != [])
  }

  /** The results for every configured key, in order. */
  function CheckAll(vars: map<string, string>, api: string -> Reply): (r: seq<TokenResult>)
    ensures |r| == |EnvKeys|
    ensures forall i :: 0 <= i < |r| ==> r[i] == CheckToken(vars, EnvKeys[i], api)
  {
    [CheckToken(vars, EnvKeys[0], api), CheckToken(vars, EnvKeys[1], api)]
  }

  const Rule: string := "----------------------------------------"

  /** The lines printed for one result. */
  function ResultLines(r: TokenResult): (lines: seq<string>)
    ensures |lines| == if r.Failed? then 3 else 4
    ensures lines[0] == Rule && lines[1] == "环境变量: " + r.envKey
    ensures forall i :: 1 <= i < |lines| ==> lines[i] != Rule
  {
    NotRule("环境变量: ", r.envKey);
    NotRule("检测失败: ", if r.Failed? then r.message else "");
    NotRule("用户 ID: ", if r.Passed? then r.userId else "");
    NotRule("积分明细: ", if r.Passed? then r.rows else "");
    NotRule("积分明细: [] (未返回即将到期的积分记录)", "");
    [Rule, "环境变量: " + r.envKey]
    + match r
      case Failed(_, message) => ["检测失败: " + message]
      case Passed(_, userId, rows, hasRows) =>
        ["用户 ID: " + userId]
        + [if hasRows then "积分明细: " + rows else "积分明细: [] (未返回即将到期的积分记录)"]
  }

  /** A line that starts with something other than `-` is not the rule. */
  lemma NotRule(prefix: string, s: string)
    requires prefix != [] && prefix[0] != '-'
    ensures prefix + s != Rule
  {
    assert (prefix + s)[0] == prefix[0];
  }

  /** The lines printed for all results, in order. */
  function ReportLines(results: seq<TokenResult>): (lines: seq<string>)
    ensures 3 * |results| <= |lines| <= 4 * |results|
    decreases |results|
  {
    if results == [] then [] else ReportLines(results[..|results| - 1]) + ResultLines(results[|results| - 1])
  }

  predicate AnyPassed(results: seq<TokenResult>) {
    exists i :: 0 <= i < |results| && results[i].Passed?
  }

  /**
    The reporting loop of `main`: every result is printed in order, and the run ends with
    an error exactly when no token passed.
   */
  method Report(results: seq<TokenResult>) returns (lines: seq<string>, exit: Option<string>)
    ensures lines == ReportLines(results)
    ensures exit.Some? <==> !AnyPassed(results)
    ensures exit.Some? ==> exit.value == NoValidToken
  {
    lines := [];
    var anySuccess := false;
    for i := 0 to |results|
      invariant lines == ReportLines(results[..i])
      invariant anySuccess <==> AnyPassed(results[..i])
    {
      assert results[..i + 1][..i] == results[..i];
      lines := lines + ResultLines(results[i]);
      if results[i].Passed? {
        anySuccess := true;
      }
      assert AnyPassed(results[..i + 1]) <==> AnyPassed(results[..i]) || results[i].Passed? by {
        assert results[..i + 1][i] == results[i];
      }
    }
    assert results[..|results|] == results;
    exit := if anySuccess then None else Some(NoValidToken);
  }

  /**
    `main`: load the local `.env` file, check every configured token against the
    endpoint, and report.
   */
  method VerifyTokens(env: Environ, cwd: Path, scriptDir: Path, files: map<Path, string>, api: string -> Reply)
    returns (lines: seq<string>, exit: Option<string>)
    modifies env
    ensures env.vars == Loaded(old(env.vars), EnvPathsToTry(cwd, scriptDir), files)
    ensures lines == ReportLines(CheckAll(env.vars, api))
    ensures exit.Some? <==> forall i :: 0 <= i < |EnvKeys| ==> CheckToken(env.vars, EnvKeys[i], api).Failed?
  {
    LoadLocalEnv(env, cwd, scriptDir, files);
    var results := CheckAll(env.vars, api);
    lines, exit := Report(results);
  }

  /**
    A token already in the environment is the one checked, whatever the `.env` files
    say.
   */
  lemma EnvironmentTokenWins(vars: map<string, string>, candidates: seq<Path>, files: map<Path, string>, envKey: string, api: string -> Reply)
    requires envKey in vars
    ensures CheckToken(Loaded(vars, candidates, files), envKey, api) == CheckToken(vars, envKey, api)
  {
    LoadingKeepsSetVariables(vars, candidates, files, envKey);
  }

  /** When neither variable holds a token, the run fails whatever the endpoint would answer. */
  lemma NoTokenNoSuccess(vars: map<string, string>, api: string -> Reply)
    requires forall i :: 0 <= i < |EnvKeys| ==> TokenOf(vars, EnvKeys[i]).None?
    ensures !AnyPassed(CheckAll(vars, api))
  {
    var results := CheckAll(vars, api);
    forall i | 0 <= i < |results|
      ensures results[i].Failed?
    {
      assert TokenOf(vars, EnvKeys[i]).None?;
    }
  }

  /**
    A `.env` line that sets a variable to empty quotes sets it to the empty string, which
    the check treats as unset.
   */
  lemma QuotedEmptyTokenIsUnset(vars: map<string, string>, envKey: string, api: string -> Reply)
    requires envKey !in vars
    requires '=' !in envKey
    requires envKey != [] && envKey[0] !in Whitespace && envKey[0] != '#' && envKey[|envKey| - 1] !in Whitespace
    ensures CheckToken(ApplyLines(vars, [envKey + "=\"\""]), envKey, api) == Failed(envKey, UnsetMessage(envKey))
  {
    EmptyQuotesSetEmpty(vars, envKey);
    assert TokenOf(vars[envKey := ""], envKey).None?;
  }
}
