/** The status-line script: the fields it takes from the session
    document, the share of the context window in use, and the repository,
    branch and host names it shows. The two `git` runs and the host's node
    name are inputs. */
module StatusLine {
  import opened Text
  import opened JsonValue

  /** `CurrentUsage`: the token counts of the latest request, as decoded;
      nothing looks at their types until they are added up. */
  datatype Usage = Usage(input: Json, output: Json, cacheCreation: Json, cacheRead: Json)

  /** `ContextWindow`, its counts as decoded. */
  datatype Window = Window(totalInput: Json, totalOutput: Json, size: Json, usage: Option<Usage>)

  /** The parts of `StatusInput` the line depends on; `cost` is the
      session's `total_cost_usd`. */
  datatype Status = Status(projectDir: string, cost: Json, window: Option<Window>)

  /** The keywords each data class accepts; all of `CurrentUsage`'s have
      defaults, the others have none. */
  const UsageKeys: set<string> := {"input_tokens", "output_tokens", "cache_creation_input_tokens", "cache_read_input_tokens"}
  const ModelKeys: set<string> := {"id", "display_name"}
  const WorkspaceKeys: set<string> := {"current_dir", "project_dir"}
  const OutputStyleKeys: set<string> := {"name"}
  const CostKeys: set<string> := {"total_cost_usd", "total_duration_ms", "total_api_duration_ms", "total_lines_added", "total_lines_removed"}
  const RequiredKeys: set<string> := {"session_id", "transcript_path", "cwd", "model", "workspace", "version",
                                      "output_style", "cost", "exceeds_200k_tokens"}

  /** `d.get(key, 0)` where the value is a count. */
  function Count(fields: map<string, Json>, key: string): Json {
    Get(fields, key, JNum(0))
  }

  /** `CurrentUsage(**d)`: every keyword must be one of the class's fields;
      the values are taken as they are. */
  function UsageOf(d: Json): (r: Option<Usage>)
    ensures r.Some? <==> d.JObj? && d.fields.Keys <= UsageKeys
    ensures r.Some? && "input_tokens" in d.fields ==> r.value.input == d.fields["input_tokens"]
    ensures r.Some? && "input_tokens" !in d.fields ==> r.value.input == JNum(0)
  {
    if d.JObj? && d.fields.Keys <= UsageKeys then
      var f := d.fields;
      Some(Usage(Count(f, "input_tokens"), Count(f, "output_tokens"), Count(f, "cache_creation_input_tokens"), Count(f, "cache_read_input_tokens")))
    else None
  }

  /** The `context_window` part of `parse_input`: `None` when the script
      fails, `Some(None)` when there is no window. */
  function WindowOf(raw: map<string, Json>): (r: Option<Option<Window>>)
    ensures r == Some(None) <==> "context_window" !in raw || raw["context_window"] == JObj(map[])
    ensures r.None? <==> "context_window" in raw && (var ctx := raw["context_window"];
      !ctx.JObj? || ("current_usage" in ctx.fields && Truthy(ctx.fields["current_usage"])
                     && UsageOf(ctx.fields["current_usage"]).None?))
    ensures r.Some? && r.value.Some? ==> ("context_window" in raw && raw["context_window"].JObj?
      && (var ctx := raw["context_window"].fields;
          r.value.value.size == Count(ctx, "context_window_size")
          && (r.value.value.usage.Some? <==> "current_usage" in ctx && Truthy(ctx["current_usage"]))))
  {
    var ctx := Get(raw, "context_window", JObj(map[]));
    if !ctx.JObj? then None
    else
      var cu := Get(ctx.fields, "current_usage", JNull);
      var usage := if Truthy(cu) then UsageOf(cu) else None;
      if Truthy(cu) && usage.None? then None
      else if ctx.fields == map[] then Some(None)
      else
        Some(Some(Window(Count(ctx.fields, "total_input_tokens"), Count(ctx.fields, "total_output_tokens"),
                         Count(ctx.fields, "context_window_size"), usage)))
  }

  /** `Cls(**d)` for a data class whose fields have no defaults. */
  predicate Fits(d: Json, keys: set<string>) {
    d.JObj? && d.fields.Keys == keys
  }

  /** `parse_input`, with the project folder required to be a string as
      the later path and `git` calls need; `None` when it raises. */
  function ParseInput(raw: Json): (r: Option<Status>)
    ensures r.Some? ==> raw.JObj? && RequiredKeys <= raw.fields.Keys
    ensures r.Some? ==> (Fits(raw.fields["workspace"], WorkspaceKeys)
      && raw.fields["workspace"].fields["project_dir"] == JStr(r.value.projectDir))
    ensures r.Some? ==> (Fits(raw.fields["cost"], CostKeys)
      && raw.fields["cost"].fields["total_cost_usd"] == r.value.cost)
    ensures r.Some? ==> WindowOf(raw.fields) == Some(r.value.window)
  {
    if !raw.JObj? then None
    else
      var f := raw.fields;
      match WindowOf(f)
      case None => None
      case Some(window) =>
        if RequiredKeys <= f.Keys && Fits(f["model"], ModelKeys) && Fits(f["workspace"], WorkspaceKeys)
          && Fits(f["output_style"], OutputStyleKeys) && Fits(f["cost"], CostKeys)
          && f["workspace"].fields["project_dir"].JStr?
        then Some(Status(f["workspace"].fields["project_dir"].s, f["cost"].fields["total_cost_usd"], window))
        else None
  }

  /** A count that is absent from a present `current_usage` or window is
      not needed to be a number for parsing to succeed. */
  lemma ParseKeepsNullCounts(raw: Json, ctx: map<string, Json>, usage: map<string, Json>)
    requires raw.JObj? && RequiredKeys <= raw.fields.Keys
    requires Fits(raw.fields["model"], ModelKeys) && Fits(raw.fields["output_style"], OutputStyleKeys)
    requires Fits(raw.fields["workspace"], WorkspaceKeys) && raw.fields["workspace"].fields["project_dir"].JStr?
    requires Fits(raw.fields["cost"], CostKeys)
    requires "context_window" in raw.fields && raw.fields["context_window"] == JObj(ctx)
    requires "current_usage" in ctx && ctx["current_usage"] == JObj(usage)
    requires usage == map["input_tokens" := JNull]
    ensures ParseInput(raw).Some? && ParseInput(raw).value.window.Some?
    ensures ParseInput(raw).value.window.value.usage == Some(Usage(JNull, JNum(0), JNum(0), JNum(0)))
  {
    assert "input_tokens" in usage && Truthy(JObj(usage));
    assert usage.Keys == {"input_tokens"};
  }

  /** The value as a Python number: integers, and booleans as 0 and 1;
      adding or comparing any other value with a number raises. */
  function Number(j: Json): (r: Option<int>)
    ensures r.Some? <==> j.JNum? || j.JBool?
    ensures j.JNum? ==> r == Some(j.n)
  {
    match j
    case JNum(n) => Some(n)
    case JBool(b) => Some(if b then 1 else 0)
    case _ => None
  }

  function Plus(a: Option<int>, b: Option<int>): Option<int> {
    if a.Some? && b.Some? then Some(a.value + b.value) else None
  }

  /** The tokens in the context: the latest request's input, counting
      cached input, when there is one; the session totals otherwise.
      `None` when one of the values added is not a number. */
  function Tokens(w: Window): Option<int> {
    match w.usage
    case Some(u) => Plus(Plus(Number(u.input), Number(u.cacheCreation)), Number(u.cacheRead))
    case None => Plus(Number(w.totalInput), Number(w.totalOutput))
  }

  /** Output tokens of the latest request never count, whatever their
      value, and neither do the session totals once there is a latest
      request. */
  lemma TokensIgnoreOutput(w: Window, u: Usage, output: Json, totalInput: Json, totalOutput: Json)
    requires w.usage == Some(u)
    ensures Tokens(w.(usage := Some(u.(output := output)), totalInput := totalInput, totalOutput := totalOutput)) == Tokens(w)
  {
  }

  /** The sum raises exactly when one of the values it adds is not a number. */
  lemma TokensFail(w: Window)
    ensures Tokens(w).None? <==> match w.usage
      case Some(u) => !(u.input.JNum? || u.input.JBool?) || !(u.cacheCreation.JNum? || u.cacheCreation.JBool?)
                      || !(u.cacheRead.JNum? || u.cacheRead.JBool?)
      case None => !(w.totalInput.JNum? || w.totalInput.JBool?) || !(w.totalOutput.JNum? || w.totalOutput.JBool?)
  {
  }

  /** What the context calculation comes to: no percentage, a
      percentage, or a `TypeError`. */
  datatype Gauge = Hidden | Shown(pct: int) | Fails

  /** The percentage of the window in use, rounded down; shown only for a
      window of positive size with some tokens in it. Comparing the size
      with 0 raises when it is not a number, and the counts are only added
      up for a window of positive size. */
  function Percent(w: Option<Window>): (r: Gauge)
    ensures r.Fails? <==> (w.Some? && (Number(w.value.size).None?
                                       || (Number(w.value.size).value > 0 && Tokens(w.value).None?)))
    ensures r.Shown? <==> (w.Some? && Number(w.value.size).Some? && Number(w.value.size).value > 0
                           && Tokens(w.value).Some? && Tokens(w.value).value > 0)
    ensures r.Shown? ==> r.pct >= 0 && (var n, t := Number(w.value.size).value, Tokens(w.value).value;
      r.pct * n <= t * 100 < (r.pct + 1) * n)
  {
    if w.None? then Hidden
    else match Number(w.value.size)
      case None => Fails
      case Some(n) =>
        if n <= 0 then Hidden
        else match Tokens(w.value)
          case None => Fails
          case Some(t) =>
            if t <= 0 then Hidden
            else
              DivBounds(t * 100, n);
              Shown(t * 100 / n)
  }

  /** A window whose size is 0 never has its counts looked at. */
  lemma EmptyWindowIgnoresCounts(w: Window)
    requires w.size == JNum(0)
    ensures Percent(Some(w)) == Hidden
  {
  }

  /** The percentage is not capped: more tokens than the window holds
      show as more than 100. */
  lemma PercentNotClamped()
    ensures Percent(Some(Window(JNull, JNull, JNum(1000), Some(Usage(JNum(1500), JNull, JNum(500), JBool(true)))))) == Shown(200)
  {
    assert Tokens(Window(JNull, JNull, JNum(1000), Some(Usage(JNum(1500), JNull, JNum(500), JBool(true))))) == Some(2001);
  }

  /** At least one token per hundredth of the window shows as at least 1,
      and a full window shows as 100. */
  lemma PercentBounds(w: Window, n: int, t: int)
    requires Number(w.size) == Some(n) && n > 0 && Tokens(w) == Some(t) && t > 0
    ensures Percent(Some(w)).Shown?
    ensures Percent(Some(w)).pct >= 1 <==> t * 100 >= n
    ensures t == n ==> Percent(Some(w)) == Shown(100)
  {
    var p := Percent(Some(w)).pct;
    MulMonotone(1, p, n);
    if t == n {
      MulMonotone(p, 100, n);
      MulMonotone(100, p, n);
      assert 100 * n < (p + 1) * n;
      MulMonotone(p + 1, 100, n);
    }
  }

  /** Floor division brackets its dividend. */
  lemma DivBounds(a: int, n: int)
    requires a >= 0 && n > 0
    ensures a / n >= 0 && a / n * n <= a < (a / n + 1) * n
  {
    var q, m := a / n, a % n;
    assert q * n + m == a && 0 <= m < n;
    assert (q + 1) * n == q * n + n;
    MulMonotone(0, q, n);
  }

  lemma MulMonotone(a: int, b: int, n: int)
    requires n > 0
    ensures a <= b <==> a * n <= b * n
  {
    assert b * n - a * n == (b - a) * n;
    if a <= b {
      MulNonNegative(b - a, n);
    } else {
      MulNonNegative(a - b - 1, n);
      assert (a - b) * n == (a - b - 1) * n + n;
    }
  }

  lemma MulNonNegative(k: int, n: int)
    requires k >= 0 && n >= 0
    ensures k * n >= 0
  {
  }

  const Magenta := "\U{1b}[35m"
  const Reset := "\U{1b}[0m"
  const IconChart := "\U{f080}"

  /** The context part of the line, empty when no percentage is shown;
      `None` when working it out raises. */
  function ContextInfo(w: Option<Window>): (r: Option<string>)
    ensures r.None? <==> Percent(w).Fails?
    ensures r == Some("") <==> Percent(w).Hidden?
    ensures Percent(w).Shown? ==> r.Some? && EndsWith(r.value, NatToStr(Percent(w).pct) + "%" + Reset)
  {
    match Percent(w)
    case Fails => None
    case Hidden => Some("")
    case Shown(p) =>
      var r := " " + Magenta + IconChart + " " + NatToStr(p) + "%" + Reset;
      var tail := NatToStr(p) + "%" + Reset;
      assert r == " " + Magenta + IconChart + " " + tail;
      assert r[|r| - |tail|..] == tail;
      Some(r)
  }

  /** The percentage shown is the token count's hundredfold share of the
      window, rounded down. */
  lemma ContextInfoShown(w: Window, n: int, tokens: int)
    requires Number(w.size) == Some(n) && n > 0 && Tokens(w) == Some(tokens) && tokens > 0
    ensures Percent(Some(w)) == Shown(tokens * 100 / n)
    ensures ContextInfo(Some(w)) == Some(" " + Magenta + IconChart + " " + NatToStr(Percent(Some(w)).pct) + "%" + Reset)
  {
  }

  const Green := "\U{1b}[32m"
  const IconCost := "\U{f155}"

  /** `f"{x:.2f}"` of a whole number. */
  function TwoDecimals(n: int): (r: string)
    ensures EndsWith(r, ".00")
  {
    var digits := if n < 0 then "-" + NatToStr(-n) else NatToStr(n);
    var r := digits + ".00";
    assert r[|r| - 3..] == ".00";
    r
  }

  /** The cost part: the total cost with two decimals when it is positive;
      `None` when comparing it with 0 raises. */
  function CostInfo(cost: Json): (r: Option<string>)
    ensures r.None? <==> Number(cost).None?
    ensures r == Some("") <==> Number(cost).Some? && Number(cost).value <= 0
    ensures r.Some? && r.value != "" ==> EndsWith(r.value, TwoDecimals(Number(cost).value) + Reset)
  {
    match Number(cost)
    case None => None
    case Some(c) =>
      if c <= 0 then Some("")
      else
        var tail := TwoDecimals(c) + Reset;
        var r := " " + Green + IconCost + tail;
        assert r[|r| - |tail|..] == tail;
        Some(r)
  }

  /** What a `git` run gave: its exit status and output, or an exception
      (a timeout, or no `git` at all). */
  datatype GitRun = Ran(code: int, stdout: string) | Raised

  predicate Succeeded(g: GitRun) {
    g.Ran? && g.code == 0
  }

  /** The repository name: the last `/` part of the origin URL without a
      trailing `.git`, or the project folder's name when there is no
      origin. */
  function RepoName(projectDir: string, origin: GitRun): (r: string)
    ensures '/' !in r
    ensures Succeeded(origin) ==> (var last := LastPart(Strip(origin.stdout), '/');
      (r == last && !EndsWith(last, ".git")) || r + ".git" == last)
    ensures !Succeeded(origin) ==> r == BaseName(projectDir)
  {
    if Succeeded(origin) then
      var last := LastPart(Strip(origin.stdout), '/');
      RemoveSuffixKeepsOut(last, ".git", '/');
      RemoveSuffix(last, ".git")
    else BaseName(projectDir)
  }

  lemma RemoveSuffixKeepsOut(s: string, suffix: string, c: char)
    requires c !in s
    ensures c !in RemoveSuffix(s, suffix)
  {
    var r := RemoveSuffix(s, suffix);
    assert forall k :: 0 <= k < |r| ==> r[k] == s[k];
  }

  /** The branch part: `@` and the current branch, or nothing when there is
      no branch or asking for it failed. The second `git` run only happens
      when the first did not raise. */
  function Branch(origin: GitRun, current: GitRun): (r: string)
    ensures r != "" ==> (!origin.Raised? && Succeeded(current)
      && r == "@" + Strip(current.stdout) && |r| >= 2 && !IsSpace(r[1]) && !IsSpace(r[|r| - 1]))
    ensures !origin.Raised? && Succeeded(current) && (exists k :: 0 <= k < |current.stdout| && !IsSpace(current.stdout[k]))
      ==> r != ""
  {
    if origin.Raised? || !Succeeded(current) then ""
    else
      var name := Strip(current.stdout);
      StripEnds(current.stdout);
      if name != "" then "@" + name else ""
  }

  lemma BranchOf(origin: GitRun, current: GitRun)
    ensures Branch(origin, current) ==
      if origin.Ran? && current.Ran? && current.code == 0 && Strip(current.stdout) != "" then "@" + Strip(current.stdout) else ""
  {
  }

  /** The host name: the node name up to its first `.`. */
  function Hostname(nodename: string): (r: string)
    ensures StartsWith(nodename, r) && '.' !in r
    ensures |r| < |nodename| ==> nodename[|r|] == '.'
  {
    FirstPart(nodename, '.')
  }

  /** The names, context part and cost part the line shows. */
  datatype Parts = Parts(repo: string, branch: string, host: string, folder: string, context: string, cost: string)

  /** The script from `parse_input` to the cost part; `None` when it
      raises. The `git` runs cannot make it raise. */
  method Render(raw: Json, origin: GitRun, current: GitRun, nodename: string) returns (r: Option<Parts>)
    ensures r.None? <==> (ParseInput(raw).None? || ContextInfo(ParseInput(raw).value.window).None?
                          || CostInfo(ParseInput(raw).value.cost).None?)
    ensures r.Some? ==> (var data := ParseInput(raw).value;
      r.value == Parts(RepoName(data.projectDir, origin), Branch(origin, current), Hostname(nodename),
                       BaseName(data.projectDir), ContextInfo(data.window).value, CostInfo(data.cost).value))
  {
    var parsed := ParseInput(raw);
    if parsed.None? {
      return None;
    }
    var data := parsed.value;
    var repoName, branch := RepoAndBranch(data.projectDir, origin, current);
    var hostname := FirstPart(nodename, '.');
    var folder := BaseName(data.projectDir);
    var contextInfo := ContextPart(data.window);
    if contextInfo.None? {
      return None;
    }
    var costInfo := CostInfo(data.cost);
    if costInfo.None? {
      return None;
    }
    r := Some(Parts(repoName, branch, hostname, folder, contextInfo.value, costInfo.value));
  }

  /** The two `git` runs inside their `try`: the folder name and no branch
      until a run says otherwise, and the branch not asked for once the
      first run raised. */
  method RepoAndBranch(projectDir: string, origin: GitRun, current: GitRun) returns (repoName: string, branch: string)
    ensures repoName == RepoName(projectDir, origin) && branch == Branch(origin, current)
  {
    repoName := BaseName(projectDir);
    branch := "";
    if origin.Ran? {
      if origin.code == 0 {
        repoName := RemoveSuffix(LastPart(Strip(origin.stdout), '/'), ".git");
      }
      if current.Ran? && current.code == 0 && Strip(current.stdout) != "" {
        branch := "@" + Strip(current.stdout);
      }
    }
    BranchOf(origin, current);
  }

  /** The context part, from the token count worked out in steps; `None`
      where a comparison or a sum raises. */
  method ContextPart(window: Option<Window>) returns (contextInfo: Option<string>)
    ensures contextInfo == ContextInfo(window)
  {
    contextInfo := Some("");
    if window.Some? {
      var ctx := window.value;
      var size := Number(ctx.size);
      if size.None? {
        return None;
      }
      if size.value > 0 {
        var tokens;
        if ctx.usage.Some? {
          tokens := Plus(Plus(Number(ctx.usage.value.input), Number(ctx.usage.value.cacheCreation)),
                         Number(ctx.usage.value.cacheRead));
        } else {
          tokens := Plus(Number(ctx.totalInput), Number(ctx.totalOutput));
        }
        if tokens.None? {
          return None;
        }
        if tokens.value > 0 {
          ContextInfoShown(ctx, size.value, tokens.value);
          var pct := Percent(window).pct;
          contextInfo := Some(" " + Magenta + IconChart + " " + NatToStr(pct) + "%" + Reset);
        }
      }
    }
  }
}
