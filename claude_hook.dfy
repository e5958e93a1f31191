/** The Claude hook script that vets a Bash command before it runs.
    It answers with its exit status: 0 lets the command run, 2 blocks it
    with a message on standard error, 1 reports input it cannot read. */
module ClaudeHook {
  import opened Text
  import opened JsonValue
  import opened GitPatterns
  import GeminiHook

  /** One entry of the blocked-pattern list: the pattern
      `\bgit\s+<word>\b.*<lit>\b` and the message printed for it. */
  datatype Pattern = Pattern(word: string, lit: string, message: string)

  const BlockedPatterns: seq<Pattern> := [
    Pattern("commit", "--amend", "git commit --amend is not allowed"),
    Pattern("push", "--force", "git push --force is not allowed"),
    Pattern("push", "-f", "git push -f (force) is not allowed"),
    Pattern("push", "--force-with-lease", "git push --force-with-lease is not allowed")
  ]

  predicate Matches(c: string, p: Pattern) {
    CommandThen(c, p.word, p.lit, false)
  }

  /** The message of the first pattern, in list order, that matches. */
  function FirstMatch(c: string, ps: seq<Pattern>): (r: Option<string>)
    ensures r.None? <==> forall k :: 0 <= k < |ps| ==> !Matches(c, ps[k])
    ensures r.Some? ==> exists k :: (0 <= k < |ps| && Matches(c, ps[k]) && r.value == ps[k].message
      && forall m :: 0 <= m < k ==> !Matches(c, ps[m]))
    decreases |ps|
  {
    if |ps| == 0 then None
    else if Matches(c, ps[0]) then Some(ps[0].message)
    else
      var r := FirstMatch(c, ps[1..]);
      assert forall k :: 1 <= k < |ps| ==> ps[k] == ps[1..][k - 1];
      r
  }

  /** How the script ends: an exit status with what it wrote to standard
      error, or an uncaught exception, which Python reports with status 1
      and a traceback. */
  datatype Outcome = Exit(code: nat, stderr: string) | Crashed

  function Code(o: Outcome): nat {
    if o.Crashed? then 1 else o.code
  }

  /** The outcome for a Bash command that is vetted. */
  function CommandOutcome(c: string, order: seq<string>, current: Option<string>): Outcome
    requires ProtectedOrder(order)
  {
    match FirstMatch(c, BlockedPatterns)
    case Some(m) => Exit(2, "Blocked: " + m)
    case None =>
      match ProtectedPushError(c, order, current)
      case Some(e) => Exit(2, "Blocked: " + e)
      case None => Exit(0, "")
  }

  /** The loop over the blocked patterns. */
  method CheckPatterns(c: string) returns (blocked: Option<string>)
    ensures blocked == FirstMatch(c, BlockedPatterns)
  {
    var k := 0;
    while k < |BlockedPatterns|
      invariant k <= |BlockedPatterns|
      invariant FirstMatch(c, BlockedPatterns) == FirstMatch(c, BlockedPatterns[k..])
    {
      assert BlockedPatterns[k..][1..] == BlockedPatterns[k + 1..];
      if Matches(c, BlockedPatterns[k]) {
        return Some(BlockedPatterns[k].message);
      }
      k := k + 1;
    }
    return None;
  }

  /** The script from top to bottom, given what `json.load` made of
      standard input, the set's iteration order and the current branch. */
  method Run(input: Decoded, order: seq<string>, current: Option<string>) returns (out: Outcome)
    requires ProtectedOrder(order)
    ensures input.Malformed? ==> out == Exit(1, "Error: Invalid JSON input: " + input.error)
    ensures input.Parsed? && !input.doc.JObj? ==> out == Crashed
    ensures input.Parsed? && input.doc.JObj? ==>
      var tool := Get(input.doc.fields, "tool_name", JStr(""));
      var toolInput := Get(input.doc.fields, "tool_input", JObj(map[]));
      && (!toolInput.JObj? ==> out == Crashed)
      && (toolInput.JObj? ==>
        var command := Get(toolInput.fields, "command", JStr(""));
        && (tool != JStr("Bash") || !Truthy(command) ==> out == Exit(0, ""))
        && (tool == JStr("Bash") && Truthy(command) && !command.JStr? ==> out == Crashed)
        && (tool == JStr("Bash") && Truthy(command) && command.JStr? ==> out == CommandOutcome(command.s, order, current)))
  {
    if input.Malformed? {
      return Exit(1, "Error: Invalid JSON input: " + input.error);
    }
    if !input.doc.JObj? {
      return Crashed;
    }
    var tool := Get(input.doc.fields, "tool_name", JStr(""));
    var toolInput := Get(input.doc.fields, "tool_input", JObj(map[]));
    if !toolInput.JObj? {
      return Crashed;
    }
    var command := Get(toolInput.fields, "command", JStr(""));
    if tool != JStr("Bash") || !Truthy(command) {
      return Exit(0, "");
    }
    if !command.JStr? {
      return Crashed;
    }
    var blocked := CheckPatterns(command.s);
    if blocked.Some? {
      return Exit(2, "Blocked: " + blocked.value);
    }
    var pushError := ProtectedPushError(command.s, order, current);
    if pushError.Some? {
      return Exit(2, "Blocked: " + pushError.value);
    }
    return Exit(0, "");
  }

  /** The patterns block exactly the history rewrites. */
  lemma PatternsAreRewrites(c: string)
    ensures FirstMatch(c, BlockedPatterns).Some? <==> RewritesHistory(c)
  {
    var ps := BlockedPatterns;
    assert Matches(c, ps[0]) == CommandThen(c, "commit", "--amend", false);
    assert Matches(c, ps[1]) == CommandThen(c, "push", "--force", false);
    assert Matches(c, ps[2]) == CommandThen(c, "push", "-f", false);
    assert Matches(c, ps[3]) == CommandThen(c, "push", "--force-with-lease", false);
  }

  /** The last pattern's message is never printed: a `--force-with-lease`
      push is reported as a `--force` push. */
  lemma WithLeaseReportedAsForce(c: string)
    requires CommandThen(c, "push", "--force-with-lease", false)
    requires !CommandThen(c, "commit", "--amend", false)
    ensures FirstMatch(c, BlockedPatterns) == Some("git push --force is not allowed")
  {
    WithLeaseIsForce(c);
    var ps := BlockedPatterns;
    assert !Matches(c, ps[0]) && Matches(c, ps[1]);
  }

  /** Exit status 2 exactly for a history rewrite or a protected push;
      every other vetted command exits 0. */
  lemma CommandPolicy(c: string, order: seq<string>, current: Option<string>)
    requires ProtectedOrder(order)
    ensures CommandOutcome(c, order, current).Exit?
    ensures Code(CommandOutcome(c, order, current)) == 2 <==>
      RewritesHistory(c) || ProtectedPushError(c, order, current).Some?
    ensures Code(CommandOutcome(c, order, current)) != 2 ==> CommandOutcome(c, order, current) == Exit(0, "")
  {
    PatternsAreRewrites(c);
  }

  /** The two hooks refuse the same shell commands. */
  lemma HooksAgree(c: string, order: seq<string>, current: Option<string>)
    requires ProtectedOrder(order)
    ensures Code(CommandOutcome(c, order, current)) == 2 <==> GeminiHook.CommandDecision(c, order, current).Deny?
  {
    CommandPolicy(c, order, current);
  }
}
