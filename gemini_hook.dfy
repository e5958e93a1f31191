/** The Gemini CLI hook that vets a shell command before it runs: it
    answers with an allow or deny decision, refusing history rewrites and
    pushes to a protected branch, and lets everything else through, also
    every input it cannot make sense of. */
module GeminiHook {
  import opened Text
  import opened JsonValue
  import opened GitPatterns

  /** What the hook prints: nothing (input from a terminal), an allow, or
      a deny with its reason and the message shown to the user. */
  datatype Decision = Silent | Allow | Deny(reason: string, systemMessage: string)

  const RewriteReason: string := "Git rewrite history commands (amend, force push) are not allowed"

  function DenyWith(reason: string): (d: Decision)
    ensures d.Deny? && d.reason == reason && d.systemMessage == "\U{1F6AB} Blocked: " + reason
  {
    Deny(reason, "\U{1F6AB} Blocked: " + reason)
  }

  /** Both spellings of the shell tool's name, in any case. */
  predicate IsShellTool(name: string) {
    Lower(name) == "runshellcommand" || Lower(name) == "run_shell_command"
  }

  /** The command to vet: present only for the shell tool with a non-empty
      string command. Every other payload is allowed, either by the
      explicit checks or because looking it up raises and the hook fails
      open. */
  function ShellCommand(doc: Json): (r: Option<string>)
    ensures r.Some? ==> r.value != ""
    ensures r.Some? ==> (doc.JObj? && "tool_name" in doc.fields && doc.fields["tool_name"].JStr?
      && IsShellTool(doc.fields["tool_name"].s))
  {
    if !doc.JObj? then None
    else
      var name := Get(doc.fields, "tool_name", JStr(""));
      if !name.JStr? || !IsShellTool(name.s) then None
      else
        var input := Get(doc.fields, "tool_input", JObj(map[]));
        if !input.JObj? then None
        else
          var command := Get(input.fields, "command", JStr(""));
          if !command.JStr? || command.s == "" then None else Some(command.s)
  }

  /** The decision for a command that is vetted. */
  function CommandDecision(c: string, order: seq<string>, current: Option<string>): Decision
    requires ProtectedOrder(order)
  {
    if RewritesHistory(c) then DenyWith(RewriteReason)
    else match ProtectedPushError(c, order, current)
      case Some(e) => DenyWith(e)
      case None => Allow
  }

  /** `main`, given whether stdin is a terminal, what `json.load` made of
      it, the set's iteration order and the current branch. */
  function Hook(tty: bool, input: Decoded, order: seq<string>, current: Option<string>): Decision
    requires ProtectedOrder(order)
  {
    if tty then Silent
    else if input.Malformed? then Allow
    else match ShellCommand(input.doc)
      case None => Allow
      case Some(c) => CommandDecision(c, order, current)
  }

  /** The hook's promises: it is silent exactly on a terminal; it only
      denies a vetted shell command; a history rewrite is denied with the
      fixed reason whatever the branch; a command without `git push` that
      rewrites nothing is allowed; every deny shows its reason. */
  lemma HookPolicy(tty: bool, input: Decoded, order: seq<string>, current: Option<string>)
    requires ProtectedOrder(order)
    ensures Hook(tty, input, order, current).Silent? <==> tty
    ensures !tty && (input.Malformed? || ShellCommand(input.doc).None?) ==> Hook(tty, input, order, current) == Allow
    ensures Hook(tty, input, order, current).Deny? ==>
      input.Parsed? && ShellCommand(input.doc).Some? && Hook(tty, input, order, current).systemMessage ==
        "\U{1F6AB} Blocked: " + Hook(tty, input, order, current).reason
    ensures !tty && input.Parsed? && ShellCommand(input.doc).Some? ==>
      var c := ShellCommand(input.doc).value;
      && (RewritesHistory(c) ==> Hook(tty, input, order, current) == DenyWith(RewriteReason))
      && (!RewritesHistory(c) && !HasGitPush(c) ==> Hook(tty, input, order, current) == Allow)
  {
    if !tty && input.Parsed? && ShellCommand(input.doc).Some? {
      ProtectedPushPolicy(ShellCommand(input.doc).value, order, current);
    }
  }

  /** A tool other than the shell is always allowed. */
  lemma OtherToolsAllowed(fields: map<string, Json>, name: string, order: seq<string>, current: Option<string>)
    requires ProtectedOrder(order)
    requires "tool_name" in fields && fields["tool_name"] == JStr(name) && !IsShellTool(name)
    ensures Hook(false, Parsed(JObj(fields)), order, current) == Allow
  {
  }
}
