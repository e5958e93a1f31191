/** The deterministic parts of the commit-message generator: turning the
    model's structured answer into a Conventional Commits message (the
    `type(scope): subject` header and its body, as items 4 to 6 of the
    Conventional Commits 1.0.0 specification describe), and the git
    command lines it builds. The language model, git itself, the
    clipboard and the editor are outside the model. */
module CommitMessage {
  import opened Text

  /** The structured answer the model returns. */
  datatype ConventionalCommit = ConventionalCommit(
    commitType: string,
    scope: Option<string>,
    subject: string,
    body: Option<string>)

  /** Python's truth value of an optional string. */
  predicate Present(s: Option<string>) {
    s.Some? && s.value != ""
  }

  /** The `type(scope): subject` header; an empty scope is left out. */
  function Header(c: ConventionalCommit): (h: string)
    ensures StartsWith(h, c.commitType) && EndsWith(h, ": " + c.subject)
  {
    var scopeText := if Present(c.scope) then "(" + c.scope.value + ")" else "";
    var h := c.commitType + scopeText + ": " + c.subject;
    assert h[..|c.commitType|] == c.commitType;
    assert h[|h| - |": " + c.subject|..] == ": " + c.subject;
    h
  }

  /** Reading a header back: the type runs to the first `:`, or to a `(`
      that opens a scope closed just before that `:`, and the subject
      follows `: `. */
  function ParseHeader(h: string): Option<(string, Option<string>, string)> {
    if ':' !in h then None
    else
      var (before, after) := SplitFirst(h, ':');
      if |after| == 0 || after[0] != ' ' then None
      else if '(' in before && EndsWith(before, ")") then
        var (t, rest) := SplitFirst(before, '(');
        if |rest| == 0 then None else Some((t, Some(rest[..|rest| - 1]), after[1..]))
      else Some((before, None, after[1..]))
  }

  /** A header reads back as its parts whenever the type holds neither `:`
      nor `(` and the scope holds no `:`; any subject does. */
  lemma HeaderReadsBack(c: ConventionalCommit)
    requires ':' !in c.commitType && '(' !in c.commitType
    requires c.scope.Some? ==> ':' !in c.scope.value
    ensures ParseHeader(Header(c)) == Some((c.commitType, if Present(c.scope) then c.scope else None, c.subject))
  {
    if Present(c.scope) {
      assert Header(c) == c.commitType + "(" + c.scope.value + ")" + ": " + c.subject;
      ScopedHeader(c.commitType, c.scope.value, c.subject);
    } else {
      assert Header(c) == c.commitType + ": " + c.subject;
      PlainHeader(c.commitType, c.subject);
    }
  }

  lemma ScopedHeader(t: string, scope: string, subject: string)
    requires ':' !in t && '(' !in t && ':' !in scope
    ensures ParseHeader(t + "(" + scope + ")" + ": " + subject) == Some((t, Some(scope), subject))
  {
    var closed := scope + ")";
    var before := t + ['('] + closed;
    var after := " " + subject;
    assert t + "(" + scope + ")" + ": " + subject == before + [':'] + after;
    assert ':' !in before;
    SplitFirstAt(before, after, ':');
    OpenedScope(t, scope, closed, before);
  }

  lemma OpenedScope(t: string, scope: string, closed: string, before: string)
    requires '(' !in t && closed == scope + ")" && before == t + ['('] + closed
    ensures '(' in before && EndsWith(before, ")")
    ensures SplitFirst(before, '(') == (t, closed) && closed[..|closed| - 1] == scope
  {
    assert before[|t|] == '(' && before[|before| - 1] == ')';
    SplitFirstAt(t, closed, '(');
  }

  lemma PlainHeader(t: string, subject: string)
    requires ':' !in t && '(' !in t
    ensures ParseHeader(t + ": " + subject) == Some((t, None, subject))
  {
    var after := " " + subject;
    assert t + ": " + subject == t + [':'] + after;
    SplitFirstAt(t, after, ':');
  }

  const SentenceEnd: string := ". "
  const SentenceBreak: string := ".\n"

  /** Each line with every `. ` turned into `.\n`. */
  function BreakSentences(lines: seq<string>): (r: seq<string>)
    ensures |r| == |lines|
    ensures forall k :: 0 <= k < |lines| ==> r[k] == ReplaceAll(lines[k], SentenceEnd, SentenceBreak)
    decreases |lines|
  {
    if |lines| == 0 then []
    else [ReplaceAll(lines[0], SentenceEnd, SentenceBreak)] + BreakSentences(lines[1..])
  }

  /** The body as `to_message` lays it out: stripped, split into lines,
      one sentence per line, joined again. */
  function FormatBody(body: string): string {
    Join(BreakSentences(Split(Strip(body), '\n')), "\n")
  }

  /** `ConventionalCommit.to_message`: the header, then the laid-out
      body after a blank line when there is one. */
  function ToMessage(c: ConventionalCommit): (m: string)
    ensures StartsWith(m, Header(c))
  {
    if !Present(c.body) then Header(c)
    else
      var m := Header(c) + "\n\n" + FormatBody(c.body.value);
      assert m[..|Header(c)|] == Header(c);
      m
  }

  /** Reading a message back: its first line, and what follows the blank
      line after it. */
  function ParseMessage(m: string): Option<(string, Option<string>)> {
    if '\n' !in m then Some((m, None))
    else
      var (first, rest) := SplitFirst(m, '\n');
      if |rest| > 0 && rest[0] == '\n' then Some((first, Some(rest[1..]))) else None
  }

  /** The header is the message's first line and the formatted body comes
      after one blank line, whenever the header is a single line. */
  lemma MessageReadsBack(c: ConventionalCommit)
    requires '\n' !in c.commitType && '\n' !in c.subject
    requires c.scope.Some? ==> '\n' !in c.scope.value
    ensures ParseMessage(ToMessage(c)) == Some((Header(c), if Present(c.body) then Some(FormatBody(c.body.value)) else None))
  {
    var h := Header(c);
    assert '\n' !in h;
    if Present(c.body) {
      var rest := "\n" + FormatBody(c.body.value);
      assert ToMessage(c) == h + ['\n'] + rest;
      SplitFirstAt(h, rest, '\n');
      assert rest[1..] == FormatBody(c.body.value);
    }
  }

  /** Splitting into lines and joining again keeps the line breaks: the
      formatted body is the stripped body with every `. ` replaced. */
  lemma FormatBodyReplaces(body: string)
    ensures FormatBody(body) == ReplaceAll(Strip(body), SentenceEnd, SentenceBreak)
  {
    var lines := Split(Strip(body), '\n');
    JoinBreaks(lines);
  }

  lemma {:induction false} JoinBreaks(lines: seq<string>)
    requires forall k :: 0 <= k < |lines| ==> '\n' !in lines[k]
    ensures Join(BreakSentences(lines), "\n") == ReplaceAll(Join(lines, "\n"), SentenceEnd, SentenceBreak)
    decreases |lines|
  {
    if |lines| > 1 {
      var first := lines[0];
      var rest := Join(lines[1..], "\n");
      JoinBreaks(lines[1..]);
      assert BreakSentences(lines)[1..] == BreakSentences(lines[1..]);
      SplitAtNewline(first, rest);
    }
  }

  /** A `. ` never spans a line feed, so replacing works line by line. */
  lemma {:induction false} SplitAtNewline(first: string, rest: string)
    ensures Replaced(first + "\n" + rest) == Replaced(first) + "\n" + Replaced(rest)
    decreases |first|
  {
    if |first| == 0 {
      NewlineFront(rest);
    } else if |first| == 1 {
      NewlineFront(rest);
      SplitShort(first, rest);
    } else if first[..2] == SentenceEnd {
      SplitAtNewline(first[2..], rest);
      SplitSentence(first, rest);
    } else {
      SplitAtNewline(first[1..], rest);
      SplitPlain(first, rest);
    }
  }

  /** `ReplaceAll` of the sentence end, named for the proofs. */
  function Replaced(s: string): string {
    ReplaceAll(s, SentenceEnd, SentenceBreak)
  }

  lemma NewlineFront(rest: string)
    ensures Replaced("\n" + rest) == "\n" + Replaced(rest)
  {
    var s := "\n" + rest;
    assert s[1..] == rest;
  }

  lemma SplitShort(first: string, rest: string)
    requires |first| == 1 && Replaced("\n" + rest) == "\n" + Replaced(rest)
    ensures Replaced(first + "\n" + rest) == Replaced(first) + "\n" + Replaced(rest)
  {
    var s := first + "\n" + rest;
    assert s[1] == '\n' && s[1..] == "\n" + rest;
  }

  lemma SplitSentence(first: string, rest: string)
    requires |first| >= 2 && first[..2] == SentenceEnd
    requires Replaced(first[2..] + "\n" + rest) == Replaced(first[2..]) + "\n" + Replaced(rest)
    ensures Replaced(first + "\n" + rest) == Replaced(first) + "\n" + Replaced(rest)
  {
    var s := first + "\n" + rest;
    assert s[..2] == first[..2];
    assert s[2..] == first[2..] + "\n" + rest;
  }

  lemma SplitPlain(first: string, rest: string)
    requires |first| >= 2 && first[..2] != SentenceEnd
    requires Replaced(first[1..] + "\n" + rest) == Replaced(first[1..]) + "\n" + Replaced(rest)
    ensures Replaced(first + "\n" + rest) == Replaced(first) + "\n" + Replaced(rest)
  {
    var s := first + "\n" + rest;
    assert s[..2] == first[..2];
    assert s[1..] == first[1..] + "\n" + rest;
  }

  /** No `. ` is left after the replacement. */
  lemma {:induction false} NoSentenceEndLeft(s: string)
    ensures !Contains(ReplaceAll(s, SentenceEnd, SentenceBreak), SentenceEnd)
    decreases |s|
  {
    var r := ReplaceAll(s, SentenceEnd, SentenceBreak);
    if |s| < 2 {
      assert r == s;
      assert !OccursAt(r, SentenceEnd, 0);
    } else if s[..2] == SentenceEnd {
      var t := ReplaceAll(s[2..], SentenceEnd, SentenceBreak);
      NoSentenceEndLeft(s[2..]);
      assert r == SentenceBreak + t;
      NotAtFront(SentenceBreak, t);
    } else {
      var t := ReplaceAll(s[1..], SentenceEnd, SentenceBreak);
      NoSentenceEndLeft(s[1..]);
      assert r == [s[0]] + t;
      if s[0] == '.' && |t| > 0 && t[0] == ' ' {
        FirstOfReplaced(s[1..]);
        assert false;
      }
      NotAtFront([s[0]], t);
    }
  }

  /** The first character of the result: the replacement's, or the text's own. */
  lemma FirstOfReplaced(s: string)
    requires |s| > 0
    ensures var r := ReplaceAll(s, SentenceEnd, SentenceBreak);
      |r| > 0 && r[0] == (if |s| >= 2 && s[..2] == SentenceEnd then '.' else s[0])
  {
  }

  /** A short prefix that cannot begin a `. ` adds none in front of text
      that has none. */
  lemma NotAtFront(a: string, t: string)
    requires 1 <= |a| <= 2 && !Contains(t, SentenceEnd)
    requires |a| == 2 ==> a == SentenceBreak
    requires |a| == 1 ==> !(a[0] == '.' && |t| > 0 && t[0] == ' ')
    ensures !Contains(a + t, SentenceEnd)
  {
    var s := a + t;
    forall i | 0 <= i <= |s| - 2
      ensures !OccursAt(s, SentenceEnd, i)
    {
      if i >= |a| {
        assert !OccursAt(t, SentenceEnd, i - |a|);
        assert t[i - |a|..i - |a| + 2] == s[i..i + 2];
      } else if |a| == 2 {
        assert s[1] == '\n';
        if i == 0 {
          assert s[i..i + 2][1] == '\n';
        } else {
          assert s[i..i + 2][0] == '\n';
        }
      } else {
        assert s[0] == a[0] && s[1] == t[0];
        assert s[0..2][0] == s[0] && s[0..2][1] == s[1];
      }
    }
  }

  /** The message with a body: the header, a blank line, and a body that
      holds no `. ` any more. */
  lemma MessageLayout(c: ConventionalCommit)
    requires Present(c.body)
    ensures ToMessage(c) == Header(c) + "\n\n" + ReplaceAll(Strip(c.body.value), SentenceEnd, SentenceBreak)
    ensures !Contains(FormatBody(c.body.value), SentenceEnd)
  {
    FormatBodyReplaces(c.body.value);
    NoSentenceEndLeft(Strip(c.body.value));
  }

  /** The `git diff` command of `get_diff`. */
  method DiffCommand(allChanges: bool) returns (command: seq<string>)
    ensures |command| == if allChanges then 4 else 5
    ensures command[..2] == ["git", "diff"]
    ensures ("--staged" in command) <==> !allChanges
    ensures command[|command| - 2..] == ["--ignore-submodules=dirty", "--patch-with-raw"]
  {
    command := ["git", "diff"];
    if !allChanges {
      command := command + ["--staged"];
    }
    command := command + ["--ignore-submodules=dirty", "--patch-with-raw"];
  }

  /** The `git commit` of `--execute`; the message goes to its standard input. */
  method CommitCommand(allChanges: bool) returns (command: seq<string>)
    ensures |command| == if allChanges then 5 else 4
    ensures command[..2] == ["git", "commit"]
    ensures ("-a" in command) <==> allChanges
    ensures command[|command| - 2..] == ["-F", "-"]
  {
    command := ["git", "commit"];
    if allChanges {
      command := command + ["-a"];
    }
    command := command + ["-F", "-"];
  }

  /** The `git commit` of `--edit`, reading the message from a file. */
  method EditCommand(allChanges: bool, path: string) returns (command: seq<string>)
    ensures |command| == if allChanges then 6 else 5
    ensures command[..4] == ["git", "commit", "--edit", "--verbose"]
    ensures ("-a" in command) <==> allChanges
    ensures command[|command| - 1] == "--file=" + path
  {
    command := ["git", "commit", "--edit", "--verbose"];
    if allChanges {
      command := command + ["-a"];
    }
    command := command + ["--file=" + path];
  }

  const AgentInstructions: string := "Analyze the following git diff and generate a structured conventional commit message.\n"

  const CustomLead: string := "\n\nIMPORTANT: You must also follow this instruction: "

  /** The instructions `build_agent` gives the model. */
  function Instructions(customPrompt: Option<string>): (r: string)
    ensures StartsWith(r, AgentInstructions)
    ensures !Present(customPrompt) <==> r == AgentInstructions
    ensures Present(customPrompt) ==> r == AgentInstructions + CustomLead + customPrompt.value
  {
    if Present(customPrompt) then
      var r := AgentInstructions + CustomLead + customPrompt.value;
      assert r[..|AgentInstructions|] == AgentInstructions;
      r
    else AgentInstructions
  }

  /** What `main` does once the diff is known: exit 1 when git failed,
      exit 0 with a notice when there is nothing to commit, otherwise go on
      to ask the model. */
  datatype DiffOutcome = DiffFailed | NothingToCommit(notice: string) | Proceed(diff: string)

  function AfterDiff(allChanges: bool, diff: Option<string>): (r: DiffOutcome)
    ensures diff.None? <==> r == DiffFailed
    ensures r.Proceed? <==> diff.Some? && Strip(diff.value) != ""
    ensures r.Proceed? ==> r.diff == diff.value
    ensures r.NothingToCommit? ==>
      r.notice == (if allChanges then "No tracked changes found. Nothing to commit."
                   else "No staged changes found. Nothing to commit.")
  {
    if diff.None? then DiffFailed
    else if Strip(diff.value) == "" then
      NothingToCommit(if allChanges then "No tracked changes found. Nothing to commit."
                      else "No staged changes found. Nothing to commit.")
    else Proceed(diff.value)
  }
}
