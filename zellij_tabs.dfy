/** The deterministic parts of the Zellij tab namer: cleaning the names a
    language model proposes, checking that the model named every tab,
    the fallback names, reading the session list and the tab list that
    `zellij` prints, the screen dump it keeps, finding the tab the script
    was started from, and choosing the session to act on. The `zellij`
    processes, the model and the clock are outside the model: what they
    print or answer is passed in. */
module ZellijTabs {
  import opened Text

  const MaxNameLength: nat := 20

  const Quotes: set<char> := {'"', '\''}

  /** A name as the script cleans it: surrounding whitespace and then
      surrounding quotes removed, lower-cased, spaces turned into hyphens,
      cut to twenty characters. */
  function CleanName(name: string): (r: string)
    ensures |r| <= MaxNameLength
    ensures ' ' !in r
    ensures forall k :: 0 <= k < |r| ==> !('A' <= r[k] <= 'Z')
  {
    var lowered := Lower(StripChars(Strip(name), Quotes));
    LowerHasNoUpper(StripChars(Strip(name), Quotes));
    var s := ReplaceChar(lowered, ' ', '-');
    PrefixKeeps(s, MaxNameLength);
    Take(s, MaxNameLength)
  }

  lemma LowerHasNoUpper(s: string)
    ensures forall k :: 0 <= k < |Lower(s)| ==> !('A' <= Lower(s)[k] <= 'Z')
  {
  }

  /** Cutting a name keeps it free of spaces and capitals. */
  lemma PrefixKeeps(s: string, n: nat)
    requires ' ' !in s && forall k :: 0 <= k < |s| ==> !('A' <= s[k] <= 'Z')
    ensures ' ' !in Take(s, n) && forall k :: 0 <= k < |Take(s, n)| ==> !('A' <= Take(s, n)[k] <= 'Z')
  {
    var r := Take(s, n);
    assert forall k :: 0 <= k < |r| ==> r[k] == s[k];
  }

  /** A character a clean name may hold. */
  predicate IsNameChar(c: char) {
    ('a' <= c <= 'z') || IsDigit(c) || c == '-' || c == '_' || c == '.'
  }

  /** A short name made of lower-case letters, digits and `-_.` comes
      out of the cleaning unchanged. */
  lemma CleanNameKeepsClean(name: string)
    requires |name| <= MaxNameLength
    requires forall k :: 0 <= k < |name| ==> IsNameChar(name[k])
    ensures CleanName(name) == name
  {
    assert forall k :: 0 <= k < |name| ==> !IsSpace(name[k]);
    StripNoSpace(name);
    NothingToStrip(name, Quotes);
    assert Lower(name) == name;
  }

  /** Stripping characters that do not occur changes nothing. */
  lemma NothingToStrip(s: string, chars: set<char>)
    requires forall k :: 0 <= k < |s| ==> s[k] !in chars
    ensures StripChars(s, chars) == s
  {
  }

  /** The name of the current tab, given the screen dump and the model's
      answer (`None` when asking it raised): `shell` for a blank screen,
      a failed request or an answer that cleans to nothing. */
  function SingleTabName(screen: string, reply: Option<string>): (name: string)
    ensures name != "" && |name| <= MaxNameLength && ' ' !in name
    ensures Strip(screen) == "" || reply.None? ==> name == "shell"
    ensures Strip(screen) != "" && reply.Some? ==>
      name == (if CleanName(reply.value) == "" then "shell" else CleanName(reply.value))
  {
    if Strip(screen) == "" then "shell"
    else match reply
      case None => "shell"
      case Some(answer) => if CleanName(answer) == "" then "shell" else CleanName(answer)
  }

  /** What the output validator of the multi-tab agent does: ask the
      model again, or return the cleaned names. */
  datatype Validated = Retry(message: string) | Names(names: seq<string>)

  function RetryMessage(expected: nat, got: nat): string {
    "Expected exactly " + NatToStr(expected) + " tab names, got " + NatToStr(got) + ". "
      + "Please return exactly " + NatToStr(expected) + " names, one per tab."
  }

  function ValidateTabCount(expected: nat, output: seq<string>): (r: Validated)
    ensures r.Retry? <==> |output| != expected
    ensures r.Retry? ==> r.message == RetryMessage(expected, |output|)
    ensures r.Names? ==> (|r.names| == expected
      && forall k :: 0 <= k < expected ==> r.names[k] == CleanName(output[k]))
  {
    if |output| != expected then Retry(RetryMessage(expected, |output|))
    else Names(seq(|output|, k requires 0 <= k < |output| => CleanName(output[k])))
  }

  /** Validated names are as many as there are tabs, each at most twenty
      characters and free of spaces. */
  lemma ValidatedNamesAreClean(expected: nat, output: seq<string>)
    requires |output| == expected
    ensures ValidateTabCount(expected, output).Names?
    ensures var ns := ValidateTabCount(expected, output).names;
      |ns| == expected && forall k :: 0 <= k < |ns| ==> |ns[k]| <= MaxNameLength && ' ' !in ns[k]
  {
  }

  /** The names used when the model fails: `tab-1` up to `tab-n`. */
  function FallbackNames(n: nat): (r: seq<string>)
    ensures |r| == n
    ensures forall i :: 0 <= i < n ==> r[i] == "tab-" + NatToStr(i + 1)
  {
    seq(n, i requires 0 <= i < n => "tab-" + NatToStr(i + 1))
  }

  /** No two tabs get the same fallback name. */
  lemma FallbackNamesDistinct(n: nat, i: nat, j: nat)
    requires i < n && j < n && i != j
    ensures FallbackNames(n)[i] != FallbackNames(n)[j]
  {
    var r := FallbackNames(n);
    assert r[i][4..] == NatToStr(i + 1);
    assert r[j][4..] == NatToStr(j + 1);
    assert DigitsValue(r[i][4..]) != DigitsValue(r[j][4..]);
  }

  /** The names the script applies: those the validator returned, or the
      fallback when the model failed or never gave the right number. */
  function ChosenNames(numTabs: nat, reply: Option<seq<string>>): (names: seq<string>)
    ensures |names| == numTabs
    ensures reply.None? || |reply.value| != numTabs ==> names == FallbackNames(numTabs)
    ensures reply.Some? && |reply.value| == numTabs ==> names == ValidateTabCount(numTabs, reply.value).names
  {
    match reply
    case None => FallbackNames(numTabs)
    case Some(output) =>
      match ValidateTabCount(numTabs, output)
      case Names(ns) => ns
      case Retry(_) => FallbackNames(numTabs)
  }

  // ---------------------------------------------------------------------
  // Escape sequences
  // ---------------------------------------------------------------------

  predicate IsParamChar(c: char) {
    IsDigit(c) || c == ';'
  }

  /** The end of the run of parameter characters starting at `i`. */
  function ParamEnd(s: string, i: nat): (j: nat)
    requires i <= |s|
    ensures i <= j <= |s| && forall k :: i <= k < j ==> IsParamChar(s[k])
    ensures j < |s| ==> !IsParamChar(s[j])
    decreases |s| - i
  {
    if i == |s| || !IsParamChar(s[i]) then i else ParamEnd(s, i + 1)
  }

  /** The length of the colour sequence `ESC [ <digits and ;> m` at the
      front of `s`, if there is one. */
  function EscapeLength(s: string): (r: Option<nat>)
    ensures r.Some? ==> (3 <= r.value <= |s| && s[0] == '\U{1B}' && s[1] == '['
      && s[r.value - 1] == 'm' && forall k :: 2 <= k < r.value - 1 ==> IsParamChar(s[k]))
    ensures |s| == 0 || s[0] != '\U{1B}' ==> r.None?
  {
    if |s| < 2 || s[0] != '\U{1B}' || s[1] != '[' then None
    else
      var j := ParamEnd(s, 2);
      if j < |s| && s[j] == 'm' then Some(j + 1) else None
  }

  /** Every colour sequence removed, scanning from left to right. */
  function RemoveAnsi(s: string): (r: string)
    ensures |r| <= |s|
    decreases |s|
  {
    if |s| == 0 then ""
    else match EscapeLength(s)
      case Some(n) => RemoveAnsi(s[n..])
      case None => [s[0]] + RemoveAnsi(s[1..])
  }

  /** Text without an escape character is left alone. */
  lemma {:induction false} RemoveAnsiPlain(s: string)
    requires '\U{1B}' !in s
    ensures RemoveAnsi(s) == s
    decreases |s|
  {
    if |s| > 0 {
      assert '\U{1B}' !in s[1..];
      RemoveAnsiPlain(s[1..]);
    }
  }

  /** A colour sequence at the front goes, the rest is cleaned as usual. */
  lemma RemoveAnsiDropsColour(digits: string, rest: string)
    requires forall k :: 0 <= k < |digits| ==> IsParamChar(digits[k])
    ensures RemoveAnsi("\U{1B}[" + digits + "m" + rest) == RemoveAnsi(rest)
  {
    var s := "\U{1B}[" + digits + "m" + rest;
    assert forall k :: 2 <= k < 2 + |digits| ==> s[k] == digits[k - 2];
    assert s[2 + |digits|] == 'm';
    assert ParamEnd(s, 2) == 2 + |digits|;
    assert s[3 + |digits|..] == rest;
  }

  // ---------------------------------------------------------------------
  // Sessions
  // ---------------------------------------------------------------------

  /** A line of `zellij list-sessions` that names a live session. */
  predicate Kept(line: string) {
    line != "" && !Contains(line, "EXITED")
  }

  function KeptLines(lines: seq<string>): (r: seq<string>)
    ensures |r| <= |lines|
    ensures forall k :: 0 <= k < |r| ==> Kept(r[k])
    decreases |lines|
  {
    if |lines| == 0 then []
    else
      var init := KeptLines(lines[..|lines| - 1]);
      if Kept(lines[|lines| - 1]) then init + [lines[|lines| - 1]] else init
  }

  /** The session named on a kept line: its first word without colours. */
  function SessionOf(line: string): string
    requires Words(line) != []
  {
    RemoveAnsi(Words(line)[0])
  }

  /** The sessions listed in `lines`; `None` when a kept line holds only
      whitespace, where taking its first word raises an uncaught
      `IndexError`. */
  function SessionNames(lines: seq<string>): (r: Option<seq<string>>)
    ensures r.Some? <==> forall k :: 0 <= k < |KeptLines(lines)| ==> Words(KeptLines(lines)[k]) != []
    ensures r.Some? ==> (|r.value| == |KeptLines(lines)|
      && forall k :: 0 <= k < |r.value| ==> r.value[k] == SessionOf(KeptLines(lines)[k]))
    decreases |lines|
  {
    if |lines| == 0 then Some([])
    else
      var init := SessionNames(lines[..|lines| - 1]);
      var last := lines[|lines| - 1];
      var kept := KeptLines(lines[..|lines| - 1]);
      assert KeptLines(lines) == if Kept(last) then kept + [last] else kept;
      assert forall k :: 0 <= k < |kept| ==> KeptLines(lines)[k] == kept[k];
      if !Kept(last) then init
      else if Words(last) == [] then
        assert KeptLines(lines)[|kept|] == last;
        None
      else if init.None? then None
      else Some(init.value + [SessionOf(last)])
  }

  /** Lines that are empty or mention `EXITED` never yield a session. */
  lemma ExitedLinesIgnored(lines: seq<string>, line: string)
    requires !Kept(line)
    ensures SessionNames(lines + [line]) == SessionNames(lines)
  {
    assert (lines + [line])[..|lines|] == lines;
  }

  /** `get_active_sessions`, given what `zellij list-sessions` printed
      (`None` when it timed out or is not installed). */
  method ActiveSessions(stdout: Option<string>) returns (sessions: Option<seq<string>>)
    ensures stdout.None? ==> sessions == Some([])
    ensures stdout.Some? ==> sessions == SessionNames(Split(Strip(stdout.value), '\n'))
  {
    if stdout.None? {
      return Some([]);
    }
    var lines := Split(Strip(stdout.value), '\n');
    var found: seq<string> := [];
    var k := 0;
    while k < |lines|
      invariant k <= |lines|
      invariant SessionNames(lines[..k]) == Some(found)
    {
      var line := lines[k];
      assert lines[..k + 1][..k] == lines[..k];
      if Kept(line) {
        var words := Words(line);
        if words == [] {
          assert lines[..k + 1] == lines[..k + 1];
          sessions := None;
          assert SessionNames(lines[..k + 1]) == None;
          SessionsStayFailed(lines, k + 1);
          return;
        }
        found := found + [RemoveAnsi(words[0])];
      }
      k := k + 1;
    }
    assert lines[..k] == lines;
    return Some(found);
  }

  /** Once a prefix of the listing fails, the whole listing does. */
  lemma {:induction false} SessionsStayFailed(lines: seq<string>, k: nat)
    requires k <= |lines| && SessionNames(lines[..k]) == None
    ensures SessionNames(lines) == None
    decreases |lines| - k
  {
    if k < |lines| {
      assert lines[..k + 1][..k] == lines[..k];
      SessionsStayFailed(lines, k + 1);
    } else {
      assert lines[..k] == lines;
    }
  }

  /** Which session the script talks to, or why it stops before naming
      anything. */
  datatype SessionChoice =
    | UseSession(name: string)
    | CurrentSession
    | Fail(message: string)
    | Crashed

  /** The session choice of `main`: an explicit `--session` wins; inside
      Zellij the current session is used; outside it exactly one live
      session must exist. */
  function ChooseSession(sessionArg: Option<string>, insideZellij: bool, listing: Option<string>): (c: SessionChoice)
    ensures sessionArg.Some? && sessionArg.value != "" ==> c == UseSession(sessionArg.value)
    ensures (sessionArg.None? || sessionArg.value == "") && insideZellij ==> c == CurrentSession
    ensures (sessionArg.None? || sessionArg.value == "") && !insideZellij ==>
      var active := if listing.None? then Some([]) else SessionNames(Split(Strip(listing.value), '\n'));
      && (active.None? <==> c == Crashed)
      && (active.Some? ==>
        && (c.UseSession? <==> |active.value| == 1)
        && (c.UseSession? ==> c.name == active.value[0])
        && (|active.value| == 0 ==> c == Fail("Error: No active Zellij sessions found"))
        && (|active.value| > 1 ==> c == Fail("Error: Multiple active sessions: " + Join(active.value, ", ")
                                              + "\nUse --session to specify which one")))
  {
    if sessionArg.Some? && sessionArg.value != "" then UseSession(sessionArg.value)
    else if insideZellij then CurrentSession
    else
      var active := if listing.None? then Some([]) else SessionNames(Split(Strip(listing.value), '\n'));
      if active.None? then Crashed
      else if |active.value| == 0 then Fail("Error: No active Zellij sessions found")
      else if |active.value| == 1 then UseSession(active.value[0])
      else Fail("Error: Multiple active sessions: " + Join(active.value, ", ")
                + "\nUse --session to specify which one")
  }

  // ---------------------------------------------------------------------
  // Tabs and screens
  // ---------------------------------------------------------------------

  /** `query_tab_count`, given the stripped output of `query-tab-names`:
      no tabs for no output, else one per line. */
  function TabCount(output: string): (n: nat)
    ensures output == "" <==> n == 0
    ensures output != "" ==> n == CountChar(Strip(output), '\n') + 1
  {
    if output == "" then 0
    else
      SplitLength(Strip(output), '\n');
      |Split(Strip(output), '\n')|
  }

  const ScreenLines: nat := 30

  /** `dump_screen`, given the dumped file's text (`None` when it could
      not be read): its last thirty lines after stripping. */
  function DumpScreen(content: Option<string>): (screen: string)
    ensures content.None? ==> screen == ""
    ensures content.Some? ==>
      Split(screen, '\n') == TakeLast(Split(Strip(content.value), '\n'), ScreenLines)
  {
    if content.None? then ""
    else
      var lines := TakeLast(Split(Strip(content.value), '\n'), ScreenLines);
      SplitJoin(lines, '\n');
      Join(lines, "\n")
  }

  /** A screen dump never holds more than thirty lines. */
  lemma DumpScreenBounded(content: Option<string>)
    ensures CountChar(DumpScreen(content), '\n') < ScreenLines
  {
    SplitLength(DumpScreen(content), '\n');
  }

  /** The tab the script was started from: the last one whose screen shows
      the marker it printed, or the first tab. */
  function MarkedTab(screens: seq<string>, marker: string): (tab: nat)
    ensures 1 <= tab && (tab <= |screens| || tab == 1)
    ensures (exists k :: 0 <= k < |screens| && Contains(screens[k], marker)) ==>
      tab <= |screens| && Contains(screens[tab - 1], marker)
    ensures forall k :: tab <= k < |screens| ==> !Contains(screens[k], marker)
    ensures (forall k :: 0 <= k < |screens| ==> !Contains(screens[k], marker)) ==> tab == 1
    decreases |screens|
  {
    if |screens| == 0 then 1
    else if Contains(screens[|screens| - 1], marker) then |screens|
    else
      var init := screens[..|screens| - 1];
      var tab := MarkedTab(init, marker);
      assert forall k :: 0 <= k < |init| ==> init[k] == screens[k];
      tab
  }

  /** A `zellij action` the script issues. */
  datatype Action = GoToTab(tab: nat) | RenameTab(name: string)

  /** Going to tabs 1 .. `n` in turn. */
  function Visits(n: nat): (r: seq<Action>)
    ensures |r| == n
    ensures forall k :: 0 <= k < n ==> r[k] == GoToTab(k + 1)
  {
    if n == 0 then [] else Visits(n - 1) + [GoToTab(n)]
  }

  /** Going to each tab in turn and renaming it to its name. */
  function Renames(names: seq<string>): (r: seq<Action>)
    ensures |r| == 2 * |names|
    ensures forall k :: 0 <= k < |names| ==>
      r[2 * k] == GoToTab(k + 1) && r[2 * k + 1] == RenameTab(names[k])
    decreases |names|
  {
    if |names| == 0 then []
    else
      var init := names[..|names| - 1];
      assert forall k :: 0 <= k < |init| ==> init[k] == names[k];
      Renames(init) + [GoToTab(|names|), RenameTab(names[|names| - 1])]
  }

  /** The screen of each tab, given what its dump holds. */
  function ScreenOf(dumpOf: nat -> Option<string>): nat -> string {
    (tab: nat) => DumpScreen(dumpOf(tab))
  }

  /** The screens of tabs 1 .. `n`. */
  function Screens(n: nat, screenOf: nat -> string): (r: seq<string>)
    ensures |r| == n
    ensures forall k :: 0 <= k < n ==> r[k] == screenOf(k + 1)
  {
    if n == 0 then [] else Screens(n - 1, screenOf) + [screenOf(n)]
  }

  lemma MarkedTabAppend(screens: seq<string>, screen: string, marker: string)
    ensures MarkedTab(screens + [screen], marker) ==
      if Contains(screen, marker) then |screens| + 1 else MarkedTab(screens, marker)
  {
    assert (screens + [screen])[..|screens|] == screens;
  }

  /** The first loop of `rename_all_tabs`: visit every tab, dump its
      screen, and remember the last tab showing the marker. */
  method CollectScreens(n: nat, screenOf: nat -> string, marker: string)
    returns (screens: seq<string>, original: nat, actions: seq<Action>)
    ensures screens == Screens(n, screenOf)
    ensures original == MarkedTab(screens, marker)
    ensures actions == Visits(n)
  {
    original := 1;
    screens := [];
    actions := [];
    var i := 1;
    while i <= n
      invariant 1 <= i <= n + 1
      invariant screens == Screens(i - 1, screenOf)
      invariant original == MarkedTab(screens, marker)
      invariant actions == Visits(i - 1)
    {
      actions := actions + [GoToTab(i)];
      var screen := screenOf(i);
      MarkedTabAppend(screens, screen, marker);
      assert screens + [screen] == Screens(i, screenOf);
      screens := screens + [screen];
      if Contains(screen, marker) {
        original := i;
      }
      assert original == MarkedTab(screens, marker);
      i := i + 1;
    }
  }

  /** The second loop: rename tab `i` to the `i`-th name. */
  method ApplyNames(names: seq<string>) returns (actions: seq<Action>)
    ensures actions == Renames(names)
  {
    actions := [];
    var j := 0;
    while j < |names|
      invariant j <= |names|
      invariant actions == Renames(names[..j])
    {
      assert names[..j + 1][..j] == names[..j];
      actions := actions + [GoToTab(j + 1), RenameTab(names[j])];
      j := j + 1;
    }
    assert names[..j] == names;
  }

  /** How `rename_all_tabs` ends. */
  datatype RenameAllOutcome =
    | CouldNotQuery
    | Renamed(actions: seq<Action>, names: seq<string>, originalTab: nat)

  /** `rename_all_tabs`, given the output of `query-tab-names`, the text
      each tab's screen dump holds, the marker the script printed, and the
      model's final answer (`None` when asking it raised). */
  method RenameAllTabs(tabNames: string, dumpOf: nat -> Option<string>, marker: string,
                       reply: Option<seq<string>>)
    returns (out: RenameAllOutcome)
    ensures TabCount(tabNames) == 0 <==> out == CouldNotQuery
    ensures out.Renamed? ==>
      var n := TabCount(tabNames);
      && out.originalTab == MarkedTab(Screens(n, ScreenOf(dumpOf)), marker)
      && out.names == ChosenNames(n, reply)
      && out.actions == Visits(n) + [GoToTab(out.originalTab)]
                        + Renames(out.names) + [GoToTab(out.originalTab)]
  {
    var n := TabCount(tabNames);
    if n == 0 {
      return CouldNotQuery;
    }
    var screens, original, visits := CollectScreens(n, ScreenOf(dumpOf), marker);
    var names := ChosenNames(n, reply);
    var renames := ApplyNames(names);
    var actions := visits + [GoToTab(original)] + renames + [GoToTab(original)];
    return Renamed(actions, names, original);
  }
}
