/** The two model-download scripts: the arguments a llama-swap `cmd` line
    passes to Hugging Face, the one-token check command built from them,
    the pass over the configured models, and (for the older script) the
    configuration block lifted out of `ai.nix`.
    Splitting a command line into words (`shlex.split`), parsing YAML and
    running a program are inputs: `split`, the models in configuration
    order, and `result`. */
module DownloadModels {
  import opened Text
  import opened OverrideText
  import opened Scanning
  import HashFields

  /** The flags whose value names what to download. */
  const Flags: seq<string> := ["-hf", "--hf-repo", "--hf-file", "--mmproj-url"]

  predicate IsFlag(a: string) {
    a in Flags
  }

  /** The arguments kept from a command's words: each recognised flag with
      the word after it, and a last-word flag alone; the word after a flag
      is taken as its value without being looked at. */
  function RelevantArgs(args: seq<string>): seq<string>
    decreases |args|
  {
    if |args| == 0 then []
    else if IsFlag(args[0]) then
      if |args| >= 2 then [args[0], args[1]] + RelevantArgs(args[2..]) else [args[0]]
    else RelevantArgs(args[1..])
  }

  /** `parse_args_from_cmd` on the words of the command. */
  method ParseArgsFromCmd(args: seq<string>) returns (relevant: seq<string>)
    ensures relevant == RelevantArgs(args)
  {
    relevant := [];
    var i := 0;
    while i < |args|
      invariant i <= |args|
      invariant relevant + RelevantArgs(args[i..]) == RelevantArgs(args)
    {
      var arg := args[i];
      if arg in Flags {
        if i + 1 < |args| {
          assert args[i..][2..] == args[i + 2..];
          relevant := relevant + [arg, args[i + 1]];
          i := i + 1;
        } else {
          relevant := relevant + [arg];
        }
      } else {
        assert args[i..][1..] == args[i + 1..];
      }
      i := i + 1;
    }
  }

  /** `xs` is `ys` with some elements left out. */
  predicate IsSubsequence<T(==)>(xs: seq<T>, ys: seq<T>)
    decreases |ys|
  {
    if ys == [] then xs == []
    else (xs != [] && xs[0] == ys[0] && IsSubsequence(xs[1..], ys[1..])) || IsSubsequence(xs, ys[1..])
  }

  lemma {:induction false} SubsequenceNoLonger<T>(xs: seq<T>, ys: seq<T>)
    requires IsSubsequence(xs, ys)
    ensures |xs| <= |ys|
    decreases |ys|
  {
    if ys != [] {
      if xs != [] && xs[0] == ys[0] && IsSubsequence(xs[1..], ys[1..]) {
        SubsequenceNoLonger(xs[1..], ys[1..]);
      } else {
        SubsequenceNoLonger(xs, ys[1..]);
      }
    }
  }

  /** The kept arguments are words of the command, in their order, so
      there are no more of them than words. */
  lemma {:induction false} RelevantArgsSubsequence(args: seq<string>)
    ensures IsSubsequence(RelevantArgs(args), args)
    ensures |RelevantArgs(args)| <= |args|
    decreases |args|
  {
    var r := RelevantArgs(args);
    if |args| > 0 {
      if IsFlag(args[0]) && |args| >= 2 {
        RelevantArgsSubsequence(args[2..]);
        var rest := RelevantArgs(args[2..]);
        assert r[1..] == [args[1]] + rest;
        assert r[1..][1..] == rest;
        assert args[1..][1..] == args[2..];
        assert IsSubsequence(r[1..][1..], args[1..][1..]);
        assert IsSubsequence(r[1..], args[1..]);
      } else if IsFlag(args[0]) {
        assert r[1..] == [];
        assert IsSubsequence(r[1..], args[1..]);
      } else {
        RelevantArgsSubsequence(args[1..]);
      }
    }
    SubsequenceNoLonger(r, args);
  }

  /** Every other kept argument, from the first on, is a flag: a flag is
      never kept as a bare value in the place of a flag, and the value
      after it follows it. */
  lemma {:induction false} FlagsAtEvenPositions(args: seq<string>)
    ensures forall k :: 0 <= k < |RelevantArgs(args)| && k % 2 == 0 ==> IsFlag(RelevantArgs(args)[k])
    decreases |args|
  {
    var r := RelevantArgs(args);
    if |args| > 0 {
      if IsFlag(args[0]) && |args| >= 2 {
        FlagsAtEvenPositions(args[2..]);
        var rest := RelevantArgs(args[2..]);
        forall k | 0 <= k < |r| && k % 2 == 0
          ensures IsFlag(r[k])
        {
          if k >= 2 {
            assert r[k] == rest[k - 2];
          }
        }
      } else if !IsFlag(args[0]) {
        FlagsAtEvenPositions(args[1..]);
      }
    }
  }

  /** Nothing is kept exactly when no word is a recognised flag. */
  lemma {:induction false} NoArgsIffNoFlag(args: seq<string>)
    ensures RelevantArgs(args) == [] <==> forall i :: 0 <= i < |args| ==> !IsFlag(args[i])
    decreases |args|
  {
    if |args| > 0 && !IsFlag(args[0]) {
      NoArgsIffNoFlag(args[1..]);
      if RelevantArgs(args) == [] {
        forall i | 0 <= i < |args|
          ensures !IsFlag(args[i])
        {
          if i > 0 {
            assert args[i] == args[1..][i - 1];
          }
        }
      } else {
        var i :| 0 <= i < |args[1..]| && IsFlag(args[1..][i]);
        assert IsFlag(args[i + 1]);
      }
    }
  }

  /** A flag taken as the value of the flag before it is not examined
      again: it is kept once, as a value, and the word after it is not. */
  lemma ValueIsNotReexamined()
    ensures RelevantArgs(["-hf", "--hf-file", "model.gguf"]) == ["-hf", "--hf-file"]
  {
    assert ["-hf", "--hf-file", "model.gguf"][2..] == ["model.gguf"];
    assert IsFlag("-hf") && !IsFlag("model.gguf");
    assert ["model.gguf"][1..] == [];
  }

  /** A flag that is the last word is kept on its own. */
  lemma {:induction false} TrailingFlagKeptAlone(args: seq<string>, flag: string)
    requires IsFlag(flag) && forall i :: 0 <= i < |args| ==> !IsFlag(args[i])
    ensures RelevantArgs(args + [flag]) == [flag]
    decreases |args|
  {
    if |args| == 0 {
      assert args + [flag] == [flag];
    } else {
      assert (args + [flag])[1..] == args[1..] + [flag];
      TrailingFlagKeptAlone(args[1..], flag);
    }
  }

  /** The arguments that make the program load the model, generate one
      token and print nothing of it. */
  const CheckArgs: seq<string> := ["-p", "System check", "-n", "1", "--no-display-prompt"]

  /** The program run by `download_models.py`, and by `ai/download-models.py`. */
  const LlamaCli := "llama-cli"
  const LlamaCompletion := "llama-completion"

  datatype ModelEntry = ModelEntry(name: string, cmd: string)

  /** The command run for one model, or nothing when the model has no
      `cmd` (an empty one counts as none) or its words hold no recognised
      flag. */
  function PlanModel(m: ModelEntry, split: string -> seq<string>, binary: string): (r: Option<seq<string>>)
    ensures r.None? <==> m.cmd == "" || forall i :: 0 <= i < |split(m.cmd)| ==> !IsFlag(split(m.cmd)[i])
    ensures r.Some? ==> (var args := RelevantArgs(split(m.cmd));
      r.value == [binary] + args + CheckArgs && args != [] && IsFlag(r.value[1]))
  {
    if m.cmd == "" then None
    else
      var args := RelevantArgs(split(m.cmd));
      NoArgsIffNoFlag(split(m.cmd));
      FlagsAtEvenPositions(split(m.cmd));
      if args == [] then None else Some([binary] + args + CheckArgs)
  }

  /** The commands of the models that are not skipped, in order. */
  function Planned(models: seq<ModelEntry>, split: string -> seq<string>, binary: string): seq<seq<string>>
    decreases |models|
  {
    if models == [] then []
    else match PlanModel(models[0], split, binary)
      case None => Planned(models[1..], split, binary)
      case Some(c) => [c] + Planned(models[1..], split, binary)
  }

  /** How running a command ends: it succeeds, it fails (the pass goes
      on), or the program is not installed (the pass stops). */
  datatype RunResult = Succeeded | Failed | NotInstalled

  /** The commands the pass runs: the planned ones up to and including the
      first whose program cannot be found. */
  function Attempts(models: seq<ModelEntry>, split: string -> seq<string>, binary: string,
                    result: seq<string> -> RunResult): seq<seq<string>>
    decreases |models|
  {
    if models == [] then []
    else match PlanModel(models[0], split, binary)
      case None => Attempts(models[1..], split, binary, result)
      case Some(c) => [c] + (if result(c) == NotInstalled then [] else Attempts(models[1..], split, binary, result))
  }

  /** The loop of `main` over the configured models. */
  method DownloadAll(models: seq<ModelEntry>, split: string -> seq<string>, binary: string,
                     result: seq<string> -> RunResult) returns (attempted: seq<seq<string>>)
    ensures attempted == Attempts(models, split, binary, result)
  {
    attempted := [];
    var i := 0;
    while i < |models|
      invariant i <= |models|
      invariant attempted + Attempts(models[i..], split, binary, result) == Attempts(models, split, binary, result)
    {
      var m := models[i];
      AttemptsStep(models, i, split, binary, result);
      if m.cmd != "" {
        var args := ParseArgsFromCmd(split(m.cmd));
        PlanOf(m, split, binary, args);
        if args != [] {
          var cmd := [binary] + args + CheckArgs;
          attempted := attempted + [cmd];
          if result(cmd) == NotInstalled {
            return;
          }
        }
      }
      i := i + 1;
    }
  }

  /** The plan of a model, from the arguments its command keeps. */
  lemma PlanOf(m: ModelEntry, split: string -> seq<string>, binary: string, args: seq<string>)
    requires m.cmd != "" && args == RelevantArgs(split(m.cmd))
    ensures PlanModel(m, split, binary) == if args == [] then None else Some([binary] + args + CheckArgs)
  {
    NoArgsIffNoFlag(split(m.cmd));
  }

  lemma AttemptsStep(models: seq<ModelEntry>, i: nat, split: string -> seq<string>, binary: string,
                     result: seq<string> -> RunResult)
    requires i < |models|
    ensures Attempts(models[i..], split, binary, result) ==
      match PlanModel(models[i], split, binary)
      case None => Attempts(models[i + 1..], split, binary, result)
      case Some(c) => [c] + (if result(c) == NotInstalled then [] else Attempts(models[i + 1..], split, binary, result))
  {
    assert models[i..][1..] == models[i + 1..];
  }

  /** Each planned command is the check command of a configured model,
      so there are no more of them than models. */
  lemma {:induction false} PlannedFromModels(models: seq<ModelEntry>, split: string -> seq<string>, binary: string)
    ensures |Planned(models, split, binary)| <= |models|
    ensures forall k :: 0 <= k < |Planned(models, split, binary)| ==>
      exists j :: 0 <= j < |models| && PlanModel(models[j], split, binary) == Some(Planned(models, split, binary)[k])
    decreases |models|
  {
    if models != [] {
      var p := Planned(models, split, binary);
      var rest := Planned(models[1..], split, binary);
      PlannedFromModels(models[1..], split, binary);
      forall k | 0 <= k < |p|
        ensures exists j :: 0 <= j < |models| && PlanModel(models[j], split, binary) == Some(p[k])
      {
        if PlanModel(models[0], split, binary).Some? && k == 0 {
          assert PlanModel(models[0], split, binary) == Some(p[k]);
        } else {
          var k' := if PlanModel(models[0], split, binary).Some? then k - 1 else k;
          assert p[k] == rest[k'];
          var j :| 0 <= j < |models[1..]| && PlanModel(models[1..][j], split, binary) == Some(rest[k']);
          assert PlanModel(models[j + 1], split, binary) == Some(p[k]);
        }
      }
    }
  }

  /** Nothing is planned exactly when every model is skipped. */
  lemma {:induction false} NothingPlannedIffAllSkipped(models: seq<ModelEntry>, split: string -> seq<string>, binary: string)
    ensures Planned(models, split, binary) == [] <==> forall j :: 0 <= j < |models| ==> PlanModel(models[j], split, binary).None?
    decreases |models|
  {
    if models != [] && PlanModel(models[0], split, binary).None? {
      NothingPlannedIffAllSkipped(models[1..], split, binary);
      if Planned(models, split, binary) == [] {
        forall j | 0 <= j < |models|
          ensures PlanModel(models[j], split, binary).None?
        {
          if j > 0 {
            assert models[j] == models[1..][j - 1];
          }
        }
      } else {
        var j :| 0 <= j < |models[1..]| && PlanModel(models[1..][j], split, binary).Some?;
        assert PlanModel(models[j + 1], split, binary).Some?;
      }
    }
  }

  /** The pass runs the planned commands in order and stops only after one
      whose program is missing: what it runs is a prefix of the plan, all
      of it unless some command came back as not installed, and only the
      last command run can have come back so. */
  lemma {:induction false} AttemptsFollowPlan(models: seq<ModelEntry>, split: string -> seq<string>, binary: string,
                                              result: seq<string> -> RunResult)
    ensures (var a, p := Attempts(models, split, binary, result), Planned(models, split, binary);
      a <= p
      && (forall k :: 0 <= k < |a| - 1 ==> result(a[k]) != NotInstalled)
      && (a == p || (a != [] && result(a[|a| - 1]) == NotInstalled)))
    decreases |models|
  {
    if models != [] {
      AttemptsFollowPlan(models[1..], split, binary, result);
      var a := Attempts(models, split, binary, result);
      var rest := Attempts(models[1..], split, binary, result);
      match PlanModel(models[0], split, binary)
      case None =>
      case Some(c) =>
        if result(c) != NotInstalled {
          assert a == [c] + rest;
          forall k | 0 <= k < |a| - 1
            ensures result(a[k]) != NotInstalled
          {
            if k > 0 {
              assert a[k] == rest[k - 1];
            }
          }
        }
    }
  }

  /** When every program is found, every planned command is run. */
  lemma AllRunWhenInstalled(models: seq<ModelEntry>, split: string -> seq<string>, binary: string,
                            result: seq<string> -> RunResult)
    requires forall c {:trigger result(c)} :: result(c) != NotInstalled
    ensures Attempts(models, split, binary, result) == Planned(models, split, binary)
  {
    AttemptsFollowPlan(models, split, binary, result);
    var a := Attempts(models, split, binary, result);
    if a != [] {
      assert result(a[|a| - 1]) != NotInstalled;
    }
  }

  // ---------------------------------------------------------------
  // The configuration block inside `ai.nix` (download_models.py)

  /** The attribute the block is the text of. */
  const BlockKey := "environment.etc.\"llama-swap/config.yaml\".text"
  const BlockOpen := "''"
  const BlockClose := "'';"

  /** `environment\.etc\."llama-swap/config\.yaml"\.text\s*=\s*''(.*?)'';`
      with `.` matching line feeds, tried at the front of `w`: the span of
      the block's text, which ends at the first `'';` after the opening
      quotes. */
  function BlockAtFront(w: string): (r: Option<Span>)
    ensures r.Some? ==> StartsWith(w, BlockKey) && r.value.start <= r.value.end
    ensures r.Some? ==> OccursAt(w, BlockOpen, r.value.start - 2) && OccursAt(w, BlockClose, r.value.end)
    ensures r.Some? ==> forall j :: r.value.start <= j < r.value.end ==> !OccursAt(w, BlockClose, j)
  {
    if !StartsWith(w, BlockKey) then None
    else
      var a := HashFields.SpaceEnd(w, |BlockKey|);
      if a < |w| && w[a] == '=' then
        var b := HashFields.SpaceEnd(w, a + 1);
        if OccursAt(w, BlockOpen, b) then
          match FindFrom(w, BlockClose, b + 2)
          case None => None
          case Some(e) => Some(Span(b + 2, e))
        else None
      else None
  }

  function BlockMatcher(): (m: Matcher)
    ensures Bounded(m)
  {
    w => BlockAtFront(w)
  }

  /** `match.group(1)` of the search over the whole of `ai.nix`, or
      nothing when the block is not there. */
  function BlockText(content: string): (r: Option<string>)
    ensures r.None? <==> forall j :: 0 <= j <= |content| ==> BlockAtFront(content[j..]).None?
    ensures r.Some? ==> !Contains(r.value, BlockClose)
  {
    ScanNoneIffNoMatch(BlockMatcher(), content, 0);
    match Scan(BlockMatcher(), content, 0)
    case None => None
    case Some(sp) =>
      MatcherYieldsUnclosed();
      ScanYields(BlockMatcher(), v => Unclosed(v), content, 0);
      Some(content[sp.start..sp.end])
  }

  /** The block's text holds no closing `'';`: the lazy group stops at the
      first one. */
  predicate Unclosed(v: string) {
    !Contains(v, BlockClose)
  }

  lemma MatcherYieldsUnclosed()
    ensures Yields(BlockMatcher(), v => Unclosed(v))
  {
    forall w | BlockMatcher()(w).Some?
      ensures Unclosed(w[BlockMatcher()(w).value.start..BlockMatcher()(w).value.end])
    {
      BlockUnclosed(w);
    }
  }

  lemma BlockUnclosed(w: string)
    requires BlockAtFront(w).Some?
    ensures Unclosed(w[BlockAtFront(w).value.start..BlockAtFront(w).value.end])
  {
    var v := BlockAtFront(w).value;
    UnclosedBetween(w, v.start, v.end);
  }

  lemma UnclosedBetween(w: string, a: nat, b: nat)
    requires a <= b <= |w|
    requires forall j :: a <= j < b ==> !OccursAt(w, BlockClose, j)
    ensures Unclosed(w[a..b])
  {
    var text := w[a..b];
    forall j | 0 <= j <= |text| - |BlockClose|
      ensures !OccursAt(text, BlockClose, j)
    {
      assert !OccursAt(w, BlockClose, a + j);
      var x, y := text[j..j + |BlockClose|], w[a + j..a + j + |BlockClose|];
      forall k | 0 <= k < |x|
        ensures x[k] == y[k]
      {
      }
      assert x == y;
    }
  }

  const LlamaCppRef := "${pkgs.llama-cpp}"
  const PortRef := "${PORT}"

  /** The two Nix interpolations replaced by plain text the YAML parser
      accepts. */
  function Sanitize(y: string): string {
    ReplaceAll(ReplaceAll(y, LlamaCppRef, "pkgs.llama-cpp"), PortRef, "8080")
  }

  /** `extract_yaml_from_nix`: the block's text, sanitised; nothing when the
      block is missing, on which the script exits with status 1. */
  function ExtractYaml(content: string): (r: Option<string>)
    ensures r.None? <==> BlockText(content).None?
    ensures r.Some? ==> !Contains(r.value, PortRef)
  {
    match BlockText(content)
    case None => None
    case Some(y) =>
      SanitizeRemovesPort(y);
      Some(Sanitize(y))
  }

  /** No `${PORT}` is left: its replacement has none of its characters, so
      no new one can form around it. */
  lemma SanitizeRemovesPort(y: string)
    ensures !Contains(Sanitize(y), PortRef)
  {
    forall k | 0 <= k < |"8080"|
      ensures "8080"[k] !in PortRef
    {
    }
    ReplaceAllRemoves(ReplaceAll(y, LlamaCppRef, "pkgs.llama-cpp"), PortRef, "8080");
  }

  /** Text without a `$` reaches the parser unchanged. */
  lemma SanitizeKeepsPlain(y: string)
    requires '$' !in y
    ensures Sanitize(y) == y
  {
    NoDollarNoRef(y, LlamaCppRef);
    ReplaceAllNoMatch(y, LlamaCppRef, "pkgs.llama-cpp");
    NoDollarNoRef(y, PortRef);
    ReplaceAllNoMatch(y, PortRef, "8080");
  }

  lemma NoDollarNoRef(y: string, ref: string)
    requires '$' !in y && |ref| > 0 && ref[0] == '$'
    ensures !Contains(y, ref)
  {
    forall i | 0 <= i <= |y| - |ref|
      ensures !OccursAt(y, ref, i)
    {
      assert y[i] != '$';
      assert y[i..i + |ref|][0] == y[i];
    }
  }

  /** Replacing every occurrence by text that shares no character with the
      pattern leaves no occurrence behind. */
  lemma {:induction false} ReplaceAllRemoves(s: string, pat: string, rep: string)
    requires |pat| > 0 && |rep| > 0
    requires forall k :: 0 <= k < |rep| ==> rep[k] !in pat
    ensures !Contains(ReplaceAll(s, pat, rep), pat)
    decreases |s|
  {
    if Contains(s, pat) {
      var i := FindFrom(s, pat, 0).value;
      ReplaceAllAt(s, pat, rep, i);
      var tail := s[i + |pat|..];
      ReplaceAllRemoves(tail, pat, rep);
      forall j | 0 <= j <= |s[..i]| - |pat|
        ensures !OccursAt(s[..i], pat, j)
      {
        assert !OccursAt(s, pat, j);
        assert s[..i][j..j + |pat|] == s[j..j + |pat|];
      }
      Around(s[..i], rep, ReplaceAll(tail, pat, rep), pat);
    } else {
      ReplaceAllNoMatch(s, pat, rep);
    }
  }

  /** No occurrence straddles a piece with none of the pattern's characters. */
  lemma Around(a: string, rep: string, b: string, pat: string)
    requires |pat| > 0 && |rep| > 0
    requires forall k :: 0 <= k < |rep| ==> rep[k] !in pat
    requires !Contains(a, pat) && !Contains(b, pat)
    ensures !Contains(a + rep + b, pat)
  {
    var t := a + rep + b;
    forall j | 0 <= j <= |t| - |pat|
      ensures !OccursAt(t, pat, j)
    {
      if j + |pat| <= |a| {
        SliceLeft(a, rep + b, j, |pat|);
        assert !OccursAt(a, pat, j);
      } else if j >= |a| + |rep| {
        var j' := j - |a| - |rep|;
        SliceRight(a + rep, b, j, |pat|);
        assert !OccursAt(b, pat, j');
      } else {
        var k := if j >= |a| then j else |a|;
        assert t[k] == rep[k - |a|];
        assert t[j..j + |pat|][k - j] == t[k];
      }
    }
  }

  lemma SliceLeft(x: string, y: string, j: nat, n: nat)
    requires j + n <= |x|
    ensures (x + y)[j..j + n] == x[j..j + n]
  {
    var u, v := (x + y)[j..j + n], x[j..j + n];
    forall k | 0 <= k < n
      ensures u[k] == v[k]
    {
    }
  }

  lemma SliceRight(x: string, y: string, j: nat, n: nat)
    requires |x| <= j && j + n <= |x| + |y|
    ensures (x + y)[j..j + n] == y[j - |x|..j - |x| + n]
  {
    var u, v := (x + y)[j..j + n], y[j - |x|..j - |x| + n];
    forall k | 0 <= k < n
      ensures u[k] == v[k]
    {
    }
  }

  /** The text `main` hands to the YAML parser: `/etc/llama-swap/config.yaml`
      when it exists, else the block of `ai.nix` when that file exists;
      nothing (exit status 1) when neither exists or the block is missing.
      `ai/download-models.py` reads only the first and exits without it. */
  function ConfigText(configYaml: Option<string>, aiNix: Option<string>): (r: Option<string>)
    ensures configYaml.Some? ==> r == configYaml
    ensures configYaml.None? ==> (r.Some? <==> aiNix.Some? && BlockText(aiNix.value).Some?)
    ensures configYaml.None? && aiNix.Some? ==> r == ExtractYaml(aiNix.value)
  {
    if configYaml.Some? then configYaml
    else if aiNix.Some? then ExtractYaml(aiNix.value)
    else None
  }
}
